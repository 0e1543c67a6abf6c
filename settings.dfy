// settings.py: the lookups of the latest forecast folder and of the forecasts
// the web application shows, and the URLs built from them.  The folder
// listing is a parameter (os.listdir with the glob results per directory),
// and so is the current UTC time (datetime.now(pytz.utc)).

module Settings {
  import opened Text
  import opened Listing

  /** os.path.join(folder, name) for a directory-entry name (never absolute). */
  function PathJoin(folder: string, name: string): (p: string)
    ensures StartsWith(p, folder) && EndsWith(p, name)
    ensures |p| == |folder| + |name| || (|p| == |folder| + 1 + |name| && p[|folder|] == '/')
  {
    if folder == [] || EndsWith(folder, "/") then folder + name else folder + "/" + name
  }

  // ---- get_latest_gfs_folder ----

  /** In a listing sorted in descending order, a target that no earlier entry beats is
      the greatest target name of the whole listing. */
  lemma FirstTargetIsGreatest(listing: seq<Entry>, i: nat)
    requires i < |Sorted(listing)| && IsTarget(Sorted(listing)[i])
    requires forall j :: 0 <= j < i ==> !IsTarget(Sorted(listing)[j])
    ensures forall e :: e in listing && IsTarget(e) ==> LexLe(e.name, Sorted(listing)[i].name)
  {
    var s := Sorted(listing);
    SortDescendingCorrect(listing, EntryName);
    forall e | e in listing && IsTarget(e)
      ensures LexLe(e.name, s[i].name)
    {
      assert e in multiset(s);
      var k :| 0 <= k < |s| && s[k] == e;
      if k == i {
        LexLeRefl(e.name);
      } else {
        assert LexLe(EntryName(s[k]), EntryName(s[i]));
      }
    }
  }

  /** get_latest_gfs_folder(): (path, slug) of the first target in descending order,
      or None when the folder holds none. */
  method GetLatestGfsFolder(gfsFolder: string, listing: seq<Entry>) returns (r: Option<(string, string)>)
    ensures r.None? <==> forall e :: e in listing ==> !IsTarget(e)
    ensures r.Some? ==> r.value.0 == PathJoin(gfsFolder, r.value.1)
    ensures r.Some? ==> exists e :: e in listing && IsTarget(e) && e.name == r.value.1
    ensures r.Some? ==> forall e :: e in listing && IsTarget(e) ==> LexLe(e.name, r.value.1)
  {
    var sorted := Sorted(listing);
    SortedMembers(listing);
    for i := 0 to |sorted|
      invariant forall j :: 0 <= j < i ==> !IsTarget(sorted[j])
    {
      var slug := sorted[i].name;
      var path := PathJoin(gfsFolder, slug);
      if TenDigitPrefix(slug) && sorted[i].isDir && sorted[i].hasGrib {
        FirstTargetIsGreatest(listing, i);
        assert sorted[i] in sorted;
        return Some((path, slug));
      }
    }
    forall e | e in listing
      ensures !IsTarget(e)
    {
      assert e in sorted;
    }
    return None;
  }

  // ---- datetime.strptime(slug, "%Y%m%d%H") ----

  /** A date and hour, as strptime builds it; minutes and seconds are zero. */
  datatype DateHour = DateHour(year: int, month: int, day: int, hour: int)

  predicate IsLeap(y: int) {
    y % 4 == 0 && (y % 100 != 0 || y % 400 == 0)
  }

  function DaysInMonth(y: int, m: int): int
    requires 1 <= m <= 12
  {
    if m == 2 then (if IsLeap(y) then 29 else 28)
    else if m == 4 || m == 6 || m == 9 || m == 11 then 30
    else 31
  }

  /** The dates datetime accepts. */
  predicate ValidDate(d: DateHour) {
    1 <= d.year <= 9999 && 1 <= d.month <= 12 && 1 <= d.day <= DaysInMonth(d.year, d.month) &&
    0 <= d.hour <= 23
  }

  /** strptime(s, "%Y%m%d%H") on a name: the fields are read with fixed widths 4, 2, 2
      and 2, since ten digits leave no room for a shorter field, and the whole string
      must be consumed; None stands for the ValueError raised otherwise. */
  function ParseSlugDate(s: string): (r: Option<DateHour>)
    ensures r.Some? ==> ValidDate(r.value) && |s| == 10 && AllDigits(s)
  {
    if |s| == 10 && AllDigits(s) then
      var d := DateHour(DigitsToNat(s[..4]), DigitsToNat(s[4..6]), DigitsToNat(s[6..8]), DigitsToNat(s[8..]));
      if ValidDate(d) then Some(d) else None
    else None
  }

  /** d.strftime("%Y%m%d%H"), the name fetch.py gives a forecast folder (the year
      rendered in four digits). */
  function SlugOf(d: DateHour): (s: string)
    requires ValidDate(d)
    ensures |s| == 10 && AllDigits(s)
  {
    PaddedDigits(d.year, 4) + PaddedDigits(d.month, 2) + PaddedDigits(d.day, 2) + PaddedDigits(d.hour, 2)
  }

  /** Parsing the name of a date gives the date back. */
  lemma ParseSlugOf(d: DateHour)
    requires ValidDate(d)
    ensures ParseSlugDate(SlugOf(d)) == Some(d)
  {
    var s := SlugOf(d);
    assert s[..4] == PaddedDigits(d.year, 4);
    assert s[4..6] == PaddedDigits(d.month, 2);
    assert s[6..8] == PaddedDigits(d.day, 2);
    assert s[8..] == PaddedDigits(d.hour, 2);
    PaddedDigitsRoundTrip(d.year, 4);
    PaddedDigitsRoundTrip(d.month, 2);
    PaddedDigitsRoundTrip(d.day, 2);
    PaddedDigitsRoundTrip(d.hour, 2);
  }

  /** A name that parses is the name of its date: at most one name stands for a date. */
  lemma SlugOfParse(s: string)
    requires ParseSlugDate(s).Some?
    ensures SlugOf(ParseSlugDate(s).value) == s
  {
    var d := ParseSlugDate(s).value;
    assert d == DateHour(DigitsToNat(s[..4]), DigitsToNat(s[4..6]), DigitsToNat(s[6..8]), DigitsToNat(s[8..]));
    PaddedDigitsOfValue(s[..4]);
    PaddedDigitsOfValue(s[4..6]);
    PaddedDigitsOfValue(s[6..8]);
    PaddedDigitsOfValue(s[8..]);
    assert SlugOf(d) == s[..4] + s[4..6] + s[6..8] + s[8..];
    assert s[..4] + s[4..6] == s[..6];
    assert s[..6] + s[6..8] == s[..8];
    assert s[..8] + s[8..] == s;
  }

  // ---- comparing dates ----

  /** Python's a < b on the (year, month, day, hour) fields. */
  predicate DateLess(a: DateHour, b: DateHour) {
    a.year < b.year ||
    (a.year == b.year && (a.month < b.month ||
    (a.month == b.month && (a.day < b.day ||
    (a.day == b.day && a.hour < b.hour)))))
  }

  /** datetime.now(pytz.utc): a date and hour plus the minutes, seconds and microseconds. */
  datatype Moment = Moment(date: DateHour, minute: int, second: int, microsecond: int)

  /** slug_date > now for a slug date (whose minutes, seconds and microseconds are zero):
      the later hour wins; within the same hour now is never earlier. */
  predicate After(d: DateHour, now: Moment)
    requires 0 <= now.minute && 0 <= now.second && 0 <= now.microsecond
  {
    DateLess(now.date, d)
  }

  /** The number a ten-digit slug spells: YYYYMMDDHH. */
  function HourKey(d: DateHour): int {
    ((d.year * 100 + d.month) * 100 + d.day) * 100 + d.hour
  }

  lemma PlaceValue(A: int, a: int, B: int, b: int)
    requires 0 <= a < 100 && 0 <= b < 100
    ensures A * 100 + a < B * 100 + b <==> A < B || (A == B && a < b)
  {
    if A < B {
      assert (B - A) * 100 >= 100;
      assert B * 100 - A * 100 == (B - A) * 100;
    } else if A > B {
      assert (A - B) * 100 >= 100;
      assert A * 100 - B * 100 == (A - B) * 100;
    }
  }

  /** On valid dates the field order is the order of the numbers the slugs spell. */
  lemma DateLessIsKeyLess(a: DateHour, b: DateHour)
    requires ValidDate(a) && ValidDate(b)
    ensures DateLess(a, b) <==> HourKey(a) < HourKey(b)
  {
    PlaceValue(a.year, a.month, b.year, b.month);
    PlaceValue(a.year * 100 + a.month, a.day, b.year * 100 + b.month, b.day);
    PlaceValue((a.year * 100 + a.month) * 100 + a.day, a.hour,
               (b.year * 100 + b.month) * 100 + b.day, b.hour);
    if a.year * 100 + a.month == b.year * 100 + b.month {
      PlaceValue(a.year, a.month, b.year, b.month);
      assert !(a.year < b.year) && !(b.year < a.year);
    }
    if (a.year * 100 + a.month) * 100 + a.day == (b.year * 100 + b.month) * 100 + b.day {
      PlaceValue(a.year * 100 + a.month, a.day, b.year * 100 + b.month, b.day);
      PlaceValue(b.year * 100 + b.month, b.day, a.year * 100 + a.month, a.day);
      PlaceValue(a.year, a.month, b.year, b.month);
      PlaceValue(b.year, b.month, a.year, a.month);
    }
  }

  /** The digits of a slug spell the number HourKey of its date. */
  lemma SlugValueIsHourKey(s: string)
    requires ParseSlugDate(s).Some?
    ensures DigitsToNat(s) == HourKey(ParseSlugDate(s).value)
  {
    var d := ParseSlugDate(s).value;
    var y, m, dd, h := s[..4], s[4..6], s[6..8], s[8..];
    assert s == ((y + m) + dd) + h;
    DigitsToNatAppend(y, m);
    DigitsToNatAppend(y + m, dd);
    DigitsToNatAppend((y + m) + dd, h);
    assert Pow10(2) == 100;
  }

  /** A digit string read from the front: the first digit is worth 10^(n-1). */
  lemma DigitsToNatFront(a: string)
    requires AllDigits(a) && a != []
    ensures DigitsToNat(a) == DigitValue(a[0]) * Pow10(|a| - 1) + DigitsToNat(a[1..])
  {
    var head, tail := [a[0]], a[1..];
    assert a == head + tail;
    DigitsToNatAppend(head, tail);
    assert head[..0] == [];
    assert DigitsToNat(head) == DigitValue(a[0]);
    assert Pow10(|tail|) == Pow10(|a| - 1);
  }

  /** A smaller leading digit outweighs whatever follows it. */
  lemma LeadingDigitDecides(x: int, y: int, p: int, ra: int, rb: int)
    requires x < y && 0 <= ra < p && 0 <= rb
    ensures x * p + ra < y * p + rb
  {
    var k := y - x - 1;
    assert k >= 0 && p > 0;
    assert k * p >= 0;
    assert y * p == x * p + p + k * p by {
      assert y == x + 1 + k;
    }
  }

  /** For digit strings of one length, string order is numeric order. */
  lemma {:induction false} LexLeDigits(a: string, b: string)
    requires AllDigits(a) && AllDigits(b) && |a| == |b|
    ensures LexLe(a, b) <==> DigitsToNat(a) <= DigitsToNat(b)
    decreases |a|
  {
    if a != [] {
      var p := Pow10(|a| - 1);
      var x, y := DigitValue(a[0]), DigitValue(b[0]);
      DigitsToNatFront(a);
      DigitsToNatFront(b);
      DigitsToNatBound(a[1..]);
      DigitsToNatBound(b[1..]);
      if x < y {
        LeadingDigitDecides(x, y, p, DigitsToNat(a[1..]), DigitsToNat(b[1..]));
      } else if y < x {
        LeadingDigitDecides(y, x, p, DigitsToNat(b[1..]), DigitsToNat(a[1..]));
      } else {
        LexLeDigits(a[1..], b[1..]);
      }
    }
  }

  /** For ten-digit slugs, descending name order is descending date order. */
  lemma SlugOrderIsDateOrder(s: string, t: string)
    requires ParseSlugDate(s).Some? && ParseSlugDate(t).Some?
    ensures LexLe(s, t) <==> !DateLess(ParseSlugDate(t).value, ParseSlugDate(s).value)
  {
    LexLeDigits(s, t);
    SlugValueIsHourKey(s);
    SlugValueIsHourKey(t);
    DateLessIsKeyLess(ParseSlugDate(t).value, ParseSlugDate(s).value);
  }

  // ---- get_forecast_info ----

  /** One element of forecast_info: the slug, its date and whether it lies ahead. */
  datatype Forecast = Forecast(slug: string, date: DateHour, future: bool)

  function Prepend(f: Forecast, r: Result<seq<Forecast>>): Result<seq<Forecast>> {
    if r.Ok? then Ok([f] + r.value) else r
  }

  /** The list get_forecast_info builds from the sorted listing: each target in turn,
      future ones appended and the scan going on, the first non-future one appended and
      the scan ending; a target whose name strptime rejects raises ValueError. */
  function ForecastInfo(s: seq<Entry>, now: Moment): (r: Result<seq<Forecast>>)
    requires 0 <= now.minute && 0 <= now.second && 0 <= now.microsecond
    ensures r.Ok? ==> |r.value| <= |s|
  {
    if s == [] then Ok([])
    else if !IsTarget(s[0]) then ForecastInfo(s[1..], now)
    else match ParseSlugDate(s[0].name)
      case None => Failure("ValueError")
      case Some(d) =>
        if After(d, now) then Prepend(Forecast(s[0].name, d, true), ForecastInfo(s[1..], now))
        else Ok([Forecast(s[0].name, d, false)])
  }

  function Then(acc: seq<Forecast>, r: Result<seq<Forecast>>): Result<seq<Forecast>> {
    if r.Ok? then Ok(acc + r.value) else r
  }

  /** get_forecast_info() */
  method GetForecastInfo(listing: seq<Entry>, now: Moment) returns (r: Result<seq<Forecast>>)
    requires 0 <= now.minute && 0 <= now.second && 0 <= now.microsecond
    ensures r == ForecastInfo(Sorted(listing), now)
  {
    var sorted := Sorted(listing);
    var info: seq<Forecast> := [];
    assert sorted[0..] == sorted;
    if ForecastInfo(sorted, now).Ok? {
      assert info + ForecastInfo(sorted, now).value == ForecastInfo(sorted, now).value;
    }
    var i := 0;
    while i < |sorted|
      invariant i <= |sorted|
      invariant ForecastInfo(sorted, now) == Then(info, ForecastInfo(sorted[i..], now))
    {
      var rest := sorted[i..];
      assert rest[0] == sorted[i] && rest[1..] == sorted[i + 1..];
      var slug := sorted[i].name;
      if TenDigitPrefix(slug) && sorted[i].isDir && sorted[i].hasGrib {
        var date := ParseSlugDate(slug);
        if date.None? {
          assert ForecastInfo(rest, now) == Failure("ValueError");
          return Failure("ValueError");
        }
        var f := Forecast(slug, date.value, After(date.value, now));
        if f.future {
          assert ForecastInfo(rest, now) == Prepend(f, ForecastInfo(sorted[i + 1..], now));
          if ForecastInfo(sorted[i + 1..], now).Ok? {
            assert (info + [f]) + ForecastInfo(sorted[i + 1..], now).value ==
                   info + ([f] + ForecastInfo(sorted[i + 1..], now).value);
          }
          info := info + [f];
        } else {
          assert ForecastInfo(rest, now) == Ok([f]);
          info := info + [f];
          return Ok(info);
        }
      } else {
        assert ForecastInfo(rest, now) == ForecastInfo(sorted[i + 1..], now);
      }
      i := i + 1;
    }
    assert sorted[i..] == [] && info + [] == info;
    return Ok(info);
  }

  /** Every forecast carries the date its name parses to and is marked future exactly
      when that date lies after now; all but the last are in the future, so at most one
      is not. */
  lemma {:induction false} ForecastInfoShape(s: seq<Entry>, now: Moment)
    requires 0 <= now.minute && 0 <= now.second && 0 <= now.microsecond
    requires ForecastInfo(s, now).Ok?
    ensures var t := ForecastInfo(s, now).value;
      && (forall k :: 0 <= k < |t| ==> ParseSlugDate(t[k].slug) == Some(t[k].date))
      && (forall k :: 0 <= k < |t| ==> (t[k].future <==> After(t[k].date, now)))
      && (forall k :: 0 <= k < |t| - 1 ==> t[k].future)
  {
    if s != [] {
      if !IsTarget(s[0]) {
        ForecastInfoShape(s[1..], now);
      } else if After(ParseSlugDate(s[0].name).value, now) {
        ForecastInfoShape(s[1..], now);
        var t := ForecastInfo(s, now).value;
        var rest := ForecastInfo(s[1..], now).value;
        assert t == [t[0]] + rest;
      }
    }
  }

  /** Every forecast's slug is the name of a target of the listing, so an upper bound of
      the listing's names bounds the slugs. */
  lemma {:induction false} ForecastInfoBounded(s: seq<Entry>, now: Moment, u: string)
    requires 0 <= now.minute && 0 <= now.second && 0 <= now.microsecond
    requires ForecastInfo(s, now).Ok?
    requires forall i :: 0 <= i < |s| ==> LexLe(s[i].name, u)
    ensures forall k :: 0 <= k < |ForecastInfo(s, now).value| ==> LexLe(ForecastInfo(s, now).value[k].slug, u)
  {
    if s != [] {
      assert forall i :: 0 <= i < |s[1..]| ==> LexLe(s[1..][i].name, u) by {
        forall i | 0 <= i < |s[1..]|
          ensures LexLe(s[1..][i].name, u)
        {
          assert s[1..][i] == s[i + 1];
        }
      }
      if !IsTarget(s[0]) {
        ForecastInfoBounded(s[1..], now, u);
      } else if After(ParseSlugDate(s[0].name).value, now) {
        ForecastInfoBounded(s[1..], now, u);
        var t := ForecastInfo(s, now).value;
        var rest := ForecastInfo(s[1..], now).value;
        assert t == [t[0]] + rest;
        assert forall k :: 1 <= k < |t| ==> t[k] == rest[k - 1];
      }
    }
  }

  /** On the sorted listing the forecasts come in descending slug order, which for
      these ten-digit slugs is descending date order. */
  lemma {:induction false} ForecastInfoDescending(s: seq<Entry>, now: Moment)
    requires 0 <= now.minute && 0 <= now.second && 0 <= now.microsecond
    requires SortedDesc(s, EntryName) && ForecastInfo(s, now).Ok?
    ensures var t := ForecastInfo(s, now).value;
      forall i, j :: 0 <= i < j < |t| ==> LexLe(t[j].slug, t[i].slug) && !DateLess(t[i].date, t[j].date)
  {
    if s != [] {
      assert SortedDesc(s[1..], EntryName) by {
        forall i, j | 0 <= i < j < |s[1..]|
          ensures LexLe(EntryName(s[1..][j]), EntryName(s[1..][i]))
        {
          assert s[1..][j] == s[j + 1] && s[1..][i] == s[i + 1];
        }
      }
      if !IsTarget(s[0]) {
        ForecastInfoDescending(s[1..], now);
      } else if After(ParseSlugDate(s[0].name).value, now) {
        ForecastInfoDescending(s[1..], now);
        ForecastHeadIsLatest(s, now);
        var t := ForecastInfo(s, now).value;
        var rest := ForecastInfo(s[1..], now).value;
        assert t == [t[0]] + rest;
        forall i, j | 0 < i < j < |t|
          ensures LexLe(t[j].slug, t[i].slug) && !DateLess(t[i].date, t[j].date)
        {
          assert t[i] == rest[i - 1] && t[j] == rest[j - 1];
        }
      }
    }
  }

  /** The forecast of a sorted listing's first target has the greatest slug and date. */
  lemma ForecastHeadIsLatest(s: seq<Entry>, now: Moment)
    requires 0 <= now.minute && 0 <= now.second && 0 <= now.microsecond
    requires SortedDesc(s, EntryName) && ForecastInfo(s, now).Ok?
    requires s != [] && IsTarget(s[0]) && After(ParseSlugDate(s[0].name).value, now)
    ensures var t := ForecastInfo(s, now).value;
      forall j :: 0 < j < |t| ==> LexLe(t[j].slug, t[0].slug) && !DateLess(t[0].date, t[j].date)
  {
    ForecastInfoShape(s, now);
    assert forall i :: 0 <= i < |s[1..]| ==> LexLe(s[1..][i].name, s[0].name) by {
      forall i | 0 <= i < |s[1..]|
        ensures LexLe(s[1..][i].name, s[0].name)
      {
        assert LexLe(EntryName(s[i + 1]), EntryName(s[0]));
      }
    }
    ForecastInfoBounded(s[1..], now, s[0].name);
    var t := ForecastInfo(s, now).value;
    var rest := ForecastInfo(s[1..], now).value;
    assert t == [t[0]] + rest;
    forall j | 0 < j < |t|
      ensures LexLe(t[j].slug, t[0].slug) && !DateLess(t[0].date, t[j].date)
    {
      assert t[j] == rest[j - 1];
      SlugOrderIsDateOrder(t[j].slug, t[0].slug);
    }
  }

  // ---- the URL builders ----

  /** "/static/gfs/" + slug + "/" + slug + suffix for the last forecast of
      get_forecast_info(); indexing the empty list raises IndexError. */
  function LatestUrl(listing: seq<Entry>, now: Moment, suffix: string): (r: Result<string>)
    requires 0 <= now.minute && 0 <= now.second && 0 <= now.microsecond
    ensures r.Ok? ==> StartsWith(r.value, "/static/gfs/") && EndsWith(r.value, suffix)
  {
    match ForecastInfo(Sorted(listing), now)
    case Failure(e) => Failure(e)
    case Ok(t) =>
      if t == [] then Failure("IndexError")
      else
        var slug := t[|t| - 1].slug;
        Ok("/static/gfs/" + slug + "/" + slug + suffix)
  }

  /** get_latest_rainbows_url() */
  function LatestRainbowsUrl(listing: seq<Entry>, now: Moment): (r: Result<string>)
    requires 0 <= now.minute && 0 <= now.second && 0 <= now.microsecond
    ensures r.Ok? ==> EndsWith(r.value, ".rainbows.json")
  {
    LatestUrl(listing, now, ".rainbows.json")
  }

  /** get_latest_clouds_url() */
  function LatestCloudsUrl(listing: seq<Entry>, now: Moment): (r: Result<string>)
    requires 0 <= now.minute && 0 <= now.second && 0 <= now.microsecond
    ensures r.Ok? ==> EndsWith(r.value, ".clouds.json")
  {
    LatestUrl(listing, now, ".clouds.json")
  }

  /** get_latest_rainbow_cities_url() */
  function LatestRainbowCitiesUrl(listing: seq<Entry>, now: Moment): (r: Result<string>)
    requires 0 <= now.minute && 0 <= now.second && 0 <= now.microsecond
    ensures r.Ok? ==> EndsWith(r.value, ".rainbow_cities.json")
  {
    LatestUrl(listing, now, ".rainbow_cities.json")
  }

  /** The URL exists exactly when the forecast list could be built and is not empty. */
  lemma LatestUrlDefined(listing: seq<Entry>, now: Moment, suffix: string)
    requires 0 <= now.minute && 0 <= now.second && 0 <= now.microsecond
    ensures LatestUrl(listing, now, suffix).Ok? <==>
              ForecastInfo(Sorted(listing), now).Ok? && ForecastInfo(Sorted(listing), now).value != []
  {
  }

  /** The URL names, twice, the oldest forecast listed: the earliest slug and date of the
      list, and the only one that may lie in the past. */
  lemma LatestUrlNamesCurrentForecast(listing: seq<Entry>, now: Moment, suffix: string)
    requires 0 <= now.minute && 0 <= now.second && 0 <= now.microsecond
    requires LatestUrl(listing, now, suffix).Ok?
    ensures ForecastInfo(Sorted(listing), now).Ok? && ForecastInfo(Sorted(listing), now).value != []
    ensures var t := ForecastInfo(Sorted(listing), now).value;
      var f := t[|t| - 1];
      && LatestUrl(listing, now, suffix).value == "/static/gfs/" + f.slug + "/" + f.slug + suffix
      && (forall k :: 0 <= k < |t| ==> LexLe(f.slug, t[k].slug) && !DateLess(t[k].date, f.date))
      && (forall k :: 0 <= k < |t| - 1 ==> t[k].future)
  {
    var s := Sorted(listing);
    var t := ForecastInfo(s, now).value;
    SortDescendingCorrect(listing, EntryName);
    ForecastInfoShape(s, now);
    ForecastInfoDescending(s, now);
    var f := t[|t| - 1];
    forall k | 0 <= k < |t|
      ensures LexLe(f.slug, t[k].slug) && !DateLess(t[k].date, f.date)
    {
      if k == |t| - 1 {
        LexLeRefl(f.slug);
      }
    }
  }

  /** get_latest_elektro_l_url(): the greatest name of the Elektro-L folder, or None
      when the folder is empty. */
  function LatestElektroUrl(names: seq<string>): (r: Option<string>)
    ensures r.None? <==> names == []
    ensures r.Some? ==> StartsWith(r.value, "/static/elektro/")
  {
    var sorted := SortDescending(names, (n: string) => n);
    if sorted == [] then None else Some("/static/elektro/" + sorted[0])
  }

  lemma LatestElektroUrlIsGreatest(names: seq<string>)
    ensures LatestElektroUrl(names).None? <==> names == []
    ensures LatestElektroUrl(names).Some? ==>
      exists n :: n in names && LatestElektroUrl(names).value == "/static/elektro/" + n &&
                  forall m :: m in names ==> LexLe(m, n)
  {
    var key := (n: string) => n;
    var sorted := SortDescending(names, key);
    SortDescendingCorrect(names, key);
    if sorted != [] {
      var n := sorted[0];
      assert n in multiset(names);
      forall m | m in names
        ensures LexLe(m, n)
      {
        assert m in multiset(sorted);
        var k :| 0 <= k < |sorted| && sorted[k] == m;
        if k == 0 {
          LexLeRefl(n);
        } else {
          assert LexLe(key(sorted[k]), key(sorted[0]));
        }
      }
    }
  }
}
