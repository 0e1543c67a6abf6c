// cities.py: the cities under a predicted rainbow.  find_rainbow_cities
// looks every city of data/cities.json up in the slug's final mask (a black
// pixel is a rainbow), sends two pushes per matched city (English, then
// Russian) and one debug push naming them all, and writes the matched list
// as <slug>.rainbow_cities.json.  The pushes are returned as a list of
// (channels, message) pairs instead of being posted; city ids come from an
// uninterpreted function (utils.city_id).

module Cities {
  import opened Text
  import opened Raster
  import opened Listing
  import Geo
  import DbCities

  /** An element of data/cities.json. */
  datatype City = City(lat: real, lon: real, nameEn: string, nameRu: string, nearby: seq<City>)

  /** One call of _push(message, channels). */
  datatype Push = Push(channels: seq<string>, message: string)

  // ---- send_push ----

  /** The message templates of send_push, in the order the model visits them. */
  const Messages: seq<(string, string)> := [
    ("en", "High chance on rainbows near {}"),
    ("ru", "Высокая вероятность на радугу в районе {}")
  ]

  /** template.format(arg) for a template whose only field "{}" ends it. */
  function Format(template: string, arg: string): (r: string)
    requires EndsWith(template, "{}")
    ensures |r| == |template| - 2 + |arg| && EndsWith(r, arg)
    ensures StartsWith(r, template[..|template| - 2])
  {
    template[..|template| - 2] + arg
  }

  /** city['name_' + lang] */
  function NameIn(c: City, lang: string): string {
    if lang == "en" then c.nameEn else c.nameRu
  }

  /** [city_id(city) + pf] + [city_id(n) + pf for n in city['nearby']] */
  function Channels(c: City, pf: string, cityId: City -> string): seq<string> {
    [cityId(c) + pf] + seq(|c.nearby|, i requires 0 <= i < |c.nearby| => cityId(c.nearby[i]) + pf)
  }

  /** The push send_push makes for one language. */
  function LanguagePush(c: City, lang: string, template: string, cityId: City -> string): Push
    requires EndsWith(template, "{}")
  {
    Push(Channels(c, "-" + lang, cityId), Format(template, NameIn(c, lang)))
  }

  /** Each language's push goes to the city's own channel and then to the channel of each
      city nearby, in order, all suffixed with "-" and the language, and names the city in
      that language. */
  lemma LanguagePushShape(c: City, lang: string, template: string, cityId: City -> string)
    requires EndsWith(template, "{}")
    ensures var p := LanguagePush(c, lang, template, cityId);
      && |p.channels| == 1 + |c.nearby|
      && p.channels[0] == cityId(c) + "-" + lang
      && (forall i :: 0 <= i < |c.nearby| ==> p.channels[i + 1] == cityId(c.nearby[i]) + "-" + lang)
      && p.message == template[..|template| - 2] + NameIn(c, lang)
  {
    var p := LanguagePush(c, lang, template, cityId);
    forall i | 0 <= i < |c.nearby|
      ensures p.channels[i + 1] == cityId(c.nearby[i]) + "-" + lang
    {
      assert cityId(c.nearby[i]) + ("-" + lang) == cityId(c.nearby[i]) + "-" + lang;
    }
    assert cityId(c) + ("-" + lang) == cityId(c) + "-" + lang;
  }

  /** send_push(city): one push per language, in the order of Messages. */
  method SendPush(city: City, cityId: City -> string) returns (pushes: seq<Push>)
    ensures |pushes| == |Messages|
    ensures forall k :: 0 <= k < |Messages| ==>
              pushes[k] == LanguagePush(city, Messages[k].0, Messages[k].1, cityId)
  {
    pushes := [];
    for k := 0 to |Messages|
      invariant |pushes| == k
      invariant forall j :: 0 <= j < k ==> pushes[j] == LanguagePush(city, Messages[j].0, Messages[j].1, cityId)
    {
      var (lang, message) := Messages[k];
      var pf := "-" + lang;
      var channels := [cityId(city) + pf] +
        seq(|city.nearby|, i requires 0 <= i < |city.nearby| => cityId(city.nearby[i]) + pf);
      pushes := pushes + [Push(channels, Format(message, NameIn(city, lang)))];
    }
  }

  /** The pushes send_push makes for one city. */
  function CityPushes(c: City, cityId: City -> string): seq<Push> {
    [LanguagePush(c, Messages[0].0, Messages[0].1, cityId), LanguagePush(c, Messages[1].0, Messages[1].1, cityId)]
  }

  lemma PushesOfCity(c: City, cityId: City -> string, p: seq<Push>)
    requires |p| == |Messages|
    requires forall k :: 0 <= k < |Messages| ==> p[k] == LanguagePush(c, Messages[k].0, Messages[k].1, cityId)
    ensures p == CityPushes(c, cityId)
  {
    assert p[0] == LanguagePush(c, Messages[0].0, Messages[0].1, cityId);
    assert p[1] == LanguagePush(c, Messages[1].0, Messages[1].1, cityId);
  }

  /** The pushes of send_push for each city in turn. */
  function AllPushes(cs: seq<City>, cityId: City -> string): (r: seq<Push>)
    ensures |r| == 2 * |cs|
  {
    if cs == [] then [] else AllPushes(cs[..|cs| - 1], cityId) + CityPushes(cs[|cs| - 1], cityId)
  }

  /** City k's English and Russian pushes are pushes 2k and 2k + 1. */
  lemma {:induction false} AllPushesAt(cs: seq<City>, cityId: City -> string, k: nat)
    requires k < |cs|
    ensures AllPushes(cs, cityId)[2 * k] == LanguagePush(cs[k], "en", Messages[0].1, cityId)
    ensures AllPushes(cs, cityId)[2 * k + 1] == LanguagePush(cs[k], "ru", Messages[1].1, cityId)
  {
    var init := cs[..|cs| - 1];
    if k < |cs| - 1 {
      AllPushesAt(init, cityId, k);
      assert init[k] == cs[k];
    }
  }

  /** u', '.join(city['name_en'] for city in rainbow_cities), pushed to "debug". */
  function DebugPush(cs: seq<City>): (p: Push)
    ensures p.channels == ["debug"] && StartsWith(p.message, "Rainbow cities: ")
  {
    Push(["debug"], "Rainbow cities: " + Join(seq(|cs|, i requires 0 <= i < |cs| => cs[i].nameEn), ", "))
  }

  // ---- looking cities up in the mask ----

  /** access[x, y] on a w x h image, as Pillow's PixelAccess indexes today: a negative index counts once from the far end, and
      an index still outside the image raises IndexError (None). */
  function PixelAt(img: Image, w: nat, h: nat, x: int, y: int): (r: Option<Pixel>)
    requires IsImage(img, w, h)
    ensures r.Some? <==> -(w as int) <= x < w && -(h as int) <= y < h
    ensures r.Some? && 0 <= x && 0 <= y ==> r.value == img[y][x]
  {
    var x' := if x < 0 then x + w else x;
    var y' := if y < 0 then y + h else y;
    if 0 <= x' < w && 0 <= y' < h then Some(img[y'][x']) else None
  }

  /** The pixel of a city: position_to_point((city['lon'], city['lat'])). */
  function CityPixel(c: City, img: Image, w: nat, h: nat): Option<Pixel>
    requires IsImage(img, w, h)
  {
    var p := Geo.PositionToPoint(Geo.Position(c.lon, c.lat));
    PixelAt(img, w, h, p.x, p.y)
  }

  /** The cities whose pixel is black, in list order; None when a city's pixel lies
      outside the image. */
  function Matches(cities: seq<City>, img: Image, w: nat, h: nat): (r: Option<seq<City>>)
    requires IsImage(img, w, h)
    ensures r.Some? ==> |r.value| <= |cities|
  {
    if cities == [] then Some([])
    else
      var rest := Matches(cities[..|cities| - 1], img, w, h);
      var c := cities[|cities| - 1];
      var v := CityPixel(c, img, w, h);
      if rest.None? || v.None? then None
      else Some(rest.value + (if v.value == 0 then [c] else []))
  }

  function Combine(a: Option<seq<City>>, b: Option<seq<City>>): Option<seq<City>> {
    if a.None? || b.None? then None else Some(a.value + b.value)
  }

  /** West of Greenwich the lookup does not read the cell of the wrapped projection that
      db_cities.py stores: int() truncates toward zero and the negative column then counts
      from the end, so unless the longitude is a whole half degree the pixel read is the
      one just east of the city's cell. */
  lemma WestCitiesReadEastNeighbour(c: City, img: Image)
    requires IsImage(img, Geo.GridWidth, Geo.GridHeight)
    requires -360.0 < c.lon < 0.0 && -90.0 <= c.lat <= 90.0
    ensures var q := DbCities.WrappedPoint(Geo.Position(c.lon, c.lat));
      var col := if (c.lon * 2.0).Floor as real == c.lon * 2.0 then q.x else (q.x + 1) % Geo.GridWidth;
      && 0 <= q.x < Geo.GridWidth && 0 <= q.y < Geo.GridHeight
      && CityPixel(c, img, Geo.GridWidth, Geo.GridHeight) == Some(img[q.y][col])
  {
    var q := DbCities.WrappedPoint(Geo.Position(c.lon, c.lat));
    DbCities.WrappedPointInGrid(Geo.Position(c.lon, c.lat));
    var f := (-(c.lon * 2.0)).Floor;
    assert Geo.PositionToPoint(Geo.Position(c.lon, c.lat)).x == -f;
    assert DbCities.Wrapped(c.lon) == c.lon + 360.0;
    assert q.x == ((c.lon + 360.0) * 2.0).Floor;
    if (c.lon * 2.0).Floor as real == c.lon * 2.0 {
      assert q.x == 720 - f;
    } else {
      assert q.x == 719 - f;
    }
  }

  /** The matches of a list are the matches of its two parts, in order: the matcher keeps
      the order of the city list. */
  lemma {:induction false} MatchesAppend(a: seq<City>, b: seq<City>, img: Image, w: nat, h: nat)
    requires IsImage(img, w, h)
    ensures Matches(a + b, img, w, h) == Combine(Matches(a, img, w, h), Matches(b, img, w, h))
  {
    if b == [] {
      assert a + b == a;
      var ma := Matches(a, img, w, h);
      if ma.Some? {
        assert ma.value + [] == ma.value;
      }
    } else {
      var b' := b[..|b| - 1];
      assert (a + b)[..|a + b| - 1] == a + b';
      assert (a + b)[|a + b| - 1] == b[|b| - 1];
      MatchesAppend(a, b', img, w, h);
      var ma, mb' := Matches(a, img, w, h), Matches(b', img, w, h);
      if ma.Some? && mb'.Some? {
        var v := CityPixel(b[|b| - 1], img, w, h);
        if v.Some? {
          var x := if v.value == 0 then [b[|b| - 1]] else [];
          assert (ma.value + mb'.value) + x == ma.value + (mb'.value + x);
        }
      }
    }
  }

  /** A single city is kept exactly when its pixel is black. */
  lemma MatchesSingle(c: City, img: Image, w: nat, h: nat)
    requires IsImage(img, w, h)
    ensures Matches([c], img, w, h) ==
      match CityPixel(c, img, w, h)
      case None => None
      case Some(v) => Some(if v == 0 then [c] else [])
  {
    assert [c][..0] == [];
    assert Matches([], img, w, h) == Some([]);
    assert forall x: seq<City> :: [] + x == x;
  }

  /** The lookup fails exactly when some city's pixel lies outside the image; otherwise it
      keeps exactly the cities whose pixel is black. */
  lemma {:induction false} MatchesMeaning(cities: seq<City>, img: Image, w: nat, h: nat)
    requires IsImage(img, w, h)
    ensures Matches(cities, img, w, h).None? <==> exists i :: 0 <= i < |cities| && CityPixel(cities[i], img, w, h).None?
    ensures Matches(cities, img, w, h).Some? ==>
      forall c :: c in Matches(cities, img, w, h).value <==> c in cities && CityPixel(c, img, w, h) == Some(0)
  {
    if cities != [] {
      var init := cities[..|cities| - 1];
      var c := cities[|cities| - 1];
      MatchesMeaning(init, img, w, h);
      assert cities == init + [c];
      if Matches(init, img, w, h).None? {
        var i :| 0 <= i < |init| && CityPixel(init[i], img, w, h).None?;
        assert cities[i] == init[i];
      } else if CityPixel(c, img, w, h).Some? {
        assert forall i :: 0 <= i < |cities| && CityPixel(cities[i], img, w, h).None? ==> i < |init| && init[i] == cities[i];
      }
    }
  }

  // ---- find_rainbow_cities ----

  datatype CitiesOutcome =
    | NoImage
      // Image.open raised IOError: return False, nothing pushed or written
    | PixelIndexError
      // a city's pixel lies outside the image: IndexError propagates
    | Written(json: seq<City>, pushes: seq<Push>)
      // <slug>.rainbow_cities.json written with json, after the pushes
    | SendPushRaised
      // messages.iteritems() raised AttributeError (Python 3): nothing pushed or written

  /** The loop of find_rainbow_cities over the city list: the black-pixel cities in
      order, or None at the first pixel outside the image. */
  method LookUpCities(cities: seq<City>, img: Image, w: nat, h: nat) returns (r: Option<seq<City>>)
    requires IsImage(img, w, h)
    ensures r == Matches(cities, img, w, h)
  {
    var rainbowCities: seq<City> := [];
    for i := 0 to |cities|
      invariant Matches(cities[..i], img, w, h) == Some(rainbowCities)
    {
      ghost var next := cities[..i + 1];
      assert next[..i] == cities[..i] && next[i] == cities[i];
      var point := Geo.PositionToPoint(Geo.Position(cities[i].lon, cities[i].lat));
      var v := PixelAt(img, w, h, point.x, point.y);
      assert CityPixel(cities[i], img, w, h) == v;
      if v.None? {
        assert Matches(next, img, w, h).None?;
        MatchesAppend(next, cities[i + 1..], img, w, h);
        assert next + cities[i + 1..] == cities;
        return None;
      }
      if v.value == 0 {
        rainbowCities := rainbowCities + [cities[i]];
      } else {
        assert rainbowCities + [] == rainbowCities;
      }
    }
    assert cities[..|cities|] == cities;
    return Some(rainbowCities);
  }

  /** The send_push loop: send_push for each rainbow city in turn. */
  method PushEach(cs: seq<City>, cityId: City -> string) returns (pushes: seq<Push>)
    ensures pushes == AllPushes(cs, cityId)
  {
    pushes := [];
    for k := 0 to |cs|
      invariant pushes == AllPushes(cs[..k], cityId)
    {
      var p := SendPush(cs[k], cityId);
      assert cs[..k + 1][..k] == cs[..k] && cs[..k + 1][k] == cs[k];
      PushesOfCity(cs[k], cityId, p);
      pushes := pushes + p;
    }
    assert cs[..|cs|] == cs;
  }

  /** What find_rainbow_cities does, with send_push iterating the templates in order: a
      missing image returns early, a city outside the image raises IndexError, and
      otherwise the matches are written after their pushes and one debug push, which are
      left out when nothing matched. */
  predicate FoundAs(cities: seq<City>, image: Option<Image>, w: nat, h: nat, cityId: City -> string,
                    o: CitiesOutcome)
    requires image.Some? ==> IsImage(image.value, w, h)
  {
    && !o.SendPushRaised?
    && (o == NoImage <==> image.None?)
    && (o == PixelIndexError <==> image.Some? && Matches(cities, image.value, w, h).None?)
    && (o.Written? ==> image.Some? && Matches(cities, image.value, w, h) == Some(o.json))
    && (o.Written? && o.json == [] ==> o.pushes == [])
    && (o.Written? && o.json != [] ==> o.pushes == AllPushes(o.json, cityId) + [DebugPush(o.json)])
  }

  /** find_rainbow_cities(GFS_SLUG) on the opened image (None when the file is missing). */
  method FindRainbowCities(cities: seq<City>, image: Option<Image>, w: nat, h: nat, cityId: City -> string)
      returns (o: CitiesOutcome)
    requires image.Some? ==> IsImage(image.value, w, h)
    ensures o == NoImage <==> image.None?
    ensures o == PixelIndexError <==> image.Some? && Matches(cities, image.value, w, h).None?
    ensures o.Written? ==> Matches(cities, image.value, w, h) == Some(o.json)
    ensures o.Written? && o.json == [] ==> o.pushes == []
    ensures o.Written? && o.json != [] ==> o.pushes == AllPushes(o.json, cityId) + [DebugPush(o.json)]
    ensures FoundAs(cities, image, w, h, cityId, o)
  {
    if image.None? {
      return NoImage;
    }
    var rainbowCities := LookUpCities(cities, image.value, w, h);
    if rainbowCities.None? {
      return PixelIndexError;
    }
    var pushes: seq<Push> := [];
    if |rainbowCities.value| > 0 {
      pushes := PushEach(rainbowCities.value, cityId);
      pushes := pushes + [DebugPush(rainbowCities.value)];
    }
    return Written(rainbowCities.value, pushes);
  }

  /** With at least one match there are two pushes per matched city and then exactly one
      debug push, last; with a single match the debug message names that city alone. */
  lemma PushCount(cs: seq<City>, cityId: City -> string)
    requires cs != []
    ensures var ps := AllPushes(cs, cityId) + [DebugPush(cs)];
      && |ps| == 2 * |cs| + 1
      && ps[|ps| - 1].channels == ["debug"]
      && (|cs| == 1 ==> ps[2].message == "Rainbow cities: " + cs[0].nameEn)
  {
    if |cs| == 1 {
      var names := seq(|cs|, i requires 0 <= i < |cs| => cs[i].nameEn);
      assert names[0] == cs[0].nameEn;
    }
  }

  /** find_rainbow_cities as written, run by Python 3 (which the http.client import at
      line 16 requires): send_push calls messages.iteritems(), which Python 3 dicts do not
      have, so the first matched city raises AttributeError before any push and before the
      JSON file is written. */
  function FindRainbowCitiesAsWritten(cities: seq<City>, image: Option<Image>, w: nat, h: nat): (o: CitiesOutcome)
    requires image.Some? ==> IsImage(image.value, w, h)
    ensures o.Written? ==> o.json == [] && o.pushes == []
  {
    if image.None? then NoImage
    else match Matches(cities, image.value, w, h)
      case None => PixelIndexError
      case Some(m) => if m == [] then Written([], []) else SendPushRaised
  }

  /** As written, the run raises exactly when some city matched, so no rainbow city is ever
      pushed or written; where it does not raise it does what FoundAs describes. */
  lemma AsWrittenRaisesOnEveryMatch(cities: seq<City>, image: Option<Image>, w: nat, h: nat, cityId: City -> string)
    requires image.Some? ==> IsImage(image.value, w, h)
    ensures var o := FindRainbowCitiesAsWritten(cities, image, w, h);
      && (o == SendPushRaised <==>
            image.Some? && Matches(cities, image.value, w, h).Some? && Matches(cities, image.value, w, h).value != [])
      && (o != SendPushRaised ==> FoundAs(cities, image, w, h, cityId, o))
  {
  }

  // ---- the __main__ scan ----

  /** The cities scan: in descending order, stop at the first eligible folder holding a
      rainbow_cities.json, run find_rainbow_cities on each folder holding a pwat.grib
      before it.  An IndexError ends the run.  Returns the slugs visited and the outcomes. */
  method CitiesMain(listing: seq<Entry>, analyses: string -> Option<Image>, w: nat, h: nat,
                    cities: seq<City>, cityId: City -> string)
      returns (visited: seq<string>, outcomes: seq<CitiesOutcome>)
    requires forall slug :: analyses(slug).Some? ==> IsImage(analyses(slug).value, w, h)
    ensures |visited| == |outcomes| && visited <= Targets(Sorted(listing), CitiesJsonMarker)
    ensures forall k :: 0 <= k < |outcomes| - 1 ==> outcomes[k] != PixelIndexError
    ensures visited != Targets(Sorted(listing), CitiesJsonMarker) ==>
              outcomes != [] && outcomes[|outcomes| - 1] == PixelIndexError
    ensures forall k :: 0 <= k < |outcomes| ==> FoundAs(cities, analyses(visited[k]), w, h, cityId, outcomes[k])
  {
    var sorted := Sorted(listing);
    ghost var all := Targets(sorted, CitiesJsonMarker);
    visited, outcomes := [], [];
    assert sorted[0..] == sorted;
    var i := 0;
    while i < |sorted|
      invariant i <= |sorted| && |visited| == |outcomes|
      invariant all == visited + Targets(sorted[i..], CitiesJsonMarker)
      invariant forall k :: 0 <= k < |outcomes| ==> outcomes[k] != PixelIndexError
      invariant forall k :: 0 <= k < |outcomes| ==> FoundAs(cities, analyses(visited[k]), w, h, cityId, outcomes[k])
    {
      var rest := sorted[i..];
      assert rest[0] == sorted[i] && rest[1..] == sorted[i + 1..];
      var slug := sorted[i].name;
      if TenDigitPrefix(slug) && sorted[i].isDir {
        if sorted[i].hasCitiesJson {
          assert Targets(rest, CitiesJsonMarker) == [];
          assert visited + [] == visited;
          return;
        }
        if sorted[i].hasGrib {
          var o := FindRainbowCities(cities, analyses(slug), w, h, cityId);
          assert Targets(rest, CitiesJsonMarker) == [slug] + Targets(sorted[i + 1..], CitiesJsonMarker);
          assert all == (visited + [slug]) + Targets(sorted[i + 1..], CitiesJsonMarker);
          visited, outcomes := visited + [slug], outcomes + [o];
          if o == PixelIndexError {
            return;
          }
        } else {
          assert Targets(rest, CitiesJsonMarker) == Targets(sorted[i + 1..], CitiesJsonMarker);
        }
      } else {
        assert Targets(rest, CitiesJsonMarker) == Targets(sorted[i + 1..], CitiesJsonMarker);
      }
      i := i + 1;
    }
    assert sorted[i..] == [] && visited + [] == visited;
  }

  /** What the next run does: once this run has written the rainbow_cities.json of some
      folder, the next run visits exactly the folders of this run before the first one
      written, so a folder whose image was missing is retried only when it is newer than
      every folder this run wrote. */
  lemma NextRunRetries(listing: seq<Entry>, written: set<string>, k: nat)
    requires k < |Targets(Sorted(listing), CitiesJsonMarker)|
    ensures var t := Targets(Sorted(listing), CitiesJsonMarker);
      var next := Targets(Mark(Sorted(listing), written, CitiesJsonMarker), CitiesJsonMarker);
      && next <= t
      && (k < |next| <==> NoneDoneUpTo(t, written, k))
  {
    RerunTargets(Sorted(listing), written, CitiesJsonMarker);
    PrefixUntilKeeps(Targets(Sorted(listing), CitiesJsonMarker), written);
  }
}
