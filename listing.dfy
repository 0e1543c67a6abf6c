// The forecast-directory listing the scanners of water.py, cities.py and
// settings.py walk: os.listdir(GFS_FOLDER) sorted in reverse (descending
// string order), keeping the names re.match(r'\d{10}', name) accepts (a
// ten-digit prefix: the pattern is anchored only at the start) that are
// directories.  Each entry carries the results of the glob tests the
// scanners make in its directory.

module Listing {
  import opened Text

  /** One name of the forecast folder with the facts the scanners test. */
  datatype Entry = Entry(
    name: string,
    isDir: bool,
    hasGrib: bool,        // glob('*pwat.grib') is not empty
    hasPwatPng: bool,     // glob('*pwat.png') is not empty
    hasCitiesJson: bool)  // glob('*rainbow_cities.json') is not empty

  // ---- Python's string order ----

  /** a <= b for Python strings: lexicographic on characters, a prefix first. */
  predicate LexLe(a: string, b: string)
    decreases |a|
  {
    a == [] || (b != [] && (a[0] < b[0] || (a[0] == b[0] && LexLe(a[1..], b[1..]))))
  }

  lemma {:induction false} LexLeRefl(a: string)
    ensures LexLe(a, a)
    decreases |a|
  {
    if a != [] {
      LexLeRefl(a[1..]);
    }
  }

  lemma {:induction false} LexLeTotal(a: string, b: string)
    ensures LexLe(a, b) || LexLe(b, a)
    decreases |a|
  {
    if a != [] && b != [] && a[0] == b[0] {
      LexLeTotal(a[1..], b[1..]);
    }
  }

  lemma {:induction false} LexLeTrans(a: string, b: string, c: string)
    requires LexLe(a, b) && LexLe(b, c)
    ensures LexLe(a, c)
    decreases |a|
  {
    if a != [] && a[0] == b[0] && b[0] == c[0] {
      LexLeTrans(a[1..], b[1..], c[1..]);
    }
  }

  lemma {:induction false} LexLeAntisymmetric(a: string, b: string)
    requires LexLe(a, b) && LexLe(b, a)
    ensures a == b
    decreases |a|
  {
    if a != [] {
      LexLeAntisymmetric(a[1..], b[1..]);
      assert a == [a[0]] + a[1..] && b == [b[0]] + b[1..];
    }
  }

  // ---- sorted(..., reverse=True) ----

  /** Keys in descending order. */
  predicate SortedDesc<T>(s: seq<T>, key: T -> string) {
    forall i, j :: 0 <= i < j < |s| ==> LexLe(key(s[j]), key(s[i]))
  }

  /** Put e in front of the first element whose key is not greater than e's. */
  function InsertDesc<T>(e: T, s: seq<T>, key: T -> string): (r: seq<T>)
    ensures |r| == |s| + 1
  {
    if s == [] then [e]
    else if LexLe(key(s[0]), key(e)) then [e] + s
    else [s[0]] + InsertDesc(e, s[1..], key)
  }

  /** sorted(s, reverse=True), by insertion.  Names in a directory are distinct, so
      how equal keys are ordered is of no consequence here. */
  function SortDescending<T>(s: seq<T>, key: T -> string): (r: seq<T>)
    ensures |r| == |s|
  {
    if s == [] then [] else InsertDesc(s[0], SortDescending(s[1..], key), key)
  }

  /** Inserting adds exactly the one element. */
  lemma {:induction false} InsertDescMembers<T>(e: T, s: seq<T>, key: T -> string)
    ensures multiset(InsertDesc(e, s, key)) == multiset(s) + multiset{e}
    ensures forall x :: x in InsertDesc(e, s, key) <==> x == e || x in s
  {
    if s != [] && !LexLe(key(s[0]), key(e)) {
      InsertDescMembers(e, s[1..], key);
      assert s == [s[0]] + s[1..];
    }
  }

  lemma {:induction false} InsertDescCorrect<T>(e: T, s: seq<T>, key: T -> string)
    requires SortedDesc(s, key)
    ensures SortedDesc(InsertDesc(e, s, key), key)
    ensures multiset(InsertDesc(e, s, key)) == multiset(s) + multiset{e}
    ensures forall x :: x in InsertDesc(e, s, key) <==> x == e || x in s
  {
    InsertDescMembers(e, s, key);
    if s == [] {
    } else if LexLe(key(s[0]), key(e)) {
      var r := [e] + s;
      forall i, j | 0 <= i < j < |r|
        ensures LexLe(key(r[j]), key(r[i]))
      {
        if i == 0 && j > 1 {
          LexLeTrans(key(s[j - 1]), key(s[0]), key(e));
        }
      }
    } else {
      LexLeTotal(key(s[0]), key(e));
      InsertDescCorrect(e, s[1..], key);
      InsertDescMembers(e, s[1..], key);
      var t := InsertDesc(e, s[1..], key);
      forall j | 0 <= j < |t|
        ensures LexLe(key(t[j]), key(s[0]))
      {
        var x := t[j];
        assert x in t;
        assert x in multiset(t);
        if x != e {
          assert x in multiset(s[1..]);
          assert x in s[1..];
          var k :| 0 <= k < |s[1..]| && s[1..][k] == x;
          assert s[k + 1] == x;
        }
      }
      ConsSorted(s[0], t, key);
      assert InsertDesc(e, s, key) == [s[0]] + t;
    }
  }

  lemma ConsSorted<T>(x: T, t: seq<T>, key: T -> string)
    requires SortedDesc(t, key)
    requires forall j :: 0 <= j < |t| ==> LexLe(key(t[j]), key(x))
    ensures SortedDesc([x] + t, key)
  {
    var r := [x] + t;
    forall i, j | 0 <= i < j < |r|
      ensures LexLe(key(r[j]), key(r[i]))
    {
      if i == 0 {
        assert r[j] == t[j - 1];
      } else {
        assert r[j] == t[j - 1] && r[i] == t[i - 1];
      }
    }
  }

  /** The sort returns a permutation of its input in descending key order. */
  lemma {:induction false} SortDescendingCorrect<T>(s: seq<T>, key: T -> string)
    ensures SortedDesc(SortDescending(s, key), key)
    ensures multiset(SortDescending(s, key)) == multiset(s)
  {
    if s != [] {
      SortDescendingCorrect(s[1..], key);
      InsertDescCorrect(s[0], SortDescending(s[1..], key), key);
      assert s == [s[0]] + s[1..];
    }
  }

  function EntryName(e: Entry): string {
    e.name
  }

  /** sorted(os.listdir(GFS_FOLDER), reverse=True), with each name's directory facts. */
  function Sorted(listing: seq<Entry>): (s: seq<Entry>)
    ensures |s| == |listing|
  {
    SortDescending(listing, EntryName)
  }

  /** The sort keeps exactly the entries of the listing. */
  lemma SortedMembers(listing: seq<Entry>)
    ensures forall e :: e in Sorted(listing) <==> e in listing
  {
    SortDescendingCorrect(listing, EntryName);
    forall e
      ensures e in Sorted(listing) <==> e in listing
    {
      assert e in Sorted(listing) <==> e in multiset(Sorted(listing));
      assert e in listing <==> e in multiset(listing);
    }
  }

  // ---- the name and directory tests ----

  /** re.match(r'\d{10}', name): the first ten characters are digits. */
  predicate TenDigitPrefix(s: string) {
    |s| >= 10 && forall i :: 0 <= i < 10 ==> IsDigit(s[i])
  }

  /** The entries every scanner considers: a ten-digit prefix and a directory. */
  predicate Eligible(e: Entry) {
    TenDigitPrefix(e.name) && e.isDir
  }

  /** An eligible entry holding a GRIB precipitable-water file: the scanners act on it. */
  predicate IsTarget(e: Entry) {
    Eligible(e) && e.hasGrib
  }

  /** The glob that tells a scanner a directory was processed already. */
  datatype Marker = PwatPngMarker | CitiesJsonMarker

  predicate HasMarker(e: Entry, m: Marker) {
    match m
    case PwatPngMarker => e.hasPwatPng
    case CitiesJsonMarker => e.hasCitiesJson
  }

  /** An eligible entry that holds the marker: the scan breaks there. */
  predicate Stops(e: Entry, m: Marker) {
    Eligible(e) && HasMarker(e, m)
  }

  /** The names a marker scan processes, in visiting order: the targets met before the
      first eligible entry holding the marker (that entry is checked first). */
  function Targets(s: seq<Entry>, m: Marker): (t: seq<string>)
    ensures |t| <= |s|
  {
    if s == [] then []
    else if Stops(s[0], m) then []
    else (if IsTarget(s[0]) then [s[0].name] else []) + Targets(s[1..], m)
  }

  /** Every name a scan processes is the name of a target entry that no stopping entry
      precedes. */
  lemma {:induction false} TargetsSound(s: seq<Entry>, m: Marker, k: nat)
    requires k < |Targets(s, m)|
    ensures exists i :: 0 <= i < |s| && IsTarget(s[i]) && s[i].name == Targets(s, m)[k] &&
                        forall j :: 0 <= j <= i ==> !Stops(s[j], m)
  {
    var t := Targets(s, m);
    if IsTarget(s[0]) && k == 0 {
      assert IsTarget(s[0]) && s[0].name == t[k] && forall j :: 0 <= j <= 0 ==> !Stops(s[j], m);
    } else {
      var k' := if IsTarget(s[0]) then k - 1 else k;
      assert t[k] == Targets(s[1..], m)[k'];
      TargetsSound(s[1..], m, k');
      var i :| 0 <= i < |s[1..]| && IsTarget(s[1..][i]) && s[1..][i].name == Targets(s[1..], m)[k'] &&
               forall j :: 0 <= j <= i ==> !Stops(s[1..][j], m);
      assert forall j :: 1 <= j <= i + 1 ==> !Stops(s[j], m) by {
        forall j | 1 <= j <= i + 1
          ensures !Stops(s[j], m)
        {
          assert s[j] == s[1..][j - 1];
        }
      }
    }
  }

  /** Conversely, every target entry that no stopping entry precedes is processed. */
  lemma {:induction false} TargetsComplete(s: seq<Entry>, m: Marker, i: nat)
    requires i < |s| && IsTarget(s[i])
    requires forall j :: 0 <= j <= i ==> !Stops(s[j], m)
    ensures s[i].name in Targets(s, m)
  {
    if i > 0 {
      assert forall j :: 0 <= j <= i - 1 ==> !Stops(s[1..][j], m) by {
        forall j | 0 <= j <= i - 1
          ensures !Stops(s[1..][j], m)
        {
          assert s[1..][j] == s[j + 1];
        }
      }
      TargetsComplete(s[1..], m, i - 1);
    }
  }

  /** A scan that meets no stopping entry in a goes on into b. */
  lemma {:induction false} TargetsAppend(a: seq<Entry>, b: seq<Entry>, m: Marker)
    requires forall j :: 0 <= j < |a| ==> !Stops(a[j], m)
    ensures Targets(a + b, m) == Targets(a, m) + Targets(b, m)
  {
    if a == [] {
      assert a + b == b;
    } else {
      assert (a + b)[0] == a[0] && (a + b)[1..] == a[1..] + b;
      assert !Stops(a[0], m);
      TargetsAppend(a[1..], b, m);
      var head := if IsTarget(a[0]) then [a[0].name] else [];
      assert Targets(a + b, m) == head + Targets(a[1..] + b, m);
      assert Targets(a, m) == head + Targets(a[1..], m);
    }
  }

  /** On a listing sorted in descending order the scan visits names in descending order. */
  lemma {:induction false} TargetsDescending(s: seq<Entry>, m: Marker)
    requires SortedDesc(s, EntryName)
    ensures forall i, j :: 0 <= i < j < |Targets(s, m)| ==> LexLe(Targets(s, m)[j], Targets(s, m)[i])
  {
    if s != [] && !Stops(s[0], m) {
      var rest := Targets(s[1..], m);
      assert SortedDesc(s[1..], EntryName) by {
        forall i, j | 0 <= i < j < |s[1..]|
          ensures LexLe(s[1..][j].name, s[1..][i].name)
        {
          assert EntryName(s[j + 1]) == s[1..][j].name;
          assert EntryName(s[i + 1]) == s[1..][i].name;
        }
      }
      TargetsDescending(s[1..], m);
      if IsTarget(s[0]) {
        var t := [s[0].name] + rest;
        forall i, j | 0 <= i < j < |t|
          ensures LexLe(t[j], t[i])
        {
          if i == 0 {
            TargetsSound(s[1..], m, j - 1);
            var k :| 0 <= k < |s[1..]| && IsTarget(s[1..][k]) && s[1..][k].name == rest[j - 1] &&
                     forall j' :: 0 <= j' <= k ==> !Stops(s[1..][j'], m);
            assert s[1..][k] == s[k + 1];
            assert LexLe(EntryName(s[k + 1]), EntryName(s[0]));
          }
        }
      }
    }
  }

  // ---- what a run leaves behind ----

  /** The entry after its marker file was written. */
  function WithMarker(e: Entry, m: Marker): (r: Entry)
    ensures HasMarker(r, m) && r.name == e.name && Eligible(r) == Eligible(e) && r.hasGrib == e.hasGrib
  {
    match m
    case PwatPngMarker => e.(hasPwatPng := true)
    case CitiesJsonMarker => e.(hasCitiesJson := true)
  }

  /** The listing after a run wrote its marker into the target directories named in done. */
  function Mark(s: seq<Entry>, done: set<string>, m: Marker): (r: seq<Entry>)
    ensures |r| == |s|
  {
    if s == [] then []
    else [if IsTarget(s[0]) && s[0].name in done then WithMarker(s[0], m) else s[0]] + Mark(s[1..], done, m)
  }

  /** The targets up to, not including, the first one in done. */
  function PrefixUntil(t: seq<string>, done: set<string>): (r: seq<string>)
    ensures |r| <= |t|
  {
    if t == [] || t[0] in done then [] else [t[0]] + PrefixUntil(t[1..], done)
  }

  /** No target up to and including index k is in done. */
  predicate NoneDoneUpTo(t: seq<string>, done: set<string>, k: nat)
    requires k < |t|
  {
    forall j :: 0 <= j <= k ==> t[j] !in done
  }

  /** PrefixUntil keeps the leading targets, and a target is kept exactly when neither it
      nor any target before it is in done. */
  lemma {:induction false} PrefixUntilKeeps(t: seq<string>, done: set<string>)
    ensures PrefixUntil(t, done) == t[..|PrefixUntil(t, done)|]
    ensures forall k :: 0 <= k < |t| ==> (k < |PrefixUntil(t, done)| <==> NoneDoneUpTo(t, done, k))
  {
    if t != [] && t[0] !in done {
      PrefixUntilKeeps(t[1..], done);
      var r := PrefixUntil(t, done);
      assert r == [t[0]] + PrefixUntil(t[1..], done);
      forall k | 0 <= k < |t|
        ensures k < |r| <==> NoneDoneUpTo(t, done, k)
      {
        if k > 0 {
          assert NoneDoneUpTo(t, done, k) <==> NoneDoneUpTo(t[1..], done, k - 1) by {
            assert forall j :: 0 <= j < |t| - 1 ==> t[1..][j] == t[j + 1];
          }
        }
      }
    }
  }

  /** The next run of a scan processes exactly the targets of this run that come before
      the first one this run marked: a target left unmarked behind a marked one is never
      visited again. */
  lemma {:induction false} RerunTargets(s: seq<Entry>, done: set<string>, m: Marker)
    ensures Targets(Mark(s, done, m), m) == PrefixUntil(Targets(s, m), done)
  {
    if s != [] {
      var r := Mark(s, done, m);
      assert r[1..] == Mark(s[1..], done, m);
      RerunTargets(s[1..], done, m);
      if Stops(s[0], m) {
        assert Stops(r[0], m);
      } else if IsTarget(s[0]) && s[0].name in done {
        assert Stops(r[0], m);
        assert Targets(s, m)[0] == s[0].name;
      } else if IsTarget(s[0]) {
        assert r[0] == s[0];
        assert Targets(s, m) == [s[0].name] + Targets(s[1..], m);
      } else {
        assert r[0] == s[0];
        assert Targets(r, m) == [] + Targets(r[1..], m) == Targets(r[1..], m);
        assert Targets(s, m) == [] + Targets(s[1..], m) == Targets(s[1..], m);
      }
    }
  }
}
