/** Storage profiles: named file system locations, and the most specific one a path lies under. */
module Locations {
  import opened Wrappers
  import opened Strings
  import opened Paths

  datatype LocationType = Local | Shared
  datatype FileSystemLocation = FileSystemLocation(name: string, path: string, kind: LocationType)
  type StorageProfile = seq<FileSystemLocation>

  /** `local_locations` and `shared_locations`: path to name; the last location of a path names it. */
  function LocationsOf(profile: StorageProfile, kind: LocationType): map<string, string> {
    if profile == [] then map[]
    else
      var rest, last := LocationsOf(profile[..|profile| - 1], kind), profile[|profile| - 1];
      if last.kind == kind then rest[last.path := last.name] else rest
  }

  /** Location `i` is the last one of its kind and path. */
  predicate LastOfPath(profile: StorageProfile, kind: LocationType, i: nat) {
    && i < |profile| && profile[i].kind == kind
    && forall j | i < j < |profile| :: profile[j].kind != kind || profile[j].path != profile[i].path
  }

  lemma {:induction false} LocationNamed(profile: StorageProfile, kind: LocationType, i: nat)
    requires LastOfPath(profile, kind, i)
    ensures profile[i].path in LocationsOf(profile, kind)
            && LocationsOf(profile, kind)[profile[i].path] == profile[i].name
  {
    var n := |profile| - 1;
    if i < n {
      assert profile[n].kind != kind || profile[n].path != profile[i].path;
      assert forall j | 0 <= j < n :: profile[..n][j] == profile[j];
      LocationNamed(profile[..n], kind, i);
    }
  }

  lemma {:induction false} LocationListed(profile: StorageProfile, kind: LocationType, path: string) returns (i: nat)
    requires path in LocationsOf(profile, kind)
    ensures LastOfPath(profile, kind, i) && profile[i].path == path
  {
    var n := |profile| - 1;
    if profile[n].kind == kind && profile[n].path == path {
      i := n;
    } else {
      i := LocationListed(profile[..n], kind, path);
      assert forall j | i < j < n :: profile[..n][j] == profile[j];
    }
  }

  /** `Path::starts_with`, which compares components. */
  predicate StartsWith(path: Path, location: string) { Parse(location) <= path }

  /** `str::len` counts UTF-8 bytes. */
  function ByteLength(s: string): nat {
    if s == "" then 0
    else
      var u := s[0] as int;
      (if u < 0x80 then 1 else if u < 0x800 then 2 else if u < 0x10000 then 3 else 4) + ByteLength(s[1..])
  }

  /** The longest location string the path lies under; `max_by_key` keeps the last of equals. `order` is the
      order in which the hash map of locations happens to be visited. */
  function Longest(path: Path, order: seq<string>): Option<string> {
    if order == [] then None
    else
      var rest, last := Longest(path, order[..|order| - 1]), order[|order| - 1];
      if !StartsWith(path, last) then rest
      else if rest.None? || ByteLength(rest.value) <= ByteLength(last) then Some(last)
      else rest
  }

  lemma {:induction false} LongestIsMaximal(path: Path, order: seq<string>)
    ensures Longest(path, order).None? <==> forall l | l in order :: !StartsWith(path, l)
    ensures Longest(path, order).Some? ==>
      var best := Longest(path, order).value;
      && best in order && StartsWith(path, best)
      && forall l | l in order && StartsWith(path, l) :: ByteLength(l) <= ByteLength(best)
  {
    if order != [] {
      var n := |order| - 1;
      LongestIsMaximal(path, order[..n]);
      assert order == order[..n] + [order[n]];
    }
  }

  // ---------------------------------------------------------------- most specific

  /** The string a path displays as. */
  function Display(p: Path): string {
    if IsAbsolute(p) then "/" + Join(Segments(p[1..]), '/') else Join(Segments(p), '/')
  }

  /** A location written without redundant separators or dots. */
  predicate IsCanonical(location: string) { Display(Parse(location)) == location }

  lemma {:induction false} ByteLengthAppend(a: string, b: string)
    ensures ByteLength(a + b) == ByteLength(a) + ByteLength(b)
    ensures ByteLength(b) > 0 <==> b != ""
  {
    if a == "" {
      assert a + b == b;
    } else {
      assert (a + b)[0] == a[0] && (a + b)[1..] == a[1..] + b;
      ByteLengthAppend(a[1..], b);
    }
  }

  lemma {:induction false} JoinAppend(a: seq<string>, b: seq<string>)
    requires a != [] && b != []
    ensures Join(a + b, '/') == Join(a, '/') + "/" + Join(b, '/')
  {
    if |a| == 1 {
      assert (a + b)[1..] == b;
    } else {
      assert (a + b)[1..] == a[1..] + b;
      JoinAppend(a[1..], b);
    }
  }

  lemma JoinNotEmpty(parts: seq<string>)
    requires parts != [] && parts[0] != ""
    ensures Join(parts, '/') != ""
  {
  }

  lemma JoinGrows(a: seq<string>, b: seq<string>)
    requires b != [] && b[0] != ""
    ensures ByteLength(Join(a, '/')) < ByteLength(Join(a + b, '/'))
  {
    hide Join, ByteLength;
    JoinNotEmpty(b);
    ByteLengthAppend("", Join(b, '/'));
    if a == [] {
      assert a + b == b;
      JoinFew("");
      ByteLengthAppend("", "");
    } else {
      JoinAppend(a, b);
      ByteLengthAppend(Join(a, '/') + "/", Join(b, '/'));
      ByteLengthAppend(Join(a, '/'), "/");
    }
  }

  /** A deeper path is displayed with more bytes. */
  lemma DisplayGrows(p: Path, q: Path)
    requires WellFormed(q) && p < q
    ensures ByteLength(Display(p)) < ByteLength(Display(q))
  {
    var below := q[|p|..];
    assert q == p + below && Segment(below[0]) != "";
    if IsAbsolute(q) {
      hide Join, ByteLength;
      if p == [] {
        JoinFew("");
        ByteLengthAppend("", "");
        ByteLengthAppend("", Display(q));
      } else {
        assert Segments(q[1..]) == Segments(p[1..]) + Segments(below);
        JoinGrows(Segments(p[1..]), Segments(below));
        ByteLengthAppend("/", Join(Segments(p[1..]), '/'));
        ByteLengthAppend("/", Join(Segments(q[1..]), '/'));
      }
    } else {
      assert Segments(q) == Segments(p) + Segments(below);
      JoinGrows(Segments(p), Segments(below));
    }
  }

  /** A hash map visits each of its locations once, in any order. */
  ghost predicate Visits(order: seq<string>, locations: set<string>) {
    (forall l :: l in order <==> l in locations) && forall i, j | 0 <= i < j < |order| :: order[i] != order[j]
  }

  lemma {:induction false} VisitAll(locations: set<string>) returns (order: seq<string>)
    ensures Visits(order, locations)
    decreases locations
  {
    if locations == {} {
      order := [];
    } else {
      var l :| l in locations;
      order := VisitAll(locations - {l});
      order := order + [l];
    }
  }

  /** Any location may be visited last, and then it wins if no matching one is longer. */
  lemma VisitedLast(locations: set<string>, path: Path, x: string) returns (order: seq<string>)
    requires x in locations && StartsWith(path, x)
    requires forall l | l in locations && StartsWith(path, l) :: ByteLength(l) <= ByteLength(x)
    ensures Visits(order, locations) && Longest(path, order) == Some(x)
  {
    hide Parse, ByteLength;
    var rest := VisitAll(locations - {x});
    order := rest + [x];
    assert order[..|order| - 1] == rest;
    LongestIsMaximal(path, rest);
  }

  /** The match is at or below every location the path lies under. */
  ghost predicate MostSpecific(path: Path, order: seq<string>) {
    Longest(path, order).Some? ==>
      forall l | l in order && StartsWith(path, l) :: Parse(l) <= Parse(Longest(path, order).value)
  }

  ghost predicate AlwaysMostSpecific(locations: set<string>) {
    forall path, order | Visits(order, locations) :: MostSpecific(path, order)
  }

  /** Some string for the location `m` is longer than `l`. */
  ghost predicate Outweighs(locations: set<string>, l: string, m: string) {
    exists b :: b in locations && Parse(b) == Parse(m) && ByteLength(l) < ByteLength(b)
  }

  /** Every location is outweighed by each location below it. */
  ghost predicate DeeperIsLonger(locations: set<string>) {
    forall l, m | l in locations && m in locations && Parse(l) < Parse(m) :: Outweighs(locations, l, m)
  }

  /** Two locations the same path lies under are one below the other. */
  lemma Comparable(path: Path, l: string, m: string)
    requires StartsWith(path, l) && StartsWith(path, m)
    ensures Parse(l) <= Parse(m) || Parse(m) < Parse(l)
  {
    hide Parse;
    assert Parse(l) == path[..|Parse(l)|] && Parse(m) == path[..|Parse(m)|];
  }

  lemma LongerBelow(locations: set<string>, path: Path, l: string, m: string) returns (b: string)
    requires DeeperIsLonger(locations) && l in locations && m in locations && Parse(l) < Parse(m) && StartsWith(path, m)
    ensures b in locations && StartsWith(path, b) && ByteLength(l) < ByteLength(b)
  {
    hide Parse, ByteLength, Outweighs;
    assert Outweighs(locations, l, m);
    b := Outweighing(locations, path, l, m);
  }

  lemma Outweighing(locations: set<string>, path: Path, l: string, m: string) returns (b: string)
    requires Outweighs(locations, l, m) && StartsWith(path, m)
    ensures b in locations && StartsWith(path, b) && ByteLength(l) < ByteLength(b)
  {
    hide Parse, ByteLength;
    b :| b in locations && Parse(b) == Parse(m) && ByteLength(l) < ByteLength(b);
  }

  /** If every location has a longer string than those above it, the longest match is the most specific. */
  lemma LongestIsMostSpecific(path: Path, order: seq<string>, locations: set<string>)
    requires Visits(order, locations) && DeeperIsLonger(locations)
    ensures MostSpecific(path, order)
  {
    hide Longest, Parse, ByteLength;
    LongestIsMaximal(path, order);
    if Longest(path, order).Some? {
      var best := Longest(path, order).value;
      forall l | l in order && StartsWith(path, l) ensures Parse(l) <= Parse(best) {
        Comparable(path, l, best);
        if Parse(best) < Parse(l) { var b := LongerBelow(locations, path, best, l); }
      }
    }
  }

  /** If no string for the deeper location is longer, some path and visiting order choose a shallower one. */
  lemma ShallowerWins(locations: set<string>, l: string, m: string)
    requires l in locations && m in locations && Parse(l) < Parse(m)
    requires forall b | b in locations && Parse(b) == Parse(m) :: ByteLength(b) <= ByteLength(l)
    ensures !AlwaysMostSpecific(locations)
  {
    hide Longest, Parse, ByteLength;
    var path := Parse(m);
    var order := VisitAll(locations);
    LongestIsMaximal(path, order);
    assert StartsWith(path, l) && StartsWith(path, m);
    var top := Longest(path, order).value;
    var x := if Parse(top) == Parse(m) then l else top;
    var other := VisitedLast(locations, path, x);
    assert m in other && !(Parse(m) <= Parse(x));
    assert !MostSpecific(path, other);
  }

  /** The longest match is the most specific location for every path and every visiting order, exactly when every
      location below another has a longer string. */
  lemma MostSpecificExactly(locations: set<string>)
    ensures AlwaysMostSpecific(locations) <==> DeeperIsLonger(locations)
  {
    hide Longest, Parse, ByteLength, MostSpecific;
    if DeeperIsLonger(locations) {
      forall path, order | Visits(order, locations) ensures MostSpecific(path, order) {
        LongestIsMostSpecific(path, order, locations);
      }
    } else {
      var l, m :| l in locations && m in locations && Parse(l) < Parse(m)
        && !Outweighs(locations, l, m);
      ShallowerWins(locations, l, m);
    }
  }

  // ---------------------------------------------------------------- visiting order

  ghost predicate AlwaysSameMatch(locations: set<string>) {
    forall path, order, other | Visits(order, locations) && Visits(other, locations) ::
      Longest(path, order) == Longest(path, other)
  }

  /** Wherever two strings tie, a longer one covers the same paths. */
  ghost predicate Unambiguous(locations: set<string>) {
    forall l, m | l in locations && m in locations && l != m && Parse(l) <= Parse(m)
      && ByteLength(l) == ByteLength(m) ::
      Beaten(locations, l, m)
  }

  /** A string longer than `l` covers all that `m` covers. */
  ghost predicate Beaten(locations: set<string>, l: string, m: string) {
    exists b :: b in locations && Parse(b) <= Parse(m) && ByteLength(l) < ByteLength(b)
  }

  lemma NoTie(path: Path, locations: set<string>, order: seq<string>, l: string, m: string)
    requires Unambiguous(locations) && Visits(order, locations) && l in locations && m in locations
    requires StartsWith(path, m) && Parse(l) <= Parse(m) && ByteLength(l) == ByteLength(m)
    requires Longest(path, order) == Some(l)
    ensures l == m
  {
    hide Longest, Parse, ByteLength;
    LongestIsMaximal(path, order);
    if l != m { var b := TieBroken(locations, path, l, m); }
  }

  lemma TieBroken(locations: set<string>, path: Path, l: string, m: string) returns (b: string)
    requires Unambiguous(locations) && l in locations && m in locations && l != m
    requires Parse(l) <= Parse(m) && ByteLength(l) == ByteLength(m) && StartsWith(path, m)
    ensures b in locations && StartsWith(path, b) && ByteLength(l) < ByteLength(b)
  {
    hide Parse, ByteLength, Beaten;
    assert Beaten(locations, l, m);
    b := Beating(locations, path, l, m);
  }

  lemma Beating(locations: set<string>, path: Path, l: string, m: string) returns (b: string)
    requires Beaten(locations, l, m) && StartsWith(path, m)
    ensures b in locations && StartsWith(path, b) && ByteLength(l) < ByteLength(b)
  {
    hide Parse, ByteLength;
    b :| b in locations && Parse(b) <= Parse(m) && ByteLength(l) < ByteLength(b);
  }

  lemma SameMatch(path: Path, locations: set<string>, order: seq<string>, other: seq<string>)
    requires Unambiguous(locations) && Visits(order, locations) && Visits(other, locations)
    ensures Longest(path, order) == Longest(path, other)
  {
    hide Longest, Parse, ByteLength, Unambiguous;
    LongestIsMaximal(path, order);
    LongestIsMaximal(path, other);
    if Longest(path, order).Some? {
      var l, m := Longest(path, order).value, Longest(path, other).value;
      Comparable(path, l, m);
      if Parse(l) <= Parse(m) { NoTie(path, locations, order, l, m); } else { NoTie(path, locations, other, m, l); }
    }
  }

  /** The match does not depend on the visiting order, exactly when no two strings can tie as longest. */
  lemma SameMatchExactly(locations: set<string>)
    ensures AlwaysSameMatch(locations) <==> Unambiguous(locations)
  {
    hide Longest, Parse, ByteLength;
    if Unambiguous(locations) {
      forall path, order, other | Visits(order, locations) && Visits(other, locations)
        ensures Longest(path, order) == Longest(path, other)
      {
        SameMatch(path, locations, order, other);
      }
    } else {
      var l, m :| l in locations && m in locations && l != m && Parse(l) <= Parse(m) && ByteLength(l) == ByteLength(m)
        && !Beaten(locations, l, m);
      var order := VisitedLast(locations, Parse(m), l);
      var other := VisitedLast(locations, Parse(m), m);
    }
  }

  /** Locations written without redundant separators or dots meet both conditions. */
  lemma CanonicalSuffices(locations: set<string>)
    requires forall l | l in locations :: IsCanonical(l)
    ensures DeeperIsLonger(locations) && Unambiguous(locations)
  {
    hide Parse, ByteLength, Display;
    forall l, m | l in locations && m in locations && Parse(l) < Parse(m) ensures Outweighs(locations, l, m) {
      ParseWellFormed(m);
      DisplayGrows(Parse(l), Parse(m));
      assert IsCanonical(l) && IsCanonical(m);
    }
    forall l, m | l in locations && m in locations && l != m && Parse(l) <= Parse(m)
      ensures ByteLength(l) != ByteLength(m)
    {
      assert IsCanonical(l) && IsCanonical(m);
      ParseWellFormed(m);
      if Parse(l) == Parse(m) { SameDisplay(l, m); } else { DisplayGrows(Parse(l), Parse(m)); }
    }
  }

  lemma SameDisplay(l: string, m: string)
    requires IsCanonical(l) && IsCanonical(m) && Parse(l) == Parse(m)
    ensures l == m
  {
    hide Parse, Display;
  }

  lemma ParseDeep()
    ensures Parse("/a") == [Root, Normal("a")] && ByteLength("/a") == 2
  {
    SplitJoin(["", "a"], '/');
    JoinFew("a");
    assert Components(["", "a"]) == [Normal("a")] by {
      assert ["", "a"][..1] == [""];
      ComponentsOfBlanks();
    }
    ByteLengthAppend("/", "a");
    assert "/a" == "/" + "a";
  }

  lemma ParseSlashes()
    ensures Parse("///") == [Root] && ByteLength("///") == 3
  {
    hide Parse, Join, Split, Components, ByteLength;
    var blanks := ["", "", "", ""];
    assert blanks == ["", ""] + ["", ""];
    JoinFew("");
    JoinAppend(["", ""], ["", ""]);
    ComponentsOfBlanks();
    ComponentsAppend(["", ""], ["", ""]);
    ParseParts(blanks);
    assert "/" + "" + "/" + ("/" + "") == "///";
    SlashBytes();
  }

  lemma SlashBytes()
    ensures ByteLength("///") == 3
  {
    ByteLengthAppend("/", "//");
    ByteLengthAppend("/", "/");
    assert "///" == "/" + "//" && "//" == "/" + "/";
  }

  /** Written with redundant slashes, a shallower location can win. */
  lemma LongestNotMostSpecific()
    ensures var path, order := [Root, Normal("a")], ["/a", "///"];
      Longest(path, order) == Some("///") && StartsWith(path, "/a") && Parse("///") < Parse("/a")
    ensures !DeeperIsLonger({"/a", "///"}) && !AlwaysMostSpecific({"/a", "///"})
  {
    var path, order := [Root, Normal("a")], ["/a", "///"];
    hide Parse, ByteLength;
    ParseDeep();
    ParseSlashes();
    assert order[..1] == ["/a"] && order[..1][..0] == [];
    assert Longest(path, order[..1]) == Some("/a");
    hide Longest;
    ShallowerWins({"/a", "///"}, "///", "/a");
    MostSpecificExactly({"/a", "///"});
  }
}
