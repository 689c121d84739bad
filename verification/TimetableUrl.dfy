/**
 * The timetable picker's state as a path: built from a selection, parsed back from the path's
 * segments, and reached from the old query form by a redirect.
 */
module TimetableUrl {
  import opened Wrappers
  import opened Text
  import opened Percent

  /** An empty value counts as absent, as it does in the conditions that test it. */
  datatype Selection = Selection(term: Option<string>, program: Option<string>, section: Option<string>)

  predicate Given(v: Option<string>) {
    v.Some? && v.value != ""
  }

  /** The selection a path can carry: each level only below its parents, and nothing empty. */
  function Reachable(sel: Selection): Selection {
    if !Given(sel.term) then Selection(None, None, None)
    else if !Given(sel.program) then Selection(sel.term, None, None)
    else if !Given(sel.section) then Selection(sel.term, sel.program, None)
    else sel
  }

  // ----- building -----

  /** The segments of a selection before they are encoded. */
  function Filters(sel: Selection): (fs: seq<string>)
    ensures |fs| % 2 == 0 && forall i :: 0 <= i < |fs| ==> fs[i] != ""
  {
    if !Given(sel.term) then []
    else if !Given(sel.program) then ["t", sel.term.value]
    else if !Given(sel.section) then ["t", sel.term.value, "p", sel.program.value]
    else ["t", sel.term.value, "p", sel.program.value, "s", sel.section.value]
  }

  function EncodeAll(fs: seq<string>): (es: seq<string>)
    ensures |es| == |fs| && forall i :: 0 <= i < |fs| ==> es[i] == EncodeComponent(fs[i])
  {
    seq(|fs|, i requires 0 <= i < |fs| => EncodeComponent(fs[i]))
  }

  function PathOf(basePath: string, sel: Selection): string {
    if Filters(sel) == [] then basePath else basePath + "/" + Join(EncodeAll(Filters(sel)), '/')
  }

  lemma LettersAreKept()
    ensures EncodeComponent("t") == "t" && EncodeComponent("p") == "p" && EncodeComponent("s") == "s"
  {
    assert forall c: char :: IsKept(c) ==> EncodeComponent([c]) == [c] + EncodeComponent([c][1..]);
  }

  method BuildTimetablePath(basePath: string, sel: Selection) returns (path: string)
    ensures path == PathOf(basePath, sel)
  {
    var segments: seq<string> := [];
    LettersAreKept();
    if Given(sel.term) {
      segments := segments + ["t", EncodeComponent(sel.term.value)];
      if Given(sel.program) {
        segments := segments + ["p", EncodeComponent(sel.program.value)];
        if Given(sel.section) {
          segments := segments + ["s", EncodeComponent(sel.section.value)];
        }
      }
    }
    assert segments == EncodeAll(Filters(sel));
    path := if |segments| > 0 then basePath + "/" + Join(segments, '/') else basePath;
  }

  // ----- parsing -----

  const EXPECTED := ["t", "p", "s"]

  /** Pairs of the expected prefix and a non-empty value, in order, no more than three. */
  predicate WellFormed(fs: seq<string>) {
    |fs| % 2 == 0 && |fs| <= 6 && forall i :: 0 <= i < |fs| ==> if i % 2 == 0 then fs[i] == EXPECTED[i / 2] else fs[i] != ""
  }

  /** What the segments select, or nothing when their shape is wrong. */
  function Parsed(fs: seq<string>): Option<Selection> {
    if !WellFormed(fs) then None
    else
      Some(Selection(
             if |fs| > 0 then Some(fs[1]) else None,
             if |fs| > 2 then Some(fs[3]) else None,
             if |fs| > 4 then Some(fs[5]) else None))
  }

  method ParseTimetableFilters(filters: seq<string>) returns (r: Option<Selection>)
    ensures r == Parsed(filters)
  {
    if |filters| == 0 {
      return Some(Selection(None, None, None));
    }
    if |filters| % 2 != 0 {
      return None;
    }
    var sel := Selection(None, None, None);
    var i := 0;
    while i < |filters|
      invariant 0 <= i <= |filters| && i % 2 == 0 && i <= 6
      invariant Parsed(filters[..i]) == Some(sel)
    {
      var prefix, value := filters[i], filters[i + 1];
      if i / 2 >= |EXPECTED| || prefix != EXPECTED[i / 2] || value == "" {
        return None;
      }
      assert filters[..i + 2] == filters[..i] + [prefix, value];
      if prefix == "t" {
        sel := sel.(term := Some(value));
      } else if prefix == "p" {
        sel := sel.(program := Some(value));
      } else {
        sel := sel.(section := Some(value));
      }
      i := i + 2;
    }
    assert filters[..|filters|] == filters;
    return Some(sel);
  }

  // ----- there and back -----

  function DecodeAll(es: seq<string>): Option<seq<string>> {
    if es == [] then Some([])
    else
      match (DecodeComponent(es[0]), DecodeAll(es[1..]))
      case (Some(f), Some(fs)) => Some([f] + fs)
      case _ => None
  }

  /** The decoded segments the router hands on for a path under `basePath`. */
  function SegmentsBelow(basePath: string, path: string): Option<seq<string>> {
    if path == basePath then Some([])
    else if basePath + "/" <= path then DecodeAll(Split(path[|basePath| + 1..], '/'))
    else None
  }

  lemma {:induction false} DecodeAllEncoded(fs: seq<string>)
    ensures DecodeAll(EncodeAll(fs)) == Some(fs)
  {
    if fs != [] {
      DecodeOfEncode(fs[0]);
      DecodeAllEncoded(fs[1..]);
      assert EncodeAll(fs)[1..] == EncodeAll(fs[1..]);
      assert [fs[0]] + fs[1..] == fs;
    }
  }

  lemma SegmentsOfPath(basePath: string, sel: Selection)
    ensures SegmentsBelow(basePath, PathOf(basePath, sel)) == Some(Filters(sel))
  {
    var es := EncodeAll(Filters(sel));
    if es != [] {
      var path := PathOf(basePath, sel);
      assert path[..|basePath| + 1] == basePath + "/" && path[|basePath| + 1..] == Join(es, '/');
      forall i | 0 <= i < |es| ensures '/' !in es[i] {
        EncodedIsOneSegment(Filters(sel)[i]);
      }
      SplitJoin(es, '/');
      DecodeAllEncoded(Filters(sel));
    }
  }

  /** A built path parses back to the selection it was built from, orphan levels dropped. */
  lemma ParseOfBuild(basePath: string, sel: Selection)
    ensures SegmentsBelow(basePath, PathOf(basePath, sel)).Some?
    ensures Parsed(SegmentsBelow(basePath, PathOf(basePath, sel)).value) == Some(Reachable(sel))
  {
    SegmentsOfPath(basePath, sel);
    ParsedOfFilters(sel);
  }

  lemma ParsedOfFilters(sel: Selection)
    ensures Parsed(Filters(sel)) == Some(Reachable(sel))
  {
  }

  /** Segments that parse at all are exactly the segments of the path built from what they parse to. */
  lemma BuildOfParse(basePath: string, fs: seq<string>)
    requires Parsed(fs).Some?
    ensures SegmentsBelow(basePath, PathOf(basePath, Parsed(fs).value)) == Some(fs)
  {
    SegmentsOfPath(basePath, Parsed(fs).value);
    FiltersOfParse(fs);
  }

  lemma FiltersOfParse(fs: seq<string>)
    requires Parsed(fs).Some?
    ensures Filters(Parsed(fs).value) == fs && Reachable(Parsed(fs).value) == Parsed(fs).value
  {
    assert |fs| > 0 ==> fs[0] == EXPECTED[0] && fs[1] != "";
    assert |fs| > 2 ==> fs[2] == EXPECTED[1] && fs[3] != "";
    assert |fs| > 4 ==> fs[4] == EXPECTED[2] && fs[5] != "";
    if |fs| == 2 { assert fs == [fs[0], fs[1]]; }
    else if |fs| == 4 { assert fs == [fs[0], fs[1], fs[2], fs[3]]; }
    else if |fs| == 6 { assert fs == [fs[0], fs[1], fs[2], fs[3], fs[4], fs[5]]; }
  }

  // ----- the old query form -----

  /** The parameters of a query string, in order. */
  type Query = seq<(string, string)>

  function Get(query: Query, key: string): Option<string> {
    if query == [] then None
    else if query[0].0 == key then Some(query[0].1)
    else Get(query[1..], key)
  }

  predicate IsTimetableRoot(pathname: string) {
    pathname == "timetable" || (|pathname| >= 10 && pathname[|pathname| - 10..] == "/timetable")
  }

  function QuerySelection(query: Query): Selection {
    Selection(Get(query, "term"), Get(query, "program"), Get(query, "section"))
  }

  /** The path an old timetable link moves to, or nothing when there is nothing to move. */
  function LegacyTimetableRedirect(pathname: string, query: Query): Option<string> {
    var sel := QuerySelection(query);
    if !IsTimetableRoot(pathname) then None
    else if !Given(sel.term) && !Given(sel.program) && !Given(sel.section) then None
    else Some(PathOf(pathname, sel))
  }

  /** Only a link with a query is moved. */
  lemma MovesOnlyQueries(pathname: string, query: Query)
    ensures LegacyTimetableRedirect(pathname, query).Some? ==> query != []
  {
  }
}
