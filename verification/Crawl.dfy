/** The portal crawl: every section of every degree of every semester, within the caps. */
module Crawl {
  import opened Wrappers

  /** A dropdown option. */
  datatype Choice = Choice(value: string, text: string)

  /** What a request comes to: an answer, a page that says we are blocked, a fixture nobody recorded, or any other error. */
  datatype Answer<T> = Got(value: T) | Blocked | NotRecorded | Failed(message: string)

  /** The portal, as it answers during one crawl. */
  datatype Portal = Portal(
    panel: Answer<seq<Choice>>,
    degrees: string -> Answer<seq<Choice>>,
    sections: (string, string) -> Answer<seq<Choice>>,
    timetable: (string, string, string) -> Answer<string>)

  datatype Limits = Limits(semesters: Option<int>, degrees: Option<int>, sections: Option<int>)

  datatype RawSection = RawSection(semester: Choice, degree: Choice, section: Choice, html: string)

  datatype Anomaly =
    | NoDegrees(semester: string, message: string)
    | NoSections(semester: string, degree: string, message: string)
    | NoTimetable(semester: string, degree: string, section: string, message: string)

  datatype CrawlError = PortalBlocked | PanelFailed | NoSemesters

  function Capped<T>(items: seq<T>, limit: Option<int>): seq<T> {
    if limit.Some? && 0 < limit.value < |items| then items[..limit.value] else items
  }

  // ----- what there is to visit -----

  /** A request of the crawl. */
  datatype Visit =
    | DegreesOf(semester: Choice)
    | SectionsOf(semester: Choice, degree: Choice)
    | TimetableOf(semester: Choice, degree: Choice, section: Choice)

  function TimetableVisits(s: Choice, d: Choice, xs: seq<Choice>): seq<Visit> {
    seq(|xs|, i requires 0 <= i < |xs| => TimetableOf(s, d, xs[i]))
  }

  function SectionsFor(p: Portal, limits: Limits, s: Choice, d: Choice): seq<Choice> {
    match p.sections(s.value, d.value)
    case Got(xs) => Capped(xs, limits.sections)
    case _ => []
  }

  function DegreesFor(p: Portal, limits: Limits, s: Choice): seq<Choice> {
    match p.degrees(s.value)
    case Got(ds) => Capped(ds, limits.degrees)
    case _ => []
  }

  function DegreeVisits(p: Portal, limits: Limits, s: Choice, d: Choice): seq<Visit> {
    [SectionsOf(s, d)] + TimetableVisits(s, d, SectionsFor(p, limits, s, d))
  }

  function DegreesVisits(p: Portal, limits: Limits, s: Choice, ds: seq<Choice>): seq<Visit> {
    if ds == [] then [] else DegreesVisits(p, limits, s, ds[..|ds| - 1]) + DegreeVisits(p, limits, s, ds[|ds| - 1])
  }

  function SemesterVisits(p: Portal, limits: Limits, s: Choice): seq<Visit> {
    [DegreesOf(s)] + DegreesVisits(p, limits, s, DegreesFor(p, limits, s))
  }

  /** Everything the portal offers within the caps, in its own order: what an unblocked crawl asks for. */
  function Visits(p: Portal, limits: Limits, ss: seq<Choice>): seq<Visit> {
    if ss == [] then [] else Visits(p, limits, ss[..|ss| - 1]) + SemesterVisits(p, limits, ss[|ss| - 1])
  }

  // ----- what comes of a visit -----

  datatype Outcome = Fetched(section: RawSection) | Opened | Stopped | Skipped | Lost(anomaly: Anomaly)

  function OutcomeOf(p: Portal, v: Visit): Outcome {
    match v
    case DegreesOf(s) => (
      match p.degrees(s.value)
      case Got(_) => Opened
      case Blocked => Stopped
      case NotRecorded => Skipped
      case Failed(message) => Lost(NoDegrees(s.value, message)))
    case SectionsOf(s, d) => (
      match p.sections(s.value, d.value)
      case Got(_) => Opened
      case Blocked => Stopped
      case NotRecorded => Skipped
      case Failed(message) => Lost(NoSections(s.value, d.value, message)))
    case TimetableOf(s, d, x) => (
      match p.timetable(s.value, d.value, x.value)
      case Got(html) => Fetched(RawSection(s, d, x, html))
      case Blocked => Stopped
      case NotRecorded => Skipped
      case Failed(message) => Lost(NoTimetable(s.value, d.value, x.value, message)))
  }

  function SectionsIn(p: Portal, visits: seq<Visit>): seq<RawSection> {
    if visits == [] then []
    else
      var o := OutcomeOf(p, visits[|visits| - 1]);
      SectionsIn(p, visits[..|visits| - 1]) + (if o.Fetched? then [o.section] else [])
  }

  function AnomaliesIn(p: Portal, visits: seq<Visit>): seq<Anomaly> {
    if visits == [] then []
    else
      var o := OutcomeOf(p, visits[|visits| - 1]);
      AnomaliesIn(p, visits[..|visits| - 1]) + (if o.Lost? then [o.anomaly] else [])
  }

  predicate AnyStopped(p: Portal, visits: seq<Visit>) {
    exists i :: 0 <= i < |visits| && OutcomeOf(p, visits[i]).Stopped?
  }

  lemma OneMore(p: Portal, visits: seq<Visit>, v: Visit)
    ensures var o := OutcomeOf(p, v);
      && SectionsIn(p, visits + [v]) == SectionsIn(p, visits) + (if o.Fetched? then [o.section] else [])
      && AnomaliesIn(p, visits + [v]) == AnomaliesIn(p, visits) + (if o.Lost? then [o.anomaly] else [])
      && (AnyStopped(p, visits + [v]) <==> AnyStopped(p, visits) || o.Stopped?)
  {
    hide OutcomeOf;
    var all := visits + [v];
    assert all[..|visits|] == visits && all[|visits|] == v;
    assert AnyStopped(p, visits) ==> AnyStopped(p, all) by {
      if AnyStopped(p, visits) {
        var i :| 0 <= i < |visits| && OutcomeOf(p, visits[i]).Stopped?;
        assert all[i] == visits[i];
      }
    }
    assert forall i :: 0 <= i < |visits| ==> all[i] == visits[i];
  }

  lemma StoppedFurther(p: Portal, visits: seq<Visit>, more: seq<Visit>)
    requires AnyStopped(p, visits)
    ensures AnyStopped(p, visits + more)
  {
    hide OutcomeOf;
    var i :| 0 <= i < |visits| && OutcomeOf(p, visits[i]).Stopped?;
    assert (visits + more)[i] == visits[i];
  }

  class Crawler {
    const portal: Portal
    const limits: Limits
    var sections: seq<RawSection>
    var anomalies: seq<Anomaly>
    ghost var visited: seq<Visit>

    constructor (portal: Portal, limits: Limits)
      ensures Valid() && this.portal == portal && this.limits == limits && visited == []
    {
      this.portal, this.limits := portal, limits;
      sections, anomalies, visited := [], [], [];
    }

    ghost predicate Valid()
      reads this
    {
      sections == SectionsIn(portal, visited) && anomalies == AnomaliesIn(portal, visited) && !AnyStopped(portal, visited)
    }

    /** One degree: its dropdown, then its sections one by one. */
    method CrawlDegree(s: Choice, d: Choice) returns (blocked: bool)
      requires Valid()
      modifies this
      ensures !blocked ==> Valid() && visited == old(visited) + DegreeVisits(portal, limits, s, d)
      ensures blocked ==> AnyStopped(portal, old(visited) + DegreeVisits(portal, limits, s, d))
    {
      hide SectionsIn, AnomaliesIn, AnyStopped;
      var xs: seq<Choice>;
      ghost var start, offered := visited, SectionsFor(portal, limits, s, d);
      OneMore(portal, start, SectionsOf(s, d));
      match portal.sections(s.value, d.value) {
        case Blocked =>
          StoppedFurther(portal, start + [SectionsOf(s, d)], TimetableVisits(s, d, offered));
          assert start + [SectionsOf(s, d)] + TimetableVisits(s, d, offered) == start + DegreeVisits(portal, limits, s, d);
          return true;
        case NotRecorded =>
          visited := start + [SectionsOf(s, d)];
          assert DegreeVisits(portal, limits, s, d) == [SectionsOf(s, d)];
          return false;
        case Failed(message) =>
          anomalies := anomalies + [NoSections(s.value, d.value, message)];
          visited := start + [SectionsOf(s, d)];
          assert DegreeVisits(portal, limits, s, d) == [SectionsOf(s, d)];
          return false;
        case Got(answer) => xs := Capped(answer, limits.sections);
      }
      visited := visited + [SectionsOf(s, d)];
      assert xs == offered;
      ghost var head := visited;
      assert head + TimetableVisits(s, d, xs) == start + DegreeVisits(portal, limits, s, d);
      assert head == head + TimetableVisits(s, d, xs)[..0];
      for i := 0 to |xs|
        invariant Valid() && visited == head + TimetableVisits(s, d, xs)[..i]
      {
        var x := xs[i];
        ghost var v := TimetableOf(s, d, x);
        OneMore(portal, visited, v);
        assert TimetableVisits(s, d, xs)[..i + 1] == TimetableVisits(s, d, xs)[..i] + [v];
        assert visited + [v] == head + TimetableVisits(s, d, xs)[..i + 1];
        match portal.timetable(s.value, d.value, x.value) {
          case Got(html) => sections := sections + [RawSection(s, d, x, html)];
          case Blocked =>
            StoppedFurther(portal, visited + [v], TimetableVisits(s, d, xs)[i + 1..]);
            assert visited + [v] + TimetableVisits(s, d, xs)[i + 1..] == head + TimetableVisits(s, d, xs);
            return true;
          case NotRecorded =>
          case Failed(message) => anomalies := anomalies + [NoTimetable(s.value, d.value, x.value, message)];
        }
        visited := visited + [v];
      }
      assert TimetableVisits(s, d, xs)[..|xs|] == TimetableVisits(s, d, xs);
      return false;
    }

    /** One semester: its dropdown, then its degrees one by one. */
    method CrawlSemester(s: Choice) returns (blocked: bool)
      requires Valid()
      modifies this
      ensures !blocked ==> Valid() && visited == old(visited) + SemesterVisits(portal, limits, s)
      ensures blocked ==> AnyStopped(portal, old(visited) + SemesterVisits(portal, limits, s))
    {
      hide SectionsIn, AnomaliesIn, AnyStopped, DegreeVisits, SectionsFor;
      var ds: seq<Choice>;
      ghost var start, offered := visited, DegreesFor(portal, limits, s);
      OneMore(portal, start, DegreesOf(s));
      match portal.degrees(s.value) {
        case Blocked =>
          StoppedFurther(portal, start + [DegreesOf(s)], DegreesVisits(portal, limits, s, offered));
          assert start + [DegreesOf(s)] + DegreesVisits(portal, limits, s, offered) == start + SemesterVisits(portal, limits, s);
          return true;
        case NotRecorded =>
          visited := start + [DegreesOf(s)];
          return false;
        case Failed(message) =>
          anomalies := anomalies + [NoDegrees(s.value, message)];
          visited := start + [DegreesOf(s)];
          return false;
        case Got(answer) => ds := Capped(answer, limits.degrees);
      }
      visited := visited + [DegreesOf(s)];
      assert ds == offered;
      ghost var head := visited;
      assert head + DegreesVisits(portal, limits, s, ds) == start + SemesterVisits(portal, limits, s);
      for i := 0 to |ds|
        invariant Valid() && visited == head + DegreesVisits(portal, limits, s, ds[..i])
      {
        ghost var before := visited;
        DegreesGrow(portal, limits, s, ds, i);
        blocked := CrawlDegree(s, ds[i]);
        assert before + DegreeVisits(portal, limits, s, ds[i]) == head + DegreesVisits(portal, limits, s, ds[..i + 1]);
        if blocked {
          var rest := DegreesRest(portal, limits, s, ds, i + 1);
          StoppedFurther(portal, head + DegreesVisits(portal, limits, s, ds[..i + 1]), rest);
          assert head + DegreesVisits(portal, limits, s, ds[..i + 1]) + rest == head + DegreesVisits(portal, limits, s, ds);
          return;
        }
      }
      assert ds[..|ds|] == ds;
      return false;
    }

    /** The whole crawl, from the semesters the panel lists. */
    method Crawl(semesters: seq<Choice>) returns (blocked: bool)
      requires Valid() && visited == []
      modifies this
      ensures blocked <==> AnyStopped(portal, Visits(portal, limits, semesters))
      ensures !blocked ==> Valid() && visited == Visits(portal, limits, semesters)
    {
      hide SectionsIn, AnomaliesIn, AnyStopped, SemesterVisits;
      for i := 0 to |semesters|
        invariant Valid() && visited == Visits(portal, limits, semesters[..i])
      {
        VisitsGrow(portal, limits, semesters, i);
        blocked := CrawlSemester(semesters[i]);
        if blocked {
          var rest := VisitsRest(portal, limits, semesters, i + 1);
          StoppedFurther(portal, Visits(portal, limits, semesters[..i + 1]), rest);
          return;
        }
      }
      assert semesters[..|semesters|] == semesters;
      return false;
    }
  }

  lemma DegreesGrow(p: Portal, limits: Limits, s: Choice, ds: seq<Choice>, i: nat)
    requires i < |ds|
    ensures DegreesVisits(p, limits, s, ds[..i + 1]) == DegreesVisits(p, limits, s, ds[..i]) + DegreeVisits(p, limits, s, ds[i])
  {
    hide DegreeVisits;
    assert ds[..i + 1][..i] == ds[..i];
  }

  lemma {:induction false} DegreesRest(p: Portal, limits: Limits, s: Choice, ds: seq<Choice>, i: nat) returns (rest: seq<Visit>)
    requires i <= |ds|
    ensures DegreesVisits(p, limits, s, ds) == DegreesVisits(p, limits, s, ds[..i]) + rest
    decreases |ds| - i
  {
    hide DegreeVisits;
    if i == |ds| {
      rest := [];
      assert ds[..i] == ds;
    } else {
      var later := DegreesRest(p, limits, s, ds, i + 1);
      DegreesGrow(p, limits, s, ds, i);
      rest := DegreeVisits(p, limits, s, ds[i]) + later;
    }
  }

  lemma VisitsGrow(p: Portal, limits: Limits, ss: seq<Choice>, i: nat)
    requires i < |ss|
    ensures Visits(p, limits, ss[..i + 1]) == Visits(p, limits, ss[..i]) + SemesterVisits(p, limits, ss[i])
  {
    hide SemesterVisits;
    assert ss[..i + 1][..i] == ss[..i];
  }

  lemma {:induction false} VisitsRest(p: Portal, limits: Limits, ss: seq<Choice>, i: nat) returns (rest: seq<Visit>)
    requires i <= |ss|
    ensures Visits(p, limits, ss) == Visits(p, limits, ss[..i]) + rest
    decreases |ss| - i
  {
    hide SemesterVisits;
    if i == |ss| {
      rest := [];
      assert ss[..i] == ss;
    } else {
      var later := VisitsRest(p, limits, ss, i + 1);
      VisitsGrow(p, limits, ss, i);
      rest := SemesterVisits(p, limits, ss[i]) + later;
    }
  }

  /** The semesters there are to crawl, or why the crawl does not start. */
  function Semesters(p: Portal, limits: Limits): Result<seq<Choice>, CrawlError> {
    match p.panel
    case Got(options) =>
      var ss := Capped(options, limits.semesters);
      if ss == [] then Err(NoSemesters) else Ok(ss)
    case Blocked => Err(PortalBlocked)
    case _ => Err(PanelFailed)
  }

  /** What the visits come to: nothing at all once one of them is blocked. */
  function Crawled(p: Portal, visits: seq<Visit>): Result<(seq<RawSection>, seq<Anomaly>), CrawlError> {
    if AnyStopped(p, visits) then Err(PortalBlocked) else Ok((SectionsIn(p, visits), AnomaliesIn(p, visits)))
  }

  /**
   * Crawl a portal. It fails when the panel does, and otherwise exactly when something it offers
   * answers with a block; otherwise it returns the sections fetched and the failures, in the
   * portal's order.
   */
  method CrawlPortal(portal: Portal, limits: Limits) returns (r: Result<(seq<RawSection>, seq<Anomaly>), CrawlError>)
    ensures Semesters(portal, limits).Err? ==> r == Err(Semesters(portal, limits).error)
    ensures Semesters(portal, limits).Ok? ==> r == Crawled(portal, Visits(portal, limits, Semesters(portal, limits).value))
  {
    hide SectionsIn, AnomaliesIn, AnyStopped, Visits;
    var start := Semesters(portal, limits);
    if start.Err? {
      return Err(start.error);
    }
    var crawler := new Crawler(portal, limits);
    var blocked := crawler.Crawl(start.value);
    return if blocked then Err(PortalBlocked) else Ok((crawler.sections, crawler.anomalies));
  }

  // ----- conservation -----

  /** The visits of each stage that came to nothing because no fixture was recorded. */
  function SkippedIn(p: Portal, visits: seq<Visit>): nat {
    if visits == [] then 0
    else SkippedIn(p, visits[..|visits| - 1]) + (if OutcomeOf(p, visits[|visits| - 1]).Skipped? then 1 else 0)
  }

  function OpenedIn(p: Portal, visits: seq<Visit>): nat {
    if visits == [] then 0
    else OpenedIn(p, visits[..|visits| - 1]) + (if OutcomeOf(p, visits[|visits| - 1]).Opened? then 1 else 0)
  }

  /** Unless blocked, every visit is a section fetched, a dropdown opened, one anomaly, or one skip, and nothing else. */
  lemma {:induction false} EveryVisitCounted(p: Portal, visits: seq<Visit>)
    requires !AnyStopped(p, visits)
    ensures |visits| == |SectionsIn(p, visits)| + OpenedIn(p, visits) + |AnomaliesIn(p, visits)| + SkippedIn(p, visits)
  {
    hide OutcomeOf;
    if visits != [] {
      var front := visits[..|visits| - 1];
      assert forall i :: 0 <= i < |front| ==> front[i] == visits[i];
      EveryVisitCounted(p, front);
      assert !OutcomeOf(p, visits[|visits| - 1]).Stopped?;
    }
  }

  lemma {:induction false} InOrder(p: Portal, front: seq<Visit>, back: seq<Visit>)
    ensures SectionsIn(p, front + back) == SectionsIn(p, front) + SectionsIn(p, back)
    ensures AnomaliesIn(p, front + back) == AnomaliesIn(p, front) + AnomaliesIn(p, back)
  {
    hide OutcomeOf;
    if back == [] {
      assert front + back == front;
    } else {
      var shorter := back[..|back| - 1];
      InOrder(p, front, shorter);
      assert (front + back)[..|front + back| - 1] == front + shorter;
    }
  }

  /**
   * What one visit adds, and where: everything fetched or lost before it comes before, everything
   * after it after.
   */
  lemma VisitLandsOnce(p: Portal, visits: seq<Visit>, i: nat)
    requires i < |visits|
    ensures var o := OutcomeOf(p, visits[i]);
      && SectionsIn(p, visits) ==
        SectionsIn(p, visits[..i]) + (if o.Fetched? then [o.section] else []) + SectionsIn(p, visits[i + 1..])
      && AnomaliesIn(p, visits) ==
        AnomaliesIn(p, visits[..i]) + (if o.Lost? then [o.anomaly] else []) + AnomaliesIn(p, visits[i + 1..])
  {
    hide OutcomeOf, SectionsIn, AnomaliesIn;
    assert visits == visits[..i] + [visits[i]] + visits[i + 1..];
    InOrder(p, visits[..i] + [visits[i]], visits[i + 1..]);
    OneMore(p, visits[..i], visits[i]);
  }

  /** A dropdown that fails costs one anomaly and nothing below it is asked for. */
  lemma FailedDropdown(p: Portal, limits: Limits, s: Choice, d: Choice)
    ensures p.degrees(s.value).Failed? ==>
      SemesterVisits(p, limits, s) == [DegreesOf(s)] && SectionsIn(p, SemesterVisits(p, limits, s)) == []
      && AnomaliesIn(p, SemesterVisits(p, limits, s)) == [NoDegrees(s.value, p.degrees(s.value).message)]
    ensures p.sections(s.value, d.value).Failed? ==>
      DegreeVisits(p, limits, s, d) == [SectionsOf(s, d)] && SectionsIn(p, DegreeVisits(p, limits, s, d)) == []
      && AnomaliesIn(p, DegreeVisits(p, limits, s, d)) == [NoSections(s.value, d.value, p.sections(s.value, d.value).message)]
  {
    OneMore(p, [], DegreesOf(s));
    OneMore(p, [], SectionsOf(s, d));
    assert [] + [DegreesOf(s)] == [DegreesOf(s)] && [] + [SectionsOf(s, d)] == [SectionsOf(s, d)];
  }

  /** What is asked for is what is offered: every section under dropdowns that opened, within the caps, and no other. */
  lemma {:induction false} OfferedIsVisited(p: Portal, limits: Limits, ss: seq<Choice>, s: Choice, d: Choice, x: Choice)
    ensures TimetableOf(s, d, x) in Visits(p, limits, ss) <==>
      s in ss && d in DegreesFor(p, limits, s) && x in SectionsFor(p, limits, s, d)
  {
    hide DegreesFor, SectionsFor;
    if ss != [] {
      var last := ss[|ss| - 1];
      assert ss == ss[..|ss| - 1] + [last];
      OfferedIsVisited(p, limits, ss[..|ss| - 1], s, d, x);
      OfferedInSemester(p, limits, last, DegreesFor(p, limits, last), s, d, x);
    }
  }

  lemma {:induction false} OfferedInSemester(p: Portal, limits: Limits, of: Choice, ds: seq<Choice>, s: Choice, d: Choice, x: Choice)
    ensures TimetableOf(s, d, x) in DegreesVisits(p, limits, of, ds) <==>
      s == of && d in ds && x in SectionsFor(p, limits, s, d)
  {
    hide SectionsFor;
    if ds != [] {
      var last := ds[|ds| - 1];
      assert ds == ds[..|ds| - 1] + [last];
      OfferedInSemester(p, limits, of, ds[..|ds| - 1], s, d, x);
      OfferedInDegree(of, last, SectionsFor(p, limits, of, last), s, d, x);
    }
  }

  lemma OfferedInDegree(of: Choice, under: Choice, xs: seq<Choice>, s: Choice, d: Choice, x: Choice)
    ensures TimetableOf(s, d, x) in TimetableVisits(of, under, xs) <==> s == of && d == under && x in xs
  {
    var visits := TimetableVisits(of, under, xs);
    if s == of && d == under && x in xs {
      var i :| 0 <= i < |xs| && xs[i] == x;
      assert visits[i] == TimetableOf(s, d, x);
    }
  }
}
