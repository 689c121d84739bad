/** What holds of the moderation tables after every run of steps. */
module ModerationRuns {
  import opened Wrappers
  import opened Access
  import opened Collections
  import opened Moderation

  /** A step of a run; the first four are the authors', the rest are the operations. */
  datatype Step =
    | AddPost(id: string, community: string, held: Option<Removal>)
    | AddComment(id: string, post: string, held: Option<Removal>)
    | DeletePost(id: string)
    | DeleteComment(id: string)
    | Report(who: Caller, target: Target, known: bool, at: int)
    | TakeDown(who: Caller, target: Target, reason: string, at: int)
    | Keep(who: Caller, target: Target, at: int)
    | SetPin(who: Caller, id: string, pinned: bool, at: int)

  datatype Rules = Rules(threshold: int, pinCap: int)

  const EMPTY := Desk(map[], map[], map[], [])

  function Stepped(rules: Rules, d: Desk, s: Step): Desk {
    match s
    case AddPost(id, community, held) =>
      if id in d.posts then d else d.(posts := d.posts[id := Post(community, held, false, None)])
    case AddComment(id, post, held) =>
      if id in d.comments || post !in d.posts then d else d.(comments := d.comments[id := Comment(post, held, false)])
    case DeletePost(id) =>
      if id in d.posts then d.(posts := d.posts[id := d.posts[id].(deleted := true)]) else d
    case DeleteComment(id) =>
      if id in d.comments then d.(comments := d.comments[id := d.comments[id].(deleted := true)]) else d
    case Report(who, target, known, at) =>
      if ReportRefusal(d, who, target, known).Some? then d else Reported(rules.threshold, d, who, target, at)
    case TakeDown(who, target, reason, at) =>
      if RemoveRefusal(d, who, target, reason).Some? then d else RemovedBy(d, who, target, reason, at)
    case Keep(who, target, at) =>
      if ModeratorRefusal(d, who, target).Some? then d else ApprovedBy(d, who, target, at)
    case SetPin(who, id, pinned, at) =>
      if PinRefusal(d, who, id, pinned, rules.pinCap).Some? then d else PinSet(d, who, id, pinned, at)
  }

  function After(rules: Rules, run: seq<Step>): Desk {
    if run == [] then EMPTY else Stepped(rules, After(rules, run[..|run| - 1]), run[|run| - 1])
  }

  // ----- automatic hiding -----

  function ClosedReporters(reports: map<ReportKey, Status>, target: Target): set<string> {
    set k | k in reports && k.target == target && reports[k].Resolved? :: k.reporter
  }

  function Reporters(reports: map<ReportKey, Status>, target: Target): set<string> {
    set k | k in reports && k.target == target :: k.reporter
  }

  /** How often the log says an item hid itself. */
  function Hides(log: seq<Entry>, target: Target): nat {
    if log == [] then 0
    else
      var e := log[|log| - 1];
      Hides(log[..|log| - 1], target) + (if e.action.AutoHide? && e.target == target then 1 else 0)
  }

  function Counted(d: Desk, x: Target): int {
    |ClosedReporters(d.reports, x)| + (if RemovalOf(d, x).Some? then |OpenReporters(d.reports, x)| else 0)
  }

  /**
   * An item that is up has fewer open reports than the threshold, and every time it hid itself a
   * threshold's worth of people are behind it who have been answered since, or are why it is down.
   */
  predicate Settled(threshold: int, d: Desk, x: Target) {
    && (CommunityOf(d, x).Some? && RemovalOf(d, x).None? ==> |OpenReporters(d.reports, x)| < threshold)
    && Hides(d.log, x) * threshold <= Counted(d, x)
  }

  /** Reports are about people, or about items that are there. */
  predicate Placed(d: Desk) {
    forall k :: k in d.reports ==> k.target.UserTarget? || CommunityOf(d, k.target).Some?
  }

  lemma NobodyReported(d: Desk, x: Target)
    requires Placed(d) && !x.UserTarget? && CommunityOf(d, x).None?
    ensures OpenReporters(d.reports, x) == {}
  {
    hide CommunityOf;
  }

  lemma HidesLogged(log: seq<Entry>, e: Entry, x: Target)
    ensures Hides(log + [e], x) == Hides(log, x) + (if e.action.AutoHide? && e.target == x then 1 else 0)
  {
    assert (log + [e])[..|log|] == log;
  }

  lemma RemovalSet(d: Desk, y: Target, removal: Option<Removal>, x: Target)
    requires CommunityOf(d, y).Some?
    ensures var after := SetRemoval(d, y, removal);
      && RemovalOf(after, x) == (if x == y then removal else RemovalOf(d, x))
      && CommunityOf(after, x) == CommunityOf(d, x)
      && after.reports == d.reports && after.log == d.log
  {
  }

  lemma InReporters(reports: map<ReportKey, Status>, x: Target, u: string)
    ensures u in OpenReporters(reports, x) <==> ReportKey(x, u) in reports && reports[ReportKey(x, u)].Open?
    ensures u in ClosedReporters(reports, x) <==> ReportKey(x, u) in reports && reports[ReportKey(x, u)].Resolved?
    ensures u in Reporters(reports, x) <==> ReportKey(x, u) in reports
  {
    assert ReportKey(x, u) in reports ==> ReportKey(x, u).reporter == u;
  }

  lemma ReportersWith(reports: map<ReportKey, Status>, y: Target, reporter: string, x: Target)
    requires ReportKey(y, reporter) !in reports
    ensures var after := reports[ReportKey(y, reporter) := Open];
      && ClosedReporters(after, x) == ClosedReporters(reports, x)
      && |OpenReporters(after, x)| == |OpenReporters(reports, x)| + (if x == y then 1 else 0)
  {
    hide OpenReporters, ClosedReporters, Reporters;
    var after := reports[ReportKey(y, reporter) := Open];
    InReporters(reports, y, reporter);
    var one := if x == y then {reporter} else {};
    forall u ensures u in OpenReporters(after, x) <==> u in OpenReporters(reports, x) + one {
      InReporters(after, x, u);
      InReporters(reports, x, u);
    }
    assert OpenReporters(after, x) == OpenReporters(reports, x) + one;
    forall u ensures u in ClosedReporters(after, x) <==> u in ClosedReporters(reports, x) {
      InReporters(after, x, u);
      InReporters(reports, x, u);
    }
  }

  lemma ReporterResolved(reports: map<ReportKey, Status>, y: Target, actor: string, resolution: Resolution, at: int, x: Target, u: string)
    ensures var after := Resolve(reports, y, actor, resolution, at);
      && (u in OpenReporters(after, x) <==> u in OpenReporters(reports, x) && x != y)
      && (u in ClosedReporters(after, x) <==> u in ClosedReporters(reports, x) || (u in OpenReporters(reports, x) && x == y))
      && !(u in OpenReporters(reports, x) && u in ClosedReporters(reports, x))
  {
    hide OpenReporters, ClosedReporters, Reporters;
    InReporters(reports, x, u);
    InReporters(Resolve(reports, y, actor, resolution, at), x, u);
  }

  lemma ReportersResolved(reports: map<ReportKey, Status>, y: Target, actor: string, resolution: Resolution, at: int, x: Target)
    ensures var after := Resolve(reports, y, actor, resolution, at);
      && |OpenReporters(after, x)| == (if x == y then 0 else |OpenReporters(reports, x)|)
      && |ClosedReporters(after, x)| == |ClosedReporters(reports, x)| + (if x == y then |OpenReporters(reports, x)| else 0)
  {
    hide *;
    var after := Resolve(reports, y, actor, resolution, at);
    var moved := if x == y then OpenReporters(reports, x) else {};
    forall u
      ensures u in OpenReporters(after, x) <==> u in OpenReporters(reports, x) - moved
      ensures u in ClosedReporters(after, x) <==> u in ClosedReporters(reports, x) + moved
      ensures u !in ClosedReporters(reports, x) * moved
    {
      ReporterResolved(reports, y, actor, resolution, at, x, u);
    }
    assert OpenReporters(after, x) == OpenReporters(reports, x) - moved;
    assert ClosedReporters(after, x) == ClosedReporters(reports, x) + moved;
    assert ClosedReporters(reports, x) !! moved;
  }

  lemma ReportSettles(threshold: int, d: Desk, who: Caller, y: Target, known: bool, at: int, x: Target)
    requires threshold >= 1 && Settled(threshold, d, x) && ReportRefusal(d, who, y, known).None?
    ensures Settled(threshold, Reported(threshold, d, who, y, at), x)
  {
    hide OpenReporters, ClosedReporters, Hides, RemovalOf, CommunityOf, SetRemoval;
    var d1 := d.(reports := d.reports[ReportKey(y, who.userId) := Open]);
    ReportersWith(d.reports, y, who.userId, x);
    SameItems(d, d1, x);
    SameItems(d, d1, y);
    if CommunityOf(d, y).Some? && RemovalOf(d, y).None? && |OpenReporters(d1.reports, y)| >= threshold {
      var open := |OpenReporters(d1.reports, y)|;
      RemovalSet(d1, y, Some(Removal(at, HIDDEN_BY_REPORTS)), x);
      var e := Entry(CommunityOf(d, y).value, SYSTEM_ACTOR, AutoHide(open), y);
      HidesLogged(d.log, e, x);
      var down := SetRemoval(d1, y, Some(Removal(at, HIDDEN_BY_REPORTS)));
      SameItems(down, Logged(down, e), x);
      if x == y {
        assert (Hides(d.log, x) + 1) * threshold == Hides(d.log, x) * threshold + threshold;
      }
    }
  }

  /** Removals and places are read from the items alone. */
  lemma SameItems(a: Desk, b: Desk, x: Target)
    requires a.posts == b.posts && a.comments == b.comments
    ensures RemovalOf(a, x) == RemovalOf(b, x) && CommunityOf(a, x) == CommunityOf(b, x) && IsDeleted(a, x) == IsDeleted(b, x)
  {
  }

  /** Both moderator actions: the removal set as it is to be, the open reports resolved, a line logged. */
  lemma ModeratorSettles(
    threshold: int, d: Desk, y: Target, removal: Option<Removal>, actor: string, resolution: Resolution, at: int, e: Entry, x: Target)
    requires threshold >= 1 && Settled(threshold, d, x) && Locate(d, y).Some? && !e.action.AutoHide?
    ensures var d1 := SetRemoval(d, y, removal);
      var after := Logged(d1.(reports := Resolve(d1.reports, y, actor, resolution, at)), e);
      Settled(threshold, after, x) && RemovalOf(after, x) == (if x == y then removal else RemovalOf(d, x))
  {
    hide OpenReporters, ClosedReporters, Hides, RemovalOf, CommunityOf, SetRemoval, Resolve;
    var d1 := SetRemoval(d, y, removal);
    var after := Logged(d1.(reports := Resolve(d1.reports, y, actor, resolution, at)), e);
    RemovalSet(d, y, removal, x);
    ReportersResolved(d.reports, y, actor, resolution, at, x);
    HidesLogged(d.log, e, x);
    SameItems(d1, after, x);
  }

  lemma SetSameRemoval(d: Desk, y: Target)
    ensures SetRemoval(d, y, RemovalOf(d, y)) == d
  {
    match y {
      case PostTarget(id) => { assert id in d.posts ==> d.posts[id := d.posts[id]] == d.posts; }
      case CommentTarget(id) => { assert id in d.comments ==> d.comments[id := d.comments[id]] == d.comments; }
      case UserTarget(_) => {}
    }
  }

  lemma RemoveSettles(threshold: int, d: Desk, who: Caller, y: Target, reason: string, at: int, x: Target)
    requires threshold >= 1 && Settled(threshold, d, x) && Locate(d, y).Some?
    ensures Settled(threshold, RemovedBy(d, who, y, reason, at), x)
  {
    hide Settled, SetRemoval, RemovalOf, Resolve, Locate;
    SetSameRemoval(d, y);
    var removal := if RemovalOf(d, y).None? then Some(Removal(at, reason)) else RemovalOf(d, y);
    ModeratorSettles(threshold, d, y, removal, who.userId, Removed, at,
                     Entry(Locate(d, y).value, who.userId, Remove(reason), y), x);
  }

  lemma ApproveSettles(threshold: int, d: Desk, who: Caller, y: Target, at: int, x: Target)
    requires threshold >= 1 && Settled(threshold, d, x) && Locate(d, y).Some?
    ensures Settled(threshold, ApprovedBy(d, who, y, at), x) && RemovalOf(ApprovedBy(d, who, y, at), y).None?
  {
    hide Settled, SetRemoval, RemovalOf, Resolve, Locate;
    SetSameRemoval(d, y);
    var e := Entry(Locate(d, y).value, who.userId, Approve(RemovalOf(d, y).Some?), y);
    ModeratorSettles(threshold, d, y, None, who.userId, Approved, at, e, x);
    ModeratorRemoval(d, y, None, who.userId, Approved, at, e);
  }

  lemma ModeratorRemoval(d: Desk, y: Target, removal: Option<Removal>, actor: string, resolution: Resolution, at: int, e: Entry)
    requires Locate(d, y).Some?
    ensures var d1 := SetRemoval(d, y, removal);
      RemovalOf(Logged(d1.(reports := Resolve(d1.reports, y, actor, resolution, at)), e), y) == removal
  {
    hide Resolve;
  }

  /** The steps that touch neither reports nor what is down leave everything settled. */
  lemma OtherStepSettles(rules: Rules, d: Desk, s: Step, x: Target)
    requires rules.threshold >= 1 && Settled(rules.threshold, d, x) && Placed(d)
    requires s.AddPost? || s.AddComment? || s.DeletePost? || s.DeleteComment? || s.SetPin?
    ensures Settled(rules.threshold, Stepped(rules, d, s), x)
  {
    hide OpenReporters, ClosedReporters, Hides, LivePins, PinRefusal, Placed;
    var after := Stepped(rules, d, s);
    assert after.reports == d.reports;
    if CommunityOf(d, x).None? && !x.UserTarget? {
      NobodyReported(d, x);
    }
    if s.SetPin? && after != d {
      HidesLogged(d.log, after.log[|d.log|], x);
    }
    OtherStepItems(rules, d, s, x);
  }

  lemma OtherStepItems(rules: Rules, d: Desk, s: Step, x: Target)
    requires s.AddPost? || s.AddComment? || s.DeletePost? || s.DeleteComment? || s.SetPin?
    ensures CommunityOf(d, x).Some? ==> RemovalOf(Stepped(rules, d, s), x) == RemovalOf(d, x)
    ensures CommunityOf(d, x).Some? ==> CommunityOf(Stepped(rules, d, s), x) == CommunityOf(d, x)
  {
    hide LivePins, PinRefusal;
  }

  /** Nothing that is there is ever moved or lost: deleting is a mark. */
  lemma StepKeepsPlace(rules: Rules, d: Desk, s: Step, x: Target)
    requires CommunityOf(d, x).Some?
    ensures CommunityOf(Stepped(rules, d, s), x) == CommunityOf(d, x)
  {
    hide LivePins, PinRefusal, OpenReporters, Resolve, RemovalOf, ReportRefusal, RemoveRefusal;
  }

  lemma StepReports(rules: Rules, d: Desk, s: Step, k: ReportKey)
    requires k in Stepped(rules, d, s).reports
    ensures k in d.reports || k.target.UserTarget? || CommunityOf(d, k.target).Some?
  {
    hide LivePins, PinRefusal, OpenReporters, RemovalOf, RemoveRefusal, CommunityOf;
  }

  lemma StepPlaces(rules: Rules, d: Desk, s: Step)
    requires Placed(d)
    ensures Placed(Stepped(rules, d, s))
  {
    hide Stepped, CommunityOf;
    var after := Stepped(rules, d, s);
    forall k | k in after.reports ensures k.target.UserTarget? || CommunityOf(after, k.target).Some? {
      StepReports(rules, d, s, k);
      if CommunityOf(d, k.target).Some? {
        StepKeepsPlace(rules, d, s, k.target);
      }
    }
  }

  lemma StepSettles(rules: Rules, d: Desk, s: Step, x: Target)
    requires rules.threshold >= 1 && Placed(d) && Settled(rules.threshold, d, x)
    ensures Settled(rules.threshold, Stepped(rules, d, s), x)
  {
    hide Settled, Placed, Reported, RemovedBy, ApprovedBy, PinSet, ReportRefusal, PinRefusal, Locate;
    match s
    case Report(who, y, known, at) =>
      if ReportRefusal(d, who, y, known).None? {
        ReportSettles(rules.threshold, d, who, y, known, at, x);
      }
    case TakeDown(who, y, reason, at) =>
      if RemoveRefusal(d, who, y, reason).None? {
        RemoveSettles(rules.threshold, d, who, y, reason, at, x);
      }
    case Keep(who, y, at) =>
      if ModeratorRefusal(d, who, y).None? {
        ApproveSettles(rules.threshold, d, who, y, at, x);
      }
    case _ =>
      OtherStepSettles(rules, d, s, x);
  }

  /** Every run leaves every item settled. */
  lemma {:induction false} RunSettles(rules: Rules, run: seq<Step>, x: Target)
    requires rules.threshold >= 1
    ensures Placed(After(rules, run)) && Settled(rules.threshold, After(rules, run), x)
  {
    hide Stepped, Placed, Settled;
    if run == [] {
      NothingReported(rules.threshold, x);
    } else {
      var before := After(rules, run[..|run| - 1]);
      RunSettles(rules, run[..|run| - 1], x);
      StepSettles(rules, before, run[|run| - 1], x);
      StepPlaces(rules, before, run[|run| - 1]);
    }
  }

  lemma NothingReported(threshold: int, x: Target)
    requires threshold >= 1
    ensures Placed(EMPTY) && Settled(threshold, EMPTY, x)
  {
    assert OpenReporters(EMPTY.reports, x) == {} && ClosedReporters(EMPTY.reports, x) == {};
  }

  /**
   * After every run an item that is up has fewer open reports than the threshold, and for every
   * time an item hid itself there are a threshold's worth of different people who reported it.
   */
  lemma HidingIsAmortised(rules: Rules, run: seq<Step>, x: Target)
    requires rules.threshold >= 1
    ensures var d := After(rules, run);
      && (CommunityOf(d, x).Some? && RemovalOf(d, x).None? ==> |OpenReporters(d.reports, x)| < rules.threshold)
      && Hides(d.log, x) * rules.threshold <= |Reporters(d.reports, x)|
  {
    hide OpenReporters, ClosedReporters, Reporters, After, CommunityOf, RemovalOf, Hides;
    var d := After(rules, run);
    RunSettles(rules, run, x);
    var open, closed := OpenReporters(d.reports, x), ClosedReporters(d.reports, x);
    forall u
      ensures u in open || u in closed <==> u in Reporters(d.reports, x)
      ensures !(u in open && u in closed)
    {
      InReporters(d.reports, x, u);
    }
    assert Reporters(d.reports, x) == open + closed && open !! closed;
  }

  /** So a report hides an item exactly when it is up and this is its threshold's report: never sooner, never late. */
  lemma HidesAtTheThreshold(rules: Rules, run: seq<Step>, who: Caller, x: Target, known: bool, at: int)
    requires rules.threshold >= 1
    requires ReportRefusal(After(rules, run), who, x, known).None? && !x.UserTarget?
    ensures var d := After(rules, run);
      RemovalOf(Reported(rules.threshold, d, who, x, at), x) != RemovalOf(d, x)
      <==> RemovalOf(d, x).None? && |OpenReporters(d.reports, x)| == rules.threshold - 1
  {
    hide OpenReporters, ClosedReporters, After, Hides, CommunityOf, RemovalOf, SetRemoval;
    var d := After(rules, run);
    HidingIsAmortised(rules, run, x);
    ReportersWith(d.reports, x, who.userId, x);
    var d1 := d.(reports := d.reports[ReportKey(x, who.userId) := Open]);
    SameItems(d, d1, x);
    var removal := Some(Removal(at, HIDDEN_BY_REPORTS));
    RemovalSet(d1, x, removal, x);
    if RemovalOf(d, x).None? && |OpenReporters(d1.reports, x)| >= rules.threshold {
      SameItems(SetRemoval(d1, x, removal), Reported(rules.threshold, d, who, x, at), x);
    } else {
      SameItems(d1, Reported(rules.threshold, d, who, x, at), x);
    }
  }

  // ----- the pin cap -----

  /** Whether a step puts a pinned post of a community back up. */
  predicate RestoresPin(d: Desk, s: Step, community: string) {
    s.Keep? && ModeratorRefusal(d, s.who, s.target).None? && s.target.PostTarget? &&
    var p := d.posts[s.target.id];
    p.removed.Some? && p.pinnedAt.Some? && p.community == community
  }

  function RestoredPins(rules: Rules, run: seq<Step>, community: string): nat {
    if run == [] then 0
    else
      var front := run[..|run| - 1];
      RestoredPins(rules, front, community) + (if RestoresPin(After(rules, front), run[|run| - 1], community) then 1 else 0)
  }

  predicate LivePin(p: Post, c: string) {
    p.community == c && p.pinnedAt.Some? && !p.deleted && p.removed.None?
  }

  lemma LivePinsWith(posts: map<string, Post>, id: string, p: Post, c: string)
    ensures LivePins(posts[id := p], c) == if LivePin(p, c) then LivePins(posts, c) + {id} else LivePins(posts, c) - {id}
  {
  }

  lemma PinnedIsThere(d: Desk, who: Caller, id: string, pinned: bool, cap: int)
    ensures PinRefusal(d, who, id, pinned, cap).None? ==> id in d.posts
  {
    hide LivePins;
  }

  /** What a step does to one post, if anything. */
  lemma StepPosts(rules: Rules, d: Desk, s: Step) returns (id: string, p: Post)
    ensures Stepped(rules, d, s).posts == d.posts || Stepped(rules, d, s).posts == d.posts[id := p]
    ensures id in d.posts ==> p.community == d.posts[id].community
    ensures id in d.posts && d.posts[id].deleted ==> p.deleted
    ensures id !in d.posts ==> p.pinnedAt.None?
    ensures id in d.posts && d.posts[id].pinnedAt.None? && p.pinnedAt.Some? ==>
      s.SetPin? && PinRefusal(d, s.who, s.id, s.pinned, rules.pinCap).None? && s.id == id && s.pinned
    ensures id in d.posts && d.posts[id].removed.Some? && p.removed.None? ==>
      s.Keep? && ModeratorRefusal(d, s.who, s.target).None? && s.target == PostTarget(id) && p.pinnedAt == d.posts[id].pinnedAt
  {
    hide OpenReporters, LivePins, Resolve, PinRefusal, CommunityOf;
    id := match s
      case AddPost(i, _, _) => i
      case DeletePost(i) => i
      case Report(_, target, _, _) => target.id
      case TakeDown(_, target, _, _) => target.id
      case Keep(_, target, _) => target.id
      case SetPin(_, i, _, _) => i
      case _ => "";
    if s.SetPin? {
      PinnedIsThere(d, s.who, s.id, s.pinned, rules.pinCap);
    }
    var after := Stepped(rules, d, s).posts;
    p := if id in after then after[id] else Post("", None, false, None);
  }

  lemma StepPins(rules: Rules, d: Desk, s: Step, c: string, extra: nat)
    requires |LivePins(d.posts, c)| <= rules.pinCap + extra
    ensures |LivePins(Stepped(rules, d, s).posts, c)| <= rules.pinCap + extra + (if RestoresPin(d, s, c) then 1 else 0)
  {
    hide Stepped, LivePins, ModeratorRefusal;
    var id, p := StepPosts(rules, d, s);
    LivePinsWith(d.posts, id, p, c);
    Sizes(LivePins(d.posts, c), id);
    InLivePins(d.posts, id, c);
  }

  lemma InLivePins(posts: map<string, Post>, id: string, c: string)
    ensures id in LivePins(posts, c) <==> id in posts && LivePin(posts[id], c)
  {
  }

  /** Over every run, live pins exceed the cap by at most the approvals that brought a pinned post back. */
  lemma {:induction false} PinsStayNearTheCap(rules: Rules, run: seq<Step>, c: string)
    requires rules.pinCap >= 0
    ensures |LivePins(After(rules, run).posts, c)| <= rules.pinCap + RestoredPins(rules, run, c)
  {
    hide Stepped, LivePins, RestoresPin;
    if run == [] {
      assert LivePins(map[], c) == {} by { NoPins(c); }
    } else {
      PinsStayNearTheCap(rules, run[..|run| - 1], c);
      StepPins(rules, After(rules, run[..|run| - 1]), run[|run| - 1], c, RestoredPins(rules, run[..|run| - 1], c));
    }
  }

  lemma NoPins(c: string)
    ensures LivePins(map[], c) == {}
  {
  }

  /** An approval takes a community that is within its cap past it exactly when it brings a pinned post back to a full one. */
  lemma ApprovalPastTheCap(d: Desk, who: Caller, id: string, at: int, cap: int)
    requires ModeratorRefusal(d, who, PostTarget(id)).None?
    requires |LivePins(d.posts, d.posts[id].community)| <= cap
    ensures |LivePins(ApprovedBy(d, who, PostTarget(id), at).posts, d.posts[id].community)| > cap
      <==> d.posts[id].removed.Some? && d.posts[id].pinnedAt.Some? && |LivePins(d.posts, d.posts[id].community)| == cap
  {
    hide LivePins, Resolve;
    var p := d.posts[id];
    var up := p.(removed := None);
    LivePinsWith(d.posts, id, up, p.community);
    Sizes(LivePins(d.posts, p.community), id);
    InLivePins(d.posts, id, p.community);
  }

  /** Pin one post, take it down, pin another in its place, and approve the first again. */
  function PinSwapRestore(who: Caller, c: string, reason: string, at: int): seq<Step> {
    [AddPost("a", c, None), AddPost("b", c, None), SetPin(who, "a", true, at), TakeDown(who, PostTarget("a"), reason, at),
     SetPin(who, "b", true, at), Keep(who, PostTarget("a"), at)]
  }

  lemma AfterNext(rules: Rules, run: seq<Step>, n: nat)
    requires n < |run|
    ensures After(rules, run[..n + 1]) == Stepped(rules, After(rules, run[..n]), run[n])
  {
    hide Stepped;
    assert run[..n + 1][..n] == run[..n];
  }

  lemma PinPosts(rules: Rules, d: Desk, who: Caller, id: string, at: int)
    requires who.allowed && id in d.posts && !d.posts[id].deleted && d.posts[id].pinnedAt.None?
    requires |LivePins(d.posts, d.posts[id].community)| < rules.pinCap
    ensures Stepped(rules, d, SetPin(who, id, true, at)).posts == d.posts[id := d.posts[id].(pinnedAt := Some(at))]
  {
    hide LivePins;
  }

  lemma TakeDownPosts(rules: Rules, d: Desk, who: Caller, id: string, reason: string, at: int)
    requires who.allowed && id in d.posts && !d.posts[id].deleted && d.posts[id].removed.None? && 3 <= |reason| <= 300
    ensures Stepped(rules, d, TakeDown(who, PostTarget(id), reason, at)).posts ==
      d.posts[id := d.posts[id].(removed := Some(Removal(at, reason)))]
  {
    hide Resolve;
  }

  lemma KeepPosts(rules: Rules, d: Desk, who: Caller, id: string, at: int)
    requires who.allowed && id in d.posts && !d.posts[id].deleted
    ensures Stepped(rules, d, Keep(who, PostTarget(id), at)).posts == d.posts[id := d.posts[id].(removed := None)]
  {
    hide Resolve;
    var p := d.posts[id];
    assert p.removed.None? ==> p.(removed := None) == p && d.posts[id := p] == d.posts;
  }

  /** With a cap of one that run ends with two live pins. */
  lemma ApprovalLeavesTwoPins(threshold: int, who: Caller, c: string, reason: string, at: int)
    requires who.allowed && 3 <= |reason| <= 300
    ensures LivePins(After(Rules(threshold, 1), PinSwapRestore(who, c, reason, at)).posts, c) == {"a", "b"}
  {
    hide After, Stepped, LivePins;
    var rules, run := Rules(threshold, 1), PinSwapRestore(who, c, reason, at);
    var plain := Post(c, None, false, None);
    var pinned, down := plain.(pinnedAt := Some(at)), Post(c, Some(Removal(at, reason)), false, Some(at));
    PinSwapPosts(threshold, who, c, reason, at);
    AfterNext(rules, run, 2);
    AfterNext(rules, run, 3);
    AfterNext(rules, run, 4);
    AfterNext(rules, run, 5);
    assert run[..6] == run;
    NoPins(c);
    PinsOfTwo(plain, plain, c);
    PinPosts(rules, After(rules, run[..2]), who, "a", at);
    TakeDownPosts(rules, After(rules, run[..3]), who, "a", reason, at);
    assert After(rules, run[..4]).posts == map["a" := down, "b" := plain];
    PinsOfTwo(down, plain, c);
    PinPosts(rules, After(rules, run[..4]), who, "b", at);
    KeepPosts(rules, After(rules, run[..5]), who, "a", at);
    assert After(rules, run).posts == map["a" := pinned, "b" := pinned];
    PinsOfTwo(pinned, pinned, c);
  }

  lemma PinsOfTwo(a: Post, b: Post, c: string)
    ensures LivePins(map["a" := a, "b" := b], c) == (if LivePin(a, c) then {"a"} else {}) + (if LivePin(b, c) then {"b"} else {})
  {
  }

  lemma PinSwapPosts(threshold: int, who: Caller, c: string, reason: string, at: int)
    ensures After(Rules(threshold, 1), PinSwapRestore(who, c, reason, at)[..2]).posts ==
      map["a" := Post(c, None, false, None), "b" := Post(c, None, false, None)]
  {
    hide LivePins;
    var rules, run := Rules(threshold, 1), PinSwapRestore(who, c, reason, at);
    AfterNext(rules, run, 0);
    AfterNext(rules, run, 1);
    assert run[..0] == [];
  }

  // ----- removing and approving against each other -----

  /** Removing again changes no item and no report: the first reason stays. */
  lemma RemoveIsIdempotent(d: Desk, who: Caller, y: Target, reason: string, at: int, again: Caller, other: string, later: int)
    requires Locate(d, y).Some?
    ensures var once := RemovedBy(d, who, y, reason, at);
      && Locate(once, y).Some?
      && RemovalOf(once, y) == (if RemovalOf(d, y).Some? then RemovalOf(d, y) else Some(Removal(at, reason)))
      && var twice := RemovedBy(once, again, y, other, later);
        twice.posts == once.posts && twice.comments == once.comments && twice.reports == once.reports
  {
    hide SetRemoval, RemovalOf, Resolve, CommunityOf, IsDeleted;
    var once := RemovedBy(d, who, y, reason, at);
    var removal := if RemovalOf(d, y).Some? then RemovalOf(d, y) else Some(Removal(at, reason));
    SetSameRemoval(d, y);
    RemovalSet(d, y, removal, y);
    SameItems(SetRemoval(d, y, removal), once, y);
    DeletionKept(d, y, removal);
    ResolvedTwice(d.reports, y, who.userId, Removed, at, again.userId, Removed, later);
  }

  lemma DeletionKept(d: Desk, y: Target, removal: Option<Removal>)
    ensures IsDeleted(SetRemoval(d, y, removal), y) == IsDeleted(d, y)
  {
  }

  lemma ResolvedTwice(
    reports: map<ReportKey, Status>, y: Target, actor: string, r: Resolution, at: int, other: string, q: Resolution, later: int)
    ensures Resolve(Resolve(reports, y, actor, r, at), y, other, q, later) == Resolve(reports, y, actor, r, at)
  {
  }

  /** Approving what was just removed puts every item back as it was; the reports stay answered as removed. */
  lemma ApproveUndoesRemove(d: Desk, who: Caller, y: Target, reason: string, at: int, again: Caller, later: int)
    requires Locate(d, y).Some? && RemovalOf(d, y).None?
    ensures var removed := RemovedBy(d, who, y, reason, at);
      && Locate(removed, y).Some?
      && var approved := ApprovedBy(removed, again, y, later);
        approved.posts == d.posts && approved.comments == d.comments && approved.reports == removed.reports
  {
    hide Resolve;
    ResolvedTwice(d.reports, y, who.userId, Removed, at, again.userId, Approved, later);
  }
}
