/**
 * Reports, removals and pins: what a report, a removal, an approval and a pin do to the tables, each
 * one transaction.
 */
module Moderation {
  import opened Wrappers
  import opened Access

  datatype Target = PostTarget(id: string) | CommentTarget(id: string) | UserTarget(id: string)

  /** When and why an item was taken down: `removedAt` and `removalReason` together. */
  datatype Removal = Removal(at: int, reason: string)

  datatype Post = Post(community: string, removed: Option<Removal>, deleted: bool, pinnedAt: Option<int>)
  datatype Comment = Comment(post: string, removed: Option<Removal>, deleted: bool)

  datatype Resolution = Approved | Removed
  datatype Status = Open | Resolved(resolution: Resolution, resolvedBy: string, at: int)

  /** The unique key of a report: one per person and target. */
  datatype ReportKey = ReportKey(target: Target, reporter: string)

  datatype Action =
    | AutoHide(reports: nat) | Remove(reason: string) | Approve(restored: bool) | Pin | Unpin | PinOrder(up: bool)
  datatype Entry = Entry(community: string, actor: string, action: Action, target: Target)

  datatype Desk = Desk(
    posts: map<string, Post>, comments: map<string, Comment>,
    reports: map<ReportKey, Status>, log: seq<Entry>)

  const SYSTEM_ACTOR := "00000000-0000-0000-0000-000000000000"
  const HIDDEN_BY_REPORTS := "auto:reports"

  // ----- reading -----

  function PostOf(d: Desk, target: Target): Option<string> {
    match target
    case PostTarget(id) => if id in d.posts then Some(id) else None
    case CommentTarget(id) =>
      if id in d.comments && d.comments[id].post in d.posts then Some(d.comments[id].post) else None
    case UserTarget(_) => None
  }

  /** Where a target lives, deleted or not; a comment lives where its post does. */
  function CommunityOf(d: Desk, target: Target): Option<string> {
    match PostOf(d, target)
    case Some(post) => Some(d.posts[post].community)
    case None => None
  }

  function RemovalOf(d: Desk, target: Target): Option<Removal> {
    match target
    case PostTarget(id) => if id in d.posts then d.posts[id].removed else None
    case CommentTarget(id) => if id in d.comments then d.comments[id].removed else None
    case UserTarget(_) => None
  }

  predicate IsDeleted(d: Desk, target: Target) {
    match target
    case PostTarget(id) => id in d.posts && d.posts[id].deleted
    case CommentTarget(id) => id in d.comments && d.comments[id].deleted
    case UserTarget(_) => false
  }

  /** The community of an item the moderators can still act on: known, and not deleted by its author. */
  function Locate(d: Desk, target: Target): Option<string> {
    if IsDeleted(d, target) then None else CommunityOf(d, target)
  }

  function OpenReporters(reports: map<ReportKey, Status>, target: Target): set<string> {
    set k | k in reports && k.target == target && reports[k].Open? :: k.reporter
  }

  function LivePins(posts: map<string, Post>, community: string): set<string> {
    set id | id in posts && posts[id].community == community && posts[id].pinnedAt.Some?
      && !posts[id].deleted && posts[id].removed.None?
  }

  // ----- writing -----

  function SetRemoval(d: Desk, target: Target, removal: Option<Removal>): Desk {
    match target
    case PostTarget(id) =>
      if id in d.posts then d.(posts := d.posts[id := d.posts[id].(removed := removal)]) else d
    case CommentTarget(id) =>
      if id in d.comments then d.(comments := d.comments[id := d.comments[id].(removed := removal)]) else d
    case UserTarget(_) => d
  }

  function Resolve(reports: map<ReportKey, Status>, target: Target, actor: string, resolution: Resolution, at: int)
    : map<ReportKey, Status>
  {
    map k | k in reports :: if k.target == target && reports[k].Open? then Resolved(resolution, actor, at) else reports[k]
  }

  function Logged(d: Desk, e: Entry): Desk {
    d.(log := d.log + [e])
  }

  function ReportRefusal(d: Desk, who: Caller, target: Target, known: bool): Option<Refusal> {
    if !who.verified then Some(NotVerified)
    else if who.recent >= REPORTS_PER_HOUR then Some(RateLimited)
    else if target.UserTarget? && target.id == who.userId then Some(Myself)
    else if target.UserTarget? && !known then Some(NotFound)
    else if !target.UserTarget? && CommunityOf(d, target).None? then Some(NotFound)
    else if ReportKey(target, who.userId) in d.reports then Some(Exists)
    else None
  }

  /** The report goes in; an item that is up and has reached the threshold comes down. */
  function Reported(threshold: int, d: Desk, who: Caller, target: Target, at: int): Desk {
    var d1 := d.(reports := d.reports[ReportKey(target, who.userId) := Open]);
    var open := |OpenReporters(d1.reports, target)|;
    match CommunityOf(d, target)
    case None => d1
    case Some(community) =>
      if RemovalOf(d, target).Some? || open < threshold then d1
      else Logged(SetRemoval(d1, target, Some(Removal(at, HIDDEN_BY_REPORTS))),
                  Entry(community, SYSTEM_ACTOR, AutoHide(open), target))
  }

  function ModeratorRefusal(d: Desk, who: Caller, target: Target): Option<Refusal> {
    if Locate(d, target).None? then Some(NotFound) else if !who.allowed then Some(NotAllowed) else None
  }

  function RemoveRefusal(d: Desk, who: Caller, target: Target, reason: string): Option<Refusal> {
    if |reason| < 3 || |reason| > 300 then Some(Invalid) else ModeratorRefusal(d, who, target)
  }

  /** Down with a reason, the first one kept if it was down already; open reports answered as removed. */
  function RemovedBy(d: Desk, who: Caller, target: Target, reason: string, at: int): Desk
    requires Locate(d, target).Some?
  {
    var d1 := if RemovalOf(d, target).None? then SetRemoval(d, target, Some(Removal(at, reason))) else d;
    Logged(d1.(reports := Resolve(d1.reports, target, who.userId, Removed, at)),
           Entry(Locate(d, target).value, who.userId, Remove(reason), target))
  }

  /** Up again if it was down; open reports answered as approved. */
  function ApprovedBy(d: Desk, who: Caller, target: Target, at: int): Desk
    requires Locate(d, target).Some?
  {
    var d1 := if RemovalOf(d, target).Some? then SetRemoval(d, target, None) else d;
    Logged(d1.(reports := Resolve(d1.reports, target, who.userId, Approved, at)),
           Entry(Locate(d, target).value, who.userId, Approve(RemovalOf(d, target).Some?), target))
  }

  function PinRefusal(d: Desk, who: Caller, post: string, pinned: bool, cap: int): Option<Refusal> {
    var refusal := ModeratorRefusal(d, who, PostTarget(post));
    if refusal.Some? then refusal
    else if pinned && d.posts[post].pinnedAt.None? && |LivePins(d.posts, d.posts[post].community)| >= cap then Some(PinCap)
    else None
  }

  function PinSet(d: Desk, who: Caller, post: string, pinned: bool, at: int): Desk
    requires post in d.posts
  {
    var p := d.posts[post];
    if pinned == p.pinnedAt.Some? then d
    else
      Logged(d.(posts := d.posts[post := p.(pinnedAt := if pinned then Some(at) else None)]),
             Entry(p.community, who.userId, if pinned then Pin else Unpin, PostTarget(post)))
  }

  // ----- the order of the pins -----

  function PinTime(posts: map<string, Post>, id: string): int {
    if id in posts && posts[id].pinnedAt.Some? then posts[id].pinnedAt.value else 0
  }

  /** Rows the pin query may answer with: every live pin once, the last pinned first, ties in any order. */
  ghost predicate IsPinOrder(posts: map<string, Post>, community: string, pins: seq<string>) {
    && (forall id :: id in pins <==> id in LivePins(posts, community))
    && (forall i, j :: 0 <= i < j < |pins| ==> pins[i] != pins[j])
    && (forall i, j :: 0 <= i < j < |pins| ==> PinTime(posts, pins[i]) >= PinTime(posts, pins[j]))
  }

  lemma PinIsThere(posts: map<string, Post>, community: string, pins: seq<string>, i: int)
    requires IsPinOrder(posts, community, pins) && 0 <= i < |pins|
    ensures pins[i] in posts && posts[pins[i]].pinnedAt.Some?
  {
    assert pins[i] in pins;
  }

  function IndexOf(pins: seq<string>, id: string): (i: int)
    ensures id in pins ==> 0 <= i < |pins| && pins[i] == id
    ensures id !in pins ==> i == -1
  {
    if pins == [] then -1
    else if pins[0] == id then 0
    else
      var rest := IndexOf(pins[1..], id);
      if rest < 0 then -1 else rest + 1
  }

  /** Where the post it trades places with stands. */
  function Other(i: int, up: bool): int {
    if up then i - 1 else i + 1
  }

  function MovePinRefusal(d: Desk, who: Caller, post: string): Option<Refusal> {
    if Locate(d, PostTarget(post)).None? || d.posts[post].pinnedAt.None? then Some(NotFound)
    else if !who.allowed then Some(NotAllowed)
    else None
  }

  /** Whether there is anybody on that side to trade places with. */
  predicate CanMove(pins: seq<string>, post: string, up: bool) {
    var i := IndexOf(pins, post);
    i >= 0 && 0 <= Other(i, up) < |pins|
  }

  /** The two pin times trade places; equal times would not reorder, so one moving up takes a millisecond more. */
  function Retimed(posts: map<string, Post>, a: string, b: string, up: bool): map<string, Post>
    requires a in posts && b in posts && posts[a].pinnedAt.Some? && posts[b].pinnedAt.Some?
  {
    var ta, tb := posts[a].pinnedAt.value, posts[b].pinnedAt.value;
    var forA := if up && ta == tb then tb + 1 else tb;
    posts[a := posts[a].(pinnedAt := Some(forA))][b := posts[b].(pinnedAt := Some(ta))]
  }

  function PinMoved(d: Desk, who: Caller, post: string, up: bool, pins: seq<string>): Desk
    requires post in d.posts && d.posts[post].pinnedAt.Some? && IsPinOrder(d.posts, d.posts[post].community, pins)
  {
    if !CanMove(pins, post, up) then d
    else
      var j := Other(IndexOf(pins, post), up);
      var other := pins[j];
      assert other in d.posts && d.posts[other].pinnedAt.Some? by { PinIsThere(d.posts, d.posts[post].community, pins, j); }
      Logged(d.(posts := Retimed(d.posts, post, other, up)),
             Entry(d.posts[post].community, who.userId, PinOrder(up), PostTarget(post)))
  }

  class Tables {
    var posts: map<string, Post>
    var comments: map<string, Comment>
    var reports: map<ReportKey, Status>
    var log: seq<Entry>

    constructor (d: Desk)
      ensures Now() == d
    {
      posts, comments, reports, log := d.posts, d.comments, d.reports, d.log;
    }

    function Now(): Desk
      reads this
    {
      Desk(posts, comments, reports, log)
    }

    /** Report a post, a comment or a person; true when the report hid the item. `known` is whether the person is here. */
    method ReportItem(who: Caller, target: Target, known: bool, threshold: int, at: int) returns (r: Result<bool, Refusal>)
      modifies this
      ensures r.Err? ==> Some(r.error) == ReportRefusal(old(Now()), who, target, known) && Now() == old(Now())
      ensures r.Ok? ==> ReportRefusal(old(Now()), who, target, known).None?
      ensures r.Ok? ==> Now() == Reported(threshold, old(Now()), who, target, at)
      ensures r.Ok? ==> r.value == (RemovalOf(Now(), target) != RemovalOf(old(Now()), target))
    {
      var refusal := ReportRefusal(Now(), who, target, known);
      if refusal.Some? {
        return Err(refusal.value);
      }
      var removed := RemovalOf(Now(), target).Some?;
      var community := CommunityOf(Now(), target);
      reports := reports[ReportKey(target, who.userId) := Open];
      if community.None? {
        return Ok(false);
      }
      var open := |OpenReporters(reports, target)|;
      if removed || open < threshold {
        return Ok(false);
      }
      TakeDown(target, Some(Removal(at, HIDDEN_BY_REPORTS)));
      log := log + [Entry(community.value, SYSTEM_ACTOR, AutoHide(open), target)];
      return Ok(true);
    }

    /** Update the removal columns of a post or a comment. */
    method TakeDown(target: Target, removal: Option<Removal>)
      modifies this`posts, this`comments
      ensures Now() == SetRemoval(old(Now()), target, removal)
    {
      match target
      case PostTarget(id) =>
        if id in posts {
          posts := posts[id := posts[id].(removed := removal)];
        }
      case CommentTarget(id) =>
        if id in comments {
          comments := comments[id := comments[id].(removed := removal)];
        }
      case UserTarget(_) =>
    }

    /** Take an item down with a reason, 3 to 300 characters once trimmed. */
    method RemoveItem(who: Caller, target: Target, reason: string, at: int) returns (r: Result<(), Refusal>)
      modifies this
      ensures r.Err? ==> Some(r.error) == RemoveRefusal(old(Now()), who, target, reason) && Now() == old(Now())
      ensures r.Ok? ==> RemoveRefusal(old(Now()), who, target, reason).None?
      ensures r.Ok? ==> Now() == RemovedBy(old(Now()), who, target, reason, at)
    {
      var refusal := RemoveRefusal(Now(), who, target, reason);
      if refusal.Some? {
        return Err(refusal.value);
      }
      var community := Locate(Now(), target).value;
      if RemovalOf(Now(), target).None? {
        TakeDown(target, Some(Removal(at, reason)));
      }
      reports := Resolve(reports, target, who.userId, Removed, at);
      log := log + [Entry(community, who.userId, Remove(reason), target)];
      return Ok(());
    }

    /** Keep an item: restore it if it was down. */
    method ApproveItem(who: Caller, target: Target, at: int) returns (r: Result<(), Refusal>)
      modifies this
      ensures r.Err? ==> Some(r.error) == ModeratorRefusal(old(Now()), who, target) && Now() == old(Now())
      ensures r.Ok? ==> ModeratorRefusal(old(Now()), who, target).None? && Now() == ApprovedBy(old(Now()), who, target, at)
    {
      var refusal := ModeratorRefusal(Now(), who, target);
      if refusal.Some? {
        return Err(refusal.value);
      }
      var community := Locate(Now(), target).value;
      var restored := RemovalOf(Now(), target).Some?;
      if restored {
        TakeDown(target, None);
      }
      reports := Resolve(reports, target, who.userId, Approved, at);
      log := log + [Entry(community, who.userId, Approve(restored), target)];
      return Ok(());
    }

    /** Pin or unpin a post, within the cap. */
    method SetPinned(who: Caller, post: string, pinned: bool, cap: int, at: int) returns (r: Result<bool, Refusal>)
      modifies this
      ensures r.Err? ==> Some(r.error) == PinRefusal(old(Now()), who, post, pinned, cap) && Now() == old(Now())
      ensures r.Ok? ==> PinRefusal(old(Now()), who, post, pinned, cap).None? && r.value == pinned
      ensures r.Ok? ==> post in old(posts) && Now() == PinSet(old(Now()), who, post, pinned, at)
    {
      var refusal := PinRefusal(Now(), who, post, pinned, cap);
      if refusal.Some? {
        return Err(refusal.value);
      }
      var p := posts[post];
      if pinned == p.pinnedAt.Some? {
        return Ok(pinned);
      }
      posts := posts[post := p.(pinnedAt := if pinned then Some(at) else None)];
      log := log + [Entry(p.community, who.userId, if pinned then Pin else Unpin, PostTarget(post))];
      return Ok(pinned);
    }

    /** Move a pin one step; `pins` is what the query for the community's live pins answered. */
    method MovePin(who: Caller, post: string, up: bool, pins: seq<string>) returns (r: Result<bool, Refusal>)
      requires post in posts ==> IsPinOrder(posts, posts[post].community, pins)
      modifies this
      ensures r.Err? ==> Some(r.error) == MovePinRefusal(old(Now()), who, post) && Now() == old(Now())
      ensures r.Ok? ==> MovePinRefusal(old(Now()), who, post).None? && r.value == CanMove(pins, post, up)
      ensures r.Ok? ==> post in old(posts) && old(posts)[post].pinnedAt.Some?
      ensures r.Ok? ==> Now() == PinMoved(old(Now()), who, post, up, pins)
    {
      hide IsPinOrder, LivePins;
      var refusal := MovePinRefusal(Now(), who, post);
      if refusal.Some? {
        return Err(refusal.value);
      }
      var i := IndexOf(pins, post);
      var j := if up then i - 1 else i + 1;
      if i < 0 || j < 0 || j >= |pins| {
        return Ok(false);
      }
      var a, b := pins[i], pins[j];
      PinIsThere(posts, posts[post].community, pins, i);
      PinIsThere(posts, posts[post].community, pins, j);
      var ta, tb := posts[a].pinnedAt.value, posts[b].pinnedAt.value;
      var forA := if up && tb == ta then tb + 1 else tb;
      posts := posts[a := posts[a].(pinnedAt := Some(forA))];
      posts := posts[b := posts[b].(pinnedAt := Some(ta))];
      log := log + [Entry(posts[post].community, who.userId, PinOrder(up), PostTarget(post))];
      return Ok(true);
    }
  }
}
