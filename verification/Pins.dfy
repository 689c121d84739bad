/** What moving a pin does to the order of a community's pins. */
module Pins {
  import opened Moderation

  function Swapped(pins: seq<string>, i: int, j: int): (swapped: seq<string>)
    requires 0 <= i < |pins| && 0 <= j < |pins|
    ensures |swapped| == |pins|
  {
    pins[i := pins[j]][j := pins[i]]
  }

  /** The pin times down the list. */
  function Times(posts: map<string, Post>, pins: seq<string>): (ts: seq<int>)
    ensures |ts| == |pins|
  {
    seq(|pins|, i requires 0 <= i < |pins| => PinTime(posts, pins[i]))
  }

  predicate Falling(ts: seq<int>) {
    forall i, j :: 0 <= i < j < |ts| ==> ts[i] >= ts[j]
  }

  /** No two of the pins were pinned at the same time. */
  ghost predicate TimesDiffer(posts: map<string, Post>, pins: seq<string>) {
    forall i, j :: 0 <= i < j < |pins| ==> PinTime(posts, pins[i]) != PinTime(posts, pins[j])
  }

  lemma LivePinsRetimed(posts: map<string, Post>, a: string, b: string, up: bool, c: string)
    requires a in posts && b in posts && posts[a].pinnedAt.Some? && posts[b].pinnedAt.Some?
    ensures LivePins(Retimed(posts, a, b, up), c) == LivePins(posts, c)
  {
  }

  /** What a post moving up past its equal is given on top. */
  function Bump(ts: seq<int>, i: int, j: int, up: bool): int
    requires 0 <= i < |ts| && 0 <= j < |ts|
  {
    if up && ts[i] == ts[j] then 1 else 0
  }

  lemma TimesRetimed(posts: map<string, Post>, c: string, pins: seq<string>, i: int, j: int, up: bool)
    requires IsPinOrder(posts, c, pins) && 0 <= i < |pins| && 0 <= j < |pins| && i != j
    ensures pins[i] in posts && pins[j] in posts && posts[pins[i]].pinnedAt.Some? && posts[pins[j]].pinnedAt.Some?
    ensures var ts := Times(posts, pins);
      Times(Retimed(posts, pins[i], pins[j], up), Swapped(pins, i, j)) == ts[j := ts[j] + Bump(ts, i, j, up)]
  {
    hide LivePins;
    PinIsThere(posts, c, pins, i);
    PinIsThere(posts, c, pins, j);
  }

  lemma OrderIsByTimes(posts: map<string, Post>, c: string, pins: seq<string>)
    ensures IsPinOrder(posts, c, pins) <==>
      (forall id :: id in pins <==> id in LivePins(posts, c)) && Distinct(pins) && Falling(Times(posts, pins))
  {
    hide LivePins, PinTime;
    var ts := Times(posts, pins);
    assert forall i :: 0 <= i < |pins| ==> ts[i] == PinTime(posts, pins[i]);
  }

  predicate Distinct(pins: seq<string>) {
    forall i, j :: 0 <= i < j < |pins| ==> pins[i] != pins[j]
  }

  lemma SwapKeepsMembers(pins: seq<string>, i: int, j: int)
    requires 0 <= i < |pins| && 0 <= j < |pins|
    ensures forall id :: id in Swapped(pins, i, j) <==> id in pins
    ensures Distinct(pins) ==> Distinct(Swapped(pins, i, j))
  {
    var s := Swapped(pins, i, j);
    forall id ensures id in s <==> id in pins {
      if id in pins {
        var k :| 0 <= k < |pins| && pins[k] == id;
        assert s[if k == i then j else if k == j then i else k] == id;
      }
    }
  }

  lemma FallingBump(ts: seq<int>, i: int, j: int, up: bool)
    requires Falling(ts) && 0 <= i < |ts| && 0 <= j < |ts| && j == Other(i, up)
    ensures Falling(ts[j := ts[j] + Bump(ts, i, j, up)]) <==> !up || ts[i] != ts[j] || j == 0 || ts[j - 1] != ts[j]
  {
    var after := ts[j := ts[j] + Bump(ts, i, j, up)];
    if Bump(ts, i, j, up) == 1 && j > 0 {
      assert after[j - 1] == ts[j - 1] && after[j] == ts[j] + 1;
    }
    assert Bump(ts, i, j, up) == 0 ==> after == ts;
  }

  /**
   * A move shows as exactly one step in the list, whatever order ties are read in, unless it moves
   * a post up past its equal while another equal stands right above that one.
   */
  lemma MoveIsOneStep(posts: map<string, Post>, c: string, pins: seq<string>, post: string, up: bool)
    requires IsPinOrder(posts, c, pins) && CanMove(pins, post, up)
    ensures var i := IndexOf(pins, post);
      var j := Other(i, up);
      var ts := Times(posts, pins);
      pins[i] in posts && pins[j] in posts && posts[pins[i]].pinnedAt.Some? && posts[pins[j]].pinnedAt.Some? &&
      (IsPinOrder(Retimed(posts, pins[i], pins[j], up), c, Swapped(pins, i, j)) <==>
        !up || ts[i] != ts[j] || j == 0 || ts[j - 1] != ts[j])
  {
    hide LivePins, Retimed, IsPinOrder, Falling, Distinct, Times, Swapped, IndexOf, Bump;
    var i := IndexOf(pins, post);
    var j := Other(i, up);
    TimesRetimed(posts, c, pins, i, j, up);
    var after := Retimed(posts, pins[i], pins[j], up);
    LivePinsRetimed(posts, pins[i], pins[j], up, c);
    OrderIsByTimes(posts, c, pins);
    OrderIsByTimes(after, c, Swapped(pins, i, j));
    SwapKeepsMembers(pins, i, j);
    SwapKeepsMembers(Swapped(pins, i, j), i, j);
    FallingBump(Times(posts, pins), i, j, up);
  }

  /** Moving up always lands above the post it passed, in every order the pins can be read in. */
  lemma UpAlwaysPasses(posts: map<string, Post>, c: string, pins: seq<string>, post: string, q: seq<string>)
    requires IsPinOrder(posts, c, pins) && CanMove(pins, post, true)
    requires var j := Other(IndexOf(pins, post), true);
      post in posts && posts[post].pinnedAt.Some? && pins[j] in posts && posts[pins[j]].pinnedAt.Some?
      && IsPinOrder(Retimed(posts, post, pins[j], true), c, q)
    ensures var other := pins[Other(IndexOf(pins, post), true)];
      0 <= IndexOf(q, post) < IndexOf(q, other)
  {
    hide IsPinOrder, LivePins;
    var i := IndexOf(pins, post);
    var other := pins[i - 1];
    var after := Retimed(posts, post, other, true);
    LivePinsRetimed(posts, post, other, true, c);
    UpIsLater(posts, c, pins, i);
    LaterIsFirst(after, c, q, post, other, pins, posts);
  }

  lemma UpIsLater(posts: map<string, Post>, c: string, pins: seq<string>, i: int)
    requires IsPinOrder(posts, c, pins) && 0 < i < |pins|
    ensures pins[i] in posts && pins[i - 1] in posts && posts[pins[i]].pinnedAt.Some? && posts[pins[i - 1]].pinnedAt.Some?
    ensures var after := Retimed(posts, pins[i], pins[i - 1], true);
      PinTime(after, pins[i]) > PinTime(after, pins[i - 1])
  {
    hide LivePins;
    PinIsThere(posts, c, pins, i);
    PinIsThere(posts, c, pins, i - 1);
  }

  lemma LaterIsFirst(
    after: map<string, Post>, c: string, q: seq<string>, a: string, b: string, pins: seq<string>, posts: map<string, Post>)
    requires IsPinOrder(after, c, q) && IsPinOrder(posts, c, pins) && LivePins(after, c) == LivePins(posts, c)
    requires a in pins && b in pins && PinTime(after, a) > PinTime(after, b)
    ensures 0 <= IndexOf(q, a) < IndexOf(q, b)
  {
    hide LivePins;
    assert a in q && b in q;
  }

  /** When pin times differ there is one order to read. */
  lemma {:induction false} OneOrder(posts: map<string, Post>, p: seq<string>, q: seq<string>)
    requires (forall id :: id in p <==> id in q) && Distinct(p) && Distinct(q)
    requires Falling(Times(posts, p)) && Falling(Times(posts, q)) && TimesDiffer(posts, p)
    ensures p == q
  {
    if p == [] {
      assert forall k :: 0 <= k < |q| ==> q[k] in q;
    } else {
      assert p[0] in q && q[0] in p;
      FirstIsLatest(posts, p, q[0]);
      FirstIsLatest(posts, q, p[0]);
      assert p[0] == q[0];
      RestOfOrder(posts, p);
      RestOfOrder(posts, q);
      OneOrder(posts, p[1..], q[1..]);
      assert p == [p[0]] + p[1..] && q == [q[0]] + q[1..];
    }
  }

  lemma FirstIsLatest(posts: map<string, Post>, p: seq<string>, id: string)
    requires id in p && Falling(Times(posts, p))
    ensures PinTime(posts, p[0]) >= PinTime(posts, id)
  {
    var k :| 0 <= k < |p| && p[k] == id;
    assert Times(posts, p)[0] == PinTime(posts, p[0]) && Times(posts, p)[k] == PinTime(posts, p[k]);
  }

  lemma RestOfOrder(posts: map<string, Post>, p: seq<string>)
    requires p != [] && Distinct(p) && Falling(Times(posts, p))
    ensures Distinct(p[1..]) && Falling(Times(posts, p[1..]))
    ensures forall id :: id in p[1..] <==> id in p && id != p[0]
    ensures TimesDiffer(posts, p) ==> TimesDiffer(posts, p[1..])
  {
    assert Times(posts, p[1..]) == Times(posts, p)[1..];
    assert forall k :: 0 < k < |p| ==> p[1..][k - 1] == p[k];
  }

  /** With pin times all different a move swaps two times and no more: the list of times is what it was. */
  lemma MoveKeepsTimes(posts: map<string, Post>, c: string, pins: seq<string>, post: string, up: bool, q: seq<string>)
    requires IsPinOrder(posts, c, pins) && CanMove(pins, post, up) && TimesDiffer(posts, pins)
    requires var j := Other(IndexOf(pins, post), up);
      post in posts && posts[post].pinnedAt.Some? && pins[j] in posts && posts[pins[j]].pinnedAt.Some?
      && IsPinOrder(Retimed(posts, post, pins[j], up), c, q)
    ensures var i := IndexOf(pins, post);
      var j := Other(i, up);
      q == Swapped(pins, i, j) && Times(Retimed(posts, post, pins[j], up), q) == Times(posts, pins)
  {
    hide LivePins, Retimed, IsPinOrder, Falling, Distinct, Swapped, IndexOf;
    var i := IndexOf(pins, post);
    var j := Other(i, up);
    var after := Retimed(posts, post, pins[j], up);
    var ts := Times(posts, pins);
    assert ts[i] == PinTime(posts, pins[i]) && ts[j] == PinTime(posts, pins[j]) && ts[i] != ts[j];
    MoveIsOneStep(posts, c, pins, post, up);
    TimesRetimed(posts, c, pins, i, j, up);
    OrderIsByTimes(after, c, q);
    OrderIsByTimes(after, c, Swapped(pins, i, j));
    StillDiffer(posts, pins, after, Swapped(pins, i, j));
    OneOrder(after, Swapped(pins, i, j), q);
  }

  lemma StillDiffer(posts: map<string, Post>, pins: seq<string>, after: map<string, Post>, q: seq<string>)
    requires TimesDiffer(posts, pins) && Times(after, q) == Times(posts, pins)
    ensures TimesDiffer(after, q)
  {
    hide PinTime;
    forall k | 0 <= k < |q| ensures PinTime(after, q[k]) == PinTime(posts, pins[k]) {
      assert Times(after, q)[k] == Times(posts, pins)[k];
    }
  }

  /** Up and then down, or down and then up, puts every post back where it was. */
  lemma ThereAndBack(posts: map<string, Post>, c: string, pins: seq<string>, post: string, up: bool, q: seq<string>)
    requires IsPinOrder(posts, c, pins) && CanMove(pins, post, up) && TimesDiffer(posts, pins)
    requires var j := Other(IndexOf(pins, post), up);
      post in posts && posts[post].pinnedAt.Some? && pins[j] in posts && posts[pins[j]].pinnedAt.Some?
      && IsPinOrder(Retimed(posts, post, pins[j], up), c, q)
    ensures CanMove(q, post, !up)
    ensures var other := pins[Other(IndexOf(pins, post), up)];
      q[Other(IndexOf(q, post), !up)] == other
      && Retimed(Retimed(posts, post, other, up), post, other, !up) == posts
  {
    hide LivePins, IsPinOrder, Retimed;
    var i := IndexOf(pins, post);
    var j := Other(i, up);
    MoveKeepsTimes(posts, c, pins, post, up, q);
    DistinctPins(posts, c, pins);
    SwapKeepsMembers(pins, i, j);
    assert q[j] == post && q[i] == pins[j];
    assert IndexOf(q, post) == j;
    RetimedTwice(posts, post, pins[j], up);
  }

  lemma DistinctPins(posts: map<string, Post>, c: string, pins: seq<string>)
    requires IsPinOrder(posts, c, pins)
    ensures Distinct(pins)
  {
  }

  lemma RetimedTwice(posts: map<string, Post>, a: string, b: string, up: bool)
    requires a in posts && b in posts && posts[a].pinnedAt.Some? && posts[b].pinnedAt.Some?
    requires a != b && PinTime(posts, a) != PinTime(posts, b)
    ensures Retimed(Retimed(posts, a, b, up), a, b, !up) == posts
  {
  }

  /** Between equals a move down changes nothing, though it answers that it moved. */
  lemma TiedDownChangesNothing(posts: map<string, Post>, a: string, b: string)
    requires a in posts && b in posts && a != b && posts[a].pinnedAt.Some?
    ensures posts[b].pinnedAt.Some? && PinTime(posts, a) == PinTime(posts, b) ==>
      Retimed(posts, a, b, false) == posts
  {
  }
}
