/** Rebuilding karma from the vote rows, against the running totals the votes left behind. */
module KarmaRebuild {
  import opened Sums
  import opened Karma
  import opened Votes

  /** The live votes on an author's work. */
  function LiveFor(works: map<ItemId, Work>, ballots: map<Key, Ballot>, author: string): map<Key, int> {
    map k | k in ballots && k.item in works && works[k.item].author == author :: ballots[k].value
  }

  /** Votes by others on known work. */
  predicate Known(works: map<ItemId, Work>, casts: seq<Cast>) {
    forall c :: c in casts ==> c.item in works && works[c.item] == c.work && c.voter != c.work.author
  }

  lemma LiveForRecast(works: map<ItemId, Work>, ballots: map<Key, Ballot>, c: Cast, a: string)
    requires c.item in works && works[c.item] == c.work
    ensures var after := LiveFor(works, Recast(ballots, c.Row(), c.value, c.day), a);
      var before := LiveFor(works, ballots, a);
      after == if c.work.author != a then before
      else if c.value == 0 then before - {c.Row()}
      else before[c.Row() := c.value]
  {
  }

  lemma SumRecast(works: map<ItemId, Work>, ballots: map<Key, Ballot>, c: Cast, a: string)
    requires c.item in works && works[c.item] == c.work
    ensures Sum(LiveFor(works, Recast(ballots, c.Row(), c.value, c.day), a)) ==
      Sum(LiveFor(works, ballots, a)) + (if c.work.author == a then c.value - Previous(ballots, c.Row()) else 0)
  {
    hide Recast;
    LiveForRecast(works, ballots, c, a);
    var before := LiveFor(works, ballots, a);
    if c.work.author == a {
      SumPut(before, c.Row(), c.value);
      if c.Row() in before {
        SumWithout(before, c.Row());
      } else {
        assert before - {c.Row()} == before;
      }
    }
  }

  /** What a run of votes asked for an author is what is still standing on their work. */
  lemma {:induction false} VotedForIsLive(casts: seq<Cast>, works: map<ItemId, Work>, a: string)
    requires Known(works, casts)
    ensures VotedFor(Changes(casts), a) == Sum(LiveFor(works, Recorded(casts), a))
  {
    hide Recast, LiveFor, Recorded, Changes;
    if casts == [] {
      NothingLive(works, a);
    } else {
      var front, c := casts[..|casts| - 1], casts[|casts| - 1];
      assert casts == front + [c];
      VotedForIsLive(front, works, a);
      ChangesOneMore(front, c);
      RecordedOneMore(front, c);
      assert (Changes(front) + [Asked(front, c)])[..|Changes(front)|] == Changes(front);
      SumRecast(works, Recorded(front), c, a);
    }
  }

  lemma NothingLive(works: map<ItemId, Work>, a: string)
    ensures VotedFor(Changes([]), a) == Sum(LiveFor(works, Recorded([]), a)) == 0
  {
    assert LiveFor(works, map[], a) == map[];
  }

  /** In every reachable state a person's karma is the live votes on their work, less what the cap swallowed. */
  lemma KarmaIsLiveVotesLessSwallowed(casts: seq<Cast>, works: map<ItemId, Work>, a: string)
    requires Known(works, casts)
    ensures StandingOf(After(EMPTY, Changes(casts)), a).Total() ==
      Sum(LiveFor(works, Recorded(casts), a)) - Swallowed(Changes(casts), a)
  {
    hide *;
    KarmaIsVotesLessSwallowed(Changes(casts), a);
    VotedForIsLive(casts, works, a);
  }

  // ----- the rebuild -----

  /** Some order of all the rows. The rebuild takes them oldest first; nothing below depends on that. */
  ghost predicate Enumerates(order: seq<Key>, ballots: map<Key, Ballot>) {
    && (forall k :: k in order <==> k in ballots)
    && forall i, j :: 0 <= i < j < |order| ==> order[i] != order[j]
  }

  /** Every row as one change, at the day it was first inserted and with the value it ended with. */
  function Replay(order: seq<Key>, ballots: map<Key, Ballot>, works: map<ItemId, Work>, cap: int): seq<Change> {
    if order == [] then []
    else
      var k := order[|order| - 1];
      var front := Replay(order[..|order| - 1], ballots, works, cap);
      if k in ballots && k.item in works && works[k.item].author != k.voter
      then front + [Change(works[k.item], k.voter, ballots[k].day, cap, ballots[k].value)]
      else front
  }

  function Only(ballots: map<Key, Ballot>, order: seq<Key>): map<Key, Ballot> {
    map k | k in ballots && k in order :: ballots[k]
  }

  lemma {:induction false} ReplayOfPrefix(order: seq<Key>, ballots: map<Key, Ballot>, works: map<ItemId, Work>, cap: int, a: string)
    requires forall k :: k in order ==> k in ballots && k.item in works && works[k.item].author != k.voter
    requires forall i, j :: 0 <= i < j < |order| ==> order[i] != order[j]
    ensures VotedFor(Replay(order, ballots, works, cap), a) == Sum(LiveFor(works, Only(ballots, order), a))
  {
    hide LiveFor, Sum, Only, VotedFor, Replay;
    if order == [] {
      OnlyNone(works, ballots, a);
      ReplayNone(ballots, works, cap, a);
    } else {
      var front, k := order[..|order| - 1], order[|order| - 1];
      ReplayOfPrefix(front, ballots, works, cap, a);
      assert k in order && order == front + [k];
      ReplayOneMore(order, ballots, works, cap, a);
      OnlyOneMore(front, k, ballots, works, a);
    }
  }

  lemma ReplayNone(ballots: map<Key, Ballot>, works: map<ItemId, Work>, cap: int, a: string)
    ensures VotedFor(Replay([], ballots, works, cap), a) == 0
  {
  }

  lemma ReplayOneMore(order: seq<Key>, ballots: map<Key, Ballot>, works: map<ItemId, Work>, cap: int, a: string)
    requires order != []
    requires var k := order[|order| - 1]; k in ballots && k.item in works && works[k.item].author != k.voter
    ensures var k := order[|order| - 1];
      VotedFor(Replay(order, ballots, works, cap), a) ==
      VotedFor(Replay(order[..|order| - 1], ballots, works, cap), a) + (if works[k.item].author == a then ballots[k].value else 0)
  {
    var k := order[|order| - 1];
    var front := Replay(order[..|order| - 1], ballots, works, cap);
    VotedForOneMore(front, Change(works[k.item], k.voter, ballots[k].day, cap, ballots[k].value), a);
  }

  lemma VotedForOneMore(run: seq<Change>, c: Change, a: string)
    ensures VotedFor(run + [c], a) == VotedFor(run, a) + (if c.work.author != c.voter && c.work.author == a then c.amount else 0)
  {
    assert (run + [c])[..|run|] == run;
  }

  lemma OnlyNone(works: map<ItemId, Work>, ballots: map<Key, Ballot>, a: string)
    ensures Sum(LiveFor(works, Only(ballots, []), a)) == 0
  {
    assert LiveFor(works, Only(ballots, []), a) == map[];
  }

  lemma OnlyOneMore(front: seq<Key>, k: Key, ballots: map<Key, Ballot>, works: map<ItemId, Work>, a: string)
    requires k in ballots && k.item in works && k !in front
    ensures Sum(LiveFor(works, Only(ballots, front + [k]), a)) ==
      Sum(LiveFor(works, Only(ballots, front), a)) + (if works[k.item].author == a then ballots[k].value else 0)
  {
    hide Sum;
    var before, after := LiveFor(works, Only(ballots, front), a), LiveFor(works, Only(ballots, front + [k]), a);
    if works[k.item].author == a {
      assert after == before[k := ballots[k].value];
      SumPut(before, k, ballots[k].value);
    } else {
      assert after == before;
    }
  }

  lemma {:induction false} RowsAreKnown(casts: seq<Cast>, works: map<ItemId, Work>)
    requires Known(works, casts)
    ensures forall k :: k in Recorded(casts) ==> k.item in works && works[k.item].author != k.voter
  {
    if casts != [] {
      assert casts[|casts| - 1] in casts;
      RowsAreKnown(casts[..|casts| - 1], works);
    }
  }

  /**
   * A rebuild differs from the running total by exactly the difference of what the cap swallowed in
   * each; so the two agree when neither was ever clamped, or both lost the same.
   */
  lemma RebuildDrift(casts: seq<Cast>, works: map<ItemId, Work>, order: seq<Key>, cap: int, a: string)
    requires Known(works, casts) && Enumerates(order, Recorded(casts))
    ensures var replay := Replay(order, Recorded(casts), works, cap);
      StandingOf(After(EMPTY, Changes(casts)), a).Total() - StandingOf(After(EMPTY, replay), a).Total()
      == Swallowed(replay, a) - Swallowed(Changes(casts), a)
  {
    hide Replay, Swallowed, VotedFor, After, StandingOf, LiveFor, Recorded, Changes, Sum;
    var ballots := Recorded(casts);
    var replay := Replay(order, ballots, works, cap);
    RowsAreKnown(casts, works);
    KarmaIsLiveVotesLessSwallowed(casts, works, a);
    KarmaIsVotesLessSwallowed(replay, a);
    ReplayOfPrefix(order, ballots, works, cap, a);
    assert Only(ballots, order) == ballots;
  }

  // ----- when a rebuild agrees, and when it is within the cap -----

  /** What the clamp keeps back at one step of a run. */
  function PastIn(b: Karma.Book, c: Change): int {
    if c.Counts() then Past(Points(b, c.Ledger()) + c.amount, c.cap) else 0
  }

  predicate Unclamped(run: seq<Change>) {
    forall i :: 0 <= i < |run| ==> PastIn(After(EMPTY, run[..i]), run[i]) == 0
  }

  function Abs(x: int): nat {
    if x < 0 then -x else x
  }

  /** How many points the clamp kept back of an author over a run, in either direction. */
  function KeptBack(run: seq<Change>, author: string): nat {
    if run == [] then 0
    else
      var front, c := run[..|run| - 1], run[|run| - 1];
      KeptBack(front, author) + (if c.work.author == author then Abs(PastIn(After(EMPTY, front), c)) else 0)
  }

  /** The clamp only ever held an author up (`sign` 1), or only down (`sign` -1). */
  predicate OneWay(run: seq<Change>, author: string, sign: int) {
    forall i :: 0 <= i < |run| && run[i].work.author == author ==> sign * PastIn(After(EMPTY, run[..i]), run[i]) >= 0
  }

  /** The clamp held an author one way in the one run, and the other way or not at all in the other. */
  predicate Opposed(run: seq<Change>, other: seq<Change>, author: string) {
    (OneWay(run, author, 1) && OneWay(other, author, -1)) || (OneWay(run, author, -1) && OneWay(other, author, 1))
  }

  predicate Capped(run: seq<Change>) {
    forall c :: c in run ==> c.cap >= 0
  }

  lemma PastIsKept(b: Karma.Book, c: Change)
    requires c.cap >= 0
    ensures c.Counts() ==> c.amount - AppliedIn(b, c) == PastIn(b, c)
    ensures !c.Counts() ==> PastIn(b, c) == 0
  {
    hide Points;
  }

  /** What a run swallowed is at most what its clamps kept back, and exactly that when they all point one way. */
  lemma {:induction false} SwallowedIsKeptBack(run: seq<Change>, a: string)
    requires Capped(run)
    ensures Abs(Swallowed(run, a)) <= KeptBack(run, a)
    ensures OneWay(run, a, 1) ==> Swallowed(run, a) == KeptBack(run, a)
    ensures OneWay(run, a, -1) ==> Swallowed(run, a) == 0 - KeptBack(run, a)
  {
    hide PastIn, AppliedIn, After;
    if run != [] {
      var front, c := run[..|run| - 1], run[|run| - 1];
      assert c in run && Capped(front);
      SwallowedIsKeptBack(front, a);
      PastIsKept(After(EMPTY, front), c);
      FrontOneWay(run, a, 1);
      FrontOneWay(run, a, -1);
    }
  }

  lemma FrontOneWay(run: seq<Change>, a: string, sign: int)
    requires run != []
    ensures OneWay(run, a, sign) ==> OneWay(run[..|run| - 1], a, sign)
    ensures OneWay(run, a, sign) && run[|run| - 1].work.author == a ==>
      sign * PastIn(After(EMPTY, run[..|run| - 1]), run[|run| - 1]) >= 0
  {
    hide PastIn, After;
    var front := run[..|run| - 1];
    assert forall i :: 0 <= i < |front| ==> front[..i] == run[..i] && front[i] == run[i];
  }

  lemma {:induction false} UnclampedKeepsNothingBack(run: seq<Change>, a: string)
    requires Unclamped(run)
    ensures KeptBack(run, a) == 0
  {
    hide PastIn, After;
    if run != [] {
      var front := run[..|run| - 1];
      forall i | 0 <= i < |front| ensures PastIn(After(EMPTY, front[..i]), front[i]) == 0 {
        assert front[..i] == run[..i];
      }
      UnclampedKeepsNothingBack(front, a);
    }
  }

  /** How much more karma a history left an author than its rebuild does. */
  function Drift(casts: seq<Cast>, works: map<ItemId, Work>, order: seq<Key>, cap: int, a: string): int {
    StandingOf(After(EMPTY, Changes(casts)), a).Total()
    - StandingOf(After(EMPTY, Replay(order, Recorded(casts), works, cap)), a).Total()
  }

  predicate CapsGiven(casts: seq<Cast>) {
    forall c :: c in casts ==> c.cap >= 0
  }

  lemma {:induction false} ChangesCapped(casts: seq<Cast>)
    requires CapsGiven(casts)
    ensures Capped(Changes(casts))
  {
    hide Asked;
    if casts != [] {
      var front, c := casts[..|casts| - 1], casts[|casts| - 1];
      ChangesCapped(front);
      assert c in casts && Asked(front, c).cap == c.cap by { AskedCap(front, c); }
    }
  }

  lemma AskedCap(before: seq<Cast>, c: Cast)
    ensures Asked(before, c).cap == c.cap
  {
  }

  lemma {:induction false} ReplayCapped(order: seq<Key>, ballots: map<Key, Ballot>, works: map<ItemId, Work>, cap: int)
    requires cap >= 0
    ensures Capped(Replay(order, ballots, works, cap))
  {
    if order != [] { ReplayCapped(order[..|order| - 1], ballots, works, cap); }
  }

  /** A rebuild is never further from the running total than the points the clamp kept back in the two together. */
  lemma DriftWithinKeptBack(casts: seq<Cast>, works: map<ItemId, Work>, order: seq<Key>, cap: nat, a: string)
    requires Known(works, casts) && CapsGiven(casts) && Enumerates(order, Recorded(casts))
    ensures Abs(Drift(casts, works, order, cap, a)) <=
      KeptBack(Changes(casts), a) + KeptBack(Replay(order, Recorded(casts), works, cap), a)
  {
    hide Changes, Recorded, Replay, KeptBack, Swallowed, After, StandingOf, Enumerates, Capped;
    RebuildDrift(casts, works, order, cap, a);
    ChangesCapped(casts);
    ReplayCapped(order, Recorded(casts), works, cap);
    SwallowedIsKeptBack(Changes(casts), a);
    SwallowedIsKeptBack(Replay(order, Recorded(casts), works, cap), a);
  }

  /** When no step of the run and no step of its rebuild is clamped, the rebuild gives everyone the karma they had. */
  lemma UnclampedRebuildAgrees(casts: seq<Cast>, works: map<ItemId, Work>, order: seq<Key>, cap: nat, a: string)
    requires Known(works, casts) && CapsGiven(casts) && Enumerates(order, Recorded(casts))
    requires Unclamped(Changes(casts)) && Unclamped(Replay(order, Recorded(casts), works, cap))
    ensures Drift(casts, works, order, cap, a) == 0
  {
    hide Changes, Recorded, Replay, KeptBack, Drift, Enumerates, Unclamped;
    DriftWithinKeptBack(casts, works, order, cap, a);
    UnclampedKeepsNothingBack(Changes(casts), a);
    UnclampedKeepsNothingBack(Replay(order, Recorded(casts), works, cap), a);
  }

  /**
   * A rebuild is within the cap whenever the clamp kept back less than that, and, when it held the
   * running total one way and the rebuild the other or not at all, exactly then.
   */
  lemma WithinTheCap(casts: seq<Cast>, works: map<ItemId, Work>, order: seq<Key>, cap: nat, a: string)
    requires Known(works, casts) && CapsGiven(casts) && Enumerates(order, Recorded(casts))
    ensures var replay := Replay(order, Recorded(casts), works, cap);
      var kept := KeptBack(Changes(casts), a) + KeptBack(replay, a);
      && (kept < cap ==> Abs(Drift(casts, works, order, cap, a)) < cap)
      && (Opposed(Changes(casts), replay, a) ==>
        (Abs(Drift(casts, works, order, cap, a)) < cap <==> kept < cap))
  {
    hide Changes, Recorded, Replay, KeptBack, Swallowed, After, StandingOf, Enumerates, Capped, OneWay;
    DriftWithinKeptBack(casts, works, order, cap, a);
    RebuildDrift(casts, works, order, cap, a);
    ChangesCapped(casts);
    ReplayCapped(order, Recorded(casts), works, cap);
    SwallowedIsKeptBack(Changes(casts), a);
    SwallowedIsKeptBack(Replay(order, Recorded(casts), works, cap), a);
  }

  // ----- votes nobody changes -----

  /** Every vote is its voter's first on the item, and none is taken back. */
  predicate Unchanged(casts: seq<Cast>) {
    && (forall c :: c in casts ==> c.value != 0)
    && (forall i, j :: 0 <= i < j < |casts| ==> casts[i].Row() != casts[j].Row())
  }

  function RowsOf(casts: seq<Cast>): (rows: seq<Key>)
    ensures |rows| == |casts| && forall i :: 0 <= i < |casts| ==> rows[i] == casts[i].Row()
  {
    seq(|casts|, i requires 0 <= i < |casts| => casts[i].Row())
  }

  /** The row a vote left, as it was inserted. */
  predicate RowKept(ballots: map<Key, Ballot>, c: Cast) {
    c.Row() in ballots && ballots[c.Row()] == Ballot(c.value, c.day)
  }

  lemma FrontUnchanged(casts: seq<Cast>)
    requires Unchanged(casts) && casts != []
    ensures Unchanged(casts[..|casts| - 1])
    ensures casts[|casts| - 1].Row() !in RowsOf(casts[..|casts| - 1]) && casts[|casts| - 1].value != 0
    ensures RowsOf(casts) == RowsOf(casts[..|casts| - 1]) + [casts[|casts| - 1].Row()]
  {
    var front := casts[..|casts| - 1];
    assert casts[|casts| - 1] in casts && forall x :: x in front ==> x in casts;
  }

  lemma {:induction false} UnchangedRows(casts: seq<Cast>)
    requires Unchanged(casts)
    ensures forall k :: k in Recorded(casts) <==> k in RowsOf(casts)
    ensures forall c :: c in casts ==> RowKept(Recorded(casts), c)
  {
    hide Unchanged, RowsOf;
    if casts == [] {
      assert RowsOf(casts) == [];
    } else {
      var front, c := casts[..|casts| - 1], casts[|casts| - 1];
      FrontUnchanged(casts);
      UnchangedRows(front);
      assert casts == front + [c];
      forall x | x in front ensures x.Row() != c.Row() {
        assert x.Row() in Recorded(front);
      }
    }
  }

  lemma ReplayNext(rows: seq<Key>, c: Cast, ballots: map<Key, Ballot>, works: map<ItemId, Work>, cap: int)
    requires RowKept(ballots, c) && c.item in works && works[c.item] == c.work && c.voter != c.work.author && c.cap == cap
    ensures Replay(rows + [c.Row()], ballots, works, cap) ==
      Replay(rows, ballots, works, cap) + [Change(c.work, c.voter, c.day, c.cap, c.value)]
  {
    assert (rows + [c.Row()])[..|rows|] == rows;
  }

  /** A first vote asks for all of its value. */
  lemma FirstVoteAsks(front: seq<Cast>, c: Cast)
    requires Unchanged(front) && c.Row() !in RowsOf(front)
    ensures Changes(front + [c]) == Changes(front) + [Change(c.work, c.voter, c.day, c.cap, c.value)]
  {
    hide Recorded, Unchanged, RowsOf, Changes;
    UnchangedRows(front);
    ChangesOneMore(front, c);
  }

  /** With the rows of a history at hand, replaying the first of them asks for what the first votes asked. */
  lemma {:induction false} UnchangedReplay(casts: seq<Cast>, ballots: map<Key, Ballot>, works: map<ItemId, Work>, cap: int)
    requires Unchanged(casts) && Known(works, casts)
    requires forall c :: c in casts ==> c.cap == cap && RowKept(ballots, c)
    ensures Replay(RowsOf(casts), ballots, works, cap) == Changes(casts)
  {
    hide Unchanged, RowsOf, RowKept, Replay, Changes;
    if casts == [] {
      NothingReplayed(ballots, works, cap);
    } else {
      var front, c := casts[..|casts| - 1], casts[|casts| - 1];
      assert casts == front + [c] && c in casts && forall x :: x in front ==> x in casts;
      FrontUnchanged(casts);
      UnchangedReplay(front, ballots, works, cap);
      FirstVoteAsks(front, c);
      ReplayNext(RowsOf(front), c, ballots, works, cap);
    }
  }

  lemma NothingReplayed(ballots: map<Key, Ballot>, works: map<ItemId, Work>, cap: int)
    ensures Replay(RowsOf([]), ballots, works, cap) == Changes([])
  {
    assert RowsOf([]) == [];
  }

  /**
   * When nobody changes a vote and the cap stays, a rebuild in the order the votes were cast gives
   * the very book there was, however often the clamp acted.
   */
  lemma UnchangedVotesRebuildExactly(casts: seq<Cast>, works: map<ItemId, Work>, cap: int)
    requires Unchanged(casts) && Known(works, casts) && forall c :: c in casts ==> c.cap == cap
    ensures Enumerates(RowsOf(casts), Recorded(casts))
    ensures After(EMPTY, Replay(RowsOf(casts), Recorded(casts), works, cap)) == After(EMPTY, Changes(casts))
  {
    hide Recorded, Replay, Changes, After;
    UnchangedRows(casts);
    UnchangedReplay(casts, Recorded(casts), works, cap);
  }

  // ----- how far a rebuild can be off -----

  const AUTHOR := "author"
  const VOTER := "voter"

  /** A different post for every number. */
  function Numbered(i: nat): ItemId {
    PostId(seq(i, _ => 'x'))
  }

  function UpOn(i: nat, value: VoteValue, day: int, cap: int): Cast {
    Cast(Numbered(i), Work(PostKind, AUTHOR, true), VOTER, value, day, cap)
  }

  /** One upvote a day for `n` days, then the first `k` of them taken back on one day. */
  function UpsThenBack(n: nat, k: nat, cap: int): seq<Cast> {
    if k > 0 then UpsThenBack(n, k - 1, cap) + [UpOn(k - 1, 0, n, cap)]
    else if n > 0 then UpsThenBack(n - 1, 0, cap) + [UpOn(n - 1, 1, n - 1, cap)]
    else []
  }

  lemma NumberedApart(i: nat, j: nat)
    ensures Numbered(i) == Numbered(j) ==> i == j
  {
    assert |Numbered(i).id| == i && |Numbered(j).id| == j;
  }

  lemma {:induction false} StillUp(n: nat, k: nat, cap: int, i: nat)
    requires k <= n
    ensures Last(UpsThenBack(n, k, cap), Key(Numbered(i), VOTER)) == if k <= i < n then 1 else 0
  {
    hide Numbered;
    if k > 0 {
      StillUp(n, k - 1, cap, i);
      NumberedApart(i, k - 1);
    } else if n > 0 {
      StillUp(n - 1, 0, cap, i);
      NumberedApart(i, n - 1);
    }
  }

  /** Nothing else was voted on. */
  lemma {:induction false} OnlyNumbered(n: nat, k: nat, cap: int, key: Key)
    requires k <= n && forall i: nat :: key != Key(Numbered(i), VOTER)
    ensures Last(UpsThenBack(n, k, cap), key) == 0
  {
    hide Numbered;
    if k > 0 {
      OnlyNumbered(n, k - 1, cap, key);
      assert key != Key(Numbered(k - 1), VOTER);
    } else if n > 0 {
      OnlyNumbered(n - 1, 0, cap, key);
      assert key != Key(Numbered(n - 1), VOTER);
    }
  }

  /** The amount each vote of that run asks for. */
  lemma StillUpBefore(n: nat, k: nat, cap: int)
    requires k <= n
    ensures k < n ==> Previous(Recorded(UpsThenBack(n, k, cap)), Key(Numbered(k), VOTER)) == 1
    ensures Previous(Recorded(UpsThenBack(n, k, cap)), Key(Numbered(n), VOTER)) == 0
  {
    hide Recorded, UpsThenBack, Numbered, Last, Previous;
    StillUp(n, k, cap, k);
    StillUp(n, k, cap, n);
    RowIsLastVote(UpsThenBack(n, k, cap), Key(Numbered(k), VOTER));
    RowIsLastVote(UpsThenBack(n, k, cap), Key(Numbered(n), VOTER));
  }

  function Book(n: nat, k: nat, cap: int): Karma.Book {
    After(EMPTY, Changes(UpsThenBack(n, k, cap)))
  }

  function Smaller(a: int, b: int): int {
    if a <= b then a else b
  }

  /** Where that run leaves the author: `n` days' upvotes, less at most the cap for those taken back. */
  ghost predicate LeftAt(b: Karma.Book, n: int, k: int, cap: int) {
    && StandingOf(b, AUTHOR).Total() == n - Smaller(k, cap)
    && Points(b, Row(VOTER, AUTHOR, n)) == -Smaller(k, cap)
    && forall day :: day > n ==> Points(b, Row(VOTER, AUTHOR, day)) == 0
  }

  /** The upvotes each count on their own day; of the ones taken back, only the cap's worth do. */
  lemma {:induction false} UpsThenBackKarma(n: nat, k: nat, cap: nat)
    requires k <= n && cap >= 1
    ensures LeftAt(Book(n, k, cap), n, k, cap)
  {
    hide Recorded, Changes, After, Moved, StandingOf, Points, Numbered, Asked;
    if k > 0 {
      UpsThenBackKarma(n, k - 1, cap);
      StillUpBefore(n, k - 1, cap);
      VoteMoves(UpsThenBack(n, k - 1, cap), UpOn(k - 1, 0, n, cap));
    } else if n > 0 {
      UpsThenBackKarma(n - 1, 0, cap);
      StillUpBefore(n - 1, 0, cap);
      VoteMoves(UpsThenBack(n - 1, 0, cap), UpOn(n - 1, 1, n - 1, cap));
    } else {
      NobodyStands(AUTHOR);
      NothingYet();
    }
  }

  lemma NothingYet()
    ensures After(EMPTY, Changes([])) == EMPTY
    ensures forall r :: Points(EMPTY, r) == 0
  {
  }

  /** What one more vote does to its author's total and to every ledger row. */
  lemma VoteMoves(casts: seq<Cast>, c: Cast)
    ensures var before := After(EMPTY, Changes(casts));
      var after := After(EMPTY, Changes(casts + [c]));
      var change := Asked(casts, c);
      && StandingOf(after, c.work.author).Total() == StandingOf(before, c.work.author).Total() + AppliedIn(before, change)
      && (forall r :: Points(after, r) == Points(before, r) + (if r == change.Ledger() then AppliedIn(before, change) else 0))
      && change == Change(c.work, c.voter, c.day, c.cap, c.value - Previous(Recorded(casts), c.Row()))
  {
    hide After, Changes, StandingOf, AppliedIn, Recorded;
    var before := After(EMPTY, Changes(casts));
    OneMoreCast(casts, c);
    MovedStanding(before, Asked(casts, c), c.work.author);
    forall r ensures Points(Moved(before, Asked(casts, c)), r) ==
      Points(before, r) + (if r == Asked(casts, c).Ledger() then AppliedIn(before, Asked(casts, c)) else 0)
    {
      NothingApplied(before, Asked(casts, c));
      RowMoves(before, Asked(casts, c), r);
    }
  }

  lemma RowMoves(b: Karma.Book, c: Change, r: Row)
    ensures Points(Moved(b, c), r) == Points(b, r) + (if r == c.Ledger() then AppliedIn(b, c) else 0)
  {
    hide AppliedIn, Credited;
    NothingApplied(b, c);
  }

  /**
   * Counter to the design, which puts a rebuild within the cap of the running total: for every cap
   * and every amount there is a history whose rebuild is off by that amount.
   */
  lemma RebuildDriftHasNoBound(cap: nat, off: nat)
    requires cap >= 1
    ensures var casts := UpsThenBack(cap + off, cap + off, cap);
      Enumerates([], Recorded(casts)) && forall works :: Drift(casts, works, [], cap, AUTHOR) == off
  {
    hide Changes, StandingOf, UpsThenBack, Recorded, Moved;
    assert After(EMPTY, []) == EMPTY;
    var n := cap + off;
    var casts := UpsThenBack(n, n, cap);
    UpsThenBackKarma(n, n, cap);
    NobodyStands(AUTHOR);
    forall key ensures key !in Recorded(casts) {
      RowIsLastVote(casts, key);
      if i: nat :| key == Key(Numbered(i), VOTER) {
        StillUp(n, n, cap, i);
      } else {
        OnlyNumbered(n, n, cap, key);
      }
    }
  }

  // ----- clamps that cancel, and clamps only the rebuild has -----

  /** What a vote does when its row stands at `points` and its voter had `previous` on the item. */
  lemma OneVote(casts: seq<Cast>, c: Cast, points: int, previous: int)
    requires c.work.author == AUTHOR && c.voter == VOTER && c.value != previous
    requires Points(After(EMPTY, Changes(casts)), Row(VOTER, AUTHOR, c.day)) == points && Last(casts, c.Row()) == previous
    ensures var before := After(EMPTY, Changes(casts));
      var after := After(EMPTY, Changes(casts + [c]));
      var applied := Applied(points, c.value - previous, c.cap);
      && StandingOf(after, AUTHOR).Total() == StandingOf(before, AUTHOR).Total() + applied
      && (forall day :: Points(after, Row(VOTER, AUTHOR, day)) == Points(before, Row(VOTER, AUTHOR, day)) + (if day == c.day then applied else 0))
      && PastIn(before, Asked(casts, c)) == Past(points + c.value - previous, c.cap)
  {
    hide After, Changes, StandingOf, Recorded, Points, Last;
    VoteMoves(casts, c);
    RowIsLastVote(casts, c.Row());
  }

  lemma LastOf(casts: seq<Cast>, c: Cast, k: Key)
    ensures Last(casts + [c], k) == if c.Row() == k then c.value else Last(casts, k)
  {
    assert (casts + [c])[..|casts|] == casts;
  }

  /** Two upvotes by one account on one day, under a cap of one. */
  function TwoUps(): seq<Cast> {
    [UpOn(0, 1, 0, 1), UpOn(1, 1, 0, 1)]
  }

  lemma TwoUpsReplayed(works: map<ItemId, Work>)
    requires Known(works, TwoUps())
    ensures Enumerates(RowsOf(TwoUps()), Recorded(TwoUps()))
    ensures Replay(RowsOf(TwoUps()), Recorded(TwoUps()), works, 1) == Changes(TwoUps())
  {
    hide Changes, Recorded, Replay, Numbered;
    NumberedApart(0, 1);
    UnchangedRows(TwoUps());
    UnchangedReplay(TwoUps(), Recorded(TwoUps()), works, 1);
  }

  lemma TwoUpsClamped()
    ensures KeptBack(Changes(TwoUps()), AUTHOR) == 1 && !Unclamped(Changes(TwoUps()))
  {
    hide Changes, Recorded, StandingOf, PastIn, Points, Moved, Numbered, Asked, Last, Unclamped, KeptBack;
    var first, second := UpOn(0, 1, 0, 1), UpOn(1, 1, 0, 1);
    NumberedApart(0, 1);
    NothingYet();
    assert [] + [first] == [first] && [first] + [second] == TwoUps();
    LastIsNone(first.Row());
    OneVote([], first, 0, 0);
    LastIsNone(second.Row());
    LastOf([], first, second.Row());
    OneVote([first], second, 1, 0);
    KeptByTwo([first], second, AUTHOR);
    KeptByTwo([], first, AUTHOR);
    KeptByNone(AUTHOR);
    ClampedLast([first], second);
  }

  /** Counter to the converse: the clamp acts in the run and in its rebuild, and the two still agree. */
  lemma ClampsCanCancel(works: map<ItemId, Work>)
    requires Known(works, TwoUps())
    ensures KeptBack(Changes(TwoUps()), AUTHOR) == 1 && !Unclamped(Changes(TwoUps()))
    ensures var replay := Replay(RowsOf(TwoUps()), Recorded(TwoUps()), works, 1);
      KeptBack(replay, AUTHOR) == 1 && !Unclamped(replay)
    ensures Enumerates(RowsOf(TwoUps()), Recorded(TwoUps())) && Drift(TwoUps(), works, RowsOf(TwoUps()), 1, AUTHOR) == 0
  {
    hide Changes, Recorded, Replay, After, StandingOf, KeptBack, Unclamped, Enumerates, RowsOf, TwoUps, Known;
    TwoUpsReplayed(works);
    TwoUpsClamped();
  }

  lemma LastIsNone(k: Key)
    ensures Last([], k) == 0
  {
  }

  lemma KeptByNone(a: string)
    ensures KeptBack(Changes([]), a) == 0
  {
  }

  lemma KeptByTwo(casts: seq<Cast>, c: Cast, a: string)
    ensures KeptBack(Changes(casts + [c]), a) ==
      KeptBack(Changes(casts), a) + (if c.work.author == a then Abs(PastIn(After(EMPTY, Changes(casts)), Asked(casts, c))) else 0)
  {
    hide PastIn, Changes, After, Recorded;
    ChangesOneMore(casts, c);
    assert (Changes(casts) + [Asked(casts, c)])[..|Changes(casts)|] == Changes(casts);
  }

  lemma ClampedLast(casts: seq<Cast>, c: Cast)
    requires PastIn(After(EMPTY, Changes(casts)), Asked(casts, c)) != 0
    ensures !Unclamped(Changes(casts + [c]))
  {
    hide PastIn, Changes, After, Asked;
    ChangesOneMore(casts, c);
    var run := Changes(casts) + [Asked(casts, c)];
    var i := |Changes(casts)|;
    assert run[..i] == Changes(casts) && run[i] == Asked(casts, c);
  }

  lemma UnclampedMore(casts: seq<Cast>, c: Cast)
    requires Unclamped(Changes(casts)) && PastIn(After(EMPTY, Changes(casts)), Asked(casts, c)) == 0
    ensures Unclamped(Changes(casts + [c]))
  {
    hide PastIn, Changes, After, Asked;
    ChangesOneMore(casts, c);
    var run := Changes(casts) + [Asked(casts, c)];
    forall i | 0 <= i < |run| ensures PastIn(After(EMPTY, run[..i]), run[i]) == 0 {
      if i < |Changes(casts)| {
        assert run[..i] == Changes(casts)[..i];
      } else {
        assert run[..i] == Changes(casts);
      }
    }
  }

  /** Two upvotes and a downvote on one day. */
  function DayOne(): seq<Cast> {
    [UpOn(0, 1, 0, 2), UpOn(1, 1, 0, 2), UpOn(2, -1, 0, 2)]
  }

  /** The downvote turned up the day after. */
  function DayTwo(): seq<Cast> {
    DayOne() + [UpOn(2, 1, 1, 2)]
  }

  /** The three votes as the rebuild finds them. */
  function AsFound(): seq<Cast> {
    [UpOn(0, 1, 0, 2), UpOn(1, 1, 0, 2), UpOn(2, 1, 0, 2)]
  }

  lemma ThreeApart()
    ensures Numbered(0) != Numbered(1) && Numbered(0) != Numbered(2) && Numbered(1) != Numbered(2)
  {
    NumberedApart(0, 1);
    NumberedApart(0, 2);
    NumberedApart(1, 2);
  }

  lemma DayTwoRows()
    ensures forall c :: c in AsFound() ==> RowKept(Recorded(DayTwo()), c)
    ensures forall k :: k in Recorded(DayTwo()) <==> k in RowsOf(AsFound())
  {
    hide Recorded, Numbered;
    ThreeApart();
    var a, b, c, d := UpOn(0, 1, 0, 2), UpOn(1, 1, 0, 2), UpOn(2, -1, 0, 2), UpOn(2, 1, 1, 2);
    assert Recorded([]) == map[] by { NothingRecorded(); }
    assert [] + [a] == [a] && [a] + [b] == [a, b] && [a, b] + [c] == DayOne() && DayOne() + [d] == DayTwo();
    RecordedOneMore([], a);
    RecordedOneMore([a], b);
    RecordedOneMore([a, b], c);
    RecordedOneMore(DayOne(), d);
    assert RowsOf(AsFound()) == [a.Row(), b.Row(), d.Row()];
  }

  lemma NothingRecorded()
    ensures Recorded([]) == map[]
  {
  }

  /** What the four votes leave when they are cast: three points, and no step clamped. */
  lemma DayTwoKarma()
    ensures Unclamped(Changes(DayTwo())) && StandingOf(After(EMPTY, Changes(DayTwo())), AUTHOR).Total() == 3
  {
    hide Changes, Recorded, StandingOf, PastIn, Points, After, Numbered, Asked, Last, Unclamped;
    ThreeApart();
    var a, b, c, d := UpOn(0, 1, 0, 2), UpOn(1, 1, 0, 2), UpOn(2, -1, 0, 2), UpOn(2, 1, 1, 2);
    assert [] + [a] == [a] && [a] + [b] == [a, b] && [a, b] + [c] == DayOne() && DayOne() + [d] == DayTwo();
    NothingYet();
    NobodyStands(AUTHOR);
    NothingClamped();
    forall k ensures Last([], k) == 0 { LastIsNone(k); }
    OneVote([], a, 0, 0);
    UnclampedMore([], a);
    LastOf([], a, b.Row());
    OneVote([a], b, 1, 0);
    UnclampedMore([a], b);
    LastOf([], a, c.Row());
    LastOf([a], b, c.Row());
    OneVote([a, b], c, 2, 0);
    UnclampedMore([a, b], c);
    LastOf([a, b], c, c.Row());
    OneVote(DayOne(), d, 0, -1);
    UnclampedMore(DayOne(), d);
  }

  lemma NothingClamped()
    ensures Unclamped(Changes([]))
  {
  }

  /** What their rebuild leaves: two, since all three now count for the first day. */
  lemma AsFoundKarma()
    ensures StandingOf(After(EMPTY, Changes(AsFound())), AUTHOR).Total() == 2
  {
    hide Changes, Recorded, StandingOf, PastIn, Points, After, Numbered, Asked, Last;
    ThreeApart();
    var a, b, c := UpOn(0, 1, 0, 2), UpOn(1, 1, 0, 2), UpOn(2, 1, 0, 2);
    assert [] + [a] == [a] && [a] + [b] == [a, b] && [a, b] + [c] == AsFound();
    NothingYet();
    NobodyStands(AUTHOR);
    forall k ensures Last([], k) == 0 { LastIsNone(k); }
    OneVote([], a, 0, 0);
    LastOf([], a, b.Row());
    OneVote([a], b, 1, 0);
    LastOf([], a, c.Row());
    LastOf([a], b, c.Row());
    OneVote([a, b], c, 2, 0);
  }

  lemma AsFoundFits(works: map<ItemId, Work>)
    requires Known(works, DayTwo())
    ensures Unchanged(AsFound()) && Known(works, AsFound()) && forall c :: c in AsFound() ==> c.cap == 2
  {
    hide Numbered;
    ThreeApart();
    assert UpOn(2, -1, 0, 2) in DayTwo() && UpOn(0, 1, 0, 2) in DayTwo() && UpOn(1, 1, 0, 2) in DayTwo();
  }

  lemma DayTwoEnumerated()
    ensures Enumerates(RowsOf(AsFound()), Recorded(DayTwo()))
  {
    hide Recorded, Numbered;
    ThreeApart();
    DayTwoRows();
    assert RowsOf(AsFound()) == [UpOn(0, 1, 0, 2).Row(), UpOn(1, 1, 0, 2).Row(), UpOn(2, 1, 0, 2).Row()];
  }

  /** An unclamped run alone is not enough: its rebuild can be clamped, and differ. */
  lemma RebuildAloneCanClamp(works: map<ItemId, Work>)
    requires Known(works, DayTwo())
    ensures Unclamped(Changes(DayTwo())) && Enumerates(RowsOf(AsFound()), Recorded(DayTwo()))
    ensures Drift(DayTwo(), works, RowsOf(AsFound()), 2, AUTHOR) == 1
  {
    hide Changes, Recorded, StandingOf, After, Replay, Unclamped, Unchanged, Known, RowKept, Enumerates, RowsOf, DayTwo, AsFound;
    AsFoundFits(works);
    DayTwoRows();
    DayTwoEnumerated();
    UnchangedReplay(AsFound(), Recorded(DayTwo()), works, 2);
    DayTwoKarma();
    AsFoundKarma();
  }
}
