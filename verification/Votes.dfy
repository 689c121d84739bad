/**
 * Votes: one row a person and item, tallies and ranking columns kept as a cache over the rows, and
 * karma moved in the same step.
 */
module Votes {
  import opened Wrappers
  import opened Access
  import opened Collections
  import opened Karma

  datatype ItemId = PostId(id: string) | CommentId(id: string)

  /** A row's primary key, and the row: its value and the day it was first inserted. */
  datatype Key = Key(item: ItemId, voter: string)
  datatype Ballot = Ballot(value: int, day: int)

  type VoteValue = v: int | -1 <= v <= 1

  /** A post, or a comment on `post`. `rank` is the hot score of a post and the best score of a comment. */
  datatype Item = Item(
    work: Work, post: string, created: int, live: bool, locked: bool,
    up: int, down: int, score: int, rank: int, controversy: int)

  datatype Tally = Tally(up: int, down: int, score: int)

  /** The ranking functions, as the stored columns hold their results. */
  datatype Ranking = Ranking(hot: (int, int, int) -> int, best: (int, int) -> int, controversy: (int, int) -> int) {
    /** Without votes both of the functions whose columns default to zero are zero. */
    predicate ZeroAtFirst() {
      best(0, 0) == 0 && controversy(0, 0) == 0
    }
  }

  /** An accepted vote that changed something. */
  datatype Cast = Cast(item: ItemId, work: Work, voter: string, value: VoteValue, day: int, cap: int) {
    function Row(): Key {
      Key(item, voter)
    }
  }

  function Previous(ballots: map<Key, Ballot>, k: Key): int {
    if k in ballots then ballots[k].value else 0
  }

  /** Delete, update or insert the row; an update keeps when the row was first inserted. */
  function Recast(ballots: map<Key, Ballot>, k: Key, value: int, day: int): map<Key, Ballot> {
    if value == 0 then ballots - {k}
    else if k in ballots then ballots[k := ballots[k].(value := value)]
    else ballots[k := Ballot(value, day)]
  }

  /** The vote rows after a run of accepted votes. */
  function Recorded(casts: seq<Cast>): map<Key, Ballot> {
    if casts == [] then map[]
    else
      var c := casts[|casts| - 1];
      Recast(Recorded(casts[..|casts| - 1]), c.Row(), c.value, c.day)
  }

  /** What the run asked of karma. */
  function Changes(casts: seq<Cast>): seq<Change> {
    if casts == [] then []
    else
      var front, c := casts[..|casts| - 1], casts[|casts| - 1];
      Changes(front) + [Asked(front, c)]
  }

  function Asked(before: seq<Cast>, c: Cast): Change {
    Change(c.work, c.voter, c.day, c.cap, c.value - Previous(Recorded(before), c.Row()))
  }

  function Voters(ballots: map<Key, Ballot>, item: ItemId, value: int): set<string> {
    set k | k in ballots && k.item == item && ballots[k].value == value :: k.voter
  }

  /** The tallies are a recount of the rows, and the ranking columns are the ranking of the tallies. */
  predicate Tallied(ranking: Ranking, id: ItemId, item: Item, ballots: map<Key, Ballot>) {
    && item.up == |Voters(ballots, id, 1)|
    && item.down == |Voters(ballots, id, -1)|
    && item.score == item.up - item.down
    && (id.PostId? ==> item.rank == ranking.hot(item.up, item.down, item.created))
    && (id.CommentId? ==> item.rank == ranking.best(item.up, item.down))
    && item.controversy == ranking.controversy(item.up, item.down)
  }

  predicate AllTallied(ranking: Ranking, items: map<ItemId, Item>, ballots: map<Key, Ballot>) {
    forall id :: id in items ==> Tallied(ranking, id, items[id], ballots)
  }

  /** Every accepted vote was somebody else's, on an item that is still there with the same author. */
  predicate Works(casts: seq<Cast>, items: map<ItemId, Item>) {
    forall c :: c in casts ==> c.item in items && items[c.item].work == c.work && c.voter != c.work.author
  }

  function Rank(ranking: Ranking, id: ItemId, item: Item): int {
    match id
    case PostId(_) => ranking.hot(item.up, item.down, item.created)
    case CommentId(_) => ranking.best(item.up, item.down)
  }

  /** How far the up and the down tally move when one voter goes from one value to another. */
  function Deltas(previous: int, next: int): (int, int)
  {
    ((if next == 1 then 1 else 0) - (if previous == 1 then 1 else 0),
     (if next == -1 then 1 else 0) - (if previous == -1 then 1 else 0))
  }

  /** An item whose tallies moved by `d`, ranked again. */
  function Counted(ranking: Ranking, id: ItemId, item: Item, d: (int, int)): (counted: Item)
    ensures Uncounted(counted) == Uncounted(item)
  {
    var t := item.(up := item.up + d.0, down := item.down + d.1, score := item.score + (d.0 - d.1));
    t.(rank := Rank(ranking, id, t), controversy := ranking.controversy(t.up, t.down))
  }

  /** Everything about an item but its tallies and ranks. */
  function Uncounted(item: Item): Item {
    item.(up := 0, down := 0, score := 0, rank := 0, controversy := 0)
  }

  predicate Found(items: map<ItemId, Item>, id: ItemId) {
    id in items && items[id].live && (id.CommentId? ==> PostId(items[id].post) in items)
  }

  predicate LockedAt(items: map<ItemId, Item>, id: ItemId)
    requires Found(items, id)
  {
    items[if id.PostId? then id else PostId(items[id].post)].locked
  }

  /** Why a vote is refused, first reason first. */
  function Objection(items: map<ItemId, Item>, ballots: map<Key, Ballot>, who: Caller, id: ItemId, value: VoteValue)
    : Option<Refusal>
  {
    var k := Key(id, who.userId);
    if !Found(items, id) then Some(NotFound)
    else if LockedAt(items, id) then Some(Locked)
    else if items[id].work.author == who.userId then Some(SelfVote)
    else if !who.verified then Some(NotVerified)
    else if who.banned then Some(BannedHere)
    else if !who.allowed then Some(NotAllowed)
    else if k !in ballots && value != 0 && who.recent >= VOTES_PER_HOUR then Some(RateLimited)
    else None
  }

  lemma AcceptedIsFound(items: map<ItemId, Item>, ballots: map<Key, Ballot>, who: Caller, id: ItemId, value: VoteValue)
    requires Objection(items, ballots, who, id, value).None?
    ensures id in items && items[id].work.author != who.userId
  {
  }

  /** The caller is told why not, or the item's tallies as they now stand. */
  function Answer(
    before: map<ItemId, Item>, ballots: map<Key, Ballot>, who: Caller, id: ItemId, value: VoteValue,
    after: map<ItemId, Item>): Result<Tally, Refusal>
  {
    var refusal := Objection(before, ballots, who, id, value);
    if refusal.Some? then Err(refusal.value)
    else if id in after then Ok(Tally(after[id].up, after[id].down, after[id].score))
    else Err(NotFound)
  }

  /** A vote that is refused or says what the row already says adds nothing to the history. */
  function CastsAfter(
    casts: seq<Cast>, items: map<ItemId, Item>, ballots: map<Key, Ballot>,
    who: Caller, id: ItemId, value: VoteValue, day: int, cap: int): seq<Cast>
  {
    if Objection(items, ballots, who, id, value).Some? || Previous(ballots, Key(id, who.userId)) == value then casts
    else casts + [Cast(id, items[id].work, who.userId, value, day, cap)]
  }

  class VoteTables {
    const ranking: Ranking
    const karma: KarmaTables
    var items: map<ItemId, Item>
    var ballots: map<Key, Ballot>
    ghost var casts: seq<Cast>

    ghost predicate Valid()
      reads this, karma
    {
      && ranking.ZeroAtFirst()
      && ballots == Recorded(casts)
      && karma.Now() == After(EMPTY, Changes(casts))
      && Works(casts, items)
      && AllTallied(ranking, items, ballots)
    }

    constructor (ranking: Ranking)
      requires ranking.ZeroAtFirst()
      ensures Valid() && items == map[] && casts == [] && fresh(karma) && this.ranking == ranking
    {
      this.ranking := ranking;
      karma := new KarmaTables();
      items, ballots, casts := map[], map[], [];
    }

    /** A new post or comment: no votes yet, a post already ranked by its age. */
    method Add(id: ItemId, work: Work, post: string, created: int)
      requires Valid() && id !in items
      modifies this`items
      ensures Valid() && id in items && items == old(items)[id := items[id]]
      ensures Uncounted(items[id]) == Item(work, post, created, true, false, 0, 0, 0, 0, 0)
    {
      var rank := if id.PostId? then ranking.hot(0, 0, created) else 0;
      items := items[id := Item(work, post, created, true, false, 0, 0, 0, rank, 0)];
      NoVoters(casts, id, 1);
      NoVoters(casts, id, -1);
    }

    method VotePost(who: Caller, post: string, value: VoteValue, day: int, cap: int) returns (r: Result<Tally, Refusal>)
      requires Valid()
      modifies this, karma
      ensures Valid()
      ensures r == Answer(old(items), old(ballots), who, PostId(post), value, items)
      ensures casts == CastsAfter(old(casts), old(items), old(ballots), who, PostId(post), value, day, cap)
      ensures items.Keys == old(items).Keys
      ensures forall i :: i in items ==> Uncounted(items[i]) == Uncounted(old(items)[i])
      ensures r.Err? ==> items == old(items) && ballots == old(ballots) && karma.Now() == old(karma.Now())
    {
      r := Vote(who, PostId(post), value, day, cap);
    }

    method VoteComment(who: Caller, comment: string, value: VoteValue, day: int, cap: int) returns (r: Result<Tally, Refusal>)
      requires Valid()
      modifies this, karma
      ensures Valid()
      ensures r == Answer(old(items), old(ballots), who, CommentId(comment), value, items)
      ensures casts == CastsAfter(old(casts), old(items), old(ballots), who, CommentId(comment), value, day, cap)
      ensures items.Keys == old(items).Keys
      ensures forall i :: i in items ==> Uncounted(items[i]) == Uncounted(old(items)[i])
      ensures r.Err? ==> items == old(items) && ballots == old(ballots) && karma.Now() == old(karma.Now())
    {
      r := Vote(who, CommentId(comment), value, day, cap);
    }

    /** What posts and comments share: the checks, the row, the tallies, the ranks, the karma. */
    method Vote(who: Caller, id: ItemId, value: VoteValue, day: int, cap: int) returns (r: Result<Tally, Refusal>)
      requires Valid()
      modifies this, karma
      ensures Valid()
      ensures r == Answer(old(items), old(ballots), who, id, value, items)
      ensures casts == CastsAfter(old(casts), old(items), old(ballots), who, id, value, day, cap)
      ensures items.Keys == old(items).Keys
      ensures forall i :: i in items ==> Uncounted(items[i]) == Uncounted(old(items)[i])
      ensures r.Err? ==> items == old(items) && ballots == old(ballots) && karma.Now() == old(karma.Now())
    {
      hide Recorded, Changes, AllTallied, Works, After, Uncounted, Objection, Moved, Rank, Deltas;
      var refusal := Objection(items, ballots, who, id, value);
      if refusal.Some? {
        return Err(refusal.value);
      }
      AcceptedIsFound(items, ballots, who, id, value);
      var item := items[id];
      var k := Key(id, who.userId);
      var previous := Previous(ballots, k);
      RowValues(casts, k);
      if previous == value {
        return Ok(Tally(item.up, item.down, item.score));
      }
      ghost var c := Cast(id, item.work, who.userId, value, day, cap);
      OneMoreCast(casts, c);
      Recounted(ranking, items, ballots, id, who.userId, value, day);
      if value == 0 {
        ballots := ballots - {k};
      } else if k in ballots {
        ballots := ballots[k := ballots[k].(value := value)];
      } else {
        ballots := ballots[k := Ballot(value, day)];
      }
      var d := Deltas(previous, value);
      var tallied := item.(up := item.up + d.0, down := item.down + d.1, score := item.score + (d.0 - d.1));
      var ranked := tallied.(
        rank := Rank(ranking, id, tallied), controversy := ranking.controversy(tallied.up, tallied.down));
      assert ranked == Counted(ranking, id, item, d);
      WorksWith(casts, items, c, ranked);
      items := items[id := ranked];
      karma.Vote(item.work, who.userId, day, cap, previous, value);
      casts := casts + [c];
      r := Ok(Tally(tallied.up, tallied.down, tallied.score));
    }
  }

  // ----- one more vote -----

  lemma {:induction false} NoVotesYet(casts: seq<Cast>, id: ItemId)
    requires forall c :: c in casts ==> c.item != id
    ensures forall k :: k in Recorded(casts) ==> k.item != id
  {
    if casts != [] {
      assert casts[|casts| - 1] in casts;
      NoVotesYet(casts[..|casts| - 1], id);
    }
  }

  lemma NoVoters(casts: seq<Cast>, id: ItemId, value: int)
    requires forall c :: c in casts ==> c.item != id
    ensures Voters(Recorded(casts), id, value) == {}
  {
    hide Recorded;
    NoVotesYet(casts, id);
  }

  lemma {:induction false} RowValues(casts: seq<Cast>, k: Key)
    ensures k in Recorded(casts) ==> Recorded(casts)[k].value == 1 || Recorded(casts)[k].value == -1
  {
    if casts != [] {
      RowValues(casts[..|casts| - 1], k);
    }
  }

  lemma OneMoreCast(casts: seq<Cast>, c: Cast)
    ensures Recorded(casts + [c]) == Recast(Recorded(casts), c.Row(), c.value, c.day)
    ensures After(EMPTY, Changes(casts + [c])) == Moved(After(EMPTY, Changes(casts)), Asked(casts, c))
  {
    hide *;
    RecordedOneMore(casts, c);
    ChangesOneMore(casts, c);
    AfterOneMore(Changes(casts), Asked(casts, c));
  }

  lemma WorksWith(casts: seq<Cast>, items: map<ItemId, Item>, c: Cast, counted: Item)
    requires Works(casts, items) && c.item in items && c.voter != c.work.author
    requires Uncounted(counted) == Uncounted(items[c.item]) && items[c.item].work == c.work
    ensures Works(casts + [c], items[c.item := counted])
  {
  }

  lemma RecordedOneMore(casts: seq<Cast>, c: Cast)
    ensures Recorded(casts + [c]) == Recast(Recorded(casts), c.Row(), c.value, c.day)
  {
    hide Recast;
    assert (casts + [c])[..|casts|] == casts;
  }

  lemma ChangesOneMore(casts: seq<Cast>, c: Cast)
    ensures Changes(casts + [c]) == Changes(casts) + [Asked(casts, c)]
  {
    hide Recorded, Asked;
    assert (casts + [c])[..|casts|] == casts;
  }

  lemma AfterOneMore(run: seq<Change>, c: Change)
    ensures After(EMPTY, run + [c]) == Moved(After(EMPTY, run), c)
  {
    hide Moved;
    assert (run + [c])[..|run|] == run;
  }

  /** Whose votes have a value after a row is recast. */
  lemma VotersRecast(ballots: map<Key, Ballot>, id: ItemId, voter: string, value: int, day: int, i: ItemId, v: int)
    requires v != 0
    ensures Voters(Recast(ballots, Key(id, voter), value, day), i, v) ==
      if i != id then Voters(ballots, i, v)
      else if value == v then Voters(ballots, i, v) + {voter}
      else Voters(ballots, i, v) - {voter}
  {
    var k := Key(id, voter);
    var after := Recast(ballots, k, value, day);
    forall u ensures u in Voters(after, i, v) <==> Key(i, u) in after && after[Key(i, u)].value == v {}
    forall u ensures u in Voters(ballots, i, v) <==> Key(i, u) in ballots && ballots[Key(i, u)].value == v {}
  }

  lemma Recounted(
    ranking: Ranking, items: map<ItemId, Item>, ballots: map<Key, Ballot>,
    id: ItemId, voter: string, value: int, day: int)
    requires id in items && AllTallied(ranking, items, ballots)
    requires -1 <= value <= 1 && -1 <= Previous(ballots, Key(id, voter)) <= 1
    ensures var counted := Counted(ranking, id, items[id], Deltas(Previous(ballots, Key(id, voter)), value));
      var after := Recast(ballots, Key(id, voter), value, day);
      AllTallied(ranking, items[id := counted], after)
  {
    hide Recast, Voters, Deltas;
    var counted := Counted(ranking, id, items[id], Deltas(Previous(ballots, Key(id, voter)), value));
    var after := Recast(ballots, Key(id, voter), value, day);
    RecountedVoters(ballots, id, voter, value, day);
    forall i | i in items ensures Tallied(ranking, i, items[id := counted][i], after) {
      VotersRecast(ballots, id, voter, value, day, i, 1);
      VotersRecast(ballots, id, voter, value, day, i, -1);
    }
  }

  /** The recount of one item moves by exactly the difference the tallies move by. */
  lemma RecountedVoters(ballots: map<Key, Ballot>, id: ItemId, voter: string, value: int, day: int)
    requires -1 <= value <= 1 && -1 <= Previous(ballots, Key(id, voter)) <= 1
    ensures var after := Recast(ballots, Key(id, voter), value, day);
      var d := Deltas(Previous(ballots, Key(id, voter)), value);
      |Voters(after, id, 1)| == |Voters(ballots, id, 1)| + d.0 && |Voters(after, id, -1)| == |Voters(ballots, id, -1)| + d.1
  {
    hide Recast, Voters, Previous;
    VotersRecast(ballots, id, voter, value, day, id, 1);
    VotersRecast(ballots, id, voter, value, day, id, -1);
    VoterIsThere(ballots, id, voter, 1);
    VoterIsThere(ballots, id, voter, -1);
    Sizes(Voters(ballots, id, 1), voter);
    Sizes(Voters(ballots, id, -1), voter);
  }

  lemma VoterIsThere(ballots: map<Key, Ballot>, id: ItemId, voter: string, v: int)
    requires v != 0
    ensures voter in Voters(ballots, id, v) <==> Previous(ballots, Key(id, voter)) == v
  {
  }

  // ----- histories -----

  /** The last value a voter gave an item, 0 for none. */
  function Last(casts: seq<Cast>, k: Key): int {
    if casts == [] then 0
    else if casts[|casts| - 1].Row() == k then casts[|casts| - 1].value
    else Last(casts[..|casts| - 1], k)
  }

  lemma {:induction false} RowIsLastVote(casts: seq<Cast>, k: Key)
    ensures Previous(Recorded(casts), k) == Last(casts, k)
    ensures k in Recorded(casts) <==> Last(casts, k) != 0
  {
    if casts != [] {
      RowIsLastVote(casts[..|casts| - 1], k);
    }
  }

  /** Histories that leave every voter's last value alike leave every tally alike, whatever their order. */
  lemma TalliesForgetOrder(a: seq<Cast>, b: seq<Cast>, id: ItemId, value: int)
    requires value != 0 && forall k :: Last(a, k) == Last(b, k)
    ensures Voters(Recorded(a), id, value) == Voters(Recorded(b), id, value)
  {
    hide Recorded, Last;
    forall u ensures u in Voters(Recorded(a), id, value) <==> u in Voters(Recorded(b), id, value) {
      VoterIsThere(Recorded(a), id, u, value);
      VoterIsThere(Recorded(b), id, u, value);
      RowIsLastVote(a, Key(id, u));
      RowIsLastVote(b, Key(id, u));
      assert Last(a, Key(id, u)) == Last(b, Key(id, u));
    }
  }
}
