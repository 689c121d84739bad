/**
 * Karma: the totals a vote moves, and the daily ledger that caps what one account may give another.
 */
module Karma {
  import opened Sums

  datatype Kind = PostKind | CommentKind

  /** What was voted on: `signed` is false for an anonymous item, whose public author is null. */
  datatype Work = Work(kind: Kind, author: string, signed: bool)

  datatype Standing = Standing(post: int, comment: int, publicPost: int, publicComment: int) {
    function Total(): int {
      post + comment
    }
  }

  datatype Row = Row(voter: string, author: string, day: int)

  datatype Book = Book(ledger: map<Row, int>, karma: map<string, Standing>)

  /** One vote that changed by `amount` (what it is now less what it was), under the cap then in force. */
  datatype Change = Change(work: Work, voter: string, day: int, cap: int, amount: int) {
    function Ledger(): Row {
      Row(voter, work.author, day)
    }

    predicate Counts() {
      work.author != voter && amount != 0
    }
  }

  const EMPTY := Book(map[], map[])

  function Points(b: Book, r: Row): int {
    if r in b.ledger then b.ledger[r] else 0
  }

  function StandingOf(b: Book, user: string): Standing {
    if user in b.karma then b.karma[user] else Standing(0, 0, 0, 0)
  }

  function Clamp(x: int, cap: int): int {
    var low := if x < cap then x else cap;
    if low > -cap then low else -cap
  }

  function Applied(points: int, amount: int, cap: int): int {
    Clamp(points + amount, cap) - points
  }

  function AppliedIn(b: Book, c: Change): int {
    if c.Counts() then Applied(Points(b, c.Ledger()), c.amount, c.cap) else 0
  }

  function Credited(s: Standing, w: Work, points: int): Standing {
    match w.kind
    case PostKind =>
      s.(post := s.post + points, publicPost := s.publicPost + (if w.signed then points else 0))
    case CommentKind =>
      s.(comment := s.comment + points, publicComment := s.publicComment + (if w.signed then points else 0))
  }

  function Moved(b: Book, c: Change): Book {
    if !c.Counts() then b
    else
      var applied := AppliedIn(b, c);
      var ledger := b.ledger[c.Ledger() := Points(b, c.Ledger()) + applied];
      if applied == 0 then b.(ledger := ledger)
      else Book(ledger, b.karma[c.work.author := Credited(StandingOf(b, c.work.author), c.work, applied)])
  }

  class KarmaTables {
    var ledger: map<Row, int>
    var karma: map<string, Standing>

    constructor ()
      ensures Now() == EMPTY
    {
      ledger, karma := map[], map[];
    }

    function Now(): Book
      reads this
    {
      Book(ledger, karma)
    }

    /** Move a person's karma for one vote, and never further than the cap allows. */
    method Vote(work: Work, voter: string, day: int, cap: int, previous: int, next: int)
      modifies this
      ensures Now() == Moved(old(Now()), Change(work, voter, day, cap, next - previous))
    {
      hide AppliedIn;
      if work.author == voter || previous == next {
        return;
      }
      var _ := Move(Change(work, voter, day, cap, next - previous));
    }

    /** The tail the vote and the rebuild share: the ledger row first, then the author's totals. */
    method Move(c: Change) returns (moved: bool)
      requires c.Counts()
      modifies this
      ensures Now() == Moved(old(Now()), c) && (moved <==> AppliedIn(old(Now()), c) != 0)
    {
      hide Credited, Clamp, Applied;
      var row := c.Ledger();
      if row !in ledger {
        ledger := ledger[row := 0];
      }
      var points := ledger[row];
      var applied := Applied(points, c.amount, c.cap);
      if applied == 0 {
        return false;
      }
      ledger := ledger[row := points + applied];
      if c.work.author !in karma {
        karma := karma[c.work.author := Standing(0, 0, 0, 0)];
      }
      karma := karma[c.work.author := Credited(karma[c.work.author], c.work, applied)];
      return true;
    }

    /** Rebuild everything by replaying each vote at the time it was cast; counts the votes that moved karma. */
    method Recompute(replay: seq<Change>) returns (count: nat)
      requires forall c :: c in replay ==> c.amount == 1 || c.amount == -1
      modifies this
      ensures Now() == After(EMPTY, replay)
      ensures count == Effective(EMPTY, replay)
    {
      hide AppliedIn;
      ledger, karma, count := map[], map[], 0;
      for i := 0 to |replay|
        invariant Now() == After(EMPTY, replay[..i])
        invariant count == Effective(EMPTY, replay[..i])
      {
        var c := replay[i];
        assert c in replay && replay[..i + 1][..i] == replay[..i];
        NothingApplied(Now(), c);
        if c.work.author != c.voter {
          var moved := Move(c);
          if moved {
            count := count + 1;
          }
        }
      }
      assert replay[..|replay|] == replay;
    }
  }

  // ----- runs -----

  /** How many changes of a run moved karma. */
  function Effective(b: Book, run: seq<Change>): nat {
    if run == [] then 0
    else
      var front := run[..|run| - 1];
      Effective(b, front) + (if AppliedIn(After(b, front), run[|run| - 1]) != 0 then 1 else 0)
  }

  /** The book after a run of changes, first to last. */
  function After(b: Book, run: seq<Change>): Book {
    if run == [] then b else Moved(After(b, run[..|run| - 1]), run[|run| - 1])
  }

  /** Everything the ledger says was given to an author. */
  ghost function Given(b: Book, author: string): int {
    Sum(RowsFor(b.ledger, author))
  }

  function RowsFor(ledger: map<Row, int>, author: string): map<Row, int> {
    map r | r in ledger && r.author == author :: ledger[r]
  }

  /** The karma totals are the ledger's. */
  ghost predicate Balanced(b: Book) {
    forall a :: StandingOf(b, a).Total() == Given(b, a)
  }

  lemma RowsForPut(ledger: map<Row, int>, r: Row, points: int, author: string)
    ensures RowsFor(ledger[r := points], author) ==
      if r.author == author then RowsFor(ledger, author)[r := points] else RowsFor(ledger, author)
  {
  }

  lemma MovedStanding(b: Book, c: Change, a: string)
    ensures StandingOf(Moved(b, c), a).Total() == StandingOf(b, a).Total() + (if a == c.work.author then AppliedIn(b, c) else 0)
  {
    hide AppliedIn, Credited;
    NothingApplied(b, c);
    CreditedTotal(StandingOf(b, a), c.work, AppliedIn(b, c));
  }

  lemma CreditedTotal(s: Standing, w: Work, points: int)
    ensures Credited(s, w, points).Total() == s.Total() + points
  {
  }

  lemma MovedGiven(b: Book, c: Change, a: string)
    ensures Given(Moved(b, c), a) == Given(b, a) + (if a == c.work.author then AppliedIn(b, c) else 0)
  {
    if c.Counts() {
      var r := c.Ledger();
      RowsForPut(b.ledger, r, Points(b, r) + AppliedIn(b, c), a);
      SumPut(RowsFor(b.ledger, a), r, Points(b, r) + AppliedIn(b, c));
    }
  }

  /** In every reachable book a person's karma is exactly what the ledger says they were given. */
  lemma {:induction false} KarmaIsTheLedger(run: seq<Change>)
    ensures Balanced(After(EMPTY, run))
  {
    hide Given, StandingOf, Moved, AppliedIn;
    if run == [] {
      EmptyBalanced();
    } else {
      var before, c := After(EMPTY, run[..|run| - 1]), run[|run| - 1];
      KarmaIsTheLedger(run[..|run| - 1]);
      forall a ensures StandingOf(Moved(before, c), a).Total() == Given(Moved(before, c), a) {
        MovedStanding(before, c, a);
        MovedGiven(before, c, a);
      }
    }
  }

  lemma EmptyBalanced()
    ensures Balanced(EMPTY)
  {
    hide Sum, StandingOf;
    forall a ensures StandingOf(EMPTY, a).Total() == Given(EMPTY, a) {
      NobodyStands(a);
      assert RowsFor(map[], a) == map[];
      SumOfNothing<Row>();
    }
  }

  predicate WithinCap(b: Book, cap: int) {
    forall r :: r in b.ledger ==> -cap <= b.ledger[r] <= cap
  }

  /** Under one cap, nobody moves anybody's karma further than it in a day, either way. */
  lemma {:induction false} DailyCapHolds(run: seq<Change>, cap: nat)
    requires forall c :: c in run ==> c.cap == cap
    ensures WithinCap(After(EMPTY, run), cap)
  {
    if run != [] {
      DailyCapHolds(run[..|run| - 1], cap);
      assert run[|run| - 1] in run;
    }
  }

  // ----- what the cap swallows -----

  /** What the run's votes add up to for an author, the cap aside. */
  function VotedFor(run: seq<Change>, author: string): int {
    if run == [] then 0
    else
      var c := run[|run| - 1];
      VotedFor(run[..|run| - 1], author) + (if c.Counts() && c.work.author == author then c.amount else 0)
  }

  /** How much of it the cap kept back, net. */
  function Swallowed(run: seq<Change>, author: string): int {
    if run == [] then 0
    else
      var c := run[|run| - 1];
      var front := run[..|run| - 1];
      Swallowed(front, author) +
      (if c.Counts() && c.work.author == author then c.amount - AppliedIn(After(EMPTY, front), c) else 0)
  }

  /** Karma is what was cast less what the cap swallowed, over every run. */
  lemma {:induction false} KarmaIsVotesLessSwallowed(run: seq<Change>, a: string)
    ensures StandingOf(After(EMPTY, run), a).Total() == VotedFor(run, a) - Swallowed(run, a)
  {
    hide Moved, StandingOf, AppliedIn;
    if run == [] {
      assert After(EMPTY, run) == EMPTY;
      NobodyStands(a);
    } else {
      var front, c := run[..|run| - 1], run[|run| - 1];
      KarmaIsVotesLessSwallowed(front, a);
      MovedStanding(After(EMPTY, front), c, a);
      NothingApplied(After(EMPTY, front), c);
    }
  }

  lemma NobodyStands(a: string)
    ensures StandingOf(EMPTY, a).Total() == 0
  {
    hide Credited;
  }

  lemma NothingApplied(b: Book, c: Change)
    ensures !c.Counts() ==> AppliedIn(b, c) == 0
  {
  }

  // ----- changing a vote and changing it back -----

  ghost predicate SameStandings(a: Book, b: Book) {
    forall u :: StandingOf(a, u) == StandingOf(b, u)
  }

  /**
   * A vote changed under one cap and changed back the same day under a later one leaves everyone's
   * karma as it was exactly when the first change was not clamped and the ledger row it found is
   * within the later cap. (The design says it always does.)
   */
  lemma ChangeAndBackIsFree(b: Book, c: Change, later: int)
    requires c.Counts() && -2 <= c.amount <= 2 && c.cap >= 1 && later >= 1
    ensures SameStandings(Moved(Moved(b, c), c.(amount := -c.amount, cap := later)), b)
      <==> -later <= Points(b, c.Ledger()) <= later && -c.cap <= Points(b, c.Ledger()) + c.amount <= c.cap
  {
    hide Moved, StandingOf;
    var back := c.(amount := -c.amount, cap := later);
    var a := c.work.author;
    MovedPoints(b, c);
    MovedStanding(b, c, a);
    MovedStanding(Moved(b, c), back, a);
    if -later <= Points(b, c.Ledger()) <= later && -c.cap <= Points(b, c.Ledger()) + c.amount <= c.cap {
      UndoneStandings(b, c, back);
    }
  }

  lemma MovedPoints(b: Book, c: Change)
    ensures Points(Moved(b, c), c.Ledger()) == Points(b, c.Ledger()) + AppliedIn(b, c)
  {
  }

  /** When the second change takes back what the first one applied, on whatever day, nobody's karma has moved. */
  lemma UndoneStandings(b: Book, c: Change, back: Change)
    requires c.Counts() && back.Counts() && back.work == c.work
    requires AppliedIn(Moved(b, c), back) == -AppliedIn(b, c)
    ensures SameStandings(Moved(Moved(b, c), back), b)
  {
    hide AppliedIn, Credited;
    var a := c.work.author;
    forall u ensures StandingOf(Moved(Moved(b, c), back), u) == StandingOf(b, u) {
      CreditedBack(StandingOf(b, a), c.work, AppliedIn(b, c));
    }
  }

  /** How far a ledger row would go past the cap, 0 within it: what the clamp keeps back. */
  function Past(points: int, cap: int): int {
    if points > cap then points - cap else if points < -cap then points + cap else 0
  }

  lemma OtherRow(b: Book, c: Change, r: Row)
    requires r != c.Ledger()
    ensures Points(Moved(b, c), r) == Points(b, r)
  {
  }

  /**
   * Changed back on another day it meets another ledger row, and everyone's karma is as it was exactly
   * when the two changes go past their caps by the same amount in opposite ways, as when neither does.
   */
  lemma ChangeAndBackAnotherDay(b: Book, c: Change, later: int, day: int)
    requires c.Counts() && day != c.day && c.cap >= 1 && later >= 1
    ensures var back := c.(amount := -c.amount, cap := later, day := day);
      SameStandings(Moved(Moved(b, c), back), b)
      <==> Past(Points(b, c.Ledger()) + c.amount, c.cap) == -Past(Points(b, back.Ledger()) - c.amount, later)
  {
    hide Moved, StandingOf;
    var back := c.(amount := -c.amount, cap := later, day := day);
    OtherRow(b, c, back.Ledger());
    MovedStanding(b, c, c.work.author);
    MovedStanding(Moved(b, c), back, c.work.author);
    if AppliedIn(Moved(b, c), back) == -AppliedIn(b, c) {
      UndoneStandings(b, c, back);
    }
  }

  lemma CreditedBack(s: Standing, w: Work, points: int)
    ensures Credited(Credited(s, w, points), w, -points) == s
  {
  }

  /** Counter to the design: with the day's cap already spent, an upvote taken back costs its author one. */
  lemma SpentCapMakesUndoCost(b: Book, c: Change)
    requires c.Counts() && c.amount == 1 && c.cap >= 1 && Points(b, c.Ledger()) == c.cap
    ensures StandingOf(Moved(Moved(b, c), c.(amount := -1)), c.work.author).Total()
      == StandingOf(b, c.work.author).Total() - 1
  {
    hide StandingOf, Moved;
    MovedPoints(b, c);
    MovedStanding(b, c, c.work.author);
    MovedStanding(Moved(b, c), c.(amount := -1), c.work.author);
  }

  /** A vote moves karma its own way and by no more than itself exactly when the ledger is not past the cap. */
  lemma AppliedIsTowardsTheVote(points: int, amount: int, cap: int)
    requires amount != 0 && cap >= 0
    ensures amount > 0 ==> (0 <= Applied(points, amount, cap) <= amount <==> points <= cap && points + amount >= -cap)
    ensures amount < 0 ==> (amount <= Applied(points, amount, cap) <= 0 <==> points >= -cap && points + amount <= cap)
  {
  }

  // ----- histories that run into the cap -----

  /** So many upvotes by one account on one author's work in one day. */
  function Upvotes(w: Work, voter: string, day: int, cap: int, n: nat): seq<Change> {
    if n == 0 then [] else Upvotes(w, voter, day, cap, n - 1) + [Change(w, voter, day, cap, 1)]
  }

  lemma OneMoreChange(run: seq<Change>, c: Change)
    ensures After(EMPTY, run + [c]) == Moved(After(EMPTY, run), c)
  {
    hide Moved;
    assert (run + [c])[..|run|] == run;
  }

  lemma {:induction false} UpvotesSpend(w: Work, voter: string, day: int, cap: int, n: nat)
    requires w.author != voter && n <= cap
    ensures var b := After(EMPTY, Upvotes(w, voter, day, cap, n));
      Points(b, Row(voter, w.author, day)) == n && StandingOf(b, w.author).Total() == n
  {
    hide Moved, StandingOf, Points, After;
    var c := Change(w, voter, day, cap, 1);
    if n == 0 {
      NothingSpent(w.author, c.Ledger());
    } else {
      UpvotesSpend(w, voter, day, cap, n - 1);
      var before := After(EMPTY, Upvotes(w, voter, day, cap, n - 1));
      OneMoreChange(Upvotes(w, voter, day, cap, n - 1), c);
      MovedPoints(before, c);
      MovedStanding(before, c, w.author);
    }
  }

  lemma NothingSpent(a: string, r: Row)
    ensures StandingOf(After(EMPTY, []), a).Total() == 0 && Points(After(EMPTY, []), r) == 0
  {
  }

  /** For every cap: spend it, and one more upvote taken back leaves the author a point short. */
  lemma SpentCapRun(w: Work, voter: string, day: int, cap: nat)
    requires w.author != voter && cap >= 1
    ensures var run := Upvotes(w, voter, day, cap, cap);
      var up, down := Change(w, voter, day, cap, 1), Change(w, voter, day, cap, -1);
      && StandingOf(After(EMPTY, run), w.author).Total() == cap
      && StandingOf(After(EMPTY, run + [up] + [down]), w.author).Total() == cap - 1
  {
    hide Moved, StandingOf, After, Points;
    var run := Upvotes(w, voter, day, cap, cap);
    var up, down := Change(w, voter, day, cap, 1), Change(w, voter, day, cap, -1);
    UpvotesSpend(w, voter, day, cap, cap);
    OneMoreChange(run, up);
    OneMoreChange(run + [up], down);
    SpentCapMakesUndoCost(After(EMPTY, run), up);
    assert up.(amount := -1) == down;
  }

  /** For every cap and every lower one: spend the cap, lower it, and one more upvote takes the difference away. */
  lemma LoweredCapReversesAVote(w: Work, voter: string, day: int, cap: nat, lower: nat)
    requires w.author != voter && lower < cap
    ensures var run := Upvotes(w, voter, day, cap, cap);
      && StandingOf(After(EMPTY, run), w.author).Total() == cap
      && StandingOf(After(EMPTY, run + [Change(w, voter, day, lower, 1)]), w.author).Total() == lower
  {
    hide Moved, StandingOf, After, Points;
    var run, c := Upvotes(w, voter, day, cap, cap), Change(w, voter, day, lower, 1);
    UpvotesSpend(w, voter, day, cap, cap);
    OneMoreChange(run, c);
    MovedStanding(After(EMPTY, run), c, w.author);
  }

  /**
   * For every lower cap: go two points past it under the higher one, lower it, turn an upvote down and
   * up again, and though turning it down was not clamped the author ends two points short.
   */
  lemma LoweredCapMakesUndoCost(w: Work, voter: string, day: int, cap: nat, lower: nat)
    requires w.author != voter && 1 <= lower && lower + 2 <= cap
    ensures var run := Upvotes(w, voter, day, cap, lower + 2);
      var down, up := Change(w, voter, day, lower, -2), Change(w, voter, day, lower, 2);
      && StandingOf(After(EMPTY, run), w.author).Total() == lower + 2
      && AppliedIn(After(EMPTY, run), down) == down.amount
      && StandingOf(After(EMPTY, run + [down] + [up]), w.author).Total() == lower
  {
    hide Moved, StandingOf, After, Points;
    var run := Upvotes(w, voter, day, cap, lower + 2);
    var down, up := Change(w, voter, day, lower, -2), Change(w, voter, day, lower, 2);
    UpvotesSpend(w, voter, day, cap, lower + 2);
    OneMoreChange(run, down);
    OneMoreChange(run + [down], up);
    MovedPoints(After(EMPTY, run), down);
    MovedStanding(After(EMPTY, run), down, w.author);
    MovedStanding(After(EMPTY, run + [down]), up, w.author);
  }

  // ----- the public half -----

  /** Votes on anonymous work never move anyone's public totals, whatever the run. */
  lemma {:induction false} AnonymousMovesNothingPublic(b: Book, run: seq<Change>, u: string)
    requires forall c :: c in run ==> !c.work.signed
    ensures StandingOf(After(b, run), u).publicPost == StandingOf(b, u).publicPost
    ensures StandingOf(After(b, run), u).publicComment == StandingOf(b, u).publicComment
  {
    hide AppliedIn, Credited;
    if run != [] {
      var before, c := After(b, run[..|run| - 1]), run[|run| - 1];
      AnonymousMovesNothingPublic(b, run[..|run| - 1], u);
      assert c in run;
      UnsignedPublic(StandingOf(before, u), c.work, AppliedIn(before, c));
    }
  }

  lemma UnsignedPublic(s: Standing, w: Work, points: int)
    requires !w.signed
    ensures Credited(s, w, points).publicPost == s.publicPost
    ensures Credited(s, w, points).publicComment == s.publicComment
  {
  }

  /** Votes on posts never move anyone's comment totals, and votes on comments never their post totals. */
  lemma {:induction false} KindsStayApart(b: Book, run: seq<Change>, kind: Kind, u: string)
    requires forall c :: c in run ==> c.work.kind == kind
    ensures var before, after := StandingOf(b, u), StandingOf(After(b, run), u);
      if kind == PostKind then after.comment == before.comment && after.publicComment == before.publicComment
      else after.post == before.post && after.publicPost == before.publicPost
  {
    hide AppliedIn, Credited;
    if run != [] {
      var front, c := After(b, run[..|run| - 1]), run[|run| - 1];
      KindsStayApart(b, run[..|run| - 1], kind, u);
      assert c in run;
      CreditedKind(StandingOf(front, u), c.work, AppliedIn(front, c));
    }
  }

  lemma CreditedKind(s: Standing, w: Work, points: int)
    ensures w.kind == PostKind ==> Credited(s, w, points).comment == s.comment && Credited(s, w, points).publicComment == s.publicComment
    ensures w.kind == CommentKind ==> Credited(s, w, points).post == s.post && Credited(s, w, points).publicPost == s.publicPost
  {
  }

  /** While everything voted on is signed, what everyone sees is all there is. */
  lemma {:induction false} SignedIsPublic(run: seq<Change>, u: string)
    requires forall c :: c in run ==> c.work.signed
    ensures var s := StandingOf(After(EMPTY, run), u); s.publicPost == s.post && s.publicComment == s.comment
  {
    hide AppliedIn, Credited;
    if run != [] {
      var front, c := After(EMPTY, run[..|run| - 1]), run[|run| - 1];
      SignedIsPublic(run[..|run| - 1], u);
      assert c in run;
      CreditedSigned(StandingOf(front, u), c.work, AppliedIn(front, c));
    }
  }

  lemma CreditedSigned(s: Standing, w: Work, points: int)
    requires w.signed && s.publicPost == s.post && s.publicComment == s.comment
    ensures Credited(s, w, points).publicPost == Credited(s, w, points).post
    ensures Credited(s, w, points).publicComment == Credited(s, w, points).comment
  {
  }
}
