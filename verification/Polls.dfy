/** Polls: one final vote a person, counts kept on the options, and the shares a reader sees. */
module Polls {
  import opened Wrappers
  import opened Access

  /** A poll post: its options' ids by position, and when voting closes. */
  datatype Poll = Poll(options: seq<string>, closesAt: int, live: bool, locked: bool)

  /** A vote's primary key: one a person and post. */
  datatype VoteKey = VoteKey(post: string, voter: string)

  function Choosers(ballots: map<VoteKey, string>, post: string, option: string): set<string> {
    set k | k in ballots && k.post == post && ballots[k] == option :: k.voter
  }

  function Voters(ballots: map<VoteKey, string>, post: string): set<string> {
    set k | k in ballots && k.post == post :: k.voter
  }

  predicate Distinct(ids: seq<string>) {
    forall i, j :: 0 <= i < j < |ids| ==> ids[i] != ids[j]
  }

  /** An option's count is its vote rows; votes are for options of their poll; no option is in two polls. */
  predicate Counted(polls: map<string, Poll>, counts: map<string, int>, ballots: map<VoteKey, string>) {
    && (forall p, o :: p in polls && o in polls[p].options ==> o in counts && counts[o] == |Choosers(ballots, p, o)|)
    && (forall p :: p in polls ==> Distinct(polls[p].options))
    && (forall p, q, o :: p in polls && q in polls && o in polls[p].options && o in polls[q].options ==> p == q)
    && (forall k :: k in ballots ==> k.post in polls && ballots[k] in polls[k.post].options)
  }

  function Objection(polls: map<string, Poll>, ballots: map<VoteKey, string>, who: Caller, post: string, option: string, now: int)
    : Option<Refusal>
  {
    if post !in polls || !polls[post].live then Some(NotFound)
    else if polls[post].locked then Some(Locked)
    else if polls[post].closesAt <= now then Some(Closed)
    else if !who.verified then Some(NotVerified)
    else if who.banned then Some(BannedHere)
    else if !who.allowed then Some(NotAllowed)
    else if option !in polls[post].options then Some(Invalid)
    else if VoteKey(post, who.userId) in ballots then Some(Exists)
    else None
  }

  datatype View = View(votes: seq<int>, shares: seq<int>, total: int, closed: bool, mine: Option<string>)

  function CountsOf(counts: map<string, int>, options: seq<string>): (votes: seq<int>)
    ensures |votes| == |options|
  {
    seq(|options|, i requires 0 <= i < |options| => if options[i] in counts then counts[options[i]] else 0)
  }

  function Total(votes: seq<int>): int {
    if votes == [] then 0 else Total(votes[..|votes| - 1]) + votes[|votes| - 1]
  }

  /** Whole percent, halves up; all zero when nobody voted. */
  function Share(votes: int, total: int): int {
    if total > 0 then (200 * votes + total) / (2 * total) else 0
  }

  function Shares(votes: seq<int>, total: int): (shares: seq<int>)
    ensures |shares| == |votes|
  {
    if votes == [] then [] else Shares(votes[..|votes| - 1], total) + [Share(votes[|votes| - 1], total)]
  }

  class PollTables {
    var polls: map<string, Poll>
    var counts: map<string, int>
    var ballots: map<VoteKey, string>

    ghost predicate Valid()
      reads this
    {
      Counted(polls, counts, ballots)
    }

    constructor ()
      ensures Valid() && polls == map[] && ballots == map[]
    {
      polls, counts, ballots := map[], map[], map[];
    }

    /** A poll with fresh option ids, written with its post. */
    method WritePollOptions(post: string, options: seq<string>, closesAt: int)
      requires Valid() && post !in polls && Distinct(options)
      requires forall p :: p in polls ==> forall o :: o in options ==> o !in polls[p].options
      modifies this`polls, this`counts
      ensures Valid() && polls == old(polls)[post := Poll(options, closesAt, true, false)]
      ensures forall o :: o in options ==> o in counts && counts[o] == 0
    {
      hide Counted, Choosers;
      OnePollMore(polls, counts, ballots, post, options, closesAt);
      counts := counts + map o | o in options :: 0;
      polls := polls[post := Poll(options, closesAt, true, false)];
    }

    function ReadPoll(post: string, viewer: Option<string>, now: int): Option<View>
      reads this
    {
      if post !in polls then None
      else
        var votes := CountsOf(counts, polls[post].options);
        var total := Total(votes);
        var mine := if viewer.Some? && VoteKey(post, viewer.value) in ballots
                    then Some(ballots[VoteKey(post, viewer.value)]) else None;
        Some(View(votes, Shares(votes, total), total, polls[post].closesAt <= now, mine))
    }

    /** Cast the one vote. */
    method VotePoll(who: Caller, post: string, option: string, now: int) returns (r: Result<View, Refusal>)
      requires Valid()
      modifies this`counts, this`ballots
      ensures Valid()
      ensures r.Err? ==> Some(r.error) == Objection(polls, old(ballots), who, post, option, now)
      ensures r.Err? ==> ballots == old(ballots) && counts == old(counts)
      ensures r.Ok? ==> Objection(polls, old(ballots), who, post, option, now).None?
      ensures r.Ok? ==> ballots == old(ballots)[VoteKey(post, who.userId) := option]
      ensures r.Ok? ==> Some(r.value) == ReadPoll(post, Some(who.userId), now) && r.value.mine == Some(option)
    {
      var refusal := Objection(polls, ballots, who, post, option, now);
      if refusal.Some? {
        return Err(refusal.value);
      }
      OneMoreVote(polls, counts, ballots, post, who.userId, option);
      ballots := ballots[VoteKey(post, who.userId) := option];
      counts := counts[option := counts[option] + 1];
      return Ok(ReadPoll(post, Some(who.userId), now).value);
    }
  }

  lemma NoVotesYet(polls: map<string, Poll>, ballots: map<VoteKey, string>, post: string)
    requires post !in polls && forall k :: k in ballots ==> k.post in polls
    ensures forall o :: Choosers(ballots, post, o) == {}
  {
  }

  lemma OnePollMore(polls: map<string, Poll>, counts: map<string, int>, ballots: map<VoteKey, string>,
                    post: string, options: seq<string>, closesAt: int)
    requires Counted(polls, counts, ballots) && post !in polls && Distinct(options)
    requires forall p :: p in polls ==> forall o :: o in options ==> o !in polls[p].options
    ensures Counted(polls[post := Poll(options, closesAt, true, false)], counts + map o | o in options :: 0, ballots)
  {
    hide Choosers, Distinct;
    NoVotesYet(polls, ballots, post);
  }

  lemma InChoosers(ballots: map<VoteKey, string>, post: string, option: string, u: string)
    ensures u in Choosers(ballots, post, option) <==> VoteKey(post, u) in ballots && ballots[VoteKey(post, u)] == option
    ensures u in Voters(ballots, post) <==> VoteKey(post, u) in ballots
  {
    assert VoteKey(post, u) in ballots ==> VoteKey(post, u).voter == u;
  }

  lemma ChoosersWith(ballots: map<VoteKey, string>, post: string, voter: string, option: string, p: string, o: string)
    requires VoteKey(post, voter) !in ballots
    ensures |Choosers(ballots[VoteKey(post, voter) := option], p, o)| ==
      |Choosers(ballots, p, o)| + (if p == post && o == option then 1 else 0)
  {
    hide Choosers;
    var after := ballots[VoteKey(post, voter) := option];
    var one := if p == post && o == option then {voter} else {};
    forall u ensures u in Choosers(after, p, o) <==> u in Choosers(ballots, p, o) + one {
      InChoosers(after, p, o, u);
      InChoosers(ballots, p, o, u);
    }
    InChoosers(ballots, p, o, voter);
    assert Choosers(after, p, o) == Choosers(ballots, p, o) + one;
  }

  lemma OneMoreVote(
    polls: map<string, Poll>, counts: map<string, int>, ballots: map<VoteKey, string>, post: string, voter: string, option: string)
    requires Counted(polls, counts, ballots) && post in polls && option in polls[post].options
    requires VoteKey(post, voter) !in ballots
    ensures option in counts
    ensures Counted(polls, counts[option := counts[option] + 1], ballots[VoteKey(post, voter) := option])
  {
    hide Choosers, Distinct;
    var after := ballots[VoteKey(post, voter) := option];
    forall p, o | p in polls && o in polls[p].options
      ensures counts[option := counts[option] + 1][o] == |Choosers(after, p, o)|
    {
      ChoosersWith(ballots, post, voter, option, p, o);
    }
  }

  /** The voters who chose one of these options. */
  function ChosenFrom(ballots: map<VoteKey, string>, post: string, options: seq<string>): set<string> {
    set k | k in ballots && k.post == post && ballots[k] in options :: k.voter
  }

  lemma InChosenFrom(ballots: map<VoteKey, string>, post: string, options: seq<string>, u: string)
    ensures u in ChosenFrom(ballots, post, options) <==> VoteKey(post, u) in ballots && ballots[VoteKey(post, u)] in options
  {
    assert VoteKey(post, u) in ballots ==> VoteKey(post, u).voter == u;
  }

  lemma NobodyChose(ballots: map<VoteKey, string>, post: string)
    ensures ChosenFrom(ballots, post, []) == {}
  {
  }

  lemma ChosenFromMore(ballots: map<VoteKey, string>, post: string, options: seq<string>, o: string)
    requires o !in options
    ensures |ChosenFrom(ballots, post, options + [o])| == |ChosenFrom(ballots, post, options)| + |Choosers(ballots, post, o)|
  {
    hide ChosenFrom, Choosers;
    var before, chose := ChosenFrom(ballots, post, options), Choosers(ballots, post, o);
    forall u
      ensures u in ChosenFrom(ballots, post, options + [o]) <==> u in before || u in chose
      ensures !(u in before && u in chose)
    {
      InChosenFrom(ballots, post, options + [o], u);
      InChosenFrom(ballots, post, options, u);
      InChoosers(ballots, post, o, u);
    }
    assert ChosenFrom(ballots, post, options + [o]) == before + chose && before !! chose;
  }

  lemma {:induction false} TotalOfPrefix(
    polls: map<string, Poll>, counts: map<string, int>, ballots: map<VoteKey, string>, post: string, n: nat)
    requires Counted(polls, counts, ballots) && post in polls && n <= |polls[post].options|
    ensures Total(CountsOf(counts, polls[post].options)[..n]) == |ChosenFrom(ballots, post, polls[post].options[..n])|
  {
    hide Choosers, ChosenFrom;
    var options, votes := polls[post].options, CountsOf(counts, polls[post].options);
    if n == 0 {
      NobodyChose(ballots, post);
    } else {
      TotalOfPrefix(polls, counts, ballots, post, n - 1);
      var o := options[n - 1];
      assert o in options && votes[..n][..n - 1] == votes[..n - 1] && options[..n] == options[..n - 1] + [o];
      ChosenFromMore(ballots, post, options[..n - 1], o);
    }
  }

  /** A poll's total is the number of people who voted in it. */
  lemma TotalIsVoters(polls: map<string, Poll>, counts: map<string, int>, ballots: map<VoteKey, string>, post: string)
    requires Counted(polls, counts, ballots) && post in polls
    ensures Total(CountsOf(counts, polls[post].options)) == |Voters(ballots, post)|
  {
    hide Choosers;
    var options := polls[post].options;
    TotalOfPrefix(polls, counts, ballots, post, |options|);
    assert options[..|options|] == options;
    var votes := CountsOf(counts, options);
    assert votes[..|options|] == votes;
    assert ChosenFrom(ballots, post, options) == Voters(ballots, post);
  }

  lemma ShareIsNearest(votes: int, total: int)
    requires total > 0
    ensures 200 * votes - total < 2 * total * Share(votes, total) <= 200 * votes + total
  {
    DivisionOf(200 * votes + total, 2 * total);
  }

  lemma DivisionOf(n: int, d: int)
    requires d > 0
    ensures d * (n / d) <= n < d * (n / d) + d
  {
  }

  /** Shares totalling `s` for votes totalling `v`, each share off by at most a half percent of `total`. */
  predicate Near(total: int, s: int, v: int, n: int) {
    200 * v - n * total <= 2 * total * s <= 200 * v + n * total
  }

  lemma NearStep(total: int, s: int, v: int, n: int, share: int, votes: int)
    requires Near(total, s, v, n)
    requires 200 * votes - total < 2 * total * share <= 200 * votes + total
    ensures Near(total, s + share, v + votes, n + 1)
  {
    assert 2 * total * (s + share) == 2 * total * s + 2 * total * share;
    assert (n + 1) * total == n * total + total;
  }

  lemma {:induction false} SharesAddUp(votes: seq<int>, total: int)
    requires total > 0
    ensures Near(total, Total(Shares(votes, total)), Total(votes), |votes|)
  {
    if votes != [] {
      var front, v := votes[..|votes| - 1], votes[|votes| - 1];
      SharesAddUp(front, total);
      ShareIsNearest(v, total);
      var shares := Shares(votes, total);
      assert shares[..|shares| - 1] == Shares(front, total);
      hide Near, Share;
      NearStep(total, Total(Shares(front, total)), Total(front), |front|, Share(v, total), v);
    }
  }

  /** Whenever anyone voted, the shares of n options add up to within n halves of a hundred. */
  lemma SharesNearHundred(votes: seq<int>)
    requires Total(votes) > 0
    ensures -|votes| <= 2 * (Total(Shares(votes, Total(votes))) - 100) <= |votes|
  {
    hide Near, Total, Shares;
    SharesAddUp(votes, Total(votes));
    NearHundred(Total(votes), Total(Shares(votes, Total(votes))), |votes|);
  }

  lemma NearHundred(total: int, s: int, n: int)
    requires total > 0 && Near(total, s, total, n)
    ensures -n <= 2 * (s - 100) <= n
  {
    var x := 2 * (s - 100);
    assert x * total == 2 * total * s - 200 * total;
    assert (x - n) * total == x * total - n * total && (-n - x) * total == -(n * total) - x * total;
    SignOf(x - n, total);
    SignOf(-n - x, total);
  }

  lemma SignOf(a: int, t: int)
    requires t > 0
    ensures a > 0 ==> a * t > 0
  {
  }
}
