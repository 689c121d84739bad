/**
 * Recently viewed timetables: merging lists newest first, one entry per kind and key, capped; and
 * the browser's own list as views are added to it.
 */
module Recents {
  import opened Wrappers
  import opened Collections

  datatype Kind = Section | Teacher | Room

  datatype Entry = Entry(kind: Kind, key: string, title: string, href: string, viewedAt: int)

  const KEPT := 20

  function KindText(kind: Kind): string {
    match kind case Section => "section" case Teacher => "teacher" case Room => "room"
  }

  function Identity(e: Entry): string {
    KindText(e.kind) + ":" + e.key
  }

  /** The identity tells kinds and keys apart. */
  lemma IdentityIsKindAndKey(a: Entry, b: Entry)
    ensures Identity(a) == Identity(b) <==> a.kind == b.kind && a.key == b.key
  {
    assert Identity(a)[0] == KindText(a.kind)[0] && Identity(b)[0] == KindText(b.kind)[0];
    assert Identity(a)[|KindText(a.kind)| + 1..] == a.key;
    assert Identity(b)[|KindText(b.kind)| + 1..] == b.key;
  }

  predicate DistinctIds(es: seq<Entry>) {
    forall i, j :: 0 <= i < j < |es| ==> Identity(es[i]) != Identity(es[j])
  }

  predicate NewestFirst(es: seq<Entry>) {
    forall i, j :: 0 <= i < j < |es| ==> es[i].viewedAt >= es[j].viewedAt
  }

  // ----- the map by identity, in insertion order -----

  function Find(byId: seq<Entry>, id: string): (r: Option<nat>)
    ensures r.Some? ==> r.value < |byId| && Identity(byId[r.value]) == id
    ensures r.None? ==> forall i :: 0 <= i < |byId| ==> Identity(byId[i]) != id
  {
    if byId == [] then None
    else if Identity(byId[|byId| - 1]) == id then Some(|byId| - 1)
    else Find(byId[..|byId| - 1], id)
  }

  /** What one entry does to the map: a new identity goes last, a newer view takes its place. */
  function Absorb(byId: seq<Entry>, e: Entry): seq<Entry> {
    match Find(byId, Identity(e))
    case None => byId + [e]
    case Some(i) => if e.viewedAt > byId[i].viewedAt then byId[i := e] else byId
  }

  function AbsorbAll(es: seq<Entry>): seq<Entry> {
    if es == [] then [] else Absorb(AbsorbAll(es[..|es| - 1]), es[|es| - 1])
  }

  function Flatten(lists: seq<seq<Entry>>): seq<Entry> {
    if lists == [] then [] else Flatten(lists[..|lists| - 1]) + lists[|lists| - 1]
  }

  function Insert(e: Entry, es: seq<Entry>): (r: seq<Entry>)
    ensures multiset(r) == multiset(es) + multiset{e}
  {
    if es == [] || e.viewedAt >= es[0].viewedAt then [e] + es
    else
      assert es == [es[0]] + es[1..];
      [es[0]] + Insert(e, es[1..])
  }

  /** A stable sort, newest first. */
  function Sort(es: seq<Entry>): (r: seq<Entry>)
    ensures multiset(r) == multiset(es)
  {
    if es == [] then []
    else
      assert es == [es[0]] + es[1..];
      Insert(es[0], Sort(es[1..]))
  }

  function Merged(es: seq<Entry>): seq<Entry> {
    Take(KEPT, Sort(AbsorbAll(es)))
  }

  lemma AbsorbNext(before: seq<Entry>, list: seq<Entry>, j: nat)
    requires j < |list|
    ensures AbsorbAll(before + list[..j + 1]) == Absorb(AbsorbAll(before + list[..j]), list[j])
  {
    hide Absorb;
    assert (before + list[..j + 1])[..|before| + j] == before + list[..j];
  }

  lemma FlattenNext(lists: seq<seq<Entry>>, i: nat)
    requires i < |lists|
    ensures Flatten(lists[..i + 1]) == Flatten(lists[..i]) + lists[i]
  {
    assert lists[..i + 1][..i] == lists[..i];
  }

  method MergeRecents(lists: seq<seq<Entry>>) returns (merged: seq<Entry>)
    ensures merged == Merged(Flatten(lists))
  {
    var byId: seq<Entry> := [];
    for i := 0 to |lists|
      invariant byId == AbsorbAll(Flatten(lists[..i]))
    {
      var list := lists[i];
      ghost var before := Flatten(lists[..i]);
      FlattenNext(lists, i);
      hide AbsorbAll, Flatten;
      assert before + list[..0] == before;
      for j := 0 to |list|
        invariant byId == AbsorbAll(before + list[..j])
      {
        var entry := list[j];
        AbsorbNext(before, list, j);
        var seen := Find(byId, Identity(entry));
        if seen.None? {
          byId := byId + [entry];
        } else if entry.viewedAt > byId[seen.value].viewedAt {
          byId := byId[seen.value := entry];
        }
      }
      assert list[..|list|] == list;
    }
    assert lists[..|lists|] == lists;
    merged := Take(KEPT, Sort(byId));
  }

  // ----- what a merge keeps -----

  /** The identities viewed at or after a time. */
  function IdsSince(es: seq<Entry>, t: int): set<string> {
    set e | e in es && e.viewedAt >= t :: Identity(e)
  }

  /** How many entries were viewed at or after a time. */
  function CountSince(es: seq<Entry>, t: int): (n: nat)
    ensures n <= |es|
  {
    if es == [] then 0 else (if es[0].viewedAt >= t then 1 else 0) + CountSince(es[1..], t)
  }

  function Min(a: nat, b: nat): nat {
    if a <= b then a else b
  }

  lemma AbsorbKeeps(byId: seq<Entry>, e: Entry)
    requires DistinctIds(byId)
    ensures DistinctIds(Absorb(byId, e))
    ensures forall x :: x in Absorb(byId, e) ==> x in byId || x == e
    ensures forall t :: IdsSince(Absorb(byId, e), t) == IdsSince(byId, t) + (if e.viewedAt >= t then {Identity(e)} else {})
  {
    var r := Absorb(byId, e);
    var found := Find(byId, Identity(e));
    forall t ensures IdsSince(r, t) == IdsSince(byId, t) + (if e.viewedAt >= t then {Identity(e)} else {}) {
      if found.Some? {
        var i := found.value;
        var x := byId[i];
        assert r[i] in r && x in byId;
        assert forall y :: y in byId && y != x ==> y in r by {
          forall y | y in byId && y != x ensures y in r {
            var k :| 0 <= k < |byId| && byId[k] == y;
            assert r[k] == y;
          }
        }
      }
    }
  }

  lemma IdsSinceAppend(front: seq<Entry>, last: Entry)
    ensures forall t :: IdsSince(front + [last], t) == IdsSince(front, t) + (if last.viewedAt >= t then {Identity(last)} else {})
  {
  }

  lemma {:induction false} AbsorbAllKeeps(es: seq<Entry>)
    ensures DistinctIds(AbsorbAll(es))
    ensures forall x :: x in AbsorbAll(es) ==> x in es
    ensures forall t :: IdsSince(AbsorbAll(es), t) == IdsSince(es, t)
  {
    hide IdsSince, Identity, Absorb;
    if es != [] {
      var front, last := es[..|es| - 1], es[|es| - 1];
      AbsorbAllKeeps(front);
      AbsorbKeeps(AbsorbAll(front), last);
      IdsSinceAppend(front, last);
      assert es == front + [last];
    } else {
      assert AbsorbAll(es) == es;
    }
  }

  lemma SameElements(a: seq<Entry>, b: seq<Entry>)
    requires multiset(a) == multiset(b)
    ensures forall x :: x in a <==> x in b
  {
    forall x ensures x in a <==> x in b {
      assert x in a <==> x in multiset(a);
      assert x in b <==> x in multiset(b);
    }
  }

  lemma {:induction false} SortNewestFirst(es: seq<Entry>)
    ensures NewestFirst(Sort(es))
    ensures DistinctIds(es) ==> DistinctIds(Sort(es))
  {
    if es != [] {
      SortNewestFirst(es[1..]);
      SameElements(Sort(es[1..]), es[1..]);
      InsertNewestFirst(es[0], Sort(es[1..]));
      if DistinctIds(es) {
        forall x | x in es[1..] ensures Identity(x) != Identity(es[0]) {
          var k :| 0 <= k < |es[1..]| && es[1..][k] == x;
          assert es[k + 1] == x;
        }
        InsertDistinct(es[0], Sort(es[1..]));
      }
    }
  }

  lemma {:induction false} InsertNewestFirst(e: Entry, es: seq<Entry>)
    requires NewestFirst(es)
    ensures NewestFirst(Insert(e, es))
  {
    if es != [] && e.viewedAt < es[0].viewedAt {
      InsertNewestFirst(e, es[1..]);
      var rest := Insert(e, es[1..]);
      SameElements(rest, es[1..] + [e]);
      forall j | 0 <= j < |rest| ensures rest[j].viewedAt <= es[0].viewedAt {
        assert rest[j] in rest;
      }
    }
  }

  lemma {:induction false} InsertDistinct(e: Entry, es: seq<Entry>)
    requires DistinctIds(es) && forall x :: x in es ==> Identity(x) != Identity(e)
    ensures DistinctIds(Insert(e, es))
  {
    hide Identity;
    if es != [] && e.viewedAt < es[0].viewedAt {
      InsertDistinct(e, es[1..]);
      var rest := Insert(e, es[1..]);
      SameElements(rest, es[1..] + [e]);
      forall j | 0 <= j < |rest| ensures Identity(rest[j]) != Identity(es[0]) {
        assert rest[j] in rest;
      }
    }
  }

  /** In a list newest first, the entries since a time are in front, so a cap keeps as many as it can. */
  lemma {:induction false} CountOfTake(n: nat, es: seq<Entry>, t: int)
    requires NewestFirst(es)
    ensures CountSince(Take(n, es), t) == Min(n, CountSince(es, t))
  {
    if es != [] && n > 0 {
      CountOfTake(n - 1, es[1..], t);
      assert |es| > n ==> es[..n][1..] == es[1..][..n - 1];
      if es[0].viewedAt < t { NoneSince(es[1..], t); }
    }
  }

  lemma {:induction false} NoneSince(es: seq<Entry>, t: int)
    requires forall i :: 0 <= i < |es| ==> es[i].viewedAt < t
    ensures CountSince(es, t) == 0
  {
    if es != [] { NoneSince(es[1..], t); }
  }

  lemma {:induction false} CountIsIds(es: seq<Entry>, t: int)
    requires DistinctIds(es)
    ensures CountSince(es, t) == |IdsSince(es, t)|
  {
    hide Identity, IdsSince;
    if es == [] {
      NobodySince(t);
    } else {
      CountIsIds(es[1..], t);
      HeadIsNew(es);
      IdsSincePrepend(es[0], es[1..], t);
      assert es == [es[0]] + es[1..];
    }
  }

  lemma NobodySince(t: int)
    ensures IdsSince([], t) == {}
  {
  }

  lemma HeadIsNew(es: seq<Entry>)
    requires es != [] && DistinctIds(es)
    ensures forall x :: x in es[1..] ==> Identity(x) != Identity(es[0])
  {
    hide Identity;
    forall x | x in es[1..] ensures Identity(x) != Identity(es[0]) {
      var k :| 0 <= k < |es[1..]| && es[1..][k] == x;
      assert es[k + 1] == x;
    }
  }

  lemma IdsSincePrepend(e: Entry, es: seq<Entry>, t: int)
    requires forall x :: x in es ==> Identity(x) != Identity(e)
    ensures |IdsSince([e] + es, t)| == |IdsSince(es, t)| + (if e.viewedAt >= t then 1 else 0)
  {
    hide Identity;
    var rest := IdsSince(es, t);
    IdsSinceConcat([e], es, t);
    assert IdsSince([e], t) == if e.viewedAt >= t then {Identity(e)} else {};
    assert Identity(e) !in rest;
    assert {Identity(e)} + rest == rest + {Identity(e)};
  }

  /**
   * A merge: newest first, one entry an identity, at most twenty, all of them entries it was given,
   * and for every time as many identities viewed since then as there are, up to the cap.
   */
  lemma MergeKeepsNewest(es: seq<Entry>)
    ensures NewestFirst(Merged(es)) && DistinctIds(Merged(es)) && |Merged(es)| <= KEPT
    ensures forall x :: x in Merged(es) ==> x in es
    ensures forall t :: CountSince(Merged(es), t) == Min(KEPT, |IdsSince(es, t)|)
  {
    var byId := AbsorbAll(es);
    AbsorbAllKeeps(es);
    SortNewestFirst(byId);
    SameElements(Sort(byId), byId);
    forall t ensures CountSince(Merged(es), t) == Min(KEPT, |IdsSince(es, t)|) {
      CountOfTake(KEPT, Sort(byId), t);
      CountIsIds(Sort(byId), t);
      assert IdsSince(Sort(byId), t) == IdsSince(byId, t);
    }
  }

  /** Each entry kept is as new as any given entry of its identity. */
  lemma KeptIsNewestOfItsIdentity(es: seq<Entry>, x: Entry, y: Entry)
    requires x in Merged(es) && y in es && Identity(x) == Identity(y)
    ensures y.viewedAt <= x.viewedAt
  {
    hide Identity, Sort, AbsorbAll;
    var byId := AbsorbAll(es);
    AbsorbAllKeeps(es);
    SameElements(Sort(byId), byId);
    assert Identity(y) in IdsSince(byId, y.viewedAt);
    var z :| z in byId && z.viewedAt >= y.viewedAt && Identity(z) == Identity(y);
    assert x in Sort(byId);
    OneOfEach(byId, x, z);
  }

  lemma OneOfEach(es: seq<Entry>, x: Entry, y: Entry)
    requires DistinctIds(es) && x in es && y in es && Identity(x) == Identity(y)
    ensures x == y
  {
    hide Identity;
    var i :| 0 <= i < |es| && es[i] == x;
    var j :| 0 <= j < |es| && es[j] == y;
  }

  // ----- merging a merge -----

  function Times(es: seq<Entry>): (ts: seq<int>)
    ensures |ts| == |es| && forall i :: 0 <= i < |es| ==> ts[i] == es[i].viewedAt
  {
    seq(|es|, i requires 0 <= i < |es| => es[i].viewedAt)
  }

  /** Lists newest first with as many entries since every time show the same times. */
  lemma {:induction false} SameCountsSameTimes(a: seq<Entry>, b: seq<Entry>)
    requires NewestFirst(a) && NewestFirst(b)
    requires forall t :: CountSince(a, t) == CountSince(b, t)
    ensures Times(a) == Times(b)
  {
    assert a != [] ==> CountSince(a, a[0].viewedAt) > 0;
    assert b != [] ==> CountSince(b, b[0].viewedAt) > 0;
    if a != [] && b != [] {
      if a[0].viewedAt < b[0].viewedAt { NoneSince(a, b[0].viewedAt); }
      if b[0].viewedAt < a[0].viewedAt { NoneSince(b, a[0].viewedAt); }
      assert a[0].viewedAt == b[0].viewedAt;
      forall t ensures CountSince(a[1..], t) == CountSince(b[1..], t) {
        assert CountSince(a, t) == CountSince(b, t);
      }
      SameCountsSameTimes(a[1..], b[1..]);
      assert Times(a)[1..] == Times(a[1..]) && Times(b)[1..] == Times(b[1..]);
      assert Times(a) == [Times(a)[0]] + Times(a)[1..] && Times(b) == [Times(b)[0]] + Times(b)[1..];
    }
  }

  /** What the cap dropped from an earlier merge could not have been among the newest twenty. */
  lemma CapLosesNothing(es: seq<Entry>, more: seq<Entry>, t: int)
    ensures Min(KEPT, |IdsSince(Merged(es) + more, t)|) == Min(KEPT, |IdsSince(es + more, t)|)
  {
    var m := Merged(es);
    MergeKeepsNewest(es);
    CountIsIds(m, t);
    IdsSinceConcat(m, more, t);
    IdsSinceConcat(es, more, t);
    var kept, given := IdsSince(m, t), IdsSince(es, t);
    assert kept <= given;
    assert CountSince(m, t) == Min(KEPT, |given|);
    if |given| <= KEPT {
      SameSizeSubset(kept, given);
    } else {
      SubsetSize(kept, kept + IdsSince(more, t));
      SubsetSize(given, given + IdsSince(more, t));
    }
  }

  lemma IdsSinceConcat(a: seq<Entry>, b: seq<Entry>, t: int)
    ensures IdsSince(a + b, t) == IdsSince(a, t) + IdsSince(b, t)
  {
  }

  lemma SubsetSize(a: set<string>, b: set<string>)
    requires a <= b
    ensures |a| <= |b|
  {
    assert b == a + (b - a);
  }

  lemma SameSizeSubset(a: set<string>, b: set<string>)
    requires a <= b && |a| == |b|
    ensures a == b
  {
    assert b == a + (b - a) && |b - a| == 0;
  }

  /**
   * Merging an already merged list with more entries shows the same view times as merging them all
   * at once, whatever the entries.
   */
  lemma NestedMergeSameTimes(es: seq<Entry>, more: seq<Entry>)
    ensures Times(Merged(Merged(es) + more)) == Times(Merged(es + more))
  {
    var nested, flat := Merged(Merged(es) + more), Merged(es + more);
    MergeKeepsNewest(Merged(es) + more);
    MergeKeepsNewest(es + more);
    forall t ensures CountSince(nested, t) == CountSince(flat, t) {
      CapLosesNothing(es, more, t);
    }
    SameCountsSameTimes(nested, flat);
  }

  /** No two different entries share a view time. */
  predicate TimesTell(es: seq<Entry>) {
    forall x, y :: x in es && y in es && x.viewedAt == y.viewedAt ==> x == y
  }

  lemma SameTimesSameEntries(all: seq<Entry>, a: seq<Entry>, b: seq<Entry>)
    requires TimesTell(all) && Times(a) == Times(b)
    requires forall x :: x in a || x in b ==> x in all
    ensures a == b
  {
    forall i | 0 <= i < |a| ensures a[i] == b[i] {
      assert Times(a)[i] == a[i].viewedAt && Times(b)[i] == b[i].viewedAt;
      assert a[i] in a && b[i] in b;
    }
    assert |Times(a)| == |Times(b)|;
  }

  // ----- the entry held for an identity -----

  function Newer(a: Option<Entry>, b: Option<Entry>): Option<Entry> {
    if b.Some? && (a.None? || b.value.viewedAt > a.value.viewedAt) then b else a
  }

  function If(id: string, e: Entry): Option<Entry> {
    if Identity(e) == id then Some(e) else None
  }

  /** The newest entry given of an identity, the first of equally new ones. */
  function Best(es: seq<Entry>, id: string): (best: Option<Entry>)
    ensures best.Some? ==> best.value in es && Identity(best.value) == id
    ensures forall e :: e in es && Identity(e) == id ==> best.Some? && e.viewedAt <= best.value.viewedAt
  {
    if es == [] then None
    else
      assert es == es[..|es| - 1] + [es[|es| - 1]];
      Newer(Best(es[..|es| - 1], id), If(id, es[|es| - 1]))
  }

  lemma NewerAssociates(a: Option<Entry>, b: Option<Entry>, c: Option<Entry>)
    ensures Newer(Newer(a, b), c) == Newer(a, Newer(b, c))
  {
  }

  lemma NothingNewer(a: Option<Entry>)
    ensures Newer(a, None) == a
  {
  }

  lemma {:induction false} BestConcat(a: seq<Entry>, b: seq<Entry>, id: string)
    ensures Best(a + b, id) == Newer(Best(a, id), Best(b, id))
  {
    hide Identity, Newer, If;
    if b == [] {
      assert a + b == a && Best(b, id) == None;
      NothingNewer(Best(a, id));
    } else {
      BestConcat(a, b[..|b| - 1], id);
      assert (a + b)[..|a + b| - 1] == a + b[..|b| - 1];
      NewerAssociates(Best(a, id), Best(b[..|b| - 1], id), If(id, b[|b| - 1]));
    }
  }

  function Held(byId: seq<Entry>, id: string): Option<Entry> {
    match Find(byId, id) case None => None case Some(i) => Some(byId[i])
  }

  lemma HeldIsIn(byId: seq<Entry>, id: string)
    requires DistinctIds(byId)
    ensures forall x :: Held(byId, id) == Some(x) <==> x in byId && Identity(x) == id
  {
    hide Identity;
    forall x | x in byId && Identity(x) == id ensures Held(byId, id) == Some(x) {
      assert Find(byId, id).Some?;
      OneOfEach(byId, x, byId[Find(byId, id).value]);
    }
  }

  lemma AbsorbHolds(byId: seq<Entry>, e: Entry, id: string)
    requires DistinctIds(byId)
    ensures Held(Absorb(byId, e), id) == Newer(Held(byId, id), If(id, e))
  {
    hide Identity, Held;
    AbsorbKeeps(byId, e);
    HeldIsIn(byId, id);
    HeldIsIn(Absorb(byId, e), id);
    var found := Find(byId, Identity(e));
    if found.Some? {
      var i := found.value;
      HeldIsIn(byId, Identity(e));
      assert byId[i] in byId && Absorb(byId, e)[i] in Absorb(byId, e);
      forall x | x in byId && Identity(x) == id && id != Identity(e) ensures x in Absorb(byId, e) {
        var k :| 0 <= k < |byId| && byId[k] == x;
        assert Absorb(byId, e)[k] == x;
      }
    }
  }

  /** What the map holds after all entries is the best given of each identity. */
  lemma {:induction false} AbsorbAllHoldsBest(es: seq<Entry>, id: string)
    ensures Held(AbsorbAll(es), id) == Best(es, id)
  {
    hide Identity, Absorb;
    if es != [] {
      AbsorbAllHoldsBest(es[..|es| - 1], id);
      AbsorbAllKeeps(es[..|es| - 1]);
      AbsorbHolds(AbsorbAll(es[..|es| - 1]), es[|es| - 1], id);
    }
  }

  lemma HeldByMerge(es: seq<Entry>, x: Entry)
    ensures x in AbsorbAll(es) <==> Best(es, Identity(x)) == Some(x)
    ensures x in Merged(es) ==> x in AbsorbAll(es)
  {
    hide Identity, Best, AbsorbAll;
    AbsorbAllKeeps(es);
    AbsorbAllHoldsBest(es, Identity(x));
    HeldIsIn(AbsorbAll(es), Identity(x));
    SameElements(Sort(AbsorbAll(es)), AbsorbAll(es));
  }

  /** A merge's own best entry of an identity is the one it was made from, unless the cap dropped that. */
  lemma BestOfMerged(es: seq<Entry>, id: string)
    ensures Best(Merged(es), id).Some? ==> Best(Merged(es), id) == Best(es, id)
    ensures Best(es, id).Some? && Best(es, id).value in Merged(es) ==> Best(Merged(es), id) == Best(es, id)
  {
    hide Identity, Merged;
    var m := Merged(es);
    MergeKeepsNewest(es);
    if Best(m, id).Some? { HeldByMerge(es, Best(m, id).value); }
    if Best(es, id).Some? && Best(es, id).value in m {
      OneOfEach(m, Best(es, id).value, Best(m, id).value);
    }
  }

  // ----- exactly when a nested merge is the merge -----

  /** One entry went into the map before another. */
  predicate Ahead(byId: seq<Entry>, x: Entry, y: Entry) {
    exists i, j :: 0 <= i < j < |byId| && byId[i] == x && byId[j] == y
  }

  /** The order a map is listed in: newer first, and at equal times the one put in first. */
  predicate Before(byId: seq<Entry>, x: Entry, y: Entry) {
    x.viewedAt > y.viewedAt || (x.viewedAt == y.viewedAt && Ahead(byId, x, y))
  }

  predicate Listed(byId: seq<Entry>, es: seq<Entry>) {
    forall i, j :: 0 <= i < j < |es| ==> Before(byId, es[i], es[j])
  }

  lemma AheadOneWay(byId: seq<Entry>, x: Entry, y: Entry)
    requires DistinctIds(byId) && Ahead(byId, x, y)
    ensures !Ahead(byId, y, x)
  {
    hide Identity;
    assert forall i, j :: 0 <= i < j < |byId| ==> byId[i] != byId[j];
  }

  lemma BeforeOneWay(byId: seq<Entry>, x: Entry, y: Entry)
    requires DistinctIds(byId) && Before(byId, x, y)
    ensures !Before(byId, y, x)
  {
    hide Identity, Ahead;
    if x.viewedAt == y.viewedAt { AheadOneWay(byId, x, y); }
  }

  lemma {:induction false} InsertListed(byId: seq<Entry>, e: Entry, es: seq<Entry>)
    requires Listed(byId, es) && forall x :: x in es ==> Ahead(byId, e, x)
    ensures Listed(byId, Insert(e, es))
  {
    hide Ahead;
    if es != [] && e.viewedAt < es[0].viewedAt {
      var rest := Insert(e, es[1..]);
      InsertListed(byId, e, es[1..]);
      SameElements(rest, es[1..] + [e]);
      forall j | 0 <= j < |rest| ensures Before(byId, es[0], rest[j]) {
        assert rest[j] in rest;
        if rest[j] != e {
          var k :| 0 <= k < |es[1..]| && es[1..][k] == rest[j];
          assert es[k + 1] == rest[j];
        }
      }
    } else if es != [] {
      forall j | 0 <= j < |es| ensures Before(byId, e, es[j]) {
        assert es[j] in es;
        if j > 0 { assert Before(byId, es[0], es[j]); }
      }
    }
  }

  lemma {:induction false} SortListed(byId: seq<Entry>, es: seq<Entry>)
    requires forall i, j :: 0 <= i < j < |es| ==> Ahead(byId, es[i], es[j])
    ensures Listed(byId, Sort(es))
  {
    hide Ahead, Before;
    if es != [] {
      SortListed(byId, es[1..]);
      SameElements(Sort(es[1..]), es[1..]);
      forall x | x in es[1..] ensures Ahead(byId, es[0], x) {
        var k :| 0 <= k < |es[1..]| && es[1..][k] == x;
        assert es[k + 1] == x;
      }
      InsertListed(byId, es[0], Sort(es[1..]));
    }
  }

  /** A merge lists the map in order, and what the cap leaves out comes after all it shows. */
  lemma MergedIsListed(es: seq<Entry>)
    ensures Listed(AbsorbAll(es), Sort(AbsorbAll(es)))
    ensures forall x :: x in Sort(AbsorbAll(es)) <==> x in AbsorbAll(es)
    ensures forall x, y :: x in Merged(es) && y in AbsorbAll(es) && y !in Merged(es) ==> Before(AbsorbAll(es), x, y)
    ensures Listed(AbsorbAll(es), Merged(es)) && forall x :: x in Merged(es) ==> x in AbsorbAll(es)
  {
    hide AbsorbAll, Sort, Before;
    var byId := AbsorbAll(es);
    var sorted := Sort(byId);
    assert forall i, j :: 0 <= i < j < |byId| ==> Ahead(byId, byId[i], byId[j]);
    SortListed(byId, byId);
    SameElements(sorted, byId);
    var m := Merged(es);
    assert m <= sorted && forall i :: 0 <= i < |m| ==> sorted[i] == m[i] && m[i] in m;
    forall x, y | x in m && y in byId && y !in m ensures Before(byId, x, y) {
      var i :| 0 <= i < |m| && m[i] == x;
      assert y in sorted;
      var j :| 0 <= j < |sorted| && sorted[j] == y;
    }
  }

  // ----- where identities stand in the map -----

  function Ids(es: seq<Entry>): set<string> {
    set e | e in es :: Identity(e)
  }

  lemma {:induction false} IdsCount(es: seq<Entry>)
    requires DistinctIds(es)
    ensures |Ids(es)| == |es|
  {
    hide Identity;
    if es != [] {
      IdsCount(es[1..]);
      HeadIsNew(es);
      assert es == [es[0]] + es[1..];
      assert Ids(es) == Ids(es[1..]) + {Identity(es[0])};
    }
  }

  lemma AbsorbInPlace(byId: seq<Entry>, e: Entry)
    ensures |Absorb(byId, e)| >= |byId|
    ensures forall n :: 0 <= n < |byId| ==> Identity(Absorb(byId, e)[n]) == Identity(byId[n])
  {
    hide Identity;
  }

  /** Whatever comes later, an identity keeps its place in the map. */
  lemma {:induction false} PlacesStay(a: seq<Entry>, b: seq<Entry>)
    ensures |AbsorbAll(a + b)| >= |AbsorbAll(a)|
    ensures forall n :: 0 <= n < |AbsorbAll(a)| ==> Identity(AbsorbAll(a + b)[n]) == Identity(AbsorbAll(a)[n])
  {
    hide Identity, AbsorbAll, Absorb;
    if b == [] {
      assert a + b == a;
    } else {
      PlacesStay(a, b[..|b| - 1]);
      AbsorbNext(a, b, |b| - 1);
      assert b[..|b| - 1 + 1] == b;
      AbsorbInPlace(AbsorbAll(a + b[..|b| - 1]), b[|b| - 1]);
    }
  }

  lemma {:induction false} AbsorbDistinct(m: seq<Entry>)
    requires DistinctIds(m)
    ensures AbsorbAll(m) == m
  {
    hide Identity;
    if m != [] {
      var front, last := m[..|m| - 1], m[|m| - 1];
      AbsorbDistinct(front);
      assert m == front + [last] && Find(front, Identity(last)).None?;
    }
  }

  /** In a map started from `m`, the identities of `m` come first. */
  lemma StartedFrom(m: seq<Entry>, more: seq<Entry>, x: Entry, y: Entry)
    requires DistinctIds(m) && x in AbsorbAll(m + more) && y in AbsorbAll(m + more)
    requires Identity(x) in Ids(m) && Identity(y) !in Ids(m)
    ensures Ahead(AbsorbAll(m + more), x, y) && !Ahead(AbsorbAll(m + more), y, x)
  {
    hide Identity, AbsorbAll, Absorb;
    var byId := AbsorbAll(m + more);
    AbsorbDistinct(m);
    PlacesStay(m, more);
    AbsorbAllKeeps(m + more);
    var k :| k in m && Identity(k) == Identity(x);
    var n :| 0 <= n < |m| && m[n] == k;
    assert byId[n] in byId;
    OneOfEach(byId, x, byId[n]);
    var j :| 0 <= j < |byId| && byId[j] == y;
    assert forall i :: 0 <= i < |m| ==> m[i] in m && Identity(byId[i]) == Identity(m[i]);
    AheadOneWay(byId, x, y);
  }

  // ----- what the cap dropped -----

  lemma IdsOf(es: seq<Entry>, id: string) returns (e: Entry)
    requires id in Ids(es)
    ensures e in es && Identity(e) == id
  {
    e :| e in es && Identity(e) == id;
  }

  /** An entry the cap dropped stays behind everything that was kept, while it is not viewed again. */
  lemma KeptStaysBefore(es: seq<Entry>, more: seq<Entry>, dropped: Entry, k: Entry, now: Entry)
    requires dropped in AbsorbAll(es) && dropped !in Merged(es) && dropped in AbsorbAll(es + more)
    requires k in Merged(es) && Best(es + more, Identity(k)) == Some(now)
    ensures now in AbsorbAll(es + more) && Before(AbsorbAll(es + more), now, dropped)
  {
    hide Identity, AbsorbAll, Merged, Best, Sort, Ahead;
    MergedIsListed(es);
    HeldByMerge(es + more, now);
    HeldByMerge(es, k);
    BestConcat(es, more, Identity(k));
    assert Before(AbsorbAll(es), k, dropped);
    if now.viewedAt == dropped.viewedAt {
      AheadStays(es, more, k, now, dropped);
    }
  }

  lemma AheadStays(es: seq<Entry>, more: seq<Entry>, k: Entry, now: Entry, y: Entry)
    requires Ahead(AbsorbAll(es), k, y) && now in AbsorbAll(es + more) && y in AbsorbAll(es + more)
    requires Identity(now) == Identity(k)
    ensures Ahead(AbsorbAll(es + more), now, y)
  {
    hide Identity, AbsorbAll;
    PlacesStay(es, more);
    AbsorbAllKeeps(es + more);
    var first, all := AbsorbAll(es), AbsorbAll(es + more);
    var i, j :| 0 <= i < j < |first| && first[i] == k && first[j] == y;
    assert all[i] in all && all[j] in all;
    OneOfEach(all, all[i], now);
    OneOfEach(all, all[j], y);
  }

  /** So it is never shown again, while it is not viewed again. */
  lemma DroppedStaysOut(es: seq<Entry>, more: seq<Entry>, dropped: Entry)
    requires dropped in AbsorbAll(es) && dropped !in Merged(es) && dropped in AbsorbAll(es + more)
    ensures dropped !in Merged(es + more)
  {
    hide Identity, AbsorbAll, Merged, Best, Sort, Ahead, Before;
    var f, m := Merged(es + more), Merged(es);
    if dropped in f {
      forall id | id in Ids(m) ensures id in Ids(f) {
        var k := IdsOf(m, id);
        var now := StillHeld(es, more, k);
        KeptStaysBefore(es, more, dropped, k, now);
        ShownIfBefore(es + more, now, dropped);
      }
      FullWhenDropped(es, dropped);
      MergeKeepsNewest(es + more);
      IdsCount(f);
      MergeKeepsNewest(es);
      assert Identity(dropped) in Ids(f);
      NotAmongKept(es, dropped);
      MoreIds(Ids(m), Ids(f), Identity(dropped));
    }
  }

  lemma MoreIds(a: set<string>, b: set<string>, id: string)
    requires a <= b && id in b && id !in a
    ensures |b| > |a|
  {
    SubsetSize(a + {id}, b);
  }

  lemma StillHeld(es: seq<Entry>, more: seq<Entry>, k: Entry) returns (now: Entry)
    requires k in Merged(es)
    ensures Best(es + more, Identity(k)) == Some(now)
  {
    hide Identity, Merged, Best;
    MergeKeepsNewest(es);
    assert k in es + more;
    now := Best(es + more, Identity(k)).value;
  }

  lemma ShownIfBefore(es: seq<Entry>, x: Entry, y: Entry)
    requires x in AbsorbAll(es) && y in Merged(es) && Before(AbsorbAll(es), x, y)
    ensures x in Merged(es)
  {
    hide Identity, AbsorbAll, Merged, Sort, Ahead, Before;
    MergedIsListed(es);
    AbsorbAllKeeps(es);
    BeforeOneWay(AbsorbAll(es), x, y);
  }

  lemma NotAmongKept(es: seq<Entry>, dropped: Entry)
    requires dropped in AbsorbAll(es) && dropped !in Merged(es)
    ensures Identity(dropped) !in Ids(Merged(es))
  {
    hide Identity, AbsorbAll, Merged, Best;
    HeldByMerge(es, dropped);
    if Identity(dropped) in Ids(Merged(es)) {
      var k := IdsOf(Merged(es), Identity(dropped));
      HeldByMerge(es, k);
    }
  }

  lemma FullWhenDropped(es: seq<Entry>, dropped: Entry)
    requires dropped in AbsorbAll(es) && dropped !in Merged(es)
    ensures |Merged(es)| == KEPT && |Ids(Merged(es))| == KEPT
  {
    hide Identity, AbsorbAll, Sort;
    SameElements(Sort(AbsorbAll(es)), AbsorbAll(es));
    MergeKeepsNewest(es);
    IdsCount(Merged(es));
  }

  // ----- the exact condition -----

  /** Of two entries that tie, one of them shown, the map put in order first has its order kept by the nested one. */
  predicate TiesKeepPlaces(es: seq<Entry>, more: seq<Entry>) {
    forall x, y ::
      (x in Merged(es + more) && y in AbsorbAll(Merged(es) + more) && x.viewedAt == y.viewedAt && Ahead(AbsorbAll(es + more), x, y))
      ==> Ahead(AbsorbAll(Merged(es) + more), x, y)
  }

  lemma SameMergeKeepsPlaces(es: seq<Entry>, more: seq<Entry>)
    requires Merged(Merged(es) + more) == Merged(es + more)
    ensures TiesKeepPlaces(es, more)
  {
    hide Identity, AbsorbAll, Merged, Sort, Ahead;
    var shown, all, again := Merged(es + more), AbsorbAll(es + more), AbsorbAll(Merged(es) + more);
    MergedIsListed(es + more);
    MergedIsListed(Merged(es) + more);
    AbsorbAllKeeps(es + more);
    forall x, y | x in shown && y in again && x.viewedAt == y.viewedAt && Ahead(all, x, y) ensures Ahead(again, x, y) {
      AheadOneWay(all, x, y);
      if y in shown {
        var i :| 0 <= i < |shown| && shown[i] == x;
        var j :| 0 <= j < |shown| && shown[j] == y;
        assert j < i ==> Before(all, y, x);
        assert i < j ==> Before(again, x, y);
      } else {
        assert Before(again, x, y);
      }
    }
  }

  /** What the merge of everything shows, the nested merge's map holds. */
  lemma ShownIsHeld(es: seq<Entry>, more: seq<Entry>, x: Entry)
    requires x in Merged(es + more)
    ensures x in AbsorbAll(Merged(es) + more)
  {
    hide Identity, AbsorbAll, Merged, Best;
    var id := Identity(x);
    HeldByMerge(es + more, x);
    HeldByMerge(Merged(es) + more, x);
    BestConcat(es, more, id);
    BestConcat(Merged(es), more, id);
    BestOfMerged(es, id);
    if Best(es, id).Some? {
      HeldByMerge(es, Best(es, id).value);
      if x == Best(es, id).value && x !in Merged(es) {
        DroppedStaysOut(es, more, x);
      }
    }
  }

  /** What was kept is held by both maps, as its best entry of all. */
  lemma KeptIsHeldByBoth(es: seq<Entry>, more: seq<Entry>, k: Entry, now: Entry)
    requires k in Merged(es) && Best(es + more, Identity(k)) == Some(now)
    ensures now in AbsorbAll(es + more) && now in AbsorbAll(Merged(es) + more) && Identity(now) in Ids(Merged(es))
  {
    hide Identity, AbsorbAll, Merged, Best;
    HeldByMerge(es + more, now);
    HeldByMerge(Merged(es) + more, now);
    HeldByMerge(es, k);
    BestConcat(es, more, Identity(k));
    BestConcat(Merged(es), more, Identity(k));
    BestOfMerged(es, Identity(k));
  }

  /** While ties keep their places, nothing shown ties with what the cap dropped unless it was kept. */
  lemma TiedWithDropped(es: seq<Entry>, more: seq<Entry>, dropped: Entry, x: Entry)
    requires TiesKeepPlaces(es, more)
    requires dropped in AbsorbAll(es) && dropped !in Merged(es) && dropped in AbsorbAll(es + more)
    requires x in Merged(es + more) && x.viewedAt == dropped.viewedAt
    ensures Identity(x) in Ids(Merged(es))
  {
    hide Identity, AbsorbAll, Merged, Best, Ahead, Sort, Ids;
    var f, m := Merged(es + more), Merged(es);
    if Identity(x) !in Ids(m) {
      FullWhenDropped(es, dropped);
      MergeKeepsNewest(es + more);
      IdsCount(f);
      InIds(f, x);
      var id := OneNotIn(Ids(m), Ids(f), Identity(x));
      var k := IdsOf(m, id);
      var now := StillHeld(es, more, k);
      KeptStaysBefore(es, more, dropped, k, now);
      KeptIsHeldByBoth(es, more, k, now);
      if now in f { InIds(f, now); }
      MergedIsListed(es + more);
      assert Before(AbsorbAll(es + more), x, now);
      ShownIsHeld(es, more, x);
      MergeKeepsNewest(es);
      StartedFrom(m, more, now, x);
    }
  }

  lemma InIds(es: seq<Entry>, x: Entry)
    ensures x in es ==> Identity(x) in Ids(es)
  {
  }

  /** A set no smaller than another that holds something else misses something of it. */
  lemma OneNotIn(a: set<string>, b: set<string>, other: string) returns (id: string)
    requires |a| >= |b| && other in b && other !in a
    ensures id in a && id !in b
  {
    if a <= b { MoreIds(a, b, other); }
    id :| id in a && id !in b;
  }

  /** While ties keep their places, whatever else the nested map holds comes after what is shown. */
  lemma RestComesAfter(es: seq<Entry>, more: seq<Entry>, x: Entry, y: Entry)
    requires TiesKeepPlaces(es, more)
    requires x in Merged(es + more) && y in AbsorbAll(Merged(es) + more) && y !in Merged(es + more)
    ensures Before(AbsorbAll(Merged(es) + more), x, y)
  {
    hide Identity, AbsorbAll, Merged, Best, Ahead, Sort, Ids;
    MergedIsListed(es + more);
    if y !in AbsorbAll(es + more) {
      var dropped := Replaced(es, more, y);
      DroppedStaysOut(es, more, dropped);
      assert Before(AbsorbAll(es + more), x, dropped);
      if x.viewedAt == y.viewedAt {
        TiedWithDropped(es, more, dropped, x);
        ShownIsHeld(es, more, x);
        MergeKeepsNewest(es);
        StartedFrom(Merged(es), more, x, y);
      }
    }
  }

  /** An entry only the nested map holds stands for one the cap dropped that is no older. */
  lemma Replaced(es: seq<Entry>, more: seq<Entry>, y: Entry) returns (dropped: Entry)
    requires y in AbsorbAll(Merged(es) + more) && y !in AbsorbAll(es + more)
    ensures dropped in AbsorbAll(es) && dropped !in Merged(es) && dropped in AbsorbAll(es + more)
    ensures y.viewedAt <= dropped.viewedAt && Identity(y) !in Ids(Merged(es))
  {
    hide Identity, AbsorbAll, Merged, Best, Ids;
    var id := Identity(y);
    HeldByMerge(Merged(es) + more, y);
    HeldByMerge(es + more, y);
    BestConcat(es, more, id);
    BestConcat(Merged(es), more, id);
    BestOfMerged(es, id);
    dropped := Best(es, id).value;
    HeldByMerge(es, dropped);
    HeldByMerge(es + more, dropped);
    NotAmongKept(es, dropped);
  }

  /** A list in a map's order, with the rest of the map after it, is the front of the map's listing. */
  lemma {:induction false} SameFront(byId: seq<Entry>, f: seq<Entry>, sorted: seq<Entry>, i: nat)
    requires DistinctIds(byId) && Listed(byId, f) && Listed(byId, sorted) && i <= |f|
    requires forall x :: x in sorted <==> x in byId
    requires forall x :: x in f ==> x in byId
    requires forall x, y :: x in f && y in byId && y !in f ==> Before(byId, x, y)
    ensures i <= |sorted| && f[..i] == sorted[..i]
  {
    hide Identity, Before;
    if i > 0 {
      SameFront(byId, f, sorted, i - 1);
      var x := f[i - 1];
      assert x in f && x in sorted;
      var k :| 0 <= k < |sorted| && sorted[k] == x;
      assert k >= i - 1 by {
        assert forall n :: 0 <= n < i - 1 ==> sorted[n] == sorted[..i - 1][n] == f[n];
        forall n | 0 <= n < i - 1 ensures sorted[n] != x { BeforeOneWay(byId, f[n], x); }
      }
      if k > i - 1 {
        var y := sorted[i - 1];
        assert y in byId && Before(byId, y, x);
        BeforeOneWay(byId, y, x);
        NotEarlier(byId, f, sorted, i - 1);
      }
    }
  }

  lemma NotEarlier(byId: seq<Entry>, f: seq<Entry>, sorted: seq<Entry>, n: nat)
    requires DistinctIds(byId) && Listed(byId, f) && Listed(byId, sorted) && n < |f| && n < |sorted|
    requires f[..n] == sorted[..n] && sorted[n] in f
    ensures sorted[n] == f[n] || Before(byId, f[n], sorted[n])
  {
    hide Identity, Before;
    var j :| 0 <= j < |f| && f[j] == sorted[n];
    if j < n {
      assert f[j] == f[..n][j] == sorted[j];
      BeforeOneWay(byId, sorted[j], sorted[n]);
    }
  }

  /**
   * Merging a merged list with more gives the merge of everything exactly when ties keep their places:
   * of two entries with one view time, one of them shown, the one that entered the map of everything
   * first enters the nested merge's map first.
   */
  lemma NestedMergeExactlyWhen(es: seq<Entry>, more: seq<Entry>)
    ensures Merged(Merged(es) + more) == Merged(es + more) <==> TiesKeepPlaces(es, more)
  {
    hide Identity, AbsorbAll, Merged, Ahead, Sort, TiesKeepPlaces;
    if Merged(Merged(es) + more) == Merged(es + more) {
      SameMergeKeepsPlaces(es, more);
    }
    if TiesKeepPlaces(es, more) {
      PlacesKeepMerge(es, more);
    }
  }

  lemma ShownInNestedOrder(es: seq<Entry>, more: seq<Entry>)
    requires TiesKeepPlaces(es, more)
    ensures Listed(AbsorbAll(Merged(es) + more), Merged(es + more))
    ensures forall x :: x in Merged(es + more) ==> x in AbsorbAll(Merged(es) + more)
  {
    hide Identity, AbsorbAll, Merged, Ahead, Sort;
    var f := Merged(es + more);
    MergedIsListed(es + more);
    forall x | x in f ensures x in AbsorbAll(Merged(es) + more) {
      ShownIsHeld(es, more, x);
    }
    forall i, j | 0 <= i < j < |f| ensures Before(AbsorbAll(Merged(es) + more), f[i], f[j]) {
      assert Before(AbsorbAll(es + more), f[i], f[j]) && f[i] in f && f[j] in f;
    }
  }

  lemma PlacesKeepMerge(es: seq<Entry>, more: seq<Entry>)
    requires TiesKeepPlaces(es, more)
    ensures Merged(Merged(es) + more) == Merged(es + more)
  {
    hide Identity, AbsorbAll, Ahead, Before, Sort, TiesKeepPlaces;
    var f, again := Merged(es + more), AbsorbAll(Merged(es) + more);
    ShownInNestedOrder(es, more);
    forall x, y | x in f && y in again && y !in f ensures Before(again, x, y) {
      RestComesAfter(es, more, x, y);
    }
    MergedIsListed(Merged(es) + more);
    AbsorbAllKeeps(Merged(es) + more);
    SameFront(again, f, Sort(again), |f|);
    NestedMergeSameTimes(es, more);
    assert |Times(f)| == |f| == |Merged(Merged(es) + more)|;
  }

  /** So when the entries held for different identities differ in time it always does. */
  lemma NestedMergeIsMerge(es: seq<Entry>, more: seq<Entry>)
    requires TimesTell(AbsorbAll(es + more))
    ensures Merged(Merged(es) + more) == Merged(es + more)
  {
    hide Identity, AbsorbAll, Merged, Sort;
    var all := AbsorbAll(es + more);
    AbsorbAllKeeps(es + more);
    MergedIsListed(es + more);
    forall x: Entry, y: Entry | x in Merged(es + more) && x.viewedAt == y.viewedAt ensures !Ahead(all, x, y) {
      if Ahead(all, x, y) { AheadOneWay(all, x, y); }
    }
    NestedMergeExactlyWhen(es, more);
  }

  /** When view times tell entries apart, only which entries were given matters, not their order. */
  lemma OrderDoesNotMatter(a: seq<Entry>, b: seq<Entry>)
    requires TimesTell(a) && forall x :: x in a <==> x in b
    ensures Merged(a) == Merged(b)
  {
    MergeKeepsNewest(a);
    MergeKeepsNewest(b);
    forall t ensures CountSince(Merged(a), t) == CountSince(Merged(b), t) {
      assert IdsSince(a, t) == IdsSince(b, t);
    }
    SameCountsSameTimes(Merged(a), Merged(b));
    SameTimesSameEntries(a, Merged(a), Merged(b));
  }

  lemma MergedTwo(a: Entry, b: Entry)
    requires Identity(a) != Identity(b)
    ensures AbsorbAll([a, b]) == [a, b]
    ensures Merged([a, b]) == if a.viewedAt >= b.viewedAt then [a, b] else [b, a]
  {
    hide Identity;
    assert [a, b][..1] == [a] && [a][..0] == [];
    assert AbsorbAll([a]) == [a];
    assert Find([a], Identity(b)).None?;
    assert Sort([b]) == [b];
  }

  lemma FindInTwo(a: Entry, b: Entry)
    requires Identity(a) != Identity(b)
    ensures Find([a, b], Identity(a)) == Some(0) && Find([a, b], Identity(b)) == Some(1)
  {
    hide Identity;
    assert [a, b][..1] == [a] && [a, b][1] == b && [a, b][0] == a;
  }

  lemma AbsorbThird(a: Entry, b: Entry, c: Entry)
    requires Identity(a) != Identity(b)
    ensures Identity(c) == Identity(a) && c.viewedAt > a.viewedAt ==> AbsorbAll([a, b, c]) == [c, b]
    ensures Identity(c) == Identity(b) && c.viewedAt > b.viewedAt ==> AbsorbAll([a, b, c]) == [a, c]
  {
    hide Identity, Merged, AbsorbAll;
    MergedTwo(a, b);
    FindInTwo(a, b);
    AbsorbNext([a, b], [c], 0);
    assert [a, b] + [c][..0] == [a, b] && [a, b] + [c][..1] == [a, b, c];
    assert [a, b][0 := c] == [c, b] && [a, b][1 := c] == [a, c];
  }

  lemma SortTied(a: Entry, b: Entry)
    requires a.viewedAt == b.viewedAt
    ensures Take(KEPT, Sort([a, b])) == [a, b]
  {
    assert [a, b][1..] == [b] && Sort([b]) == [b];
  }

  /**
   * With equal times the order can differ: viewed again at the time of another entry, a thing keeps
   * its old place in the merge of everything, and its new one in the merge of a merge.
   */
  lemma EqualTimesCanReorder(x: Entry, y: Entry, again: Entry)
    requires Identity(x) != Identity(y) && Identity(again) == Identity(x)
    requires x.viewedAt < y.viewedAt == again.viewedAt
    ensures Merged([x, y] + [again]) == [again, y]
    ensures Merged(Merged([x, y]) + [again]) == [y, again]
  {
    hide Identity, AbsorbAll, Sort;
    MergedTwo(x, y);
    AbsorbThird(x, y, again);
    AbsorbThird(y, x, again);
    SortTied(again, y);
    SortTied(y, again);
    assert [x, y] + [again] == [x, y, again] && [y, x] + [again] == [y, x, again];
  }

  // ----- the browser's list -----

  /** An entry read back from storage is dropped unless its link is relative. */
  predicate Readable(e: Entry) {
    "/" <= e.href
  }

  function Readables(es: seq<Entry>): (r: seq<Entry>)
    ensures (forall x :: x in es ==> Readable(x)) ==> r == es
    ensures forall x :: x in r ==> x in es && Readable(x)
  {
    if es == [] then []
    else
      assert es == [es[0]] + es[1..];
      (if Readable(es[0]) then [es[0]] else []) + Readables(es[1..])
  }

  class LocalStorage {
    /** What is stored for each tenant. */
    var items: map<string, seq<Entry>>

    constructor ()
      ensures items == map[]
    {
      items := map[];
    }

    function ReadLocalRecents(tenant: string): seq<Entry>
      reads this
    {
      if tenant in items then Readables(items[tenant]) else []
    }

    /** Remember one more view; `available` is whether the browser lets the write through. */
    method WriteLocalRecent(tenant: string, entry: Entry, available: bool)
      modifies this
      ensures items == if available then old(items)[tenant := Merged([entry] + old(ReadLocalRecents(tenant)))] else old(items)
    {
      var next := MergeRecents([[entry], ReadLocalRecents(tenant)]);
      assert [[entry], ReadLocalRecents(tenant)][..1] == [[entry]] && [[entry]][..0] == [];
      assert Flatten([[entry]]) == [entry];
      if available {
        items := items[tenant := next];
      }
    }

    method ClearLocalRecents(tenant: string, available: bool)
      modifies this
      ensures items == if available then old(items) - {tenant} else old(items)
    {
      if available {
        items := items - {tenant};
      }
    }
  }

  /** What a tenant's store holds after a run of views, first to last. */
  function AfterViews(views: seq<Entry>): seq<Entry> {
    if views == [] then []
    else Merged([views[|views| - 1]] + Readables(AfterViews(views[..|views| - 1])))
  }

  /** Each thing viewed once, most recent view first, with no cap: what the store stands for. */
  function MostRecent(views: seq<Entry>): seq<Entry> {
    if views == [] then []
    else [views[|views| - 1]] + Without(MostRecent(views[..|views| - 1]), Identity(views[|views| - 1]))
  }

  function Without(es: seq<Entry>, id: string): (r: seq<Entry>)
    ensures forall x :: x in r <==> x in es && Identity(x) != id
  {
    if es == [] then []
    else
      assert es == [es[0]] + es[1..];
      (if Identity(es[0]) == id then [] else [es[0]]) + Without(es[1..], id)
  }

  predicate Increasing(views: seq<Entry>) {
    forall i, j :: 0 <= i < j < |views| ==> views[i].viewedAt < views[j].viewedAt
  }

  lemma IncreasingTells(views: seq<Entry>)
    requires Increasing(views)
    ensures TimesTell(views)
  {
  }

  lemma {:induction false} StoreIsMerge(views: seq<Entry>)
    requires Increasing(views) && forall v :: v in views ==> Readable(v)
    ensures AfterViews(views) == Merged(views)
  {
    hide Merged, Increasing, Readable, Readables, TimesTell;
    if views == [] {
      NothingMerged();
    } else {
      var front, last := views[..|views| - 1], views[|views| - 1];
      assert views == front + [last];
      FrontIncreasing(views);
      StoreIsMerge(front);
      IncreasingTells(views);
      StoreStep(front, last);
    }
  }

  lemma NothingMerged()
    ensures Merged([]) == []
  {
  }

  lemma FrontIncreasing(views: seq<Entry>)
    requires views != [] && Increasing(views)
    ensures Increasing(views[..|views| - 1])
  {
  }

  /** One more view written to a store that holds the merge of those before it. */
  lemma StoreStep(front: seq<Entry>, last: Entry)
    requires TimesTell(front + [last]) && forall v :: v in front ==> Readable(v)
    ensures Merged([last] + Readables(Merged(front))) == Merged(front + [last])
  {
    hide Merged, Readable, AbsorbAll, Identity;
    var m := Merged(front);
    MergeSubset(front);
    AbsorbAllKeeps(front + [last]);
    assert Readables(m) == m;
    assert TimesTell(m + [last]);
    OrderDoesNotMatter(m + [last], [last] + m);
    NestedMergeIsMerge(front, [last]);
  }

  lemma MergeSubset(es: seq<Entry>)
    ensures forall x :: x in Merged(es) ==> x in es
  {
    hide Merged;
    MergeKeepsNewest(es);
  }

  lemma {:induction false} WithoutNewestFirst(es: seq<Entry>, id: string)
    requires NewestFirst(es)
    ensures NewestFirst(Without(es, id))
  {
    hide Identity;
    if es != [] {
      WithoutNewestFirst(es[1..], id);
      var rest := Without(es[1..], id);
      forall x | x in rest ensures x.viewedAt <= es[0].viewedAt {
        var k :| 0 <= k < |es[1..]| && es[1..][k] == x;
        assert es[k + 1] == x;
      }
      PrependNewest(es[0], rest);
    }
  }

  lemma PrependNewest(e: Entry, es: seq<Entry>)
    requires NewestFirst(es) && forall x :: x in es ==> x.viewedAt <= e.viewedAt
    ensures NewestFirst([e] + es)
  {
    assert forall j :: 0 <= j < |es| ==> es[j] in es;
  }

  lemma {:induction false} WithoutDistinct(es: seq<Entry>, id: string)
    requires DistinctIds(es)
    ensures DistinctIds(Without(es, id))
  {
    hide Identity;
    if es != [] {
      WithoutDistinct(es[1..], id);
      var rest := Without(es[1..], id);
      forall x | x in rest ensures Identity(x) != Identity(es[0]) {
        var k :| 0 <= k < |es[1..]| && es[1..][k] == x;
        assert es[k + 1] == x;
      }
      PrependDistinct(es[0], rest);
    }
  }

  lemma PrependDistinct(e: Entry, es: seq<Entry>)
    requires DistinctIds(es) && forall x :: x in es ==> Identity(x) != Identity(e)
    ensures DistinctIds([e] + es)
  {
    hide Identity;
    assert forall j :: 0 <= j < |es| ==> es[j] in es;
  }

  lemma {:induction false} MostRecentShape(views: seq<Entry>)
    requires Increasing(views)
    ensures NewestFirst(MostRecent(views)) && DistinctIds(MostRecent(views))
    ensures forall x :: x in MostRecent(views) ==> x in views
    ensures forall t :: IdsSince(MostRecent(views), t) == IdsSince(views, t)
  {
    hide Identity, IdsSince, NewestFirst, DistinctIds;
    if views != [] {
      var front, last := views[..|views| - 1], views[|views| - 1];
      MostRecentShape(front);
      var rest := Without(MostRecent(front), Identity(last));
      assert views == front + [last];
      assert forall x :: x in front ==> x.viewedAt < last.viewedAt;
      WithoutNewestFirst(MostRecent(front), Identity(last));
      WithoutDistinct(MostRecent(front), Identity(last));
      PrependNewest(last, rest);
      PrependDistinct(last, rest);
      MostRecentIds(front, last);
    } else {
      NothingShaped();
      assert MostRecent(views) == views == [];
    }
  }

  lemma NothingShaped()
    ensures NewestFirst([]) && DistinctIds([])
  {
  }

  lemma MostRecentIds(front: seq<Entry>, last: Entry)
    requires forall t :: IdsSince(MostRecent(front), t) == IdsSince(front, t)
    requires forall x :: x in front ==> x.viewedAt < last.viewedAt
    ensures forall t :: IdsSince([last] + Without(MostRecent(front), Identity(last)), t) == IdsSince(front + [last], t)
  {
    hide Identity;
    var rest := Without(MostRecent(front), Identity(last));
    forall t ensures IdsSince([last] + rest, t) == IdsSince(front + [last], t) {
      IdsSinceConcat([last], rest, t);
      IdsSinceConcat(front, [last], t);
      forall id ensures id in IdsSince(rest, t) <==> id in IdsSince(front, t) && id != Identity(last) {
        assert id in IdsSince(MostRecent(front), t) <==> id in IdsSince(front, t);
      }
      if last.viewedAt < t {
        assert IdsSince(front, t) == {};
      } else {
        assert Identity(last) in IdsSince([last], t);
      }
    }
  }

  /**
   * After any run of views at increasing times the store holds exactly the twenty most recently
   * viewed things, each once, most recent first.
   */
  lemma StoreIsMostRecent(views: seq<Entry>)
    requires Increasing(views) && forall v :: v in views ==> Readable(v)
    ensures AfterViews(views) == Take(KEPT, MostRecent(views))
  {
    hide Merged, Increasing, Readable, IdsSince, DistinctIds, CountSince, Min, MostRecent, AfterViews, TimesTell, Identity;
    var recent := MostRecent(views);
    StoreIsMerge(views);
    MergeKeepsNewest(views);
    MostRecentShape(views);
    forall t ensures CountSince(Merged(views), t) == CountSince(Take(KEPT, recent), t) {
      CountOfTake(KEPT, recent, t);
      CountIsIds(recent, t);
    }
    SameCountsSameTimes(Merged(views), Take(KEPT, recent));
    IncreasingTells(views);
    SameTimesSameEntries(views, Merged(views), Take(KEPT, recent));
  }
}
