/** The in-process fixed-window rate limiter, and what it allows over any sliding interval. */
module RateLimit {
  import opened Wrappers

  datatype Window = Window(count: int, resetAt: int)

  datatype Call = Call(key: string, limit: int, window: int, now: int)

  predicate Admitted(windows: map<string, Window>, c: Call) {
    c.key !in windows || c.now >= windows[c.key].resetAt || windows[c.key].count < c.limit
  }

  function Next(windows: map<string, Window>, c: Call): map<string, Window> {
    if c.key !in windows || c.now >= windows[c.key].resetAt then windows[c.key := Window(1, c.now + c.window)]
    else if windows[c.key].count >= c.limit then windows
    else windows[c.key := windows[c.key].(count := windows[c.key].count + 1)]
  }

  class Limiter {
    var windows: map<string, Window>

    constructor ()
      ensures windows == map[]
    {
      windows := map[];
    }

    method RateLimit(key: string, limit: int, windowMs: int, now: int) returns (admitted: bool)
      modifies this
      ensures admitted <==> Admitted(old(windows), Call(key, limit, windowMs, now))
      ensures windows == Next(old(windows), Call(key, limit, windowMs, now))
    {
      if key !in windows || now >= windows[key].resetAt {
        windows := windows[key := Window(1, now + windowMs)];
        return true;
      }
      var entry := windows[key];
      if entry.count >= limit {
        return false;
      }
      windows := windows[key := entry.(count := entry.count + 1)];
      return true;
    }
  }

  // ----- runs -----

  function After(calls: seq<Call>): map<string, Window> {
    if calls == [] then map[] else Next(After(calls[..|calls| - 1]), calls[|calls| - 1])
  }

  /** How many calls with this key were admitted at `from` or later and before `to`. */
  function AdmittedIn(calls: seq<Call>, key: string, from: int, to: int): nat {
    if calls == [] then 0
    else
      var front, c := calls[..|calls| - 1], calls[|calls| - 1];
      AdmittedIn(front, key, from, to) +
      (if c.key == key && from <= c.now < to && Admitted(After(front), c) then 1 else 0)
  }

  lemma OneMore(front: seq<Call>, c: Call, key: string, from: int, to: int)
    ensures After(front + [c]) == Next(After(front), c)
    ensures AdmittedIn(front + [c], key, from, to) ==
      AdmittedIn(front, key, from, to) + (if c.key == key && from <= c.now < to && Admitted(After(front), c) then 1 else 0)
  {
    hide Next, Admitted;
    assert (front + [c])[..|front|] == front;
  }

  function EntryOf(windows: map<string, Window>, key: string): Option<Window> {
    if key in windows then Some(windows[key]) else None
  }

  /** What a call leaves of a key's window. */
  function NextEntry(entry: Option<Window>, c: Call): Option<Window> {
    if entry.None? || c.now >= entry.value.resetAt then Some(Window(1, c.now + c.window))
    else if entry.value.count >= c.limit then entry
    else Some(Window(entry.value.count + 1, entry.value.resetAt))
  }

  lemma NextIsLocal(windows: map<string, Window>, c: Call, key: string)
    ensures EntryOf(Next(windows, c), key) == if c.key == key then NextEntry(EntryOf(windows, key), c) else EntryOf(windows, key)
  {
  }

  predicate InOrder(calls: seq<Call>) {
    forall i, j :: 0 <= i < j < |calls| ==> calls[i].now <= calls[j].now
  }

  /** Every call with this key asks for the same limit and window. */
  predicate Fixed(calls: seq<Call>, key: string, limit: int, window: int) {
    forall c :: c in calls && c.key == key ==> c.limit == limit && c.window == window
  }

  predicate NotAfter(calls: seq<Call>, now: int) {
    forall c :: c in calls ==> c.now <= now
  }

  /** What an open window says of the calls admitted from `from` on, for a window's length. */
  predicate Bounded(calls: seq<Call>, key: string, limit: int, window: int, from: int) {
    var n := AdmittedIn(calls, key, from, from + window);
    if key !in After(calls) then n == 0
    else
      var open := After(calls)[key];
      var start := open.resetAt - window;
      && 1 <= open.count <= limit
      && NotAfterAny(calls, start)
      && n <= (if start < from then open.count - 1
               else if start < from + window then limit - 1 + open.count
               else 2 * limit - 1)
  }

  /** Some call was made at `now` or later. */
  predicate NotAfterAny(calls: seq<Call>, now: int) {
    exists i :: 0 <= i < |calls| && now <= calls[i].now
  }

  lemma {:induction false} NoneYet(calls: seq<Call>, key: string, from: int, to: int)
    requires forall c :: c in calls ==> c.now < from
    ensures AdmittedIn(calls, key, from, to) == 0
  {
    hide Admitted, After;
    if calls != [] {
      assert calls[|calls| - 1] in calls;
      NoneYet(calls[..|calls| - 1], key, from, to);
    }
  }

  lemma {:induction false} EveryWindowBounded(calls: seq<Call>, key: string, limit: int, window: int, from: int)
    requires limit >= 1 && window >= 1 && InOrder(calls) && Fixed(calls, key, limit, window)
    ensures Bounded(calls, key, limit, window, from)
  {
    if calls != [] {
      var front, c := calls[..|calls| - 1], calls[|calls| - 1];
      EveryWindowBounded(front, key, limit, window, from);
      assert c in calls && calls == front + [c];
      if c.now < from {
        NoneYet(front, key, from, from + window);
      }
      OneMoreBounded(front, c, key, limit, window, from);
    }
  }

  lemma OneMoreBounded(front: seq<Call>, c: Call, key: string, limit: int, window: int, from: int)
    requires limit >= 1 && window >= 1 && NotAfter(front, c.now)
    requires c.key == key ==> c.limit == limit && c.window == window
    requires Bounded(front, key, limit, window, from)
    requires c.now < from ==> AdmittedIn(front, key, from, from + window) == 0
    ensures Bounded(front + [c], key, limit, window, from)
  {
    var calls := front + [c];
    assert calls[..|calls| - 1] == front && calls[|calls| - 1] == c;
    if key in After(front) {
      var start := After(front)[key].resetAt - window;
      var i :| 0 <= i < |front| && start <= front[i].now;
      assert front[i] in front && calls[i] == front[i];
      assert start <= c.now;
    }
  }

  /** Any interval of a window's length, wherever it starts, sees at most 2L - 1 admitted calls with a key. */
  lemma SlidingBound(calls: seq<Call>, key: string, limit: int, window: int, from: int)
    requires limit >= 1 && window >= 1 && InOrder(calls) && Fixed(calls, key, limit, window)
    ensures AdmittedIn(calls, key, from, from + window) <= 2 * limit - 1
  {
    hide AdmittedIn, After, InOrder, Fixed;
    EveryWindowBounded(calls, key, limit, window, from);
  }

  // ----- the bound is reached -----

  function Repeated(c: Call, n: nat): seq<Call> {
    if n == 0 then [] else Repeated(c, n - 1) + [c]
  }

  /** One call at 0, the rest of its window's at the window's last moment, and a new window's worth at once after. */
  function Burst(key: string, limit: nat, window: int): seq<Call>
    requires limit >= 1
  {
    [Call(key, limit, window, 0)] + Repeated(Call(key, limit, window, window - 1), limit - 1)
    + Repeated(Call(key, limit, window, window), limit)
  }

  /** Calls at one moment while the window has room. */
  lemma {:induction false} RoomFor(front: seq<Call>, c: Call, n: nat, w: Window, from: int, to: int)
    requires EntryOf(After(front), c.key) == Some(w) && c.now < w.resetAt && w.count + n <= c.limit
    requires from <= c.now < to
    ensures EntryOf(After(front + Repeated(c, n)), c.key) == Some(Window(w.count + n, w.resetAt))
    ensures AdmittedIn(front + Repeated(c, n), c.key, from, to) == AdmittedIn(front, c.key, from, to) + n
  {
    hide After, AdmittedIn, Next;
    if n == 0 {
      assert front + Repeated(c, 0) == front;
    } else {
      RoomFor(front, c, n - 1, w, from, to);
      var before := front + Repeated(c, n - 1);
      assert front + Repeated(c, n) == before + [c];
      OneMore(before, c, c.key, from, to);
      NextIsLocal(After(before), c, c.key);
    }
  }

  /** The bound cannot be improved: a burst at the turn of a window reaches it. */
  lemma BoundIsReached(key: string, limit: nat, window: int)
    requires limit >= 1 && window >= 2
    ensures AdmittedIn(Burst(key, limit, window), key, window - 1, 2 * window - 1) == 2 * limit - 1
  {
    hide After, AdmittedIn, Next, Repeated;
    var first, late, next := Call(key, limit, window, 0), Call(key, limit, window, window - 1), Call(key, limit, window, window);
    var from, to := window - 1, 2 * window - 1;
    Nothing(key, from, to);
    assert [] + [first] == [first];
    OneMore([], first, key, from, to);
    NextIsLocal(After([]), first, key);
    RoomFor([first], late, limit - 1, Window(1, window), from, to);
    var full := [first] + Repeated(late, limit - 1);
    OneMore(full, next, key, from, to);
    NextIsLocal(After(full), next, key);
    RoomFor(full + [next], next, limit - 1, Window(1, 2 * window), from, to);
    RepeatedFrom(next, limit);
    assert full + [next] + Repeated(next, limit - 1) == Burst(key, limit, window);
  }

  lemma Nothing(key: string, from: int, to: int)
    ensures EntryOf(After([]), key) == None && AdmittedIn([], key, from, to) == 0
  {
  }

  lemma {:induction false} RepeatedFrom(c: Call, n: nat)
    requires n >= 1
    ensures Repeated(c, n) == [c] + Repeated(c, n - 1)
  {
    if n > 1 { RepeatedFrom(c, n - 1); }
  }

  // ----- keys and quiet -----

  function Only(calls: seq<Call>, key: string): seq<Call> {
    if calls == [] then []
    else Only(calls[..|calls| - 1], key) + (if calls[|calls| - 1].key == key then [calls[|calls| - 1]] else [])
  }

  /** Keys do not affect each other: what a key has left is what its own calls alone would leave. */
  lemma {:induction false} KeysApart(calls: seq<Call>, key: string)
    ensures EntryOf(After(calls), key) == EntryOf(After(Only(calls, key)), key)
  {
    hide Next, EntryOf, AdmittedIn;
    if calls != [] {
      var front, c := calls[..|calls| - 1], calls[|calls| - 1];
      KeysApart(front, key);
      NextIsLocal(After(front), c, key);
      if c.key == key {
        OneMore(Only(front, key), c, key, 0, 0);
        NextIsLocal(After(Only(front, key)), c, key);
      } else {
        assert Only(calls, key) == Only(front, key);
      }
    }
  }

  /** A key quiet for a window is always let in again, whatever came before. */
  lemma {:induction false} QuietIsReadmitted(calls: seq<Call>, c: Call, window: int)
    requires window >= 1 && forall d :: d in calls && d.key == c.key ==> d.window == window && d.now + window <= c.now
    ensures Admitted(After(calls), c)
    ensures c.key in After(calls) ==> After(calls)[c.key].resetAt <= c.now
  {
    if calls != [] {
      assert calls[|calls| - 1] in calls;
      QuietIsReadmitted(calls[..|calls| - 1], c, window);
    }
  }
}
