/** The free window of a student's day, and when it is really free. */
module Chips {
  import opened Wrappers
  import Normalize

  const SIX_PM := 1080
  const TWO_HOURS := 120

  datatype Span = Span(start: int, end: int)

  predicate IsDigit(c: char) {
    '0' <= c <= '9'
  }

  function DigitOf(c: char): int {
    c as int - '0' as int
  }

  /** Minutes since midnight of an `H:MM` or `HH:MM` text, without blanks around it. */
  function ParseHHMM(s: string): (minutes: Option<int>)
    ensures minutes.Some? ==> 0 <= minutes.value < 1440
  {
    if |s| == 4 && IsDigit(s[0]) && s[1] == ':' && IsDigit(s[2]) && IsDigit(s[3]) then
      Minutes(DigitOf(s[0]), DigitOf(s[2]) * 10 + DigitOf(s[3]))
    else if |s| == 5 && IsDigit(s[0]) && IsDigit(s[1]) && s[2] == ':' && IsDigit(s[3]) && IsDigit(s[4]) then
      Minutes(DigitOf(s[0]) * 10 + DigitOf(s[1]), DigitOf(s[3]) * 10 + DigitOf(s[4]))
    else None
  }

  function Minutes(h: nat, min: nat): (minutes: Option<int>)
    ensures minutes.Some? ==> 0 <= minutes.value < 1440
  {
    if h > 23 || min > 59 then None else Some(h * 60 + min)
  }

  /** A time the timetable grid writes is read back here as itself, exactly when it lies within the day. */
  lemma GridTimesReadBack(minutes: int)
    requires 0 <= minutes < 6000
    ensures var text := Normalize.ClockText(Normalize.ClockOf(minutes));
      text.Some? && ParseHHMM(text.value) == if minutes < 1440 then Some(minutes) else None
  {
    var c := Normalize.ClockOf(minutes);
    assert c.h == minutes / 60 && c.m == minutes % 60 && minutes == c.h * 60 + c.m;
    Normalize.DigitReadsBack(c.h / 10);
    Normalize.DigitReadsBack(c.h % 10);
    Normalize.DigitReadsBack(c.m / 10);
    Normalize.DigitReadsBack(c.m % 10);
  }

  /** A class as its two times read. */
  datatype Class = Class(startsAt: string, endsAt: string)

  function SpansOf(schedule: seq<Class>): seq<Span> {
    if schedule == [] then []
    else
      var c := schedule[|schedule| - 1];
      var start, end := ParseHHMM(c.startsAt), ParseHHMM(c.endsAt);
      SpansOf(schedule[..|schedule| - 1]) + (if start.Some? && end.Some? then [Span(start.value, end.value)] else [])
  }

  function InsertByStart(x: Span, xs: seq<Span>): (r: seq<Span>)
    ensures multiset(r) == multiset(xs) + multiset{x}
  {
    if xs == [] || x.start <= xs[0].start then [x] + xs
    else
      assert xs == [xs[0]] + xs[1..];
      [xs[0]] + InsertByStart(x, xs[1..])
  }

  /** A stable sort by start. */
  function ByStart(xs: seq<Span>): (r: seq<Span>)
    ensures multiset(r) == multiset(xs)
  {
    if xs == [] then []
    else
      assert xs == [xs[0]] + xs[1..];
      InsertByStart(xs[0], ByStart(xs[1..]))
  }

  /** The gap before class `i`, in start order. */
  function GapBefore(spans: seq<Span>, i: nat): Span
    requires 0 < i < |spans|
  {
    Span(spans[i - 1].end, spans[i].start)
  }

  predicate Qualifies(gap: Span) {
    gap.end - gap.start >= TWO_HOURS && gap.end <= SIX_PM
  }

  /** The longest qualifying gap among those before classes 1 to `n - 1`, the first of them on ties. */
  function BestGap(spans: seq<Span>, n: nat): Option<Span>
    requires n <= |spans|
  {
    if n <= 1 then None
    else
      var best := BestGap(spans, n - 1);
      var gap := GapBefore(spans, n - 1);
      if Qualifies(gap) && (best.None? || gap.end - gap.start > best.value.end - best.value.start) then Some(gap) else best
  }

  method FreeWindowToday(schedule: seq<Class>) returns (window: Option<Span>)
    ensures var spans := ByStart(SpansOf(schedule)); window == BestGap(spans, |spans|)
  {
    var spans := ByStart(SpansOf(schedule));
    if |spans| < 2 {
      return None;
    }
    window := None;
    for i := 0 to |spans| - 1
      invariant window == BestGap(spans, i + 1)
    {
      var gapStart, gapEnd := spans[i].end, spans[i + 1].start;
      if gapEnd - gapStart >= TWO_HOURS && gapEnd <= SIX_PM {
        if window.None? || gapEnd - gapStart > window.value.end - window.value.start {
          window := Some(Span(gapStart, gapEnd));
        }
      }
    }
  }

  // ----- what a free window is -----

  predicate Sorted(spans: seq<Span>) {
    forall i, j :: 0 <= i < j < |spans| ==> spans[i].start <= spans[j].start
  }

  predicate WellFormed(spans: seq<Span>) {
    forall s :: s in spans ==> s.start < s.end
  }

  predicate Meets(a: Span, b: Span) {
    a.start < b.end && b.start < a.end
  }

  /** From the end of a class to the start of one, two hours or more, over by six, and no class in between. */
  predicate IsFree(spans: seq<Span>, w: Span) {
    && Qualifies(w)
    && (exists s :: s in spans && s.end == w.start)
    && (exists s :: s in spans && s.start == w.end)
    && (forall s :: s in spans ==> !Meets(s, w))
  }

  /** In start order no class outlasts a later one. Classes that do not overlap are such. */
  predicate EndsInOrder(spans: seq<Span>) {
    forall i, j :: 0 <= i < j < |spans| ==> spans[i].end <= spans[j].end
  }

  lemma {:induction false} InsertSorted(x: Span, xs: seq<Span>)
    requires Sorted(xs)
    ensures Sorted(InsertByStart(x, xs))
  {
    if xs != [] && x.start > xs[0].start {
      InsertSorted(x, xs[1..]);
      var rest := InsertByStart(x, xs[1..]);
      forall j | 0 <= j < |rest| ensures xs[0].start <= rest[j].start {
        assert rest[j] in multiset(rest);
        assert rest[j] == x || rest[j] in xs[1..];
      }
    }
  }

  lemma {:induction false} SortSorted(xs: seq<Span>)
    ensures Sorted(ByStart(xs)) && forall s :: s in ByStart(xs) <==> s in xs
  {
    if xs != [] {
      SortSorted(xs[1..]);
      InsertSorted(xs[0], ByStart(xs[1..]));
    }
    forall s ensures s in ByStart(xs) <==> s in xs {
      assert s in ByStart(xs) <==> s in multiset(ByStart(xs));
      assert s in xs <==> s in multiset(xs);
    }
  }

  lemma DisjointEndInOrder(spans: seq<Span>)
    requires Sorted(spans) && WellFormed(spans)
    requires forall i, j :: 0 <= i < j < |spans| ==> !Meets(spans[i], spans[j])
    ensures EndsInOrder(spans)
  {
    forall i, j | 0 <= i < j < |spans| ensures spans[i].end <= spans[j].end {
      assert spans[i] in spans && spans[j] in spans && !Meets(spans[i], spans[j]);
    }
  }

  /** Where the scan finds the gap it answers, so that it can be compared with the longest one. */
  function BestAt(spans: seq<Span>, n: nat): (i: Option<nat>)
    requires n <= |spans|
    ensures i.Some? ==> 0 < i.value < n
  {
    if n <= 1 then None
    else
      var best := BestAt(spans, n - 1);
      var gap := GapBefore(spans, n - 1);
      if Qualifies(gap) && (best.None? || Length(gap) > Length(GapBefore(spans, best.value))) then Some(n - 1) else best
  }

  /** The scan answers the first longest of the qualifying gaps, and none only if there are none. */
  lemma {:induction false} BestGapIsBest(spans: seq<Span>, n: nat)
    requires n <= |spans|
    ensures BestAt(spans, n).None? ==> BestGap(spans, n).None? && forall i :: 0 < i < n ==> !Qualifies(GapBefore(spans, i))
    ensures BestAt(spans, n).Some? ==>
      BestGap(spans, n) == Some(GapBefore(spans, BestAt(spans, n).value)) && FirstLongest(spans, n, BestAt(spans, n).value)
  {
    if n > 1 {
      BestGapIsBest(spans, n - 1);
    }
  }

  /** Gap `i` qualifies, is longer than every earlier one that does and at least as long as every later one. */
  predicate FirstLongest(spans: seq<Span>, n: nat, i: nat)
    requires 0 < i < n <= |spans|
  {
    && Qualifies(GapBefore(spans, i))
    && forall j :: 0 < j < n && Qualifies(GapBefore(spans, j)) ==>
      Length(GapBefore(spans, j)) < Length(GapBefore(spans, i)) || (j >= i && Length(GapBefore(spans, j)) == Length(GapBefore(spans, i)))
  }

  function Length(s: Span): int {
    s.end - s.start
  }

  /** The first class, in order, that starts at `time` or later. */
  lemma {:induction false} FirstFrom(spans: seq<Span>, time: int, k: nat) returns (i: nat)
    requires k < |spans| && spans[k].start == time && Sorted(spans)
    ensures i <= k && spans[i].start == time && forall j :: 0 <= j < i ==> spans[j].start < time
  {
    i := k;
    if k > 0 && spans[k - 1].start == time {
      i := FirstFrom(spans, time, k - 1);
    }
  }

  /** The longest free window, the earliest of the longest; none only if nothing is free. */
  ghost predicate IsLongestFree(spans: seq<Span>, window: Option<Span>) {
    match window
    case None => forall w :: !IsFree(spans, w)
    case Some(best) =>
      IsFree(spans, best) && forall w :: IsFree(spans, w) ==> Beats(best, w)
  }

  predicate Beats(best: Span, w: Span) {
    Length(w) < Length(best) || (Length(w) == Length(best) && w.start >= best.start)
  }

  /** Some class before the gap lasts longer than the one the gap starts after. */
  predicate Outlasted(spans: seq<Span>, i: nat)
    requires 0 < i < |spans|
  {
    exists j :: 0 <= j < i && spans[j].end > spans[i - 1].end
  }

  /** A gap between neighbours meets no class exactly when the class it starts after is not outlasted. */
  lemma GapIsFreeExactlyWhen(spans: seq<Span>, i: nat)
    requires Sorted(spans) && WellFormed(spans) && 0 < i < |spans| && Qualifies(GapBefore(spans, i))
    ensures IsFree(spans, GapBefore(spans, i)) <==> !Outlasted(spans, i)
  {
    var w := GapBefore(spans, i);
    assert spans[i - 1] in spans && spans[i] in spans;
    if !Outlasted(spans, i) {
      forall s | s in spans ensures !Meets(s, w) {
        var k :| 0 <= k < |spans| && spans[k] == s;
      }
    } else {
      var j :| 0 <= j < i && spans[j].end > spans[i - 1].end;
      assert spans[j] in spans && Meets(spans[j], w);
    }
  }

  /** Every free window lies in a gap between neighbours, and ends where it does. */
  lemma FreeInAGap(spans: seq<Span>, w: Span) returns (i: nat)
    requires Sorted(spans) && WellFormed(spans) && IsFree(spans, w)
    ensures 0 < i < |spans| && spans[i].start == w.end && spans[i - 1].end <= w.start && Qualifies(GapBefore(spans, i))
  {
    var s :| s in spans && s.start == w.end;
    var k :| 0 <= k < |spans| && spans[k] == s;
    i := FirstFrom(spans, w.end, k);
    var e :| e in spans && e.end == w.start;
    var m :| 0 <= m < |spans| && spans[m] == e;
    EndsBefore(spans, w, i, m);
  }

  lemma EndsBefore(spans: seq<Span>, w: Span, i: nat, m: nat)
    requires Sorted(spans) && WellFormed(spans) && i < |spans| && m < |spans| && Qualifies(w)
    requires spans[i].start == w.end && spans[m].end == w.start && forall j :: 0 <= j < i ==> spans[j].start < w.end
    requires forall s :: s in spans ==> !Meets(s, w)
    ensures 0 < i && spans[i - 1].end <= w.start
  {
    assert spans[m] in spans && m < i;
    assert spans[i - 1] in spans && !Meets(spans[i - 1], w);
  }

  lemma FirstLongestBeats(spans: seq<Span>, k: nat, w: Span, i: nat)
    requires Sorted(spans) && 0 < k < |spans| && FirstLongest(spans, |spans|, k)
    requires 0 < i < |spans| && spans[i].start == w.end && spans[i - 1].end <= w.start && Qualifies(GapBefore(spans, i))
    ensures Beats(GapBefore(spans, k), w)
  {
    assert Length(w) <= Length(GapBefore(spans, i)) <= Length(GapBefore(spans, k));
  }

  lemma OneFirstLongest(spans: seq<Span>, i: nat, j: nat)
    requires 0 < i < |spans| && FirstLongest(spans, |spans|, i)
    requires 0 < j < |spans| && FirstLongest(spans, |spans|, j)
    ensures i == j
  {
  }

  /** When there is a longest gap it beats every window that is free. */
  lemma LongestGapBeats(spans: seq<Span>, k: nat)
    requires Sorted(spans) && WellFormed(spans) && 0 < k < |spans| && FirstLongest(spans, |spans|, k)
    ensures IsLongestFree(spans, Some(GapBefore(spans, k))) <==> !Outlasted(spans, k)
  {
    hide IsFree, Qualifies, Sorted, WellFormed, FirstLongest, GapBefore, Beats, Outlasted;
    LongestQualifies(spans, k);
    GapIsFreeExactlyWhen(spans, k);
    forall w | IsFree(spans, w) ensures Beats(GapBefore(spans, k), w) {
      var i := FreeInAGap(spans, w);
      FirstLongestBeats(spans, k, w, i);
    }
  }

  lemma NoGapNothingFree(spans: seq<Span>)
    requires Sorted(spans) && WellFormed(spans)
    requires forall i :: 0 < i < |spans| ==> !Qualifies(GapBefore(spans, i))
    ensures IsLongestFree(spans, None)
  {
    hide IsFree, Qualifies, Sorted, WellFormed, GapBefore;
    forall w ensures !IsFree(spans, w) {
      if IsFree(spans, w) { var _ := FreeInAGap(spans, w); }
    }
  }

  /**
   * For every day of well formed classes the answer is the longest window that is really free, the
   * earliest on ties, and none only when nothing is free, exactly when the longest gap between
   * neighbours in start order, the first of the longest, starts after a class that no earlier one
   * outlasts. The answer is that gap, and none when no gap qualifies, which is always right.
   */
  lemma AnswerIsRightExactlyWhen(schedule: seq<Class>)
    requires WellFormed(ByStart(SpansOf(schedule)))
    ensures var spans := ByStart(SpansOf(schedule));
      && (forall i :: 0 < i < |spans| && FirstLongest(spans, |spans|, i) ==> BestGap(spans, |spans|) == Some(GapBefore(spans, i)))
      && (BestGap(spans, |spans|).None? <==> forall i :: 0 < i < |spans| ==> !Qualifies(GapBefore(spans, i)))
      && (IsLongestFree(spans, BestGap(spans, |spans|)) <==>
        forall i :: 0 < i < |spans| && FirstLongest(spans, |spans|, i) ==> !Outlasted(spans, i))
  {
    hide BestGap, BestAt, IsFree, IsLongestFree, ByStart, SpansOf, Qualifies, Sorted, WellFormed, FirstLongest, GapBefore, Beats, Outlasted;
    var spans := ByStart(SpansOf(schedule));
    SortSorted(SpansOf(schedule));
    BestGapIsBest(spans, |spans|);
    var at := BestAt(spans, |spans|);
    forall i | 0 < i < |spans| && FirstLongest(spans, |spans|, i) ensures at == Some(i) {
      LongestQualifies(spans, i);
      if at.Some? { OneFirstLongest(spans, i, at.value); }
    }
    if at.None? {
      NoGapNothingFree(spans);
    } else {
      LongestQualifies(spans, at.value);
      LongestGapBeats(spans, at.value);
    }
  }

  lemma LongestQualifies(spans: seq<Span>, k: nat)
    requires 0 < k < |spans| && FirstLongest(spans, |spans|, k)
    ensures Qualifies(GapBefore(spans, k))
  {
  }

  /** So where no class outlasts a later one, as when none overlap, the answer is always right. */
  lemma WindowIsTheLongestFree(schedule: seq<Class>)
    requires var spans := ByStart(SpansOf(schedule)); WellFormed(spans) && EndsInOrder(spans)
    ensures var spans := ByStart(SpansOf(schedule)); IsLongestFree(spans, BestGap(spans, |spans|))
  {
    hide BestGap, IsLongestFree, ByStart, SpansOf, WellFormed, FirstLongest;
    AnswerIsRightExactlyWhen(schedule);
  }

  /** From nine to five, with a class inside from ten to eleven and one from two to three. */
  const NESTED := [Class("09:00", "17:00"), Class("10:00", "11:00"), Class("14:00", "15:00")]

  /** On that day the scan answers from eleven to two, when the long class is on, and nothing is free at all. */
  lemma NestedClassIsMissed()
    ensures var spans := ByStart(SpansOf(NESTED));
      && BestGap(spans, |spans|) == Some(Span(660, 840)) && WellFormed(spans)
      && Meets(Span(540, 1020), Span(660, 840)) && Span(540, 1020) in spans
      && !IsLongestFree(spans, BestGap(spans, |spans|)) && forall w :: !IsFree(spans, w)
  {
    NestedSpans();
    hide ByStart, InsertByStart, SpansOf;
    var spans := [Span(540, 1020), Span(600, 660), Span(840, 900)];
    SortedStays(spans);
    assert BestGap(spans, 2) == None;
    assert spans[0] in spans;
  }

  lemma NestedSpans()
    ensures SpansOf(NESTED) == [Span(540, 1020), Span(600, 660), Span(840, 900)]
  {
    assert NESTED[..2] == [NESTED[0], NESTED[1]] && NESTED[..2][..1] == [NESTED[0]] && NESTED[..2][..1][..0] == [];
    assert ParseHHMM("09:00") == Some(540) && ParseHHMM("17:00") == Some(1020);
    assert ParseHHMM("10:00") == Some(600) && ParseHHMM("11:00") == Some(660);
    assert ParseHHMM("14:00") == Some(840) && ParseHHMM("15:00") == Some(900);
    assert SpansOf(NESTED[..2][..1]) == [Span(540, 1020)];
    assert SpansOf(NESTED[..2]) == [Span(540, 1020), Span(600, 660)];
  }

  lemma {:induction false} SortedStays(xs: seq<Span>)
    requires Sorted(xs)
    ensures ByStart(xs) == xs
  {
    if xs != [] {
      SortedStays(xs[1..]);
      assert xs == [xs[0]] + xs[1..];
      assert |xs| > 1 ==> xs[0].start <= xs[1].start;
    }
  }
}
