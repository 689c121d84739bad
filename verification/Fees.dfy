/** The platform fee: basis points of a whole positive amount, rounded down; the seller keeps the rest. */
module Fees {
  import opened Wrappers

  /** Refused unless the amount is positive. */
  function FeePaisa(amount: int, bps: int): Option<int> {
    if amount <= 0 then None else Some(amount * bps / 10000)
  }

  function NetPaisa(amount: int, bps: int): Option<int> {
    match FeePaisa(amount, bps)
    case Some(fee) => Some(amount - fee)
    case None => None
  }

  lemma FloorIs(n: int)
    ensures 10000 * (n / 10000) <= n < 10000 * (n / 10000) + 10000
  {
  }

  lemma RateOf(a: int, bps: int)
    requires 0 <= a && 0 <= bps <= 10000
    ensures 0 <= a * bps <= a * 10000
  {
    assert a * (10000 - bps) >= 0;
  }

  lemma Floors(x: int, y: int, a: int, b: int)
    requires 0 <= x <= y && x <= 10000 * a && y - x <= 10000 * (b - a)
    ensures 0 <= x / 10000 <= y / 10000 && 0 <= a - x / 10000 <= b - y / 10000
  {
    FloorIs(x);
    FloorIs(y);
  }

  /** Up to a full rate neither side goes below zero, and neither loses when the amount grows. */
  lemma FeeAndNetGrow(a: int, b: int, bps: int)
    requires 0 < a <= b && 0 <= bps <= 10000
    ensures 0 <= FeePaisa(a, bps).value <= FeePaisa(b, bps).value
    ensures 0 <= NetPaisa(a, bps).value <= NetPaisa(b, bps).value
  {
    RateOf(a, bps);
    RateOf(b - a, bps);
    assert b * bps == a * bps + (b - a) * bps;
    Floors(a * bps, b * bps, a, b);
  }

  function Sum(parts: seq<int>): int {
    if parts == [] then 0 else Sum(parts[..|parts| - 1]) + parts[|parts| - 1]
  }

  function FeeSum(parts: seq<int>, bps: int): int {
    if parts == [] then 0
    else FeeSum(parts[..|parts| - 1], bps) + parts[|parts| - 1] * bps / 10000
  }

  lemma {:induction false} PartsAgainstWhole(parts: seq<int>, bps: int)
    ensures 10000 * FeeSum(parts, bps) <= Sum(parts) * bps <= 10000 * FeeSum(parts, bps) + 9999 * |parts|
  {
    if parts != [] {
      var front, last := parts[..|parts| - 1], parts[|parts| - 1];
      PartsAgainstWhole(front, bps);
      FloorIs(last * bps);
      assert Sum(parts) * bps == Sum(front) * bps + last * bps;
    }
  }

  lemma {:induction false} SumIsPositive(parts: seq<int>)
    requires parts != [] && forall i :: 0 <= i < |parts| ==> parts[i] > 0
    ensures Sum(parts) > 0
  {
    if |parts| > 1 { SumIsPositive(parts[..|parts| - 1]); }
  }

  /** Splitting an amount never costs more than the whole, and saves less than one paisa a part. */
  lemma SplittingSavesLessThanAPaisaEach(parts: seq<int>, bps: int)
    requires parts != [] && forall i :: 0 <= i < |parts| ==> parts[i] > 0
    ensures FeePaisa(Sum(parts), bps).Some?
    ensures FeeSum(parts, bps) <= FeePaisa(Sum(parts), bps).value < FeeSum(parts, bps) + |parts|
  {
    SumIsPositive(parts);
    PartsAgainstWhole(parts, bps);
    FloorIs(Sum(parts) * bps);
  }
}
