/**
 * Philosopher.dormirRandom: how long a philosopher thinks or eats. The draw
 * of java.util.Random is a parameter; the sleep itself is not modelled.
 */
module Timing {
  import opened Results
  import opened JavaInt

  /** The IllegalArgumentException that Random.nextInt throws for a bound that is not positive. */
  datatype SleepError = BoundNotPositive(bound: int)

  /** `int delta = maxMs - minMs`, in `int` arithmetic. */
  function Delta(minMs: int32, maxMs: int32): int32 {
    Wrap32(maxMs - minMs)
  }

  /** The bound handed to Random.nextInt: `delta + 1`, in `int` arithmetic. */
  function DrawBound(minMs: int32, maxMs: int32): int32 {
    Wrap32(Delta(minMs, maxMs) + 1)
  }

  /**
   * The duration dormirRandom computes, as written: `minMs + r` with r the
   * value of random.nextInt(delta + 1) (0 <= r < delta + 1) when delta > 0,
   * and minMs otherwise.
   */
  function SleepMs(minMs: int32, maxMs: int32, r: int): (res: Result<int32, SleepError>)
    requires 0 <= r
    requires Delta(minMs, maxMs) > 0 && DrawBound(minMs, maxMs) > 0 ==> r < DrawBound(minMs, maxMs)
    ensures res.Err? <==> Delta(minMs, maxMs) == INT_MAX
    ensures res.Err? ==> res.error == BoundNotPositive(INT_MIN)
    ensures Delta(minMs, maxMs) <= 0 ==> res == Ok(minMs)
  {
    var delta := Delta(minMs, maxMs);
    if delta > 0 then
      var bound := Wrap32(delta + 1);
      if bound <= 0 then Err(BoundNotPositive(bound))
      else Ok(Wrap32(minMs + r))
    else
      Ok(minMs)
  }

  /** For an ordinary range the duration is minMs + r, inside [minMs, maxMs]. */
  lemma SleepWithinRange(minMs: int32, maxMs: int32, r: int)
    requires minMs <= maxMs && maxMs - minMs < INT_MAX
    requires 0 <= r <= maxMs - minMs
    ensures SleepMs(minMs, maxMs, r) == Ok(minMs + r)
    ensures minMs <= SleepMs(minMs, maxMs, r).value <= maxMs
  {
  }

  /** When maxMs <= minMs no number is drawn and the duration is exactly minMs. */
  lemma SleepDegenerate(minMs: int32, maxMs: int32, r: int)
    requires maxMs <= minMs && maxMs - minMs >= INT_MIN
    requires 0 <= r
    ensures SleepMs(minMs, maxMs, r) == Ok(minMs)
  {
  }

  /**
   * As written, a range as wide as the `int` type (think_ms=0-2147483647)
   * makes delta + 1 overflow to Integer.MIN_VALUE, and nextInt throws.
   */
  lemma FullWidthRangeThrows(minMs: int32, maxMs: int32, r: int)
    requires maxMs - minMs == INT_MAX && 0 <= r
    ensures SleepMs(minMs, maxMs, r) == Err(BoundNotPositive(INT_MIN))
  {
  }

  /**
   * For bounds that are not negative, as every range the configuration
   * reader stores is, the full-width range is the only one that throws.
   */
  lemma NonNegativeRangeThrowsOnlyAtFullWidth(minMs: int32, maxMs: int32, r: int)
    requires 0 <= minMs && 0 <= maxMs
    requires 0 <= r && (minMs < maxMs ==> r <= maxMs - minMs)
    ensures SleepMs(minMs, maxMs, r).Err? <==> maxMs - minMs == INT_MAX
  {
    assert Delta(minMs, maxMs) == maxMs - minMs;
  }

  /**
   * The evident intent, computed in `long` so that nothing overflows: a
   * duration drawn from [minMs, maxMs] by r with 0 <= r <= maxMs - minMs.
   */
  function SleepMsIntended(minMs: int32, maxMs: int32, r: int): (res: int32)
    requires 0 <= r && (minMs < maxMs ==> r <= maxMs - minMs)
    ensures minMs <= maxMs ==> minMs <= res <= maxMs
    ensures minMs < maxMs ==> res - minMs == r
    ensures maxMs <= minMs ==> res == minMs
  {
    var delta: int64 := maxMs as int - minMs as int;
    if delta > 0 then minMs + r else minMs
  }

  /** Wherever the code as written returns a duration from a range that does not overflow, it is the intended one. */
  lemma IntendedAgreesWithWritten(minMs: int32, maxMs: int32, r: int)
    requires INT_MIN <= maxMs - minMs < INT_MAX
    requires 0 <= r && (minMs < maxMs ==> r <= maxMs - minMs)
    ensures SleepMs(minMs, maxMs, r) == Ok(SleepMsIntended(minMs, maxMs, r))
  {
  }
}
