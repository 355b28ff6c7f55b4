/**
 * Time arithmetic. Every timestamp of the model is an integer number of
 * milliseconds; durations are reported in whole minutes.
 */
module Timing {

  const MsPerMinute: int := 60000

  /**
   * `Math.round(ms / 60000)`: whole minutes rounded to the nearest integer,
   * halves rounded up. Dafny's `/` with a positive divisor is floor division,
   * so adding half a minute first gives JavaScript's rounding for every sign.
   */
  function RoundMin(ms: int): (m: int)
    ensures m * MsPerMinute - 30000 <= ms < m * MsPerMinute + 30000
  {
    (ms + 30000) / MsPerMinute
  }

  /** The rounded value is the only integer within half a minute of `ms`. */
  lemma RoundMinUnique(ms: int, m: int)
    requires m * MsPerMinute - 30000 <= ms < m * MsPerMinute + 30000
    ensures RoundMin(ms) == m
  {
    var r := RoundMin(ms);
    assert r * MsPerMinute - 30000 <= ms < r * MsPerMinute + 30000;
  }

  /** Rounding is monotone and never negative for a non-negative span. */
  lemma RoundMinMonotone(a: int, b: int)
    requires a <= b
    ensures RoundMin(a) <= RoundMin(b)
  {
    var ra, rb := RoundMin(a), RoundMin(b);
    assert ra * MsPerMinute - 30000 <= a && b < rb * MsPerMinute + 30000;
  }

  lemma RoundMinNonNegative(ms: int)
    requires ms >= 0
    ensures RoundMin(ms) >= 0
  {
    RoundMinMonotone(0, ms);
  }

  /** A rounded value is positive exactly when the span is at least half a minute. */
  lemma RoundMinPositive(ms: int)
    ensures RoundMin(ms) > 0 <==> ms >= 30000
  {
    if ms >= 30000 {
      RoundMinMonotone(30000, ms);
      assert RoundMin(30000) == 1;
    } else {
      RoundMinMonotone(ms, 29999);
      assert RoundMin(29999) == 0;
    }
  }

  function Max(a: int, b: int): int { if a >= b then a else b }
  function Min(a: int, b: int): int { if a <= b then a else b }
}
