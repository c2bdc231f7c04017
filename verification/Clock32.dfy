/** 32-bit clock values that wrap, compared by their signed difference (section 5.2 of RFC 7323). */
module Clock32 {
  import opened Arith

  const CLOCK_VALUES: int := 0x1_0000_0000
  const HALF_CLOCK: int := 0x8000_0000

  /** How far a value lies after another, read as a signed 32-bit difference. */
  function SignedDistance(a: u32, b: u32): int
  {
    var difference := (a - b) % CLOCK_VALUES;
    if difference < HALF_CLOCK then difference else difference - CLOCK_VALUES
  }

  /** Of two unwrapped clocks less than half the range apart the signed distance is the true one. */
  lemma DistanceIsTrue(a: nat, b: nat)
    requires -HALF_CLOCK <= a - b < HALF_CLOCK
    ensures SignedDistance(a % CLOCK_VALUES, b % CLOCK_VALUES) == a - b
  {
    assert (a % CLOCK_VALUES - b % CLOCK_VALUES) % CLOCK_VALUES == (a - b) % CLOCK_VALUES;
  }
}
