/** The 30-second time step of section 4.2 of RFC 6238 (T0 = 0), computed
    the way main.go and view.go compute it from `time.Now().Unix()`. */
module TimeStep {

  /** The step size X, in seconds. */
  const StepSeconds: int := 30

  const MinInt64: int := -0x8000_0000_0000_0000
  const MaxInt64: int := 0x7FFF_FFFF_FFFF_FFFF

  /** Go's integer `/`, which truncates toward zero: `b * q` is the
      multiple of `b` nearest to `a` on the side of zero. */
  function GoDiv(a: int, b: int): (q: int)
    requires b > 0
    ensures a >= 0 ==> 0 <= a - b * q < b
    ensures a < 0 ==> -b < a - b * q <= 0
  {
    if a >= 0 then a / b else -((-a) / b)
  }

  /** Go's integer `%`, whose sign follows the dividend. */
  function GoRem(a: int, b: int): (r: int)
    requires b > 0
    ensures a == b * GoDiv(a, b) + r
    ensures a >= 0 ==> r == a % b
    ensures -b < r < b && (a >= 0 ==> r >= 0) && (a <= 0 ==> r <= 0)
  {
    a - b * GoDiv(a, b)
  }

  /** The counter `epochSeconds/30`: the number of whole steps since the epoch. */
  function Counter(epochSeconds: int): (c: int)
    ensures epochSeconds >= 0 ==> c >= 0 && StepSeconds * c <= epochSeconds < StepSeconds * (c + 1)
    ensures MinInt64 <= epochSeconds <= MaxInt64 ==> MinInt64 <= c <= MaxInt64
  {
    GoDiv(epochSeconds, StepSeconds)
  }

  /** `30 - (epochSeconds % 30)`: seconds until the counter next changes. */
  function SecondsRemaining(epochSeconds: int): (r: int)
    ensures 1 <= r < 2 * StepSeconds
    ensures epochSeconds >= 0 ==> r <= StepSeconds
    ensures epochSeconds >= 0 ==> (r == StepSeconds <==> epochSeconds % StepSeconds == 0)
  {
    StepSeconds - GoRem(epochSeconds, StepSeconds)
  }

  /** For a time at or after the epoch, the counter stays the same for the
      remaining seconds and moves to the next step exactly when they run out. */
  lemma RemainingUntilNextStep(epochSeconds: int, elapsed: int)
    requires epochSeconds >= 0 && 0 <= elapsed
    ensures elapsed < SecondsRemaining(epochSeconds) ==> Counter(epochSeconds + elapsed) == Counter(epochSeconds)
    ensures elapsed == SecondsRemaining(epochSeconds) ==> Counter(epochSeconds + elapsed) == Counter(epochSeconds) + 1
  {
    var c := Counter(epochSeconds);
    var later := epochSeconds + elapsed;
    assert epochSeconds == StepSeconds * c + epochSeconds % StepSeconds;
    if elapsed < SecondsRemaining(epochSeconds) {
      assert StepSeconds * c <= later < StepSeconds * (c + 1);
      StepUnique(later, c);
    } else if elapsed == SecondsRemaining(epochSeconds) {
      assert later == StepSeconds * (c + 1);
      StepUnique(later, c + 1);
    }
  }

  lemma StepUnique(t: int, c: int)
    requires t >= 0 && StepSeconds * c <= t < StepSeconds * (c + 1)
    ensures Counter(t) == c
  {
    assert t == StepSeconds * c + (t - StepSeconds * c);
  }
}
