/** The parts of the `timeseries` package the core relies on: times and
    durations in whole seconds (int64 in the source; overflow is not
    modelled), Go's integer division and `Time.Truncate`. */
module Timeseries {

  type Time = int
  type Duration = int

  /** `timeseries.Context`: the window and resolution of a world. */
  datatype Context = Context(from: Time, to: Time, step: Duration, rawStep: Duration)

  /** Go's integer `a / d` for a positive divisor: rounds toward zero. */
  function Quot(a: int, d: int): (q: int)
    requires d > 0
    ensures a >= 0 ==> q * d <= a < q * d + d
    ensures a < 0 ==> q * d - d < a <= q * d
  {
    if a >= 0 then a / d else -((-a) / d)
  }

  /** `t.Truncate(d)`: the multiple of `d` next to `t` toward zero. */
  function Truncate(t: Time, d: Duration): (r: Time)
    requires d > 0
    ensures r % d == 0
    ensures t >= 0 ==> 0 <= t - r < d
    ensures t < 0 ==> 0 <= r - t < d
  {
    MultipleOnGrid(Quot(t, d), d);
    Quot(t, d) * d
  }

  /** A multiple of `d` leaves no remainder. */
  lemma MultipleOnGrid(q: int, d: int)
    requires d > 0
    ensures (q * d) % d == 0
  {
    var x := q * d;
    var p, m := x / d, x % d;
    assert x == p * d + m && 0 <= m < d;
    assert (q - p) * d == q * d - p * d;
    MulSign(q - p, d);
  }

  lemma MulSign(x: int, d: int)
    requires d > 0
    ensures x >= 1 ==> x * d >= d
    ensures x == 0 ==> x * d == 0
    ensures x <= -1 ==> x * d <= -d
    decreases if x < 0 then -x else x
  {
    if x > 1 {
      MulSign(x - 1, d);
      assert x * d == (x - 1) * d + d;
    } else if x < -1 {
      MulSign(x + 1, d);
      assert x * d == (x + 1) * d - d;
    }
  }

  lemma QuotOfMultiple(k: int, d: int)
    requires d > 0
    ensures Quot(k * d, d) == k
  {
    var q := Quot(k * d, d);
    assert (q - k) * d == q * d - k * d;
    MulSign(q - k, d);
  }
}
