/** Time as the source uses it. `DateTime.Now` is never read by the model: every
    operation that reads the clock takes the current instant as a parameter.
    An instant is a DateTime tick count and a duration (`TimeSpan`) a signed tick
    count; one tick is 100 nanoseconds. */
module Clock {

  type Instant = int

  type Duration = int

  const TicksPerSecond: int := 10_000_000
  const TicksPerMinute: int := 600_000_000

  /** Division truncating toward zero, as C#'s `/` on `long`. */
  function TruncDiv(a: int, b: int): int
    requires b > 0
  {
    if a >= 0 then a / b else -((-a) / b)
  }

  /** Remainder with the sign of the dividend, as C#'s `%` on `long`. */
  function TruncRem(a: int, b: int): (m: int)
    requires b > 0
    ensures a == b * TruncDiv(a, b) + m
    ensures a >= 0 ==> 0 <= m < b
    ensures a < 0 ==> -b < m <= 0
  {
    a - b * TruncDiv(a, b)
  }

  /** `TimeSpan.Minutes`: the minutes component, `(ticks / TicksPerMinute) % 60`
      in C# arithmetic. It is a component, not the total number of minutes. */
  function MinutesComponent(d: Duration): int
  {
    TruncRem(TruncDiv(d, TicksPerMinute), 60)
  }

  /** `TimeSpan.Seconds`: the seconds component, `(ticks / TicksPerSecond) % 60`. */
  function SecondsComponent(d: Duration): int
  {
    TruncRem(TruncDiv(d, TicksPerSecond), 60)
  }

  /** Whole minutes are whole seconds divided by 60. */
  lemma MinutesOfSeconds(d: nat)
    ensures d / TicksPerMinute == (d / TicksPerSecond) / 60
  {
    var q := d / TicksPerSecond;
    var r := d % TicksPerSecond;
    var a := q / 60;
    var b := q % 60;
    assert d == TicksPerMinute * a + (TicksPerSecond * b + r);
    assert 0 <= TicksPerSecond * b + r < TicksPerMinute;
  }

  /** For a non-negative duration of `s` whole seconds the components are the
      minute-within-the-hour `(s / 60) % 60` and second-within-the-minute `s % 60`;
      a negative duration has the negated components of its length. */
  lemma Components(d: Duration)
    ensures d >= 0 ==> MinutesComponent(d) == (d / TicksPerSecond / 60) % 60
    ensures d >= 0 ==> SecondsComponent(d) == (d / TicksPerSecond) % 60
    ensures 0 <= MinutesComponent(d) < 60 || (d < 0 && -60 < MinutesComponent(d) <= 0)
    ensures 0 <= SecondsComponent(d) < 60 || (d < 0 && -60 < SecondsComponent(d) <= 0)
    ensures MinutesComponent(-d) == -MinutesComponent(d)
    ensures SecondsComponent(-d) == -SecondsComponent(d)
  {
    if d >= 0 {
      MinutesOfSeconds(d);
    }
    var m := TruncDiv(d, TicksPerMinute);
    var s := TruncDiv(d, TicksPerSecond);
    assert TruncDiv(-d, TicksPerMinute) == -m;
    assert TruncDiv(-d, TicksPerSecond) == -s;
    assert TruncRem(-m, 60) == -TruncRem(m, 60);
    assert TruncRem(-s, 60) == -TruncRem(s, 60);
  }
}
