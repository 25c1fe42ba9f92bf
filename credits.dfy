/**
 * Credits arithmetic: the usage payload, its total, and the progress-bar
 * value in tenths of a percent, together with the rule by which the bar
 * widget accepts a value.
 */
module Credits {
  import opened Wrappers

  /** The bar's range: tenths of a percent. */
  const BarMin: int := 0
  const BarMax: int := 1000

  /** The two usage fields of a successful reply; an absent field is None. */
  datatype Payload = Payload(remaining: Option<int>, consumed: Option<int>)

  /** What the widget shows besides the bar. */
  datatype Display =
    | Placeholder                       // the "--.-%" shown before the first poll
    | Normal(remaining: int, total: int)
    | Error

  /** Remaining units, 0 when the field is absent. */
  function Remaining(p: Payload): (r: int)
    ensures p.remaining.None? ==> r == 0
    ensures p.remaining.Some? ==> r == p.remaining.value
  {
    p.remaining.GetOr(0)
  }

  /** Units consumed this billing cycle, 0 when the field is absent. */
  function Consumed(p: Payload): (c: int)
    ensures p.consumed.None? ==> c == 0
    ensures p.consumed.Some? ==> c == p.consumed.value
  {
    p.consumed.GetOr(0)
  }

  /**
   * Remaining plus consumed units. With no negative consumption the total
   * is at least what remains, and a reply with neither field totals 0.
   */
  function Total(p: Payload): (t: int)
    ensures t == Remaining(p) + Consumed(p)
    ensures 0 <= Consumed(p) ==> Remaining(p) <= t
    ensures p.remaining.None? && p.consumed.None? ==> t == 0
  {
    p.remaining.GetOr(0) + p.consumed.GetOr(0)
  }

  /** `a / b` truncated toward zero, as Python's int() does to a quotient. */
  function TruncDiv(a: int, b: int): (q: int)
    requires b > 0
    ensures 0 <= a ==> 0 <= q && q * b <= a < (q + 1) * b
    ensures a < 0 ==> q <= 0 && (q - 1) * b < a <= q * b
  {
    if a >= 0 then
      DivBounds(a, b);
      a / b
    else
      var d := (-a) / b;
      DivBounds(-a, b);
      assert (-d) * b == -(d * b) && (-d - 1) * b == -((d + 1) * b);
      -d
  }

  /** Euclidean division of a non-negative numerator, as bounds on the quotient. */
  lemma DivBounds(a: int, b: int)
    requires 0 <= a && 0 < b
    ensures 0 <= a / b && (a / b) * b <= a < (a / b + 1) * b
  {
    var q, m := a / b, a % b;
    assert a == q * b + m && 0 <= m < b;
    assert (q + 1) * b == q * b + b;
  }

  /**
   * The bar value for `remaining` and `consumed` units: the truncated tenths
   * of a percent of remaining over total, or 0 when the total is not positive.
   */
  function BarValue(remaining: int, consumed: int): (bar: int)
    ensures remaining + consumed <= 0 ==> bar == 0
    ensures 0 <= remaining && 0 <= consumed ==> BarMin <= bar <= BarMax
    ensures 0 <= remaining && 0 < remaining + consumed ==>
      bar * (remaining + consumed) <= BarMax * remaining < (bar + 1) * (remaining + consumed)
  {
    var total := remaining + consumed;
    if total > 0 then
      TruncDiv(BarMax * remaining, total)
    else 0
  }

  /**
   * The value the bar holds after being asked to show `v`: a value outside
   * its range is ignored and the current one kept.
   */
  function SetValue(current: int, v: int): (r: int)
    ensures BarMin <= v <= BarMax ==> r == v
    ensures !(BarMin <= v <= BarMax) ==> r == current
    ensures BarMin <= current <= BarMax ==> BarMin <= r <= BarMax
  {
    if BarMin <= v <= BarMax then v else current
  }

  /** 750 remaining of 1000 fills three quarters of the bar; an all-zero payload leaves it empty. */
  lemma BarExamples()
    ensures BarValue(750, 250) == 750
    ensures BarValue(0, 0) == 0
    ensures var p := Payload(None, None);
      Total(p) == 0 && BarValue(Remaining(p), Consumed(p)) == 0
  {
  }
}
