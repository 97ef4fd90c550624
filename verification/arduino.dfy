/** The two Arduino core helpers the sketch calls on line 130. They belong to
    the Arduino runtime rather than to the repository, so they are defined
    here after the Arduino reference: `constrain` is the ternary macro and
    `map` is the affine rescale computed in `long` with C's truncating
    division. */
module Arduino {
  import opened CInt

  function Min(a: int, b: int): int { if a <= b then a else b }

  function Max(a: int, b: int): int { if a >= b then a else b }

  /** `constrain(amt, low, high)`: `amt < low ? low : (amt > high ? high : amt)`.
      On a well-formed range it is the clamp min(max(amt, low), high). */
  function Constrain(amt: int, low: int, high: int): (r: int)
    ensures low <= high ==> r == Min(Max(amt, low), high)
    ensures low <= high ==> low <= r <= high
    ensures low <= amt <= high ==> r == amt
  {
    if amt < low then low else if amt > high then high else amt
  }

  /** `map(x, inMin, inMax, outMin, outMax)`: `(x - inMin) * (outMax - outMin)
      / (inMax - inMin) + outMin`, the division truncating toward zero. A
      zero-width input range would divide by zero, so it is excluded. */
  function MapRange(x: int, inMin: int, inMax: int, outMin: int, outMax: int): (r: int)
    requires inMin != inMax
    ensures x == inMin ==> r == outMin
    ensures x == inMax ==> r == outMax
    ensures inMin <= x <= inMax && outMin <= outMax ==> outMin <= r <= outMax
  {
    var run := inMax - inMin;
    var rise := outMax - outMin;
    var delta := x - inMin;
    MapStepBounds(delta, run, rise);
    TruncDiv(delta * rise, run) + outMin
  }

  /** The scaled step `delta * rise / run` of `map` stays within `[0, rise]`
      while `delta` stays within `[0, run]`, and hits both ends exactly. */
  lemma MapStepBounds(delta: int, run: int, rise: int)
    requires run != 0
    ensures delta == 0 ==> TruncDiv(delta * rise, run) == 0
    ensures delta == run ==> TruncDiv(delta * rise, run) == rise
    ensures 0 <= delta <= run && 0 <= rise ==> 0 <= TruncDiv(delta * rise, run) <= rise
  {
    if delta == run {
      TruncDivExact(rise, run);
    }
    if 0 <= delta <= run && 0 <= rise {
      MapStepInRange(delta, run, rise);
    }
  }

  lemma MapStepInRange(delta: int, run: int, rise: int)
    requires 0 <= delta <= run && 0 <= rise && run != 0
    ensures 0 <= TruncDiv(delta * rise, run) <= rise
  {
    MulMonotone(delta, run, rise);
    DivMonotone(delta * rise, rise * run, run);
    TruncDivExact(rise, run);
  }

  /** Dividing an exact multiple returns the factor. */
  lemma TruncDivExact(k: int, d: int)
    requires d != 0
    ensures TruncDiv(k * d, d) == k
  {
    var q := TruncDiv(k * d, d);
    assert k * d - q * d == (k - q) * d;
    if k != q {
      assert Abs((k - q) * d) >= Abs(d) by {
        MulAbs(k - q, d);
      }
      assert false;
    }
  }

  lemma MulAbs(a: int, d: int)
    requires a != 0
    ensures Abs(a * d) >= Abs(d)
  {
    if a > 0 {
      if d >= 0 { assert a * d == (a - 1) * d + d; MulNonNeg(a - 1, d); }
      else { assert a * d == (a - 1) * d + d; MulNonNeg(a - 1, -d); }
    } else {
      if d >= 0 { assert a * d == (a + 1) * d - d; MulNonNeg(-(a + 1), d); }
      else { assert a * d == (a + 1) * d - d; MulNonNeg(-(a + 1), -d); }
    }
  }

  lemma MulNonNeg(a: int, b: int)
    requires 0 <= a && 0 <= b
    ensures 0 <= a * b
  {
  }

  lemma MulMonotone(a: int, b: int, c: int)
    requires 0 <= a <= b && 0 <= c
    ensures 0 <= a * c <= b * c
  {
    MulNonNeg(a, c);
    MulNonNeg(b - a, c);
    assert b * c - a * c == (b - a) * c;
  }

  lemma DivMonotone(a: int, b: int, d: int)
    requires 0 <= a <= b && 0 < d
    ensures 0 <= a / d <= b / d
  {
    var qa, qb := a / d, b / d;
    assert a == qa * d + a % d && 0 <= a % d < d;
    assert b == qb * d + b % d && 0 <= b % d < d;
    if qa > qb {
      MulMonotone(qb + 1, qa, d);
      assert false;
    }
  }
}
