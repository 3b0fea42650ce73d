/** Facts about division the models share. */
module ArithmeticModule {

  /** A non-zero multiple of `d` is at least `d` away from zero. */
  lemma MultipleIsFar(k: int, d: nat)
    ensures k >= 1 ==> k * d >= d
    ensures k <= -1 ==> k * d <= -(d as int)
  {
    if k >= 1 {
      assert (k - 1) * d >= 0;
    } else if k <= -1 {
      assert (-k - 1) * d >= 0;
    }
  }

  /** Adding a multiple of the divisor. */
  lemma DivShifts(x: nat, k: nat, d: nat)
    requires d > 0
    ensures (x + k * d) / d == x / d + k && (x + k * d) % d == x % d
  {
    var y := x + k * d;
    assert (y / d - x / d - k) * d == x % d - y % d;
    MultipleIsFar(y / d - x / d - k, d);
  }

  lemma DivMonotone(x: nat, y: nat, d: nat)
    requires d > 0 && x <= y
    ensures x / d <= y / d
  {
    MultipleIsFar(x / d - y / d, d);
    assert (x / d - y / d) * d == (x - x % d) - (y - y % d);
  }

  lemma DivModOf(q: nat, r: nat, d: nat)
    requires r < d
    ensures (q * d + r) / d == q && (q * d + r) % d == r
  {
    DivShifts(r, q, d);
    MultipleIsFar(r / d, d);
    assert q * d + r == r + q * d;
  }
}
