/** Bits of unsigned words, and the idiom `31 - clz(x & -x)`. */
module BitsModule {

  function Pow2(w: nat): (p: nat)
    ensures p > 0
  {
    if w == 0 then 1 else 2 * Pow2(w - 1)
  }

  predicate Bit(x: nat, i: nat) {
    if i == 0 then x % 2 == 1 else Bit(x / 2, i - 1)
  }

  /** `x & y`. */
  function And(x: nat, y: nat): nat {
    if x == 0 then 0 else (if x % 2 == 1 && y % 2 == 1 then 1 else 0) + 2 * And(x / 2, y / 2)
  }

  /** The leading zeros of `x` in a word of `w` bits. */
  function Clz(x: nat, w: nat): nat {
    if w == 0 || x >= Pow2(w - 1) then 0 else 1 + Clz(x, w - 1)
  }

  /** `-x` in a word of `w` bits. */
  function Negated(x: nat, w: nat): nat
    requires x <= Pow2(w)
  {
    if x == 0 then 0 else Pow2(w) - x
  }

  /** The index of the lowest set bit. */
  function LowestBit(x: nat): nat
    requires x > 0
  {
    if x % 2 == 1 then 0 else 1 + LowestBit(x / 2)
  }

  lemma {:induction false} LowestBitIsLowest(x: nat, i: nat)
    requires x > 0
    ensures Bit(x, LowestBit(x)) && (i < LowestBit(x) ==> !Bit(x, i))
  {
    if x % 2 == 0 {
      LowestBitIsLowest(x / 2, if i > 0 then i - 1 else 0);
    }
  }

  /** A word and its complement have no bit in common. */
  lemma {:induction false} AndComplement(x: nat, w: nat)
    requires x < Pow2(w)
    ensures And(x, Pow2(w) - 1 - x) == 0
  {
    if x > 0 {
      assert (Pow2(w) - 1 - x) / 2 == Pow2(w - 1) - 1 - x / 2;
      AndComplement(x / 2, w - 1);
    }
  }

  /** `x & -x` is the lowest set bit alone. */
  lemma {:induction false} AndNegated(x: nat, w: nat)
    requires 0 < x < Pow2(w)
    ensures And(x, Negated(x, w)) == Pow2(LowestBit(x))
  {
    var y := Negated(x, w);
    if x % 2 == 1 {
      assert y / 2 == Pow2(w - 1) - 1 - x / 2;
      AndComplement(x / 2, w - 1);
    } else {
      assert y / 2 == Negated(x / 2, w - 1);
      AndNegated(x / 2, w - 1);
    }
  }

  lemma {:induction false} Pow2Monotone(a: nat, b: nat)
    requires a < b
    ensures Pow2(a) < Pow2(b)
  {
    if a < b - 1 {
      Pow2Monotone(a, b - 1);
    }
  }

  lemma {:induction false} ClzOfPow2(k: nat, w: nat)
    requires k < w
    ensures Clz(Pow2(k), w) == w - 1 - k
  {
    if k < w - 1 {
      Pow2Monotone(k, w - 1);
      ClzOfPow2(k, w - 1);
    }
  }

  lemma {:induction false} LowestBitBelow(x: nat, w: nat)
    requires 0 < x < Pow2(w)
    ensures LowestBit(x) < w
  {
    if x % 2 == 0 {
      LowestBitBelow(x / 2, w - 1);
    }
  }

  /** `(w - 1) - clz(x & -x)` is the index of the lowest set bit. */
  lemma IdiomFindsLowestBit(x: nat, w: nat)
    requires 0 < x < Pow2(w)
    ensures LowestBit(x) < w && w - 1 - Clz(And(x, Negated(x, w)), w) == LowestBit(x)
  {
    AndNegated(x, w);
    LowestBitBelow(x, w);
    ClzOfPow2(LowestBit(x), w);
  }
}
