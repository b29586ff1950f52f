/**
The upper 64 bits of a 128-bit product, computed from 32-bit limbs, and its two
signed forms, which negate a 128-bit number while holding only its upper half.
*/
module MultiplyHigh {
  import opened Words

  /** What each method below must deliver: the true product divided by 2^64, rounded down. */
  function High(a: int, b: int): int {
    a * b / 0x1_0000_0000_0000_0000
  }

  method Mulhu(a: Word, b: Word) returns (r: Word)
    ensures r == High(a, b)
  {
    var t: Word;
    var y1: Word32, y2: Word32, y3: Word32;
    var a0, a1 := Zext32(a), a / 0x1_0000_0000;
    var b0, b1 := Zext32(b), b / 0x1_0000_0000;

    t := Wrap(a1 * b0 + Wrap(a0 * b0) / 0x1_0000_0000);
    FirstFits(a0, a1, b0);
    y1 := Zext32(t);
    y2 := Zext32(t / 0x1_0000_0000);

    t := Wrap(a0 * b1 + y1);
    SecondFits(a0, a1, b0, b1);
    y1 := Zext32(t);

    t := Wrap(a1 * b1 + y2 + t / 0x1_0000_0000);
    ThirdIsHigh(a, b, a0, a1, b0, b1);
    ThirdFits(a0, a1, b0, b1);
    y2 := Zext32(t);
    y3 := Zext32(t / 0x1_0000_0000);

    r := Or(Shl(y3, 32), y2);
    HalvesOf(t);
    JoinHalves(y3, y2, t);
  }

  lemma {:induction false} HalvesOf(t: Word)
    ensures Zext32(t / 0x1_0000_0000) * 0x1_0000_0000 + Zext32(t) == t
  {
  }

  lemma {:induction false} JoinHalves(hi: Word32, lo: Word32, t: Word)
    requires t == hi * 0x1_0000_0000 + lo
    ensures Or(Shl(hi, 32), lo) == t
  {
    Pow2Values();
    OrShifted(lo, hi, 32, 0x1_0000_0000);
    OrCommutes(lo, hi * 0x1_0000_0000);
  }

  // The three values that the local `t` takes, as exact integers over the limbs.

  ghost function FirstSum(a0: Word32, a1: Word32, b0: Word32): int {
    a1 * b0 + a0 * b0 / 0x1_0000_0000
  }

  ghost function SecondSum(a0: Word32, a1: Word32, b0: Word32, b1: Word32): int {
    a0 * b1 + FirstSum(a0, a1, b0) % 0x1_0000_0000
  }

  ghost function ThirdSum(a0: Word32, a1: Word32, b0: Word32, b1: Word32): int {
    a1 * b1 + FirstSum(a0, a1, b0) / 0x1_0000_0000 + SecondSum(a0, a1, b0, b1) / 0x1_0000_0000
  }

  // No 64-bit sum of partial products wraps around.

  lemma {:induction false} FirstFits(a0: Word32, a1: Word32, b0: Word32)
    ensures 0 <= FirstSum(a0, a1, b0) <= 0xFFFF_FFFE_FFFF_FFFF
    ensures Wrap(a1 * b0 + Wrap(a0 * b0) / 0x1_0000_0000) == FirstSum(a0, a1, b0)
  {
    ProductBound(a0, b0, 0xFFFF_FFFF, 0xFFFF_FFFF);
    ProductBound(a1, b0, 0xFFFF_FFFF, 0xFFFF_FFFF);
    SmallWrap(a0 * b0);
    SmallWrap(a1 * b0 + a0 * b0 / 0x1_0000_0000);
  }

  lemma {:induction false} SecondFits(a0: Word32, a1: Word32, b0: Word32, b1: Word32)
    ensures 0 <= SecondSum(a0, a1, b0, b1) <= 0xFFFF_FFFF_0000_0000
    ensures Wrap(a0 * b1 + Zext32(FirstSum(a0, a1, b0))) == SecondSum(a0, a1, b0, b1)
  {
    ProductBound(a0, b1, 0xFFFF_FFFF, 0xFFFF_FFFF);
  }

  lemma {:induction false} ThirdFits(a0: Word32, a1: Word32, b0: Word32, b1: Word32)
    ensures 0 <= ThirdSum(a0, a1, b0, b1) <= 0xFFFF_FFFF_FFFF_FFFE
    ensures Wrap(a1 * b1 + Zext32(FirstSum(a0, a1, b0) / 0x1_0000_0000)
                 + SecondSum(a0, a1, b0, b1) / 0x1_0000_0000)
         == ThirdSum(a0, a1, b0, b1)
  {
    ThirdIsHigh(a1 * 0x1_0000_0000 + a0, b1 * 0x1_0000_0000 + b0, a0, a1, b0, b1);
    FirstFits(a0, a1, b0);
    CarryWrap(a1 * b1, FirstSum(a0, a1, b0), SecondSum(a0, a1, b0, b1) / 0x1_0000_0000);
  }

  lemma {:induction false} CarryWrap(p: int, f: Word, c: int)
    requires 0 <= p + f / 0x1_0000_0000 + c < 0x1_0000_0000_0000_0000
    ensures Wrap(p + Zext32(f / 0x1_0000_0000) + c) == p + f / 0x1_0000_0000 + c
  {
  }

  /** The last sum is the upper half of the product. */
  lemma {:induction false} ThirdIsHigh(a: Word, b: Word, a0: Word32, a1: Word32, b0: Word32, b1: Word32)
    requires a == a1 * 0x1_0000_0000 + a0 && b == b1 * 0x1_0000_0000 + b0
    ensures ThirdSum(a0, a1, b0, b1) == High(a, b)
    ensures 0 <= ThirdSum(a0, a1, b0, b1) <= 0xFFFF_FFFF_FFFF_FFFE
  {
    ProductBound(a, b, 0xFFFF_FFFF_FFFF_FFFF, 0xFFFF_FFFF_FFFF_FFFF);
    LimbProduct(a, b, a0, a1, b0, b1);
    Carries(a0 * b0, a1 * b0, a0 * b1, a1 * b1);
  }

  lemma {:induction false} LimbProduct(a: Word, b: Word, a0: Word32, a1: Word32, b0: Word32, b1: Word32)
    requires a == a1 * 0x1_0000_0000 + a0 && b == b1 * 0x1_0000_0000 + b0
    ensures a * b == a1 * b1 * 0x1_0000_0000_0000_0000 + (a1 * b0 + a0 * b1) * 0x1_0000_0000 + a0 * b0
  {
    assert a * b == a1 * b * 0x1_0000_0000 + a0 * b;
    assert a1 * b == a1 * b1 * 0x1_0000_0000 + a1 * b0;
    assert a0 * b == a0 * b1 * 0x1_0000_0000 + a0 * b0;
  }

  /** Adding limb products with carries gives the upper half of their weighted sum. */
  lemma {:induction false} Carries(p00: int, p10: int, p01: int, p11: int)
    ensures p11 + (p10 + p00 / 0x1_0000_0000) / 0x1_0000_0000
            + (p01 + (p10 + p00 / 0x1_0000_0000) % 0x1_0000_0000) / 0x1_0000_0000
         == (p11 * 0x1_0000_0000_0000_0000 + (p10 + p01) * 0x1_0000_0000 + p00) / 0x1_0000_0000_0000_0000
  {
  }

  /** The three bounds are attained, so none of them can be lowered. */
  lemma {:induction false} SumBoundsAreExact()
    ensures FirstSum(0xFFFF_FFFF, 0xFFFF_FFFF, 0xFFFF_FFFF) == 0xFFFF_FFFE_FFFF_FFFF
    ensures SecondSum(0xFFFF_FFFF, 0xFFFF_FFFF, 0xFFFF_FFFF, 0xFFFF_FFFF) == 0xFFFF_FFFF_0000_0000
    ensures ThirdSum(0xFFFF_FFFF, 0xFFFF_FFFF, 0xFFFF_FFFF, 0xFFFF_FFFF) == 0xFFFF_FFFF_FFFF_FFFE
  {
  }

  // ----- signed forms -----

  /** `-a` on a signed 64-bit value, then read as unsigned: the magnitude, also for the least value. */
  function Magnitude(a: int): Word
    requires -0x8000_0000_0000_0000 <= a < 0x8000_0000_0000_0000
  {
    Wrap(if a < 0 then -a else a)
  }

  method Mulh(a: int, b: int) returns (r: int)
    requires -0x8000_0000_0000_0000 <= a < 0x8000_0000_0000_0000
    requires -0x8000_0000_0000_0000 <= b < 0x8000_0000_0000_0000
    ensures r == High(a, b)
    ensures -0x8000_0000_0000_0000 <= r < 0x8000_0000_0000_0000
  {
    var negate := (a < 0) != (b < 0);
    var res := Mulhu(Magnitude(a), Magnitude(b));
    r := Signed(if negate then Wrap(Not(res) + FromBool(Wrap(a * b) == 0)) else res);
    MagnitudeProduct(a, b);
    NegatedHigh(Magnitude(a) * Magnitude(b), a * b);
  }

  method Mulhsu(a: int, b: Word) returns (r: int)
    requires -0x8000_0000_0000_0000 <= a < 0x8000_0000_0000_0000
    ensures r == High(a, b)
    ensures -0x8000_0000_0000_0000 <= r < 0x8000_0000_0000_0000
  {
    var negate := a < 0;
    var res := Mulhu(Magnitude(a), b);
    r := Signed(if negate then Wrap(Not(res) + FromBool(Wrap(Wrap(a) * b) == 0)) else res);
    UnsignedProduct(a, b);
    NegatedHigh(Magnitude(a) * b, a * b);
  }

  lemma {:induction false} MagnitudeProduct(a: int, b: int)
    requires -0x8000_0000_0000_0000 <= a < 0x8000_0000_0000_0000
    requires -0x8000_0000_0000_0000 <= b < 0x8000_0000_0000_0000
    ensures Magnitude(a) * Magnitude(b) == if (a < 0) != (b < 0) then -(a * b) else a * b
    ensures 0 <= Magnitude(a) * Magnitude(b) < 0x8000_0000_0000_0000_0000_0000_0000_0000
  {
    hide Wrap, Magnitude;
    MagnitudeIs(a);
    MagnitudeIs(b);
    assert (-a) * b == -(a * b) && a * (-b) == -(a * b) && (-a) * (-b) == a * b;
    ProductBound(Magnitude(a), Magnitude(b), 0x8000_0000_0000_0000, 0x8000_0000_0000_0000);
  }

  lemma {:induction false} UnsignedProduct(a: int, b: Word)
    requires -0x8000_0000_0000_0000 <= a < 0x8000_0000_0000_0000
    ensures Magnitude(a) * b == if a < 0 then -(a * b) else a * b
    ensures 0 <= Magnitude(a) * b < 0x8000_0000_0000_0000_0000_0000_0000_0000
    ensures Wrap(Wrap(a) * b) == Wrap(a * b)
  {
    hide Wrap, Magnitude;
    MagnitudeIs(a);
    ProductBound(Magnitude(a), b, 0x8000_0000_0000_0000, 0xFFFF_FFFF_FFFF_FFFF);
    WrapFactor(a, b);
    assert (-a) * b == -(a * b);
  }

  lemma {:induction false} MagnitudeIs(a: int)
    requires -0x8000_0000_0000_0000 <= a < 0x8000_0000_0000_0000
    ensures Magnitude(a) == if a < 0 then -a else a
    ensures Magnitude(a) <= 0x8000_0000_0000_0000
  {
  }

  /**
  Negating a product through its upper half: complement the half, and add the
  carry out of the lower half, which is one exactly when the lower half is zero.
  */
  lemma {:induction false} NegatedHigh(p: int, q: int)
    requires 0 <= p < 0x8000_0000_0000_0000_0000_0000_0000_0000
    ensures p / 0x1_0000_0000_0000_0000 < 0x8000_0000_0000_0000
    ensures q == -p ==>
      Signed(Wrap(Not(p / 0x1_0000_0000_0000_0000) + FromBool(Wrap(q) == 0)))
      == q / 0x1_0000_0000_0000_0000
  {
  }
}
