/**
Laws that tie handlers to one another: quotients with remainders, the two halves
of a product, and what the 32-bit forms depend on.
*/
module ArithmeticLaws {
  import opened Words
  import opened Instruction
  import opened Encodings
  import opened MultiplyHigh
  import opened Handlers
  import opened HandlerMeaning
  import opened Isa

  // ----- quotient and remainder -----

  /** Integers division and remainder fit together, rounding towards zero. */
  lemma {:induction false} DivideLaw(a: int, b: int)
    ensures b * Divide(a, b) + Remainder(a, b) == a || b == 0
    ensures b == 0 ==> Divide(a, b) == -1 && Remainder(a, b) == a
    ensures b != 0 ==> Abs(Remainder(a, b)) < Abs(b)
    ensures Remainder(a, b) == 0 || (Remainder(a, b) < 0 <==> a < 0)
  {
    if b != 0 {
      QuotMeaning(a, b);
    }
  }

  lemma {:induction false} DivideBound(a: int, b: int)
    ensures Abs(Divide(a, b)) <= Abs(a) || b == 0
    ensures Abs(Remainder(a, b)) <= Abs(a)
  {
    if b != 0 {
      QuotientBound(Abs(a), Abs(b));
      RemainderBound(Abs(a), Abs(b));
    }
  }

  lemma {:induction false} RemainderBound(a: nat, b: nat)
    requires b > 0
    ensures 0 <= a % b <= a
  {
    if a / b > 0 {
      LeastProduct(b, a / b);
    }
  }

  /** DIV and REM rebuild the dividend for every pair of registers. */
  lemma {:induction false} DivRemIdentity(x: Word, y: Word)
    ensures Wrap(y * MulValue(DIV, x, y) + MulValue(REM, x, y)) == x
  {
    MulAgrees(DIV, x, y);
    MulAgrees(REM, x, y);
    var a, b := Signed(x), Signed(y);
    DivideLaw(a, b);
    Rebuild(b, Divide(a, b), Remainder(a, b));
    WrapSigned(x);
    WrapSigned(y);
  }

  /** Wrapping the parts first does not change a wrapped product and sum. */
  lemma {:induction false} Rebuild(b: int, q: int, r: int)
    ensures Wrap(Wrap(b) * Wrap(q) + Wrap(r)) == Wrap(b * q + r)
  {
    WrapFactor(b, Wrap(q));
    WrapFactor(q, b);
    SumOfBoth(Wrap(b) * Wrap(q), b * q, r);
  }

  lemma {:induction false} SumOfBoth(u: int, u': int, r: int)
    requires Wrap(u) == Wrap(u')
    ensures Wrap(u + Wrap(r)) == Wrap(u' + r)
  {
  }

  /** A signed remainder is smaller than the divisor and has the dividend's sign. */
  lemma {:induction false} RemSigned(x: Word, y: Word)
    requires y != 0
    ensures var r := Signed(MulValue(REM, x, y));
      Abs(r) < Abs(Signed(y)) && (r == 0 || (r < 0 <==> Signed(x) < 0))
  {
    MulAgrees(REM, x, y);
    DivideLaw(Signed(x), Signed(y));
    DivideBound(Signed(x), Signed(y));
    SignedWrap(Remainder(Signed(x), Signed(y)));
  }

  lemma {:induction false} DivuRemuIdentity(x: Word, y: Word)
    ensures Wrap(y * MulValue(DIVU, x, y) + MulValue(REMU, x, y)) == x
    ensures y != 0 ==> MulValue(REMU, x, y) < y && y * MulValue(DIVU, x, y) + MulValue(REMU, x, y) == x
  {
    if y != 0 {
      QuotientBound(x, y);
      RemainderBound(x, y);
      UnsignedParts(x, y);
      SmallWrap(x);
    }
  }

  lemma {:induction false} UnsignedParts(x: Word, y: Word)
    requires y != 0 && 0 <= x / y <= x && 0 <= x % y <= x
    ensures MulValue(DIVU, x, y) == x / y && MulValue(REMU, x, y) == x % y
  {
    SmallWrap(x / y);
    SmallWrap(x % y);
  }

  /** The 32-bit forms obey the same law modulo 2^32. */
  lemma {:induction false} DivwRemwIdentity(x: Word, y: Word)
    ensures Zext32(y * MulWordValue(DIVW, x, y) + MulWordValue(REMW, x, y)) == Zext32(x)
  {
    MulWordAgrees(DIVW, x, y);
    MulWordAgrees(REMW, x, y);
    var a, b := Signed32(x), Signed32(y);
    DivideLaw(a, b);
    LowSigned(x);
    LowSigned(y);
    RebuildLow(y, b, Divide(a, b), Remainder(a, b));
  }

  lemma {:induction false} LowSigned(x: int)
    ensures Zext32(Signed32(x)) == Zext32(x)
  {
  }

  lemma {:induction false} RemwSigned(x: Word, y: Word)
    requires Zext32(y) != 0
    ensures var r := Signed(MulWordValue(REMW, x, y));
      Abs(r) < Abs(Signed32(y)) && (r == 0 || (r < 0 <==> Signed32(x) < 0))
  {
    MulWordAgrees(REMW, x, y);
    DivideLaw(Signed32(x), Signed32(y));
    DivideBound(Signed32(x), Signed32(y));
    SignedOfSext(Remainder(Signed32(x), Signed32(y)));
  }

  lemma {:induction false} SignedOfSext(v: int)
    requires -0x8000_0000 <= v < 0x8000_0000
    ensures Signed(Sext32(v)) == v
  {
  }

  lemma {:induction false} RebuildLow(y: Word, b: int, q: int, r: int)
    requires Zext32(y) == Zext32(b)
    ensures Zext32(y * Sext32(q) + Sext32(r)) == Zext32(b * q + r)
  {
    LowSext(q);
    LowSext(r);
    LowProducts(y, b, Sext32(q));
    LowProducts(Sext32(q), q, b);
    LowSums(y * Sext32(q), Sext32(r), b * q, r);
  }

  lemma {:induction false} LowSext(v: int)
    ensures Zext32(Sext32(v)) == Zext32(v)
  {
  }

  lemma {:induction false} LowProducts(u: int, v: int, k: int)
    requires Zext32(u) == Zext32(v)
    ensures Zext32(u * k) == Zext32(v * k)
  {
    var q := u / 0x1_0000_0000 - v / 0x1_0000_0000;
    assert u == v + 0x1_0000_0000 * q;
    assert u * k == v * k + 0x1_0000_0000 * (q * k);
    LowMultiple(v * k, q * k);
  }

  lemma {:induction false} LowSums(u: int, v: int, u': int, v': int)
    requires Zext32(u) == Zext32(u') && Zext32(v) == Zext32(v')
    ensures Zext32(u + v) == Zext32(u' + v')
  {
  }

  lemma {:induction false} DivuwRemuwIdentity(x: Word, y: Word)
    ensures Zext32(y * MulWordValue(DIVUW, x, y) + MulWordValue(REMUW, x, y)) == Zext32(x)
    ensures Zext32(y) != 0 ==> Zext32(MulWordValue(REMUW, x, y)) < Zext32(y)
  {
    MulWordAgrees(DIVUW, x, y);
    MulWordAgrees(REMUW, x, y);
    var q, r := Divide(Zext32(x), Zext32(y)), Remainder(Zext32(x), Zext32(y));
    UnsignedDivideLaw(Zext32(x), Zext32(y));
    UnsignedWordLaw(y, Zext32(x), Zext32(y), q, r);
  }

  lemma {:induction false} UnsignedWordLaw(y: Word, a: Word32, b: Word32, q: int, r: int)
    requires Zext32(y) == b && Zext32(b * q + r) == a
    requires b != 0 ==> Zext32(r) < b
    ensures Zext32(y * Sext32(q) + Sext32(r)) == a
    ensures b != 0 ==> Zext32(Sext32(r)) < b
  {
    RebuildLow(y, b, q, r);
    LowSext(r);
  }

  lemma {:induction false} UnsignedDivideLaw(a: Word32, b: Word32)
    ensures Zext32(b * Divide(a, b) + Remainder(a, b)) == a
    ensures b != 0 ==> Zext32(Remainder(a, b)) < b
  {
    DivideLaw(a, b);
    DivideBound(a, b);
    if b != 0 {
      assert Zext32(Remainder(a, b)) == Remainder(a, b);
    }
  }

  // ----- the two halves of a product -----

  lemma {:induction false} UnsignedPair(x: Word, y: Word)
    ensures MulValue(MULHU, x, y) * 0x1_0000_0000_0000_0000 + MulValue(MUL, x, y) == x * y
  {
    ProductBound(x, y, 0xFFFF_FFFF_FFFF_FFFF, 0xFFFF_FFFF_FFFF_FFFF);
    Halves(x * y);
  }

  lemma {:induction false} Halves(p: int)
    ensures p / 0x1_0000_0000_0000_0000 * 0x1_0000_0000_0000_0000 + Wrap(p) == p
    ensures 0 <= p < 0x1_0000_0000_0000_0000_0000_0000_0000_0000 ==>
      Wrap(p / 0x1_0000_0000_0000_0000) == p / 0x1_0000_0000_0000_0000
    ensures -0x8000_0000_0000_0000_0000_0000_0000_0000 <= p < 0x8000_0000_0000_0000_0000_0000_0000_0000 ==>
      Signed(Wrap(p / 0x1_0000_0000_0000_0000)) == p / 0x1_0000_0000_0000_0000
  {
  }

  /** MULH and MUL hold the two's-complement product of two signed registers. */
  lemma {:induction false} SignedPair(x: Word, y: Word)
    ensures Signed(MulValue(MULH, x, y)) * 0x1_0000_0000_0000_0000 + MulValue(MUL, x, y) == Signed(x) * Signed(y)
  {
    MagnitudeProduct(Signed(x), Signed(y));
    ProductLow(x, y);
    Halves(Signed(x) * Signed(y));
  }

  /** MULHSU and MUL hold the product of a signed and an unsigned register. */
  lemma {:induction false} MixedPair(x: Word, y: Word)
    ensures Signed(MulValue(MULHSU, x, y)) * 0x1_0000_0000_0000_0000 + MulValue(MUL, x, y) == Signed(x) * y
  {
    UnsignedProduct(Signed(x), y);
    WrapSigned(x);
    Halves(Signed(x) * y);
  }

  // ----- 32-bit forms -----

  /** Bits 63 to 31 are all equal. */
  predicate SignExtended(v: Word) {
    v / 0x8000_0000 == 0 || v / 0x8000_0000 == 0x1_FFFF_FFFF
  }

  lemma {:induction false} SextIsSignExtended(v: int)
    ensures SignExtended(Sext32(v))
  {
  }

  lemma {:induction false} SextOfLow(u: int, v: int)
    requires Zext32(u) == Zext32(v)
    ensures Sext32(u) == Sext32(v) && Signed32(u) == Signed32(v)
  {
  }

  /** Every register word form but `sllw` writes a sign-extended value fixed by the operands' low halves. */
  lemma {:induction false} RegWordForms(rw: RegWordOp, x: Word, y: Word, x': Word, y': Word)
    requires rw != SLLW
    requires Zext32(x) == Zext32(x') && Zext32(y) == Zext32(y')
    ensures SignExtended(RegWordValue(rw, x, y))
    ensures RegWordValue(rw, x, y) == RegWordValue(rw, x', y')
  {
    RegWordAgrees(rw, x, y);
    RegWordAgrees(rw, x', y');
    SextOfLow(x, x');
    SameShift(y, y');
    match rw
    case ADDW =>
      LowSums(x, y, x', y');
      SextOfLow(x + y, x' + y');
      SextIsSignExtended(x + y);
    case SUBW =>
      LowDifferences(x, y, x', y');
      SextOfLow(x - y, x' - y');
      SextIsSignExtended(x - y);
    case SRLW => SextIsSignExtended(Zext32(x) / Pow2(y % 32));
    case SRAW => SextIsSignExtended(Signed32(x) / Pow2(y % 32));
  }

  lemma {:induction false} SameShift(y: Word, y': Word)
    requires Zext32(y) == Zext32(y')
    ensures y % 32 == y' % 32
  {
    ZextMod32(y);
    ZextMod32(y');
  }

  lemma {:induction false} LowDifferences(u: int, v: int, u': int, v': int)
    requires Zext32(u) == Zext32(u') && Zext32(v) == Zext32(v')
    ensures Zext32(u - v) == Zext32(u' - v')
  {
  }

  lemma {:induction false} ImmWordForms(iw: ImmWordOp, b: Word, x: Word, x': Word)
    requires -0x800 <= IImm(b) < 0x800
    requires iw != ADDIW ==> IImm(b) % 64 < 32
    requires Zext32(x) == Zext32(x')
    ensures SignExtended(ImmWordValue(iw, b, x))
    ensures ImmWordValue(iw, b, x) == ImmWordValue(iw, b, x')
  {
    ImmWordAgrees(iw, b, x);
    ImmWordAgrees(iw, b, x');
    var v := Wrap(IImm(b));
    match iw
    case ADDIW =>
      RegWordAgrees(ADDW, x, v);
      RegWordAgrees(ADDW, x', v);
      RegWordForms(ADDW, x, v, x', v);
    case SLLIW =>
      LowProducts(x, x', Pow2(v % 32));
      SextOfLow(x * Pow2(v % 32), x' * Pow2(v % 32));
      SextIsSignExtended(x * Pow2(v % 32));
    case SRLIW =>
      RegWordAgrees(SRLW, x, v);
      RegWordAgrees(SRLW, x', v);
      RegWordForms(SRLW, x, v, x', v);
    case SRAIW =>
      RegWordAgrees(SRAW, x, v);
      RegWordAgrees(SRAW, x', v);
      RegWordForms(SRAW, x, v, x', v);
  }

  lemma {:induction false} MulWordForms(mw: MulWordOp, x: Word, y: Word, x': Word, y': Word)
    requires Zext32(x) == Zext32(x') && Zext32(y) == Zext32(y')
    ensures SignExtended(MulWordValue(mw, x, y))
    ensures MulWordValue(mw, x, y) == MulWordValue(mw, x', y')
  {
    MulWordAgrees(mw, x, y);
    MulWordAgrees(mw, x', y');
    SextOfLow(x, x');
    SextOfLow(y, y');
    match mw
    case MULW => SextIsSignExtended(Signed32(x) * Signed32(y));
    case DIVW => SextIsSignExtended(Divide(Signed32(x), Signed32(y)));
    case DIVUW => SextIsSignExtended(Divide(Zext32(x), Zext32(y)));
    case REMW => SextIsSignExtended(Remainder(Signed32(x), Signed32(y)));
    case REMUW => SextIsSignExtended(Remainder(Zext32(x), Zext32(y)));
  }
}
