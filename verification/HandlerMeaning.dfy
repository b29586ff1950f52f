/**
The values written by the handlers against the results the specification asks for.
*/
module HandlerMeaning {
  import opened Words
  import opened Instruction
  import opened Encodings
  import opened Formats
  import opened Handlers
  import opened Isa

  // ----- shifts -----

  lemma {:induction false} ShiftAmount(y: Word)
    ensures And(y, 63) == y % 64 && And(y, 0x1F) == y % 32
  {
    Pow2Values();
    AndMask(y, 6);
    AndMask(y, 5);
  }

  lemma {:induction false} ShlMeaning(x: Word, n: nat)
    ensures Shl(x, n) == Wrap(x * Pow2(n))
  {
    ShlValue(x, n, Pow2(n));
  }

  lemma {:induction false} ShrMeaning(x: int, n: nat)
    ensures Shr(x, n) == x / Pow2(n)
  {
    ShrValue(x, n, Pow2(n));
  }

  /** The low 32 bits do not depend on whether a value has been cut to 64 bits. */
  lemma {:induction false} SextWrap(n: int)
    ensures Sext32(Wrap(n)) == Sext32(n)
  {
    LowOfWrap(n);
  }

  lemma {:induction false} LowOfWrap(n: int)
    ensures Wrap(n) % 0x1_0000_0000 == n % 0x1_0000_0000
  {
    var q := n / 0x1_0000_0000_0000_0000;
    assert n == Wrap(n) + 0x1_0000_0000 * (0x1_0000_0000 * q);
    LowMultiple(Wrap(n), 0x1_0000_0000 * q);
  }

  lemma {:induction false} LowMultiple(n: int, k: int)
    ensures (n + 0x1_0000_0000 * k) % 0x1_0000_0000 == n % 0x1_0000_0000
  {
  }

  // ----- bit by bit -----

  /** The bitwise register handlers act on every bit position by itself. */
  lemma {:induction false} BitwiseRegisters(b: Word, x: Word, y: Word, k: nat)
    ensures Bit(RegValue(XOR, b, x, y), k) <==> Bit(x, k) != Bit(y, k)
    ensures Bit(RegValue(OR, b, x, y), k) <==> Bit(x, k) || Bit(y, k)
    ensures Bit(RegValue(AND, b, x, y), k) <==> Bit(x, k) && Bit(y, k)
  {
    hide Bit, BitAnd, BitOr, BitXor;
    XorMeaning(x, y, k);
    OrMeaning(x, y, k);
    AndMeaning(x, y, k);
  }

  /** So do the immediate ones, on the sign-extended immediate. */
  lemma {:induction false} BitwiseImmediates(b: Word, x: Word, k: nat)
    ensures var i := Wrap(IImm(b));
      && (Bit(ImmValue(XORI, b, x), k) <==> Bit(i, k) != Bit(x, k))
      && (Bit(ImmValue(ORI, b, x), k) <==> Bit(i, k) || Bit(x, k))
      && (Bit(ImmValue(ANDI, b, x), k) <==> Bit(i, k) && Bit(x, k))
  {
    hide Bit, BitAnd, BitOr, BitXor, IImm;
    var i := Wrap(IImm(b));
    XorMeaning(i, x, k);
    OrMeaning(i, x, k);
    AndMeaning(i, x, k);
  }

  // ----- register and immediate forms -----

  lemma {:induction false} RegAgrees(r: RegOp, b: Word, x: Word, y: Word)
    requires r != SLTU
    ensures RegValue(r, b, x, y) == RegResult(r, x, y)
  {
    ShiftAmount(y);
    ShlMeaning(x, y % 64);
    ShrMeaning(x, y % 64);
    ShrMeaning(Signed(x), y % 64);
  }

  predicate StrictlyApart(x: Word, j: Word, y: Word) {
    (j <= x < y) || (y <= x < j)
  }

  /** `sltu` compares with the immediate field, so it is right unless rs1 falls between that and rs2. */
  lemma {:induction false} SltuAgreesIff(b: Word, x: Word, y: Word)
    ensures RegValue(SLTU, b, x, y) == RegResult(SLTU, x, y) <==> !StrictlyApart(x, Wrap(IImm(b)), y)
  {
  }

  lemma {:induction false} ImmAgrees(i: ImmOp, b: Word, x: Word)
    requires -0x800 <= IImm(b) < 0x800
    ensures ImmValue(i, b, x) == ImmResult(i, IImm(b), x)
  {
    var imm := IImm(b);
    ShamtValue(b);
    SignedWrap(imm);
    WrapMod64(imm);
    ShlMeaning(x, imm % 64);
    ShrMeaning(x, imm % 64);
    ShrMeaning(Signed(x), imm % 64);
    if i.XORI? || i.ORI? || i.ANDI? {
      BitwiseCommutes(Wrap(imm), x);
    } else if i.ADDI? {
      WrapSum(x, imm);
    }
  }

  lemma {:induction false} WrapSum(x: int, v: int)
    ensures Wrap(x + Wrap(v)) == Wrap(x + v)
  {
  }

  lemma {:induction false} BitwiseCommutes(x: nat, y: nat)
    ensures BitAnd(x, y) == BitAnd(y, x) && BitOr(x, y) == BitOr(y, x) && BitXor(x, y) == BitXor(y, x)
    decreases x + y
  {
    if x > 0 || y > 0 {
      BitwiseCommutes(x / 2, y / 2);
    }
  }

  // ----- 32-bit forms -----

  lemma {:induction false} RegWordAgrees(rw: RegWordOp, x: Word, y: Word)
    requires rw != SLLW
    ensures RegWordValue(rw, x, y) == RegWordResult(rw, x, y)
  {
    ShiftAmount(y);
    SextWrap(x + y);
    SextWrap(x - y);
    ShrMeaning(Zext32(x), y % 32);
    ShrMeaning(Signed32(x), y % 32);
  }

  // ----- the word shift that shifts all 64 bits -----

  /**
  When `sllw` by `n` gives the specified result: a short shift must lose no
  significant bit of a 32-bit number, a long one must shift everything out.
  */
  predicate SllwFits(x: Word, n: nat)
    requires n < 64
  {
    if n < 32 then 0 - Pow2(31 - n) <= TwosComplement(x % Pow2(64 - n), Pow2(64 - n)) < Pow2(31 - n)
    else x % Pow2(64 - n) == 0
  }

  lemma {:induction false} SllwAgreesIff(x: Word, y: Word)
    ensures RegWordValue(SLLW, x, y) == RegWordResult(SLLW, x, y) <==> SllwFits(x, y % 64)
  {
    ShiftAmount(y);
    ShlMeaning(x, y % 64);
    SmallAmount(y);
    if y % 64 < 32 {
      SllwShort(x, y % 64);
    } else {
      SllwLong(x, y % 64);
    }
  }

  lemma {:induction false} SllwShort(x: Word, n: nat)
    requires n < 32
    ensures Wrap(x * Pow2(n)) == Sext32(x * Pow2(n)) <==> SllwFits(x, n)
  {
    var m, p, h := Pow2(64 - n), Pow2(n), Pow2(31 - n);
    PowerProduct(64 - n, n, 64);
    PowerProduct(31 - n, n, 31);
    KeptBits(x, m, p);
    ShortShift(x, x % m, m, p, h);
  }

  lemma {:induction false} PowerProduct(i: nat, j: nat, n: nat)
    requires i + j == n && (n == 31 || n == 32 || n == 64)
    ensures Pow2(i) * Pow2(j)
         == if n == 31 then 0x8000_0000 else if n == 32 then 0x1_0000_0000 else 0x1_0000_0000_0000_0000
  {
    Pow2Add(i, j);
    Pow2Values();
  }

  lemma {:induction false} SllwLong(x: Word, n: nat)
    requires 32 <= n < 64
    ensures Wrap(x * Pow2(n)) == Sext32(x * Pow2(n - 32)) <==> SllwFits(x, n)
  {
    var m, p, q := Pow2(64 - n), Pow2(n), Pow2(n - 32);
    PowerProduct(64 - n, n, 64);
    PowerProduct(64 - n, n - 32, 32);
    assert p == 0x1_0000_0000 * q by {
      Pow2Add(32, n - 32);
      Pow2Values();
    }
    KeptBits(x, m, p);
    LongShift(x, m, q);
  }

  lemma {:induction false} SmallAmount(y: Word)
    ensures y % 32 == if y % 64 < 32 then y % 64 else y % 64 - 32
  {
  }

  lemma {:induction false} KeptBits(x: Word, m: int, p: int)
    requires m > 0 && p > 0 && m * p == 0x1_0000_0000_0000_0000
    ensures Wrap(x * p) == x % m * p
  {
    var k, r := x / m, x % m;
    assert x == m * k + r;
    Distribute(m, k, r, p);
    WrapMultiple(r * p, k);
    LeastProduct(p, r);
    LeastProduct(p, m - 1 - r);
    assert (m - 1 - r) * p == m * p - p - r * p;
    SmallWrap(r * p);
  }

  lemma {:induction false} Distribute(m: int, k: int, r: int, p: int)
    ensures (m * k + r) * p == r * p + m * p * k
  {
  }

  lemma {:induction false} ShortShift(x: Word, r: int, m: int, p: int, h: int)
    requires 0 <= r < m && p > 0 && h > 0
    requires m * p == 0x1_0000_0000_0000_0000 && h * p == 0x8000_0000
    requires Wrap(x * p) == r * p
    ensures Wrap(x * p) == Sext32(x * p) <==> -h <= TwosComplement(r, m) < h
  {
    SextWrap(x * p);
    ResidueScaled(r, m, p);
    FitsIn32(r * p);
    Compared(TwosComplement(r, m), h, p);
    NotBelow(TwosComplement(r, m), -h, p);
    assert -h * p == -(h * p);
  }

  lemma {:induction false} ResidueScaled(r: int, m: int, p: int)
    requires 0 <= r < m && p > 0 && m * p == 0x1_0000_0000_0000_0000
    ensures 0 <= r * p < 0x1_0000_0000_0000_0000
    ensures TwosComplement(r, m) * p == Signed(r * p)
  {
    Compared(-r - 1, 0, p);
    Compared(r, m, p);
    Compared(2 * r, m, p);
    assert 2 * r * p == 2 * (r * p);
    assert (r - m) * p == r * p - m * p;
    assert (-r - 1) * p == -(r * p) - p;
  }

  lemma {:induction false} Compared(a: int, b: int, p: int)
    requires p > 0
    ensures a < b <==> a * p < b * p
  {
    if a < b {
      LeastProduct(p, b - a);
    } else {
      assert (a - b) * p >= 0;
    }
  }

  lemma {:induction false} NotBelow(a: int, b: int, p: int)
    requires p > 0
    ensures b <= a <==> b * p <= a * p
  {
    Compared(a, b, p);
  }

  lemma {:induction false} FitsIn32(v: Word)
    ensures v == Sext32(v) <==> -0x8000_0000 <= Signed(v) < 0x8000_0000
  {
  }

  lemma {:induction false} LongShift(x: Word, m: int, q: int)
    requires m > 0 && q > 0 && m * q == 0x1_0000_0000
    requires Wrap(x * (0x1_0000_0000 * q)) == x % m * (0x1_0000_0000 * q)
    ensures Wrap(x * (0x1_0000_0000 * q)) == Sext32(x * q) <==> x % m == 0
  {
    var k, r := x / m, x % m;
    if r == 0 {
      assert x * q == 0x1_0000_0000 * k by {
        assert m * k * q == m * q * k;
      }
      LowMultiple(0, k);
    } else {
      LeastProduct(r, q);
      assert r * (0x1_0000_0000 * q) == 0x1_0000_0000 * (r * q);
      LowZero(r * q, x * q);
    }
  }

  lemma {:induction false} LowZero(v: int, u: int)
    requires v > 0
    ensures 0x1_0000_0000 * v != Sext32(u)
  {
  }

  /** The immediate shifts need an amount below 32. */
  lemma {:induction false} ImmWordAgrees(iw: ImmWordOp, b: Word, x: Word)
    requires -0x800 <= IImm(b) < 0x800
    requires iw != ADDIW ==> IImm(b) % 64 < 32
    ensures ImmWordValue(iw, b, x) == ImmWordResult(iw, IImm(b), x)
  {
    var imm := IImm(b);
    ShamtValue(b);
    WrapMod64(imm);
    ShortAmount(imm);
    match iw
    case ADDIW =>
      SextWrap(imm + x);
      SumOfWrap(x, imm);
    case SLLIW =>
      ShlMeaning(x, imm % 32);
      SextWrap(x * Pow2(imm % 32));
    case SRLIW =>
      ShrMeaning(Zext32(x), imm % 32);
    case SRAIW =>
      ShrMeaning(Signed32(x), imm % 32);
  }

  lemma {:induction false} ShortAmount(v: int)
    ensures v % 64 < 32 ==> v % 64 == v % 32
  {
  }

  lemma {:induction false} SumOfWrap(x: int, v: int)
    ensures Sext32(x + Wrap(v)) == Sext32(v + x)
  {
    SextWrap(x + Wrap(v));
    WrapSum(x, v);
    SextWrap(x + v);
  }

  // ----- multiplication and division -----

  lemma {:induction false} ProductLow(x: Word, y: Word)
    ensures Wrap(Signed(x) * Signed(y)) == Wrap(x * y)
  {
    assert Wrap(Signed(x)) == x && Wrap(Signed(y)) == y;
    WrapFactor(Signed(x), Signed(y));
    WrapFactor(Signed(y), x);
  }

  lemma {:induction false} QuotMeaning(a: int, b: int)
    requires b != 0
    ensures Quot(a, b) == Divide(a, b)
    ensures Rem(a, b) == Remainder(a, b)
  {
    assert Quot(a, b) == Divide(a, b);
    MagnitudeOfProduct(a, b, Abs(a) / Abs(b));
  }

  lemma {:induction false} MagnitudeOfProduct(a: int, b: int, q: int)
    ensures b * (if (a < 0) != (b < 0) then -q else q) == if a < 0 then -(Abs(b) * q) else Abs(b) * q
  {
    assert (-b) * q == -(b * q) && b * -q == -(b * q);
  }

  lemma {:induction false} MulAgrees(m: MulOp, x: Word, y: Word)
    ensures MulValue(m, x, y) == MulResult(m, x, y)
  {
    match m
    case MUL => ProductLow(x, y);
    case MULH | MULHU | MULHSU =>
    case DIV =>
      if Signed(y) != 0 {
        QuotMeaning(Signed(x), Signed(y));
      }
    case DIVU =>
    case REM =>
      if Signed(y) != 0 {
        QuotMeaning(Signed(x), Signed(y));
      }
    case REMU =>
  }

  lemma {:induction false} SextOfSigned(v: int)
    ensures Sext32(Signed32(v)) == Wrap(Signed32(v))
  {
  }

  lemma {:induction false} MulWordAgrees(mw: MulWordOp, x: Word, y: Word)
    ensures MulWordValue(mw, x, y) == MulWordResult(mw, x, y)
  {
    match mw
    case MULW =>
      SextWrap(x * y);
      LowProduct(x, y);
    case DIVW =>
      if Signed32(y) != 0 {
        QuotMeaning(Signed32(x), Signed32(y));
      }
    case DIVUW =>
    case REMW =>
      SextOfSigned(x);
      if Signed32(y) != 0 {
        QuotMeaning(Signed32(x), Signed32(y));
      }
    case REMUW =>
  }

  /** Only the low halves of the factors reach the low half of the product. */
  lemma {:induction false} LowProduct(x: int, y: int)
    ensures Sext32(x * y) == Sext32(Signed32(x) * Signed32(y))
  {
    LowFactor(x, y);
    LowFactor(y, Signed32(x));
  }

  lemma {:induction false} LowFactor(x: int, k: int)
    ensures x * k % 0x1_0000_0000 == Signed32(x) * k % 0x1_0000_0000
  {
    var q := (x - Signed32(x)) / 0x1_0000_0000;
    assert x == Signed32(x) + 0x1_0000_0000 * q;
    assert x * k == Signed32(x) * k + 0x1_0000_0000 * (q * k);
    LowMultiple(Signed32(x) * k, q * k);
  }
}
