/**
The accessors of the fetched, sign-extended word against the instruction formats
of the specification.
*/
module InstructionMeaning {
  import opened Words
  import opened Memory
  import opened MemoryLaws
  import opened Instruction
  import opened Formats

  // ----- fields -----

  lemma {:induction false} FieldsAgree(w: Word32)
    ensures Rd(Sext32(w)) == RdOf(w)
    ensures Rs1(Sext32(w)) == Rs1Of(w)
    ensures Rs2(Sext32(w)) == Rs2Of(w)
  {
    Pow2Values();
    Field(w, 7, 5, 0x80, 0x20, 0x10_0000);
    Field(w, 15, 5, 0x8000, 0x20, 0x1000);
    Field(w, 20, 5, 0x10_0000, 0x20, 0x80);
  }

  /** The field of `len` bits at `lo`, where p, q and r are the sizes below, inside and above it. */
  lemma {:induction false} Field(w: Word32, lo: nat, len: nat, p: int, q: int, r: int)
    requires p == Pow2(lo) && q == Pow2(len) && r > 0
    requires q < 0x1_0000_0000 && p * q * r == 0x1_0000_0000
    ensures X(Sext32(w), lo, len) == w / p % q
  {
    XValue(Sext32(w), lo, len, p, q);
    LowField(w, p, q, r);
  }

  /** A field moved to its place in an immediate, where `s` is 2^n. */
  lemma {:induction false} FieldAt(w: Word32, lo: nat, len: nat, p: int, q: int, r: int, n: nat, s: int)
    requires p == Pow2(lo) && q == Pow2(len) && r > 0 && s == Pow2(n)
    requires q < 0x1_0000_0000 && p * q * r == 0x1_0000_0000 && s <= 0x1_0000_0000
    ensures Shl(X(Sext32(w), lo, len), n) == w / p % q * s
    ensures 0 <= w / p % q < q
  {
    Field(w, lo, len, p, q, r);
    ProductBound(w / p % q, s, 0xFFFF_FFFF, 0x1_0000_0000);
    ShlFits(w / p % q, n, s);
  }

  /** Sign extension does not reach a field that lies below bit 32. */
  lemma {:induction false} LowField(w: Word32, p: int, q: int, r: int)
    requires p > 0 && q > 0 && r > 0 && p * q * r == 0x1_0000_0000
    ensures Sext32(w) / p % q == w / p % q
  {
    var b := Sext32(w);
    if b != w {
      var k := 0xFFFF_FFFF * r;
      assert b == w + 0xFFFF_FFFF * 0x1_0000_0000;
      assert b == w + p * (q * k) by {
        assert p * (q * (0xFFFF_FFFF * r)) == p * q * r * 0xFFFF_FFFF;
      }
      Quotient(b, p, w / p + q * k, w % p);
      Quotient(w / p + q * k, q, w / p / q + k, w / p % q);
    }
  }

  // ----- immediates -----

  lemma {:induction false} SignedWord(w: Word32)
    ensures Signed(Sext32(w)) == TwosComplement(w, 0x1_0000_0000)
  {
  }

  lemma {:induction false} IImmAgrees(w: Word32)
    ensures IImm(Sext32(w)) == ImmI(w)
  {
    Pow2Values();
    SignedWord(w);
    ShrValue(Signed(Sext32(w)), 20, 0x10_0000);
  }

  lemma {:induction false} UImmAgrees(w: Word32)
    ensures UImm(Sext32(w)) == ImmU(w)
  {
    assert Pow2(12) == 0x1000 by {
      Pow2Values();
    }
    var s, h := Signed(Sext32(w)), TwosComplement(w / 0x1000, 0x10_0000);
    ShrValue(s, 12, 0x1000);
    UpperField(w);
    ShlValue(Wrap(h), 12, 0x1000);
    WrapFactor(h, 0x1000);
    SignedWrap(h * 0x1000);
    LiftSign(w / 0x1000, 0x10_0000, 0, 0x1000);
  }

  lemma {:induction false} UpperField(w: Word32)
    ensures Signed(Sext32(w)) / 0x1000 == TwosComplement(w / 0x1000, 0x10_0000)
  {
  }

  /** The signed upper field of an S-type word. */
  lemma {:induction false} SignedField(w: Word32)
    ensures Xs(Sext32(w), 25, 7) == Wrap(TwosComplement(w / 0x200_0000, 0x80))
  {
    assert Pow2(57) == 0x200_0000_0000_0000 && Pow2(32) == 0x1_0000_0000 by {
      Pow2Values();
      Pow2Add(32, 25);
    }
    ShlValue(Sext32(w), 32, 0x1_0000_0000);
    TopHalf(w);
    ShrValue(Signed(Shl(Sext32(w), 32)), 57, 0x200_0000_0000_0000);
    ScaledDown(w);
  }

  lemma {:induction false} SignField(w: Word32)
    ensures ImmSign(Sext32(w)) == Wrap(-(w / 0x8000_0000))
  {
    assert Pow2(63) == 0x8000_0000_0000_0000 by {
      Pow2Values();
    }
    SignedWord(w);
    ShrValue(Signed(Sext32(w)), 63, 0x8000_0000_0000_0000);
    TopBit(w);
  }

  lemma {:induction false} TopHalf(w: Word32)
    ensures Signed(Wrap(Sext32(w) * 0x1_0000_0000)) == TwosComplement(w, 0x1_0000_0000) * 0x1_0000_0000
  {
    var s := TwosComplement(w, 0x1_0000_0000);
    assert Sext32(w) == Wrap(s);
    WrapFactor(s, 0x1_0000_0000);
    SignedWrap(s * 0x1_0000_0000);
  }

  lemma {:induction false} TopBit(w: Word32)
    ensures TwosComplement(w, 0x1_0000_0000) / 0x8000_0000_0000_0000 == -(w / 0x8000_0000)
  {
  }

  lemma {:induction false} ScaledDown(w: Word32)
    ensures TwosComplement(w, 0x1_0000_0000) * 0x1_0000_0000 / 0x200_0000_0000_0000
         == TwosComplement(w / 0x200_0000, 0x80)
  {
  }

  lemma {:induction false} SImmAgrees(w: Word32)
    ensures SImm(Sext32(w)) == ImmS(w)
  {
    assert Pow2(5) == 0x20 && Pow2(7) == 0x80 by {
      Pow2Values();
    }
    SignedField(w);
    Field(w, 7, 5, 0x80, 0x20, 0x10_0000);
    ShlValue(Xs(Sext32(w), 25, 7), 5, 0x20);
    var h, low := w / 0x200_0000, w / 0x80 % 0x20;
    TotalValue(low, 0, 0, TwosComplement(h, 0x80), 0x20);
    LiftSign(h, 0x80, low, 0x20);
  }

  /** The sign of the high part is the sign of the whole. */
  lemma {:induction false} LiftSign(h: int, m: int, low: int, p: int)
    requires 0 <= h < m && m % 2 == 0 && 0 <= low < p
    ensures TwosComplement(h * p + low, m * p) == TwosComplement(h, m) * p + low
  {
    var n := m / 2;
    assert m * p == 2 * (n * p);
    assert (h - m) * p == h * p - m * p;
    if h >= n {
      assert (h - n) * p >= 0;
    } else {
      assert (n - 1 - h) * p >= 0;
      assert (n - 1 - h) * p == n * p - p - h * p;
    }
  }

  lemma {:induction false} LoneSign(h: int, low: int, p: int)
    requires 0 <= h < 2 && 0 <= low < p
    ensures TwosComplement(h * p + low, 2 * p) == -h * p + low
  {
  }

  /** Pieces below a wrapped signed piece, scaled to its place, add up to the signed number. */
  lemma {:induction false} TotalValue(x: Word, y: Word, z: Word, s: int, p: int)
    requires p > 0 && x + y + z < 0x8000_0000
    requires -0x8000_0000 <= s * p && s * p + x + y + z < 0x8000_0000
    ensures Total(x, y, z, Wrap(Wrap(s) * p)) == s * p + (x + y + z)
  {
    WrapFactor(s, p);
    SumWrap(s * p, x, y, z);
  }

  lemma {:induction false} SumWrap(v: int, x: Word, y: Word, z: Word)
    requires -0x8000_0000 <= v && v + x + y + z < 0x8000_0000
    ensures Total(x, y, z, Wrap(v)) == v + (x + y + z)
  {
  }

  lemma {:induction false} SbImmAgrees(w: Word32)
    ensures SbImm(Sext32(w)) == ImmB(w)
  {
    assert Pow2(1) == 2 && Pow2(4) == 0x10 && Pow2(5) == 0x20 && Pow2(6) == 0x40 && Pow2(7) == 0x80
        && Pow2(8) == 0x100 && Pow2(11) == 0x800 && Pow2(12) == 0x1000 && Pow2(25) == 0x200_0000 by {
      Pow2Values();
    }
    FieldAt(w, 8, 4, 0x100, 0x10, 0x10_0000, 1, 2);
    FieldAt(w, 25, 6, 0x200_0000, 0x40, 2, 5, 0x20);
    FieldAt(w, 7, 1, 0x80, 2, 0x100_0000, 11, 0x800);
    SignField(w);
    ShlValue(ImmSign(Sext32(w)), 12, 0x1000);
    var h := w / 0x8000_0000;
    var x, y, z := w / 0x100 % 0x10 * 2, w / 0x200_0000 % 0x40 * 0x20, w / 0x80 % 2 * 0x800;
    assert SbImm(Sext32(w)) == Total(x, y, z, Wrap(Wrap(-h) * 0x1000));
    TotalValue(x, y, z, -h, 0x1000);
    LoneSign(h, x + y + z, 0x1000);
  }

  lemma {:induction false} UjImmAgrees(w: Word32)
    ensures UjImm(Sext32(w)) == ImmJ(w)
  {
    assert Pow2(1) == 2 && Pow2(8) == 0x100 && Pow2(10) == 0x400 && Pow2(11) == 0x800 && Pow2(12) == 0x1000
        && Pow2(20) == 0x10_0000 && Pow2(21) == 0x20_0000 by {
      Pow2Values();
    }
    FieldAt(w, 21, 10, 0x20_0000, 0x400, 2, 1, 2);
    FieldAt(w, 20, 1, 0x10_0000, 2, 0x800, 11, 0x800);
    FieldAt(w, 12, 8, 0x1000, 0x100, 0x1000, 12, 0x1000);
    SignField(w);
    ShlValue(ImmSign(Sext32(w)), 20, 0x10_0000);
    var h := w / 0x8000_0000;
    var x, y, z := w / 0x20_0000 % 0x400 * 2, w / 0x10_0000 % 2 * 0x800, w / 0x1000 % 0x100 * 0x1000;
    assert UjImm(Sext32(w)) == Total(x, y, z, Wrap(Wrap(-h) * 0x10_0000));
    TotalValue(x, y, z, -h, 0x10_0000);
    LoneSign(h, x + y + z, 0x10_0000);
  }

  // ----- from the assembler to the accessor -----

  /** The word that fetch delivers after `w` has been stored at `a`. */
  function FetchedBack(mem: Mem, a: Word, w: Word32): Word
  {
    FetchAfterStore(mem, a, w);
    FetchAt(Store(mem, a, ToBytes(w, 4)), a).bits
  }

  lemma {:induction false} IImmRoundTrip(mem: Mem, a: Word, imm: int, rs1: Register, f3: Minor, rd: Register, op: Major)
    requires -0x800 <= imm < 0x800
    ensures IImm(FetchedBack(mem, a, EncodeI(imm, rs1, f3, rd, op))) == imm
  {
    var w := EncodeI(imm, rs1, f3, rd, op);
    FetchAfterStore(mem, a, w);
    IImmAgrees(w);
    DecodeEncodeI(imm, rs1, f3, rd, op);
  }

  lemma {:induction false} SImmRoundTrip(mem: Mem, a: Word, imm: int, rs2: Register, rs1: Register, f3: Minor,
                                         op: Major)
    requires -0x800 <= imm < 0x800
    ensures SImm(FetchedBack(mem, a, EncodeS(imm, rs2, rs1, f3, op))) == imm
  {
    var w := EncodeS(imm, rs2, rs1, f3, op);
    FetchAfterStore(mem, a, w);
    SImmAgrees(w);
    DecodeEncodeS(imm, rs2, rs1, f3, op);
  }

  lemma {:induction false} SbImmRoundTrip(mem: Mem, a: Word, imm: int, rs2: Register, rs1: Register, f3: Minor,
                                          op: Major)
    requires -0x1000 <= imm < 0x1000 && imm % 2 == 0
    ensures SbImm(FetchedBack(mem, a, EncodeB(imm, rs2, rs1, f3, op))) == imm
  {
    var w := EncodeB(imm, rs2, rs1, f3, op);
    FetchAfterStore(mem, a, w);
    SbImmAgrees(w);
    DecodeEncodeB(imm, rs2, rs1, f3, op);
  }

  lemma {:induction false} UImmRoundTrip(mem: Mem, a: Word, imm: int, rd: Register, op: Major)
    requires -0x8000_0000 <= imm < 0x8000_0000 && imm % 0x1000 == 0
    ensures UImm(FetchedBack(mem, a, EncodeU(imm, rd, op))) == imm
  {
    var w := EncodeU(imm, rd, op);
    FetchAfterStore(mem, a, w);
    UImmAgrees(w);
    DecodeEncodeU(imm, rd, op);
  }

  lemma {:induction false} UjImmRoundTrip(mem: Mem, a: Word, imm: int, rd: Register, op: Major)
    requires -0x10_0000 <= imm < 0x10_0000 && imm % 2 == 0
    ensures UjImm(FetchedBack(mem, a, EncodeJ(imm, rd, op))) == imm
  {
    var w := EncodeJ(imm, rd, op);
    FetchAfterStore(mem, a, w);
    UjImmAgrees(w);
    DecodeEncodeJ(imm, rd, op);
  }

  /** Whatever is fetched, the three scaled immediates are multiples and all five are in range. */
  lemma {:induction false} ImmediateRanges(w: Word32)
    ensures -0x800 <= IImm(Sext32(w)) < 0x800 && -0x800 <= SImm(Sext32(w)) < 0x800
    ensures -0x1000 <= SbImm(Sext32(w)) < 0x1000 && SbImm(Sext32(w)) % 2 == 0
    ensures -0x8000_0000 <= UImm(Sext32(w)) < 0x8000_0000 && UImm(Sext32(w)) % 0x1000 == 0
    ensures -0x10_0000 <= UjImm(Sext32(w)) < 0x10_0000 && UjImm(Sext32(w)) % 2 == 0
  {
    IImmAgrees(w);
    SImmAgrees(w);
    SbImmAgrees(w);
    UImmAgrees(w);
    UjImmAgrees(w);
    RangesI(w);
    RangesS(w);
    RangesB(w);
    RangesU(w);
    RangesJ(w);
  }

  lemma {:induction false} RangesI(w: Word32)
    ensures -0x800 <= ImmI(w) < 0x800
  {
  }

  lemma {:induction false} RangesS(w: Word32)
    ensures -0x800 <= ImmS(w) < 0x800
  {
  }

  lemma {:induction false} RangesB(w: Word32)
    ensures -0x1000 <= ImmB(w) < 0x1000 && ImmB(w) % 2 == 0
  {
    EvenLow(w / 0x8000_0000, w / 0x100 % 0x10, w / 0x200_0000 % 0x40 * 0x10 + w / 0x80 % 2 * 0x400, 0x1000);
  }

  lemma {:induction false} RangesU(w: Word32)
    ensures -0x8000_0000 <= ImmU(w) < 0x8000_0000 && ImmU(w) % 0x1000 == 0
  {
  }

  lemma {:induction false} RangesJ(w: Word32)
    ensures -0x10_0000 <= ImmJ(w) < 0x10_0000 && ImmJ(w) % 2 == 0
  {
    EvenLow(w / 0x8000_0000, w / 0x20_0000 % 0x400, w / 0x10_0000 % 2 * 0x400 + w / 0x1000 % 0x100 * 0x800, 0x10_0000);
  }

  lemma {:induction false} EvenLow(h: int, x: int, y: int, p: int)
    requires 0 <= h < 2 && 0 <= 2 * (x + y) < p && p % 2 == 0
    ensures -p <= TwosComplement(h * p + 2 * (x + y), 2 * p) < p
    ensures TwosComplement(h * p + 2 * (x + y), 2 * p) % 2 == 0
  {
    LoneSign(h, 2 * (x + y), p);
  }
}
