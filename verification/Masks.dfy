/**
What each of the table's masks keeps of a fetched word, in terms of its fields.
*/
module Masks {
  import opened Words
  import opened Formats
  import opened OpcodeMap

  // ----- what each mask keeps -----

  /** Masks have no bits above 31, so only the low word counts. */
  lemma {:induction false} MaskIgnoresUpper(b: Word, mask: Word32)
    ensures And(b, mask) == BitAnd(Zext32(b), mask)
  {
    assert Pow2(32) == 0x1_0000_0000 by {
      Pow2Values();
    }
    AndConcat(b, b % 0x1_0000_0000, b / 0x1_0000_0000, mask, mask, 0, 32, 0x1_0000_0000);
    AndZero(b / 0x1_0000_0000);
  }

  /** A mask whose lowest `n` bits are ones keeps the low part and masks the rest. */
  lemma {:induction false} Keep(w: nat, low: nat, high: nat, n: nat, p: nat, mask: nat, rest: nat)
    requires p == Pow2(n) && low < p && w == low + p * high && mask == p - 1 + p * rest
    ensures BitAnd(w, mask) == low + p * BitAnd(high, rest)
  {
    hide BitAnd, Pow2;
    AndAll(low, n);
    AndConcat(w, low, high, mask, p - 1, rest, n, p);
  }

  /** A mask whose lowest `n` bits are zeros drops the low part. */
  lemma {:induction false} Drop(w: nat, low: nat, high: nat, n: nat, p: nat, mask: nat, rest: nat)
    requires p == Pow2(n) && low < p && w == low + p * high && mask == p * rest
    ensures BitAnd(w, mask) == p * BitAnd(high, rest)
  {
    hide BitAnd, Pow2;
    AndZero(low);
    AndConcat(w, low, high, mask, 0, rest, n, p);
  }

  lemma {:induction false} KeepAll(w: nat, n: nat, p: nat, mask: nat)
    requires p == Pow2(n) && w < p && mask == p - 1
    ensures BitAnd(w, mask) == w
  {
    AndAll(w, n);
  }

  lemma {:induction false} MaskMajor(b: Word, w: Word32)
    requires w == Zext32(b)
    ensures And(b, 0x7f) == Opcode(w)
  {
    Pow2Values();
    MaskIgnoresUpper(b, 0x7f);
    AndMask(w, 7);
  }

  /** The masks that keep the major opcode and `Funct3`, with `rest` masking what lies above. */
  lemma {:induction false} MaskMinor(b: Word, w: Word32, rest: nat)
    requires w == Zext32(b) && rest < 0x2_0000
    ensures And(b, 0x707f + 0x8000 * rest)
         == Opcode(w) + 0x1000 * Funct3(w) + 0x8000 * BitAnd(w / 0x8000, rest)
  {
    assert Pow2(7) == 0x80 by {
      Pow2Values();
    }
    var mask := 0x707f + 0x8000 * rest;
    MaskIgnoresUpper(b, mask);
    MaskFromBit7(w, rest);
    Keep(w, w % 0x80, w / 0x80, 7, 0x80, mask, 0xe0 + 0x100 * rest);
  }

  lemma {:induction false} MaskFromBit7(w: Word32, rest: nat)
    ensures BitAnd(w / 0x80, 0xe0 + 0x100 * rest) == 0x20 * (Funct3(w) + 8 * BitAnd(w / 0x8000, rest))
  {
    hide BitAnd, Pow2;
    assert Pow2(3) == 8 && Pow2(5) == 0x20 by {
      Pow2Values();
    }
    Digits(w, 0x80, 0x20, 0x1000);
    Digits(w, 0x1000, 8, 0x8000);
    Drop(w / 0x80, w / 0x80 % 0x20, w / 0x1000, 5, 0x20, 0xe0 + 0x100 * rest, 7 + 8 * rest);
    Keep(w / 0x1000, Funct3(w), w / 0x8000, 3, 8, 7 + 8 * rest, rest);
  }

  /** The masks that keep the major opcode only, with `rest` masking from bit 15 on. */
  lemma {:induction false} MaskNoMinor(b: Word, w: Word32, rest: nat)
    requires w == Zext32(b) && rest < 0x2_0000
    ensures And(b, 0x7f + 0x8000 * rest) == Opcode(w) + 0x8000 * BitAnd(w / 0x8000, rest)
  {
    assert Pow2(8) == 0x100 && Pow2(7) == 0x80 by {
      Pow2Values();
    }
    MaskIgnoresUpper(b, 0x7f + 0x8000 * rest);
    Digits(w, 0x80, 0x100, 0x8000);
    Keep(w, w % 0x80, w / 0x80, 7, 0x80, 0x7f + 0x8000 * rest, 0x100 * rest);
    Drop(w / 0x80, w / 0x80 % 0x100, w / 0x8000, 8, 0x100, 0x100 * rest, rest);
  }

  // What the masks keep from bit 15 on: nothing, or one of four fields.

  lemma {:induction false} MaskTop6(w: Word32)
    ensures BitAnd(w / 0x8000, 0x1_f800) == 0x800 * (w / 0x400_0000)
  {
    Pow2Values();
    Digits(w, 0x8000, 0x800, 0x400_0000);
    Drop(w / 0x8000, w / 0x8000 % 0x800, w / 0x400_0000, 11, 0x800, 0x1_f800, 0x3f);
    KeepAll(w / 0x400_0000, 6, 0x40, 0x3f);
  }

  lemma {:induction false} MaskTop7(w: Word32)
    ensures BitAnd(w / 0x8000, 0x1_fc00) == 0x400 * Funct7(w)
  {
    Pow2Values();
    Digits(w, 0x8000, 0x400, 0x200_0000);
    Drop(w / 0x8000, w / 0x8000 % 0x400, w / 0x200_0000, 10, 0x400, 0x1_fc00, 0x7f);
    KeepAll(w / 0x200_0000, 7, 0x80, 0x7f);
  }

  lemma {:induction false} MaskTop12(w: Word32)
    ensures BitAnd(w / 0x8000, 0x1_ffe0) == 0x20 * (w / 0x10_0000)
  {
    Pow2Values();
    Digits(w, 0x8000, 0x20, 0x10_0000);
    Drop(w / 0x8000, w / 0x8000 % 0x20, w / 0x10_0000, 5, 0x20, 0x1_ffe0, 0xfff);
    KeepAll(w / 0x10_0000, 12, 0x1000, 0xfff);
  }

  lemma {:induction false} MaskFormat(w: Word32)
    ensures BitAnd(w / 0x8000, 0xc00) == 0x400 * (Funct7(w) % 4)
  {
    Pow2Values();
    Digits(w, 0x8000, 0x400, 0x200_0000);
    Drop(w / 0x8000, w / 0x8000 % 0x400, w / 0x200_0000, 10, 0x400, 0xc00, 3);
    AndMask(w / 0x200_0000, 2);
  }

  // ----- mask by mask -----

  /** What each of the masks in use keeps. */
  ghost function Kept(mask: Word, c: Choice): int {
    match mask
    case 0x7f => c.major
    case 0x707f => c.major + 0x1000 * c.f3
    case 0xfc00707f => c.major + 0x1000 * c.f3 + 0x400_0000 * (c.f7 / 2)
    case 0xfe00707f => c.major + 0x1000 * c.f3 + 0x200_0000 * c.f7
    case 0xfff0707f => c.major + 0x1000 * c.f3 + 0x10_0000 * c.rs2 + 0x200_0000 * c.f7
    case 0xfe00007f => c.major + 0x200_0000 * c.f7
    case 0xfff0007f => c.major + 0x10_0000 * c.rs2 + 0x200_0000 * c.f7
    case 0x600007f => c.major + 0x200_0000 * (c.f7 % 4)
    case _ => c.whole
  }

  lemma {:induction false} MinorMask(b: Word, w: Word32)
    requires w == Zext32(b)
    ensures And(b, 0x707f) == Opcode(w) + 0x1000 * Funct3(w)
  {
    MaskMinor(b, w, 0);
    AndZero(w / 0x8000);
  }

  lemma {:induction false} Minor6Mask(b: Word, w: Word32)
    requires w == Zext32(b)
    ensures And(b, 0xfc00707f) == Opcode(w) + 0x1000 * Funct3(w) + 0x400_0000 * (Funct7(w) / 2)
  {
    MaskMinor(b, w, 0x1_f800);
    MaskTop6(w);
    Digits(w, 0x200_0000, 2, 0x400_0000);
  }

  lemma {:induction false} Minor7Mask(b: Word, w: Word32)
    requires w == Zext32(b)
    ensures And(b, 0xfe00707f) == Opcode(w) + 0x1000 * Funct3(w) + 0x200_0000 * Funct7(w)
  {
    MaskMinor(b, w, 0x1_fc00);
    MaskTop7(w);
  }

  lemma {:induction false} Minor12Mask(b: Word, w: Word32)
    requires w == Zext32(b)
    ensures And(b, 0xfff0707f)
         == Opcode(w) + 0x1000 * Funct3(w) + 0x10_0000 * Rs2Of(w) + 0x200_0000 * Funct7(w)
  {
    MaskMinor(b, w, 0x1_ffe0);
    MaskTop12(w);
    Digits(w, 0x10_0000, 0x20, 0x200_0000);
  }

  lemma {:induction false} Major7Mask(b: Word, w: Word32)
    requires w == Zext32(b)
    ensures And(b, 0xfe00007f) == Opcode(w) + 0x200_0000 * Funct7(w)
  {
    MaskNoMinor(b, w, 0x1_fc00);
    MaskTop7(w);
  }

  lemma {:induction false} Major12Mask(b: Word, w: Word32)
    requires w == Zext32(b)
    ensures And(b, 0xfff0007f) == Opcode(w) + 0x10_0000 * Rs2Of(w) + 0x200_0000 * Funct7(w)
  {
    MaskNoMinor(b, w, 0x1_ffe0);
    MaskTop12(w);
    Digits(w, 0x10_0000, 0x20, 0x200_0000);
  }

  lemma {:induction false} FormatMask(b: Word, w: Word32)
    requires w == Zext32(b)
    ensures And(b, 0x600007f) == Opcode(w) + 0x200_0000 * (Funct7(w) % 4)
  {
    MaskNoMinor(b, w, 0xc00);
    MaskFormat(w);
  }

  lemma {:induction false} WholeMask(b: Word, w: Word32)
    requires w == Zext32(b)
    ensures And(b, 0xffffffff) == w
  {
    MaskIgnoresUpper(b, 0xffffffff);
    Pow2Values();
    AndAll(w, 32);
  }

  ghost predicate InUse(mask: Word) {
    mask in {0x7f, 0x707f, 0xfc00707f, 0xfe00707f, 0xfff0707f, 0xfe00007f, 0xfff0007f, 0x600007f, 0xffffffff}
  }

  lemma {:induction false} MaskKeeps(b: Word, mask: Word)
    requires InUse(mask)
    ensures And(b, mask) == Kept(mask, ChoiceOf(Zext32(b)))
  {
    var w := Zext32(b);
    match mask
    case 0x7f => MaskMajor(b, w);
    case 0x707f => MinorMask(b, w);
    case 0xfc00707f => Minor6Mask(b, w);
    case 0xfe00707f => Minor7Mask(b, w);
    case 0xfff0707f => Minor12Mask(b, w);
    case 0xfe00007f => Major7Mask(b, w);
    case 0xfff0007f => Major12Mask(b, w);
    case 0x600007f => FormatMask(b, w);
    case _ => WholeMask(b, w);
  }

  ghost predicate InRange(c: Choice) {
    0 <= c.major < 0x80 && 0 <= c.f3 < 8 && 0 <= c.f7 < 0x80 && 0 <= c.rs2 < 0x20 && c.whole % 0x80 == c.major
  }

  /** The fields can be read off a masked word again. */
  lemma {:induction false} KeptFields(mask: Word, c: Choice)
    requires InRange(c)
    ensures mask in {0x7f, 0x707f, 0xfc00707f, 0xfe00707f, 0xfff0707f, 0xfe00007f, 0xfff0007f, 0x600007f} ==>
      Kept(mask, c) % 0x1000 == c.major
    ensures mask in {0x707f, 0xfc00707f, 0xfe00707f, 0xfff0707f} ==> Kept(mask, c) / 0x1000 % 8 == c.f3
    ensures mask == 0xfc00707f ==> Kept(mask, c) / 0x200_0000 == c.f7 / 2 * 2
    ensures mask in {0xfe00707f, 0xfff0707f, 0xfe00007f, 0xfff0007f} ==> Kept(mask, c) / 0x200_0000 == c.f7
    ensures mask in {0xfff0707f, 0xfff0007f} ==> Kept(mask, c) / 0x10_0000 % 0x20 == c.rs2
    ensures mask == 0x600007f ==> Kept(mask, c) / 0x200_0000 == c.f7 % 4
  {
    match mask
    case 0x7f =>
    case 0x707f => SumParts(c.major, c.f3, 0, 0);
    case 0xfc00707f => SumParts(c.major, c.f3, 0, c.f7 / 2 * 2);
    case 0xfe00707f => SumParts(c.major, c.f3, 0, c.f7);
    case 0xfff0707f => SumParts(c.major, c.f3, c.rs2, c.f7);
    case 0xfe00007f => SumParts(c.major, 0, 0, c.f7);
    case 0xfff0007f => SumParts(c.major, 0, c.rs2, c.f7);
    case 0x600007f => SumParts(c.major, 0, 0, c.f7 % 4);
    case _ =>
  }

  lemma {:induction false} SumParts(a: int, b: int, c: int, d: int)
    requires 0 <= a < 0x1000 && 0 <= b < 8 && 0 <= c < 0x20
    ensures var k := a + 0x1000 * b + 0x10_0000 * c + 0x200_0000 * d;
      k % 0x1000 == a && k / 0x1000 % 8 == b && k / 0x10_0000 % 0x20 == c && k / 0x200_0000 == d
  {
    var k := a + 0x1000 * b + 0x10_0000 * c + 0x200_0000 * d;
    Quotient(k, 0x1000, b + 0x100 * c + 0x2000 * d, a);
    Quotient(b + 0x100 * c + 0x2000 * d, 8, 0x20 * c + 0x400 * d, b);
    Quotient(k, 0x10_0000, c + 0x20 * d, a + 0x1000 * b);
    Quotient(c + 0x20 * d, 0x20, d, c);
    Quotient(k, 0x200_0000, d, a + 0x1000 * b + 0x10_0000 * c);
  }
}
