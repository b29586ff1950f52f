/**
Machine words as integers with explicit wrap-around, the bitwise operators on
them, and the facts that turn those operators into division and remainder.
*/
module Words {

  type Byte = x: int | 0 <= x < 0x100

  /** The 32 bits of an instruction. */
  type Word32 = x: int | 0 <= x < 0x1_0000_0000

  /** The 64 bits of a register, an address or a program counter. */
  type Word = x: int | 0 <= x < 0x1_0000_0000_0000_0000

  function Wrap(x: int): Word {
    x % 0x1_0000_0000_0000_0000
  }

  /** Two's-complement reading of a register. */
  function Signed(x: Word): int {
    if x < 0x8000_0000_0000_0000 then x else x - 0x1_0000_0000_0000_0000
  }

  /** Two's-complement reading of the low 32 bits. */
  function Signed32(x: int): int {
    var r := x % 0x1_0000_0000;
    if r < 0x8000_0000 then r else r - 0x1_0000_0000
  }

  function Sext32(x: int): Word {
    Wrap(Signed32(x))
  }

  function Zext32(x: int): Word32 {
    x % 0x1_0000_0000
  }

  function FromBool(b: bool): Word {
    if b then 1 else 0
  }

  function Pow2(n: nat): (p: nat)
    ensures p > 0
  {
    if n == 0 then 1 else 2 * Pow2(n - 1)
  }

  function Shl(x: Word, n: nat): Word
    decreases n, x
  {
    if n == 0 then x else Shl(Wrap(2 * x), n - 1)
  }

  /** Right shift: arithmetic when `x` is a signed value, logical when it is not. */
  function Shr(x: int, n: nat): int
    decreases n, x
  {
    if n == 0 then x else Shr(x / 2, n - 1)
  }

  function BitAnd(x: nat, y: nat): nat
    decreases x
  {
    if x == 0 then 0
    else 2 * BitAnd(x / 2, y / 2) + (if x % 2 == 1 && y % 2 == 1 then 1 else 0)
  }

  function BitOr(x: nat, y: nat): nat
    decreases x + y
  {
    if x == 0 && y == 0 then 0
    else 2 * BitOr(x / 2, y / 2) + (if x % 2 == 1 || y % 2 == 1 then 1 else 0)
  }

  function BitXor(x: nat, y: nat): nat
    decreases x + y
  {
    if x == 0 && y == 0 then 0
    else 2 * BitXor(x / 2, y / 2) + (if x % 2 != y % 2 then 1 else 0)
  }

  predicate Bit(x: nat, k: nat) {
    if k == 0 then x % 2 == 1 else Bit(x / 2, k - 1)
  }

  function And(x: Word, y: Word): Word {
    Pow2Values();
    Bounds(x, y, 64);
    BitAnd(x, y)
  }

  function Or(x: Word, y: Word): Word {
    Pow2Values();
    Bounds(x, y, 64);
    BitOr(x, y)
  }

  function Xor(x: Word, y: Word): Word {
    Pow2Values();
    Bounds(x, y, 64);
    BitXor(x, y)
  }

  function Not(x: Word): Word {
    0xFFFF_FFFF_FFFF_FFFF - x
  }

  // ----- powers of two -----

  lemma {:induction false} Pow2Values()
    ensures Pow2(0) == 1 && Pow2(1) == 2 && Pow2(2) == 4 && Pow2(3) == 8
    ensures Pow2(4) == 0x10 && Pow2(5) == 0x20 && Pow2(6) == 0x40 && Pow2(7) == 0x80
    ensures Pow2(8) == 0x100 && Pow2(10) == 0x400 && Pow2(11) == 0x800 && Pow2(12) == 0x1000
    ensures Pow2(15) == 0x8000 && Pow2(16) == 0x1_0000 && Pow2(20) == 0x10_0000
    ensures Pow2(21) == 0x20_0000 && Pow2(24) == 0x100_0000 && Pow2(25) == 0x200_0000
    ensures Pow2(26) == 0x400_0000 && Pow2(31) == 0x8000_0000
    ensures Pow2(32) == 0x1_0000_0000 && Pow2(63) == 0x8000_0000_0000_0000
    ensures Pow2(64) == 0x1_0000_0000_0000_0000
  {
    assert Pow2(8) == 0x100 && Pow2(16) == 0x1_0000 && Pow2(24) == 0x100_0000 && Pow2(31) == 0x8000_0000;
    assert Pow2(40) == 0x100_0000_0000;
    assert Pow2(48) == 0x1_0000_0000_0000;
    assert Pow2(56) == 0x100_0000_0000_0000;
  }

  lemma {:induction false} Pow2Add(m: nat, n: nat)
    ensures Pow2(m + n) == Pow2(m) * Pow2(n)
  {
    if m > 0 {
      Pow2Add(m - 1, n);
      assert Pow2(m + n) == 2 * Pow2(m - 1 + n);
    }
  }
  lemma {:induction false} Bounds(x: nat, y: nat, n: nat)
    requires x < Pow2(n) && y < Pow2(n)
    ensures BitAnd(x, y) <= x
    ensures BitOr(x, y) < Pow2(n) && BitXor(x, y) < Pow2(n)
    decreases n
  {
    if n > 0 {
      Bounds(x / 2, y / 2, n - 1);
    }
  }

  // ----- division and remainder -----

  /** Dividing in two steps, and what the two remainders say about the whole one. */
  lemma {:induction false} DivDiv(x: int, a: int, b: int)
    requires a > 0 && b > 0
    ensures a * b > 0
    ensures x / a / b == x / (a * b)
    ensures x % (a * b) == x % a + a * (x / a % b)
  {
    var q, r := x / a, x % a;
    var q', r' := q / b, q % b;
    assert a * q == a * (b * q') + a * r';
    assert a * (b * q') == a * b * q';
    LeastProduct(a, b);
    LeastProduct(a, r');
    LeastProduct(a, b - 1 - r');
    assert a * (b - 1 - r') == a * b - a - a * r';
    Quotient(x, a * b, q', a * r' + r);
  }

  lemma {:induction false} LeastProduct(x: int, y: int)
    requires x > 0 && y >= 0
    ensures x * y >= y >= 0
  {
    assert (x - 1) * y >= 0;
  }

  /** Quotient and remainder are the only pair with these properties. */
  lemma {:induction false} Quotient(x: int, d: int, q: int, r: int)
    requires d > 0 && x == d * q + r && 0 <= r < d
    ensures x / d == q && x % d == r
  {
    var e := x / d - q;
    assert d * e == r - x % d by {
      assert x == d * (x / d) + x % d;
      assert d * (x / d - q) == d * (x / d) - d * q;
    }
    if e != 0 {
      MultipleIsFar(d, e);
    }
  }

  lemma {:induction false} MultipleIsFar(d: int, e: int)
    requires d > 0 && e != 0
    ensures d * e >= d || d * e <= -d
  {
    if e > 0 {
      assert d * (e - 1) >= 0;
    } else {
      assert d * (-1 - e) >= 0;
    }
  }

  lemma {:induction false} DivPow2Step(x: int, n: nat)
    requires n > 0
    ensures x / Pow2(n) == x / 2 / Pow2(n - 1)
    ensures x % Pow2(n) == x % 2 + 2 * (x / 2 % Pow2(n - 1))
  {
    DivDiv(x, 2, Pow2(n - 1));
  }

  lemma {:induction false} ProductBound(x: int, y: int, m: int, n: int)
    requires 0 <= x <= m && 0 <= y <= n
    ensures 0 <= x * y <= m * n
  {
    assert x * (n - y) >= 0 && (m - x) * n >= 0;
  }

  // ----- what the bitwise operators mean -----

  // Each operator acts on every bit position independently.

  lemma {:induction false} AndHalves(x: nat, y: nat)
    ensures BitAnd(x, y) / 2 == BitAnd(x / 2, y / 2)
    ensures BitAnd(x, y) % 2 == 1 <==> x % 2 == 1 && y % 2 == 1
  {
  }

  lemma {:induction false} AndMeaning(x: nat, y: nat, k: nat)
    ensures Bit(BitAnd(x, y), k) <==> Bit(x, k) && Bit(y, k)
    decreases k
  {
    AndHalves(x, y);
    if k > 0 {
      AndMeaning(x / 2, y / 2, k - 1);
    }
  }

  lemma {:induction false} OrHalves(x: nat, y: nat)
    ensures BitOr(x, y) / 2 == BitOr(x / 2, y / 2)
    ensures BitOr(x, y) % 2 == 1 <==> x % 2 == 1 || y % 2 == 1
  {
  }

  lemma {:induction false} OrMeaning(x: nat, y: nat, k: nat)
    ensures Bit(BitOr(x, y), k) <==> Bit(x, k) || Bit(y, k)
    decreases k
  {
    OrHalves(x, y);
    if k > 0 {
      OrMeaning(x / 2, y / 2, k - 1);
    }
  }

  lemma {:induction false} XorHalves(x: nat, y: nat)
    ensures BitXor(x, y) / 2 == BitXor(x / 2, y / 2)
    ensures BitXor(x, y) % 2 == 1 <==> x % 2 != y % 2
  {
  }

  lemma {:induction false} XorMeaning(x: nat, y: nat, k: nat)
    ensures Bit(BitXor(x, y), k) <==> Bit(x, k) != Bit(y, k)
    decreases k
  {
    XorHalves(x, y);
    if k > 0 {
      XorMeaning(x / 2, y / 2, k - 1);
    }
  }

  lemma {:induction false} NotMeaning(x: nat, n: nat, k: nat)
    requires x < Pow2(n)
    ensures Bit(Pow2(n) - 1 - x, k) <==> k < n && !Bit(x, k)
    decreases k
  {
    if n == 0 {
      ZeroHasNoBit(k);
    } else if k > 0 {
      assert (Pow2(n) - 1 - x) / 2 == Pow2(n - 1) - 1 - x / 2;
      NotMeaning(x / 2, n - 1, k - 1);
    }
  }

  lemma {:induction false} ZeroHasNoBit(k: nat)
    ensures !Bit(0, k)
  {
    if k > 0 {
      ZeroHasNoBit(k - 1);
    }
  }

  /** The bits of a number determine it. */
  lemma {:induction false} SameBits(x: nat, y: nat)
    requires forall k: nat :: Bit(x, k) <==> Bit(y, k)
    ensures x == y
    decreases x + y
  {
    assert Bit(x, 0) <==> Bit(y, 0);
    if x > 0 || y > 0 {
      forall k: nat
        ensures Bit(x / 2, k) <==> Bit(y / 2, k)
      {
        assert Bit(x, k + 1) <==> Bit(y, k + 1);
      }
      SameBits(x / 2, y / 2);
    }
  }

  /** A mask of low ones keeps the remainder. */
  lemma {:induction false} AndMask(x: nat, n: nat)
    ensures BitAnd(x, Pow2(n) - 1) == x % Pow2(n)
    decreases n
  {
    if n == 0 {
      AndZero(x);
    } else {
      AndMask(x / 2, n - 1);
      DivPow2Step(x, n);
    }
  }

  /** The mask 2 tells whether bit 1 is set. */
  lemma {:induction false} SecondBit(x: Word)
    ensures And(x, 2) != 0 <==> x / 2 % 2 == 1
  {
    hide BitAnd, Pow2;
    AndStep(x, 2);
    AndMask(x / 2, 1);
    Pow2Values();
  }

  lemma {:induction false} EvenBit(x: Word)
    requires x % 2 == 0
    ensures x / 2 % 2 == 1 <==> x % 4 != 0
  {
  }

  /** A mask of `n` ones keeps all of a number that has no more bits. */
  lemma {:induction false} AndAll(x: nat, n: nat)
    requires x < Pow2(n)
    ensures BitAnd(x, Pow2(n) - 1) == x
    decreases n
  {
    if n > 0 {
      AndAll(x / 2, n - 1);
      AndOdd(x, Pow2(n - 1) - 1);
    }
  }

  lemma {:induction false} AndOdd(x: nat, m: nat)
    ensures BitAnd(x, 2 * m + 1) == 2 * BitAnd(x / 2, m) + x % 2
  {
    hide BitAnd;
    AndStep(x, 2 * m + 1);
    Quotient(2 * m + 1, 2, m, 1);
  }

  lemma {:induction false} AndZero(x: nat)
    ensures BitAnd(x, 0) == 0
    decreases x
  {
    if x > 0 {
      AndZero(x / 2);
    }
  }

  /** A mask can be applied to the low and the high part separately; p is 2^n. */
  lemma {:induction false} AndConcat(w: nat, x: nat, xs: nat, mask: nat, y: nat, ys: nat, n: nat, p: int)
    requires p == Pow2(n) && x < p && y < p
    requires w == x + p * xs && mask == y + p * ys
    ensures BitAnd(w, mask) == BitAnd(x, y) + p * BitAnd(xs, ys)
    decreases n
  {
    if n > 0 {
      var h := Pow2(n - 1);
      Double(h, xs);
      Double(h, ys);
      HalfConcat(w, x, h * xs);
      HalfConcat(mask, y, h * ys);
      AndConcat(w / 2, x / 2, xs, mask / 2, y / 2, ys, n - 1, h);
      AndStep(x, y);
      AndStep(w, mask);
      Double(h, BitAnd(xs, ys));
    }
  }

  lemma {:induction false} HalfConcat(w: nat, x: nat, half: int)
    requires w == x + 2 * half
    ensures w / 2 == x / 2 + half && w % 2 == x % 2
  {
  }

  lemma {:induction false} Double(p: int, x: int)
    ensures 2 * p * x == 2 * (p * x) == p * (2 * x)
  {
  }

  lemma {:induction false} AndStep(x: nat, y: nat)
    ensures BitAnd(x, y) == 2 * BitAnd(x / 2, y / 2) + (if x % 2 == 1 && y % 2 == 1 then 1 else 0)
  {
  }

  /** Or-ing a number below p = 2^n with a multiple of p is addition. */
  lemma {:induction false} OrAbove(x: nat, y: nat, n: nat, p: int)
    requires p == Pow2(n) && x < p
    ensures 0 <= y * p && BitOr(x, y * p) == x + y * p
    decreases n
  {
    if n == 0 {
      OrZero(y);
    } else {
      var h := Pow2(n - 1);
      OrAbove(x / 2, y, n - 1, h);
      OrStep(x, y * h);
      Double(y, h);
    }
  }

  lemma {:induction false} OrStep(x: nat, h: nat)
    ensures BitOr(x, 2 * h) == 2 * BitOr(x / 2, h) + x % 2
  {
  }

  lemma {:induction false} OrZero(y: nat)
    ensures BitOr(0, y) == y
  {
    if y > 0 {
      OrZero(y / 2);
    }
  }

  lemma {:induction false} OrCommutes(x: nat, y: nat)
    ensures BitOr(x, y) == BitOr(y, x)
    decreases x + y
  {
    if x > 0 || y > 0 {
      OrCommutes(x / 2, y / 2);
    }
  }

  // ----- shifts as multiplication and division -----

  lemma {:induction false} ShlValue(x: Word, n: nat, p: int)
    requires p == Pow2(n)
    ensures Shl(x, n) == Wrap(x * p)
    decreases n
  {
    if n > 0 {
      ShlValue(Wrap(2 * x), n - 1, Pow2(n - 1));
      var h := Pow2(n - 1);
      assert x * p == 2 * x * h;
      WrapFactor(2 * x, h);
    }
  }

  lemma {:induction false} WrapFactor(x: int, k: int)
    ensures Wrap(Wrap(x) * k) == Wrap(x * k)
  {
    var q := x / 0x1_0000_0000_0000_0000;
    assert x == Wrap(x) + 0x1_0000_0000_0000_0000 * q;
    assert x * k == Wrap(x) * k + 0x1_0000_0000_0000_0000 * (q * k);
    WrapMultiple(Wrap(x) * k, q * k);
  }

  lemma {:induction false} WrapMultiple(p: int, k: int)
    ensures Wrap(p + 0x1_0000_0000_0000_0000 * k) == Wrap(p)
  {
  }

  lemma {:induction false} ShrValue(x: int, n: nat, p: int)
    requires p == Pow2(n)
    ensures Shr(x, n) == x / p
    decreases n
  {
    if n > 0 {
      ShrValue(x / 2, n - 1, Pow2(n - 1));
      DivPow2Step(x, n);
    }
  }

  lemma {:induction false} SmallWrap(x: int)
    requires 0 <= x < 0x1_0000_0000_0000_0000
    ensures Wrap(x) == x
  {
  }

  /** A left shift that loses no bits, where `p` is 2^n. */
  lemma {:induction false} ShlFits(x: Word, n: nat, p: int)
    requires p == Pow2(n) && x * p < 0x1_0000_0000_0000_0000
    ensures 0 <= x * p && Shl(x, n) == x * p
  {
    ShlValue(x, n, p);
    SmallWrap(x * p);
  }

  /** `x | (y << n)` for a field `x` of at most `n` bits, where `p` is 2^n. */
  lemma {:induction false} OrShifted(x: Word, y: Word, n: nat, p: int)
    requires Pow2(n) == p && x < p
    requires y * p < 0x1_0000_0000_0000_0000
    ensures 0 <= y * p && Shl(y, n) == y * p
    ensures BitOr(x, y * p) == x + y * p
  {
    ShlFits(y, n, p);
    OrAbove(x, y, n, p);
  }

  /** Cutting to 64 bits keeps the remainder by any divisor `d` of 2^64. */
  lemma {:induction false} WrapMod(v: int, d: int, e: int)
    requires d > 0 && d * e == 0x1_0000_0000_0000_0000
    ensures Wrap(v) % d == v % d
  {
    var q := v / 0x1_0000_0000_0000_0000;
    assert d * (e * q) == 0x1_0000_0000_0000_0000 * q;
    SameRemainder(v, Wrap(v), d, e * q);
  }

  lemma {:induction false} SameRemainder(v: int, w: int, d: int, k: int)
    requires d > 0 && v == w + d * k
    ensures v % d == w % d
  {
    assert v == d * (w / d + k) + w % d by {
      assert d * (w / d + k) == d * (w / d) + d * k;
    }
    Quotient(v, d, w / d + k, w % d);
  }

  lemma {:induction false} WrapMod64(v: int)
    ensures Wrap(v) % 64 == v % 64 && Wrap(v) % 32 == v % 32
  {
    WrapMod(v, 64, 0x400_0000_0000_0000);
    WrapMod(v, 32, 0x800_0000_0000_0000);
  }

  lemma {:induction false} WrapMod4(v: int)
    ensures Wrap(v) % 4 == v % 4 && Wrap(v) % 2 == v % 2
  {
    WrapMod(v, 4, 0x4000_0000_0000_0000);
    WrapMod(v, 2, 0x8000_0000_0000_0000);
  }

  lemma {:induction false} ZextMod32(v: int)
    ensures Zext32(v) % 32 == v % 32
  {
    SameRemainder(v, Zext32(v), 32, 0x800_0000 * (v / 0x1_0000_0000));
  }

  /** The two readings of a register are inverse to each other. */
  lemma {:induction false} WrapSigned(x: Word)
    ensures Wrap(Signed(x)) == x
  {
  }

  lemma {:induction false} SignedWrap(v: int)
    requires -0x8000_0000_0000_0000 <= v < 0x8000_0000_0000_0000
    ensures Signed(Wrap(v)) == v
  {
  }
}
