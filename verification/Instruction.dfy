/**
The instruction word as the simulator holds it: 64 bits, of which the upper 32
are copies of bit 31. Fields and immediates are cut out with shifts and masks.
*/
module Instruction {
  import opened Words

  function X(b: Word, lo: nat, len: nat): Word {
    And(Wrap(Shr(b, lo)), Wrap(Shl(1, len) - 1))
  }

  function Xs(b: Word, lo: nat, len: nat): Word
    requires lo + len <= 64
  {
    Wrap(Shr(Signed(Shl(b, 64 - lo - len)), 64 - len))
  }

  function ImmSign(b: Word): Word {
    Xs(b, 63, 1)
  }

  /** The unsigned sum of the pieces of an immediate, converted to a signed number. */
  function Total(x: Word, y: Word, z: Word, sign: Word): int {
    Signed(Wrap(x + y + z + sign))
  }

  function IImm(b: Word): int {
    Shr(Signed(b), 20)
  }

  function SImm(b: Word): int {
    Total(X(b, 7, 5), 0, 0, Shl(Xs(b, 25, 7), 5))
  }

  function SbImm(b: Word): int {
    Total(Shl(X(b, 8, 4), 1), Shl(X(b, 25, 6), 5), Shl(X(b, 7, 1), 11), Shl(ImmSign(b), 12))
  }

  function UImm(b: Word): int {
    Signed(Shl(Wrap(Shr(Signed(b), 12)), 12))
  }

  function UjImm(b: Word): int {
    Total(Shl(X(b, 21, 10), 1), Shl(X(b, 20, 1), 11), Shl(X(b, 12, 8), 12), Shl(ImmSign(b), 20))
  }

  function Rd(b: Word): (r: Word)
    ensures r < 32
  {
    RegisterField(b, 7);
    X(b, 7, 5)
  }

  function Rs1(b: Word): (r: Word)
    ensures r < 32
  {
    RegisterField(b, 15);
    X(b, 15, 5)
  }

  function Rs2(b: Word): (r: Word)
    ensures r < 32
  {
    RegisterField(b, 20);
    X(b, 20, 5)
  }

  function Shamt(b: Word): Word {
    And(Wrap(IImm(b)), 0x3F)
  }

  // ----- the same cuts as division and remainder -----

  /** `x(lo, len)`, where `p` is 2^lo and `q` is 2^len. */
  lemma {:induction false} XValue(b: Word, lo: nat, len: nat, p: int, q: int)
    requires p == Pow2(lo) && 1 <= q == Pow2(len) < 0x1_0000_0000_0000_0000
    ensures X(b, lo, len) == b / p % q
  {
    ShrValue(b, lo, p);
    ShlFits(1, len, q);
    SmallWrap(q - 1);
    QuotientBound(b, p);
    SmallWrap(b / p);
    AndMask(b / p, len);
  }

  lemma {:induction false} RegisterField(b: Word, lo: nat)
    ensures X(b, lo, 5) < 32
  {
    Pow2Values();
    XValue(b, lo, 5, Pow2(lo), 32);
  }

  lemma {:induction false} QuotientBound(b: int, p: int)
    requires b >= 0 && p > 0
    ensures 0 <= b / p <= b
  {
    if b / p > b {
      LeastProduct(p, b / p);
    }
  }

  lemma {:induction false} ShamtValue(b: Word)
    ensures Shamt(b) == IImm(b) % 0x40
  {
    assert Pow2(6) == 0x40 by {
      Pow2Values();
    }
    AndMask(Wrap(IImm(b)), 6);
    WrapMod64(IImm(b));
  }
}
