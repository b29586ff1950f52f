/**
The sparse byte memory as a value: what loads, stores and fetches mean, before
any loop computes them.
*/
module Memory {
  import opened Words

  type Mem = map<Word, Byte>

  /** Forbidden intervals, first address to last address, both ends included. */
  type Intervals = map<Word, Word>

  // ----- little-endian numbers -----

  function LittleEndian(bs: seq<Byte>): nat {
    if bs == [] then 0 else bs[0] + 0x100 * LittleEndian(bs[1..])
  }

  function ToBytes(v: nat, n: nat): (bs: seq<Byte>)
    ensures |bs| == n
    decreases n
  {
    if n == 0 then [] else [v % 0x100] + ToBytes(v / 0x100, n - 1)
  }

  /** The bytes still to be taken from a value that is consumed from its low end. */
  lemma {:induction false} NextByte(v: nat, bs: seq<Byte>, i: nat)
    requires i < |bs| && ToBytes(v, |bs| - i) == bs[i..]
    ensures bs[i] == v % 0x100
    ensures ToBytes(v / 0x100, |bs| - (i + 1)) == bs[i + 1..]
  {
    assert bs[i] == bs[i..][0];
    assert bs[i + 1..] == bs[i..][1..];
  }

  lemma {:induction false} LittleEndianBound(bs: seq<Byte>)
    ensures LittleEndian(bs) < Pow2(8 * |bs|)
  {
    if bs != [] {
      LittleEndianBound(bs[1..]);
      Pow2Byte(8 * |bs| - 8);
    }
  }

  lemma {:induction false} Pow2Byte(n: nat)
    ensures Pow2(n + 8) == 0x100 * Pow2(n)
  {
    Pow2Values();
    Pow2Add(8, n);
  }

  lemma {:induction false} BytesRoundTrip(bs: seq<Byte>)
    ensures ToBytes(LittleEndian(bs), |bs|) == bs
  {
    if bs != [] {
      BytesRoundTrip(bs[1..]);
      Quotient(LittleEndian(bs), 0x100, LittleEndian(bs[1..]), bs[0]);
    }
  }

  lemma {:induction false} ValueRoundTrip(v: nat, n: nat)
    ensures LittleEndian(ToBytes(v, n)) == v % Pow2(8 * n)
    decreases n
  {
    if n > 0 {
      ValueRoundTrip(v / 0x100, n - 1);
      assert ToBytes(v, n)[1..] == ToBytes(v / 0x100, n - 1);
      Pow2Byte(8 * n - 8);
      DivDiv(v, 0x100, Pow2(8 * n - 8));
    }
  }

  /** Or-ing in the next byte above those already collected. */
  lemma {:induction false} OrAppend(bs: seq<Byte>, b: Byte)
    requires |bs| < 8
    ensures LittleEndian(bs) < 0x1_0000_0000_0000_0000
    ensures LittleEndian(bs + [b]) < 0x1_0000_0000_0000_0000
    ensures Or(LittleEndian(bs), Shl(b, 8 * |bs|)) == LittleEndian(bs + [b])
  {
    Pow2Values();
    LittleEndianBound(bs);
    LittleEndianBound(bs + [b]);
    LittleEndianAppend(bs, b);
    Pow2Monotone(8 * |bs|, 64);
    Pow2Monotone(8 * |bs + [b]|, 64);
    OrShifted(LittleEndian(bs), b, 8 * |bs|, Pow2(8 * |bs|));
  }

  lemma {:induction false} Pow2Monotone(m: nat, n: nat)
    requires m <= n
    ensures Pow2(m) <= Pow2(n)
    decreases n
  {
    if m < n {
      Pow2Monotone(m, n - 1);
    }
  }

  lemma {:induction false} LittleEndianAppend(bs: seq<Byte>, b: Byte)
    ensures LittleEndian(bs + [b]) == LittleEndian(bs) + b * Pow2(8 * |bs|)
  {
    if bs != [] {
      LittleEndianAppend(bs[1..], b);
      assert (bs + [b])[1..] == bs[1..] + [b];
      Pow2Byte(8 * |bs| - 8);
      assert b * (0x100 * Pow2(8 * |bs| - 8)) == 0x100 * (b * Pow2(8 * |bs| - 8));
    }
  }

  /** The widths the machine loads and stores. */
  predicate Width(n: int) {
    n == 1 || n == 2 || n == 4 || n == 8
  }

  /** An `n`-byte value widened to a register. */
  function Extend(v: Word, sign: bool, n: int): Word {
    if sign && n == 1 && v >= 0x80 then Wrap(v - 0x100)
    else if sign && n == 2 && v >= 0x8000 then Wrap(v - 0x1_0000)
    else if sign && n == 4 && v >= 0x8000_0000 then Wrap(v - 0x1_0000_0000)
    else v
  }

  /** Addresses go round at 2^64. */
  function At(a: Word, i: int): Word {
    Wrap(a + i)
  }

  lemma {:induction false} AtNext(a: Word, i: int)
    ensures At(At(a, i), 1) == At(a, i + 1)
  {
  }

  /** Short steps up from an address, written out. */
  lemma {:induction false} AtAhead(a: Word, i: int)
    requires -0x100 <= i <= 0x100
    ensures At(a, i) == if a + i < 0 then a + i + 0x1_0000_0000_0000_0000
                        else if a + i < 0x1_0000_0000_0000_0000 then a + i
                        else a + i - 0x1_0000_0000_0000_0000
  {
    Quotient(a + i, 0x1_0000_0000_0000_0000,
             if a + i < 0 then -1 else if a + i < 0x1_0000_0000_0000_0000 then 0 else 1,
             if a + i < 0 then a + i + 0x1_0000_0000_0000_0000
             else if a + i < 0x1_0000_0000_0000_0000 then a + i
             else a + i - 0x1_0000_0000_0000_0000);
  }

  // ----- loads -----

  predicate Mapped(mem: Mem, a: Word, n: nat) {
    forall i :: 0 <= i < n ==> At(a, i) in mem
  }

  /** The `n` bytes from `a` on, all of which are mapped. */
  function Slice(mem: Mem, a: Word, n: nat): (bs: seq<Byte>)
    requires Mapped(mem, a, n)
    ensures |bs| == n
    ensures forall i :: 0 <= i < n ==> bs[i] == mem[At(a, i)]
  {
    seq(n, i requires 0 <= i < n => mem[At(a, i)])
  }

  /** The mapped ones among the `n` bytes from `a` on, closed up. */
  function Present(mem: Mem, a: Word, n: nat): (bs: seq<Byte>)
    ensures |bs| <= n
  {
    if n == 0 then []
    else if At(a, n - 1) in mem then Present(mem, a, n - 1) + [mem[At(a, n - 1)]]
    else Present(mem, a, n - 1)
  }

  lemma {:induction false} PresentMapped(mem: Mem, a: Word, n: nat)
    requires Mapped(mem, a, n)
    ensures Present(mem, a, n) == Slice(mem, a, n)
  {
    if n > 0 {
      PresentMapped(mem, a, n - 1);
      assert At(a, n - 1) in mem;
    }
  }

  function Load(mem: Mem, a: Word, sign: bool, n: int): Word
    requires Width(n)
  {
    Widen(Present(mem, a, n), sign, n)
  }

  /** The register value that `n` loaded bytes stand for; gaps have made `bs` shorter. */
  function Widen(bs: seq<Byte>, sign: bool, n: int): Word
    requires |bs| <= n <= 8
  {
    LittleEndianBound(bs);
    Pow2Monotone(8 * |bs|, 64);
    Pow2Values();
    Extend(LittleEndian(bs), sign, n)
  }

  lemma {:induction false} PresentFits(mem: Mem, a: Word, n: nat)
    requires n <= 8
    ensures LittleEndian(Present(mem, a, n)) < Pow2(8 * n) <= 0x1_0000_0000_0000_0000
    ensures n == 1 ==> LittleEndian(Present(mem, a, n)) < 0x100
  {
    LittleEndianBound(Present(mem, a, n));
    Pow2Monotone(8 * |Present(mem, a, n)|, 8 * n);
    Pow2Monotone(8 * n, 64);
    Pow2Values();
  }

  // ----- stores -----

  function Store(mem: Mem, a: Word, bs: seq<Byte>): Mem
    decreases |bs|
  {
    if bs == [] then mem
    else Store(mem, a, bs[..|bs| - 1])[At(a, |bs| - 1) := bs[|bs| - 1]]
  }

  /** How far `k` lies after `a`, going round past the last address if need be. */
  function Offset(k: Word, a: Word): Word {
    Wrap(k - a)
  }

  lemma {:induction false} OffsetAt(k: Word, a: Word, i: int)
    requires 0 <= i < 0x1_0000_0000_0000_0000
    ensures Offset(k, a) == i <==> k == At(a, i)
  {
  }

  /** A store sets exactly the bytes of its range. */
  lemma {:induction false} StoreLookup(mem: Mem, a: Word, bs: seq<Byte>, k: Word)
    requires |bs| <= 0x1_0000_0000_0000_0000
    ensures k in Store(mem, a, bs) <==> Offset(k, a) < |bs| || k in mem
    ensures k in Store(mem, a, bs) ==>
      Store(mem, a, bs)[k] == if Offset(k, a) < |bs| then bs[Offset(k, a)] else mem[k]
    decreases |bs|
  {
    if bs != [] {
      var n := |bs| - 1;
      StoreLookup(mem, a, bs[..n], k);
      OffsetAt(k, a, n);
      assert Store(mem, a, bs) == Store(mem, a, bs[..n])[At(a, n) := bs[n]];
      if Offset(k, a) < n {
        assert bs[..n][Offset(k, a)] == bs[Offset(k, a)];
      }
    }
  }

  // ----- permissions -----

  predicate Banned(forbid: Intervals, a: Word) {
    exists lo :: lo in forbid && lo <= a <= forbid[lo]
  }

  /** The test made before a store: the two end addresses only. */
  predicate Accepts(forbid: Intervals, a: Word, n: int) {
    !Banned(forbid, a) && !Banned(forbid, At(a, n - 1))
  }

  datatype Access = Done | NoPermission(first: Word, last: Word)

  /** Single-byte stores one after the other, stopping at the first one refused. */
  function Put(mem: Mem, forbid: Intervals, a: Word, bs: seq<Byte>): (Mem, Access)
    decreases |bs|
  {
    if bs == [] then (mem, Done)
    else
      var n := |bs| - 1;
      var (before, r) := Put(mem, forbid, a, bs[..n]);
      if r != Done then (before, r)
      else if Accepts(forbid, At(a, n), 1) then (Store(before, At(a, n), [bs[n]]), Done)
      else (before, NoPermission(At(a, n), At(a, n)))
  }

  /** Single-byte loads one after the other. */
  function Collect(mem: Mem, a: Word, n: nat): (bs: seq<Byte>)
    ensures |bs| == n
  {
    seq(n, i requires 0 <= i < n => ByteAt(mem, At(a, i)))
  }

  /** An unmapped byte reads as zero. */
  function ByteAt(mem: Mem, a: Word): Byte {
    PresentFits(mem, a, 1);
    Load(mem, a, false, 1)
  }

  // ----- instruction fetch -----

  datatype Fetch = Fetched(bits: Word) | Unmapped(at: Word)

  /** Fetch stops at the first unmapped byte of the four. */
  function FetchAt(mem: Mem, pc: Word): Fetch {
    if pc !in mem then Unmapped(pc)
    else if At(pc, 1) !in mem then Unmapped(At(pc, 1))
    else if At(pc, 2) !in mem then Unmapped(At(pc, 2))
    else if At(pc, 3) !in mem then Unmapped(At(pc, 3))
    else Fetched(Load(mem, pc, true, 4))
  }
}
