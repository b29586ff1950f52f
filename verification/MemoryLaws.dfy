/**
How loads, stores and fetches relate to one another.
*/
module MemoryLaws {
  import opened Words
  import opened Memory
  import opened Formats

  // ----- reading over writing -----

  lemma {:induction false} OffsetShift(b: Word, a: Word, i: int)
    requires 0 <= i && Offset(b, a) + i < 0x1_0000_0000_0000_0000
    ensures Offset(At(b, i), a) == Offset(b, a) + i
  {
  }

  /** The bytes read back from inside a stored range are the bytes stored there. */
  lemma {:induction false} SliceAfterStore(mem: Mem, a: Word, bs: seq<Byte>, b: Word, m: nat)
    requires Offset(b, a) + m <= |bs| <= 0x1_0000_0000_0000_0000
    ensures Mapped(Store(mem, a, bs), b, m)
    ensures Slice(Store(mem, a, bs), b, m) == bs[Offset(b, a)..Offset(b, a) + m]
  {
    var off := Offset(b, a);
    forall i | 0 <= i < m
      ensures At(b, i) in Store(mem, a, bs) && Store(mem, a, bs)[At(b, i)] == bs[off + i]
    {
      OffsetShift(b, a, i);
      StoreLookup(mem, a, bs, At(b, i));
    }
    var read := Slice(Store(mem, a, bs), b, m);
    assert forall i :: 0 <= i < m ==> read[i] == Store(mem, a, bs)[At(b, i)];
  }

  /** A load inside a stored range returns exactly the matching bytes of what was stored. */
  lemma {:induction false} LoadAfterStore(mem: Mem, a: Word, v: Word, n: int, b: Word, sign: bool, m: int)
    requires Width(n) && Width(m) && Offset(b, a) + m <= n
    ensures Load(Store(mem, a, ToBytes(v, n)), b, sign, m)
         == Widen(ToBytes(v, n)[Offset(b, a)..Offset(b, a) + m], sign, m)
  {
    SliceAfterStore(mem, a, ToBytes(v, n), b, m);
    PresentMapped(Store(mem, a, ToBytes(v, n)), b, m);
  }

  /** In particular a full-width load gives the stored value back, cut to the width and widened. */
  lemma {:induction false} LoadStored(mem: Mem, a: Word, v: Word, n: int, sign: bool)
    requires Width(n)
    ensures Pow2(8 * n) <= 0x1_0000_0000_0000_0000
    ensures Load(Store(mem, a, ToBytes(v, n)), a, sign, n) == Extend(v % Pow2(8 * n), sign, n)
  {
    LoadAfterStore(mem, a, v, n, a, sign, n);
    assert ToBytes(v, n)[0..n] == ToBytes(v, n);
    ValueRoundTrip(v, n);
    Pow2Monotone(8 * n, 64);
    Pow2Values();
  }

  /** Two ranges on the ring of addresses that share no byte. */
  predicate Apart(a: Word, n: nat, b: Word, m: nat) {
    Offset(b, a) >= n && Offset(a, b) >= m
  }

  lemma {:induction false} ApartBytes(a: Word, n: nat, b: Word, m: nat, i: nat)
    requires i < m <= 0x1_0000_0000_0000_0000 && Apart(a, n, b, m)
    ensures Offset(At(b, i), a) >= n
  {
    assert Offset(a, b) == if Offset(b, a) == 0 then 0 else 0x1_0000_0000_0000_0000 - Offset(b, a);
    OffsetShift(b, a, i);
  }

  /** A load away from a store does not see it, whatever is mapped. */
  lemma {:induction false} LoadElsewhere(mem: Mem, a: Word, bs: seq<Byte>, b: Word, m: nat)
    requires |bs| <= 0x1_0000_0000_0000_0000
    requires m <= 0x1_0000_0000_0000_0000 && Apart(a, |bs|, b, m)
    ensures Present(Store(mem, a, bs), b, m) == Present(mem, b, m)
    decreases m
  {
    if m > 0 {
      LoadElsewhere(mem, a, bs, b, m - 1);
      ApartBytes(a, |bs|, b, m, m - 1);
      StoreLookup(mem, a, bs, At(b, m - 1));
    }
  }

  // ----- fetch against data memory -----

  /** Fetch succeeds exactly on four mapped bytes, and then agrees with a signed 32-bit load. */
  lemma {:induction false} FetchIsLoad(mem: Mem, pc: Word)
    ensures FetchAt(mem, pc).Fetched? <==> Mapped(mem, pc, 4)
    ensures FetchAt(mem, pc).Fetched? ==> FetchAt(mem, pc).bits == Load(mem, pc, true, 4)
    ensures FetchAt(mem, pc).Unmapped? ==>
      exists i :: 0 <= i < 4 && FetchAt(mem, pc).at == At(pc, i) && At(pc, i) !in mem && Mapped(mem, pc, i)
  {
    assert At(pc, 0) == pc;
    if Mapped(mem, pc, 4) {
      assert At(pc, 0) in mem && At(pc, 1) in mem && At(pc, 2) in mem && At(pc, 3) in mem;
    }
  }

  /** A stored word is the next word fetched there. */
  lemma {:induction false} FetchAfterStore(mem: Mem, a: Word, w: Word)
    ensures FetchAt(Store(mem, a, ToBytes(w, 4)), a) == Fetched(Sext32(w))
  {
    SliceAfterStore(mem, a, ToBytes(w, 4), a, 4);
    FetchIsLoad(Store(mem, a, ToBytes(w, 4)), a);
    LoadStored(mem, a, w, 4, true);
    assert Pow2(8 * 4) == 0x1_0000_0000 by {
      Pow2Values();
    }
    SextIsExtend(w);
  }

  lemma {:induction false} SextIsExtend(w: Word)
    ensures Extend(w % 0x1_0000_0000, true, 4) == Sext32(w)
  {
  }

  // ----- partly mapped loads -----

  /** The bytes of a range with zero in place of each unmapped one. */
  function ZeroFilled(mem: Mem, a: Word, n: nat): (bs: seq<Byte>)
    ensures |bs| == n
  {
    seq(n, i requires 0 <= i < n => if At(a, i) in mem then mem[At(a, i)] else 0)
  }

  /** No byte other than zero is mapped after an unmapped one. */
  predicate GapsTrail(mem: Mem, a: Word, n: nat) {
    forall i, j | 0 <= i < j < n && At(a, i) !in mem && At(a, j) in mem :: mem[At(a, j)] == 0
  }

  /**
  Skipping an unmapped byte without advancing the shift gives the little-endian
  value with zeros in the gaps exactly when nothing but zeros follows a gap.
  */
  lemma {:induction false} ClosedUpValue(mem: Mem, a: Word, n: nat)
    ensures LittleEndian(Present(mem, a, n)) == LittleEndian(ZeroFilled(mem, a, n)) <==> GapsTrail(mem, a, n)
    decreases n
  {
    if n > 0 {
      ghost var p, z := Present(mem, a, n - 1), ZeroFilled(mem, a, n - 1);
      ClosedUpValue(mem, a, n - 1);
      LastByte(mem, a, n - 1);
      if At(a, n - 1) in mem {
        if |p| < n - 1 {
          GapExists(mem, a, n - 1);
          AppendAfterGap(p, z, mem[At(a, n - 1)]);
        } else {
          NoGap(mem, a, n - 1);
        }
      } else {
        AppendZero(z);
      }
    }
  }

  /**
  What a load returns, whatever is mapped: the bytes that are there, closed up,
  as an unsigned number or as a two's-complement number of the full width.
  */
  lemma {:induction false} LoadMeaning(mem: Mem, a: Word, n: int)
    requires Width(n)
    ensures var v := LittleEndian(Present(mem, a, n));
      && v < Pow2(8 * n) <= 0x1_0000_0000_0000_0000
      && Load(mem, a, false, n) == v
      && Load(mem, a, true, n) == Wrap(TwosComplement(v, Pow2(8 * n)))
  {
    hide Present, LittleEndian, TwosComplement, Pow2;
    PresentFits(mem, a, n);
    WidenMeaning(Present(mem, a, n), n);
  }

  lemma {:induction false} WidenMeaning(bs: seq<Byte>, n: int)
    requires Width(n) && |bs| <= n && LittleEndian(bs) < Pow2(8 * n) <= 0x1_0000_0000_0000_0000
    ensures Widen(bs, false, n) == LittleEndian(bs)
    ensures Widen(bs, true, n) == Wrap(TwosComplement(LittleEndian(bs), Pow2(8 * n)))
  {
    hide LittleEndian, Wrap, Pow2;
    assert Pow2(8) == 0x100 && Pow2(16) == 0x1_0000 && Pow2(32) == 0x1_0000_0000
        && Pow2(64) == 0x1_0000_0000_0000_0000 by {
      Pow2Values();
    }
    var v := LittleEndian(bs);
    SmallWrap(v);
    if n == 8 {
      WrapSigned(v);
      assert TwosComplement(v, 0x1_0000_0000_0000_0000) == Signed(v);
    }
  }

  /** The number a fully mapped range would give, zeros standing in for unmapped bytes. */
  function ZeroFilledValue(mem: Mem, a: Word, sign: bool, n: nat): int {
    var v := LittleEndian(ZeroFilled(mem, a, n));
    if sign then Wrap(TwosComplement(v, Pow2(8 * n))) else v
  }

  /** A load over gaps is the load with zeros in the gaps exactly when nothing but zeros follows a gap. */
  lemma {:induction false} PartlyMappedLoad(mem: Mem, a: Word, sign: bool, n: int)
    requires Width(n)
    ensures Load(mem, a, sign, n) == ZeroFilledValue(mem, a, sign, n) <==> GapsTrail(mem, a, n)
  {
    hide Load, ZeroFilled, LittleEndian, GapsTrail, Present, Pow2;
    LoadMeaning(mem, a, n);
    ClosedUpValue(mem, a, n);
    LittleEndianBound(ZeroFilled(mem, a, n));
    if sign {
      SameReading(LittleEndian(Present(mem, a, n)), LittleEndian(ZeroFilled(mem, a, n)), Pow2(8 * n));
    }
  }

  /** Two numbers of the same width have the same sign extension only if they are equal. */
  lemma {:induction false} SameReading(u: int, v: int, m: int)
    requires 0 <= u < m && 0 <= v < m <= 0x1_0000_0000_0000_0000
    ensures Wrap(TwosComplement(u, m)) == Wrap(TwosComplement(v, m)) <==> u == v
  {
    hide Wrap;
    SignedWrap(TwosComplement(u, m));
    SignedWrap(TwosComplement(v, m));
  }

  lemma {:induction false} LastByte(mem: Mem, a: Word, n: nat)
    ensures ZeroFilled(mem, a, n + 1)
         == ZeroFilled(mem, a, n) + [if At(a, n) in mem then mem[At(a, n)] else 0]
    ensures At(a, n) !in mem ==> (GapsTrail(mem, a, n + 1) <==> GapsTrail(mem, a, n))
    ensures GapsTrail(mem, a, n + 1) ==> GapsTrail(mem, a, n)
  {
  }

  lemma {:induction false} GapExists(mem: Mem, a: Word, n: nat)
    requires |Present(mem, a, n)| < n
    ensures exists i :: 0 <= i < n && At(a, i) !in mem
  {
    if At(a, n - 1) in mem {
      GapExists(mem, a, n - 1);
    }
  }

  lemma {:induction false} NoGap(mem: Mem, a: Word, n: nat)
    requires |Present(mem, a, n)| == n
    ensures Mapped(mem, a, n)
    ensures Present(mem, a, n) == ZeroFilled(mem, a, n)
  {
    if n > 0 {
      NoGap(mem, a, n - 1);
    }
  }

  /** With a gap below it, a byte other than zero is weighted too little. */
  lemma {:induction false} AppendAfterGap(p: seq<Byte>, z: seq<Byte>, b: Byte)
    requires |p| < |z|
    ensures LittleEndian(p + [b]) == LittleEndian(z + [b]) <==> b == 0 && LittleEndian(p) == LittleEndian(z)
  {
    if b == 0 {
      AppendZero(p);
      AppendZero(z);
    } else {
      LittleEndianBound(p + [b]);
      Pow2Monotone(8 * |p + [b]|, 8 * |z|);
      AppendHeavy(z, b);
    }
  }

  lemma {:induction false} AppendZero(bs: seq<Byte>)
    ensures LittleEndian(bs + [0]) == LittleEndian(bs)
  {
    LittleEndianAppend(bs, 0);
  }

  lemma {:induction false} AppendHeavy(bs: seq<Byte>, b: Byte)
    requires b != 0
    ensures LittleEndian(bs + [b]) >= Pow2(8 * |bs|)
  {
    LittleEndianAppend(bs, b);
    LeastProduct(b, Pow2(8 * |bs|));
  }

  // ----- forbidden intervals -----

  /** An interval too wide for an eight-byte store to straddle. */
  predicate Wide(lo: Word, hi: Word) {
    lo <= hi ==> hi - lo >= 6
  }

  /** Checking only the two ends of a store protects every byte of a wide interval. */
  lemma {:induction false} WideIntervalIsSafe(forbid: Intervals, lo: Word, a: Word, n: int, k: Word)
    requires lo in forbid && lo <= k <= forbid[lo] && forbid[lo] - lo >= 6
    requires 1 <= n <= 8 && Accepts(forbid, a, n)
    ensures Offset(k, a) >= n
  {
    assert !(lo <= a <= forbid[lo]) && !(lo <= At(a, n - 1) <= forbid[lo]);
  }

  /** The width is exactly right: any narrower interval can be overwritten whole. */
  lemma {:induction false} NarrowIntervalIsExposed(lo: Word, hi: Word, k: Word)
    requires lo <= k <= hi && hi - lo < 6
    ensures Accepts(map[lo := hi], At(lo, -1), 8)
    ensures Offset(k, At(lo, -1)) < 8
  {
    hide At, Offset;
    var a := At(lo, -1);
    AtAhead(lo, -1);
    AtAhead(a, 7);
    AtAhead(a, k - lo + 1);
    OffsetAt(k, a, k - lo + 1);
  }

  ghost predicate SafeFromStores(lo: Word, hi: Word) {
    forall a: Word, n, k: Word | Width(n) && lo <= k <= hi && Accepts(map[lo := hi], a, n) :: Offset(k, a) >= n
  }

  lemma {:induction false} SafeExactlyWhenWide(lo: Word, hi: Word)
    ensures SafeFromStores(lo, hi) <==> Wide(lo, hi)
  {
    if Wide(lo, hi) {
      forall a: Word, n, k: Word | Width(n) && lo <= k <= hi && Accepts(map[lo := hi], a, n)
        ensures Offset(k, a) >= n
      {
        WideIntervalIsSafe(map[lo := hi], lo, a, n, k);
      }
    } else {
      NarrowIntervalIsExposed(lo, hi, lo);
    }
  }

  /** Whatever the table holds, no accepted store reaches the byte at `k`. */
  ghost predicate SafeByte(forbid: Intervals, k: Word) {
    forall a: Word, n | Width(n) && Accepts(forbid, a, n) :: Offset(k, a) >= n
  }

  /** A store that begins `i` bytes below `k` and ends `j` bytes above it is refused. */
  predicate RefusedAround(forbid: Intervals, k: Word, i: nat, j: nat) {
    Banned(forbid, At(k, 0 - i)) || Banned(forbid, At(k, j))
  }

  /** In any table a byte is safe exactly when each of the 15 placements of a store over it is refused at an end. */
  lemma {:induction false} SafeByteIff(forbid: Intervals, k: Word)
    ensures SafeByte(forbid, k) <==> forall i: nat, j: nat | Width(i + j + 1) :: RefusedAround(forbid, k, i, j)
  {
    hide Banned, At, Offset;
    if SafeByte(forbid, k) {
      forall i: nat, j: nat | Width(i + j + 1)
        ensures RefusedAround(forbid, k, i, j)
      {
        Placement(k, At(k, 0 - i), i, j);
        assert !Accepts(forbid, At(k, 0 - i), i + j + 1);
      }
    }
    if forall i: nat, j: nat | Width(i + j + 1) :: RefusedAround(forbid, k, i, j) {
      forall a: Word, n | Width(n) && Accepts(forbid, a, n)
        ensures Offset(k, a) >= n
      {
        var i := Offset(k, a);
        if i < n {
          assert RefusedAround(forbid, k, i, n - 1 - i);
          OffsetAt(k, a, i);
          BelowAgain(k, a, i);
          Placement(k, a, i, n - 1 - i);
        }
      }
    }
  }

  lemma {:induction false} BelowAgain(k: Word, a: Word, i: nat)
    requires i < 8 && k == At(a, i)
    ensures a == At(k, 0 - i)
  {
    hide At;
    AtAhead(a, i);
    AtAhead(k, 0 - i);
  }

  lemma {:induction false} Placement(k: Word, a: Word, i: nat, j: nat)
    requires i + j < 8 && a == At(k, 0 - i)
    ensures Offset(k, a) == i && At(a, i + j) == At(k, j)
  {
    hide At, Offset;
    AtAhead(k, 0 - i);
    AtAhead(a, i);
    AtAhead(a, i + j);
    AtAhead(k, j);
    OffsetAt(k, a, i);
  }

  // ----- wide stores against single-byte stores -----

  predicate AllWide(forbid: Intervals) {
    forall lo :: lo in forbid ==> Wide(lo, forbid[lo])
  }

  /** Over wide intervals the test on the two ends accepts exactly what byte-by-byte tests accept. */
  lemma {:induction false} EndsDecide(forbid: Intervals, a: Word, n: int)
    requires AllWide(forbid) && Width(n)
    ensures Accepts(forbid, a, n) <==> forall i :: 0 <= i < n ==> Accepts(forbid, At(a, i), 1)
  {
    assert At(a, 0) == a;
    if Accepts(forbid, a, n) {
      forall i | 0 <= i < n
        ensures Accepts(forbid, At(a, i), 1)
      {
        assert At(At(a, i), 0) == At(a, i);
        if Banned(forbid, At(a, i)) {
          var lo :| lo in forbid && lo <= At(a, i) <= forbid[lo];
          WideIntervalIsSafe(forbid, lo, a, n, At(a, i));
          OffsetAt(At(a, i), a, i);
        }
      }
    } else {
      assert !Accepts(forbid, At(a, 0), 1) || !Accepts(forbid, At(a, n - 1), 1);
    }
  }

  /** When every byte is accepted, storing them one by one is one store. */
  lemma {:induction false} PutAll(mem: Mem, forbid: Intervals, a: Word, bs: seq<Byte>)
    requires forall i :: 0 <= i < |bs| ==> Accepts(forbid, At(a, i), 1)
    ensures Put(mem, forbid, a, bs) == (Store(mem, a, bs), Done)
    decreases |bs|
  {
    if bs != [] {
      var n := |bs| - 1;
      PutAll(mem, forbid, a, bs[..n]);
      StoreOne(Store(mem, a, bs[..n]), At(a, n), bs[n]);
    }
  }

  lemma {:induction false} StoreOne(mem: Mem, a: Word, b: Byte)
    ensures Store(mem, a, [b]) == mem[a := b]
  {
    assert [b][..0] == [];
    assert Store(mem, a, [b][..0]) == mem;
    assert At(a, 0) == a;
  }

  /** Otherwise the bytes before the first refused one are stored, and no others. */
  lemma {:induction false} PutRefused(mem: Mem, forbid: Intervals, a: Word, bs: seq<Byte>, k: nat)
    requires k < |bs| && !Accepts(forbid, At(a, k), 1)
    requires forall i :: 0 <= i < k ==> Accepts(forbid, At(a, i), 1)
    ensures Put(mem, forbid, a, bs) == (Store(mem, a, bs[..k]), NoPermission(At(a, k), At(a, k)))
    decreases |bs|
  {
    var n := |bs| - 1;
    if k < n {
      PutRefused(mem, forbid, a, bs[..n], k);
      assert bs[..n][..k] == bs[..k];
    } else {
      PutAll(mem, forbid, a, bs[..n]);
    }
  }

  /** A wide store and the single-byte stores in order: accepted together, with the same memory. */
  lemma {:induction false} WideStoreIsByteStores(mem: Mem, forbid: Intervals, a: Word, v: Word, n: int)
    requires AllWide(forbid) && Width(n)
    ensures Accepts(forbid, a, n) <==> Put(mem, forbid, a, ToBytes(v, n)).1 == Done
    ensures Accepts(forbid, a, n) ==> Put(mem, forbid, a, ToBytes(v, n)).0 == Store(mem, a, ToBytes(v, n))
  {
    EndsDecide(forbid, a, n);
    if Accepts(forbid, a, n) {
      PutAll(mem, forbid, a, ToBytes(v, n));
    } else {
      var k := FirstRefused(forbid, a, n);
      PutRefused(mem, forbid, a, ToBytes(v, n), k);
    }
  }

  lemma {:induction false} FirstRefused(forbid: Intervals, a: Word, n: int) returns (k: nat)
    requires exists i :: 0 <= i < n && !Accepts(forbid, At(a, i), 1)
    ensures k < n && !Accepts(forbid, At(a, k), 1)
    ensures forall i :: 0 <= i < k ==> Accepts(forbid, At(a, i), 1)
  {
    k := 0;
    while Accepts(forbid, At(a, k), 1)
      invariant forall i :: 0 <= i < k ==> Accepts(forbid, At(a, i), 1)
      decreases n - k
    {
      k := k + 1;
    }
  }

  // ----- buffers -----

  /** Bytes put at permitted addresses are collected again unchanged, and nothing else changes. */
  lemma {:induction false} BufferRoundTrip(mem: Mem, forbid: Intervals, a: Word, bs: seq<Byte>)
    requires |bs| <= 0x1_0000_0000_0000_0000
    requires forall i :: 0 <= i < |bs| ==> Accepts(forbid, At(a, i), 1)
    ensures Put(mem, forbid, a, bs).1 == Done
    ensures Collect(Put(mem, forbid, a, bs).0, a, |bs|) == bs
    ensures forall k: Word | Offset(k, a) >= |bs| ::
      (k in Put(mem, forbid, a, bs).0 <==> k in mem) && (k in mem ==> Put(mem, forbid, a, bs).0[k] == mem[k])
  {
    PutAll(mem, forbid, a, bs);
    CollectStored(mem, a, bs);
    forall k: Word | Offset(k, a) >= |bs|
      ensures (k in Store(mem, a, bs) <==> k in mem) && (k in mem ==> Store(mem, a, bs)[k] == mem[k])
    {
      StoreLookup(mem, a, bs, k);
    }
  }

  lemma {:induction false} CollectStored(mem: Mem, a: Word, bs: seq<Byte>)
    requires |bs| <= 0x1_0000_0000_0000_0000
    ensures Collect(Store(mem, a, bs), a, |bs|) == bs
  {
    forall i | 0 <= i < |bs|
      ensures ByteAt(Store(mem, a, bs), At(a, i)) == bs[i]
    {
      OffsetAt(At(a, i), a, i);
      StoreLookup(mem, a, bs, At(a, i));
      MappedByte(Store(mem, a, bs), At(a, i));
    }
  }

  lemma {:induction false} MappedByte(mem: Mem, a: Word)
    requires a in mem
    ensures ByteAt(mem, a) == mem[a]
  {
    assert At(a, 0) == a;
    assert Present(mem, a, 0) == [];
    assert Present(mem, a, 1) == [mem[a]];
  }
}
