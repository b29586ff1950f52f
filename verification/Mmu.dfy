/**
The memory unit: a byte map and a table of forbidden intervals, both changed in
place by loops that walk one address at a time.
*/
module MemoryUnit {
  import opened Words
  import opened Memory
  import opened Loader

  class Mmu {
    var mem: Mem
    var forbid: Intervals

    ghost function Image(): Loader.Image
      reads this
    {
      Loader.Image(mem, forbid)
    }

    constructor ()
      ensures mem == map[] && forbid == map[]
    {
      mem := map[];
      forbid := map[];
    }

    // ----- loading -----

    method ReadElf(sections: seq<Section>, segments: seq<Range>)
      requires NamesFit(sections)
      modifies this
      ensures Image() == Loader.ReadElf(old(Image()), sections, segments)
    {
      hide NameIndex, LoadSections, LoadSection, CopyAll, Plan;
      NothingPlanned(old(Image()), sections);
      for i := 0 to |sections|
        invariant Within(Plan(sections[..i]), |sections|)
        invariant Image() == LoadSections(old(Image()), sections, Plan(sections[..i]))
      {
        LoadNamed(sections, sections[i].name);
        PlanNext(old(Image()), sections, i);
      }
      assert sections[..|sections|] == sections;
      LoadProg(segments);
    }

    /** The name is compared with the four in turn; the number of the one it equals is what is passed on. */
    method LoadNamed(sections: seq<Section>, name: string)
      requires name in LOADER ==> NameIndex(name) < |sections|
      modifies this
      ensures Image() == if name in LOADER then LoadSection(old(Image()), sections[NameIndex(name)]) else old(Image())
    {
      for j := 0 to |LOADER|
        invariant name !in LOADER[..j]
        invariant Image() == old(Image())
      {
        if LOADER[j] == name {
          NameAt(name, j);
          LoadData(sections[j]);
          return;
        }
      }
    }

    method LoadData(s: Section)
      modifies this
      ensures Image() == LoadSection(old(Image()), s)
    {
      var r := s.range;
      if s.name == ".rodata" {
        forbid := Insert(forbid, r.start, At(r.start, |r.bytes|));
      } else if s.name == ".rodatal" {
        forbid := Insert(forbid, r.start, At(r.start, |r.bytes|));
      }
      CopyIn(r);
    }

    method LoadProg(segments: seq<Range>)
      modifies this`mem
      ensures mem == CopyAll(old(mem), segments)
    {
      for i := 0 to |segments|
        invariant mem == CopyAll(old(mem), segments[..i])
      {
        CopyIn(segments[i]);
        assert segments[..i + 1][..i] == segments[..i];
      }
      assert segments[..|segments|] == segments;
    }

    /** The copy loop that sections and segments share. */
    method CopyIn(r: Range)
      modifies this`mem
      ensures mem == Copy(old(mem), r)
    {
      var curAddr := r.start;
      for i := 0 to |r.bytes|
        invariant curAddr == At(r.start, i)
        invariant mem == Copy(old(mem), Range(r.start, r.bytes[..i]))
      {
        mem := Insert(mem, curAddr, r.bytes[i]);
        assert r.bytes[..i + 1][..i] == r.bytes[..i];
        AtNext(r.start, i);
        curAddr := At(curAddr, 1);
      }
      assert r.bytes[..|r.bytes|] == r.bytes;
    }

    // ----- loads and stores -----

    method Ban(addr: Word) returns (banned: bool)
      ensures banned == Banned(forbid, addr)
    {
      var rest := forbid.Keys;
      while rest != {}
        invariant rest <= forbid.Keys
        invariant forall lo :: lo in forbid.Keys - rest ==> !(lo <= addr <= forbid[lo])
        decreases |rest|
      {
        var lo :| lo in rest;
        if addr >= lo && addr <= forbid[lo] {
          return true;
        }
        rest := rest - {lo};
      }
      return false;
    }

    method Read(addr: Word, sign: bool, len: int) returns (retval: Word)
      requires Width(len)
      ensures retval == Load(mem, addr, sign, len)
    {
      var curAddr := addr;
      retval := 0;
      var shift := 0;
      for i := 0 to len
        invariant curAddr == At(addr, i)
        invariant retval == LittleEndian(Present(mem, addr, i))
        invariant shift == 8 * |Present(mem, addr, i)|
      {
        if curAddr in mem {
          OrAppend(Present(mem, addr, i), mem[curAddr]);
          retval := Or(retval, Shl(mem[curAddr], shift));
          shift := shift + 8;
        }
        AtNext(addr, i);
        curAddr := At(curAddr, 1);
      }
      if sign {
        PresentFits(mem, addr, len);
        WithSignExtends(retval, len);
        retval := WithSign(retval, len);
      }
    }

    method Write(addr: Word, reg: Word, len: int) returns (r: Access)
      requires Width(len)
      modifies this`mem
      ensures r == if Accepts(forbid, addr, len) then Done else NoPermission(addr, At(addr, len - 1))
      ensures mem == if r.Done? then Store(old(mem), addr, ToBytes(reg, len)) else old(mem)
    {
      hide ToBytes, Banned, And, Shr, Wrap;
      var banned := Ban(addr);
      if !banned {
        banned := Ban(At(addr, len - 1));
      }
      if banned {
        return NoPermission(addr, At(addr, len - 1));
      }
      var curAddr := addr;
      var val: Word := reg;
      ghost var bs := ToBytes(reg, len);
      assert bs[0..] == bs && bs[..0] == [];
      AtZero(addr);
      for i := 0 to len
        invariant curAddr == At(addr, i)
        invariant ToBytes(val, len - i) == bs[i..]
        invariant mem == Store(old(mem), addr, bs[..i])
      {
        LowByte(val);
        NextByte(val, bs, i);
        mem := mem[curAddr := And(val, 0xFF)];
        val := Shr(val, 8);
        assert bs[..i + 1][..i] == bs[..i];
        AtNext(addr, i);
        curAddr := At(curAddr, 1);
      }
      assert bs[..len] == bs;
      return Done;
    }

    method WriteBare(addr: Word, val: seq<Byte>) returns (r: Access)
      modifies this`mem
      ensures r == if Accepts(forbid, addr, |val|) then Done else NoPermission(addr, At(addr, |val| - 1))
      ensures mem == if r.Done? then Store(old(mem), addr, val) else old(mem)
    {
      var banned := Ban(addr);
      if !banned {
        banned := Ban(At(addr, |val| - 1));
      }
      if banned {
        return NoPermission(addr, At(addr, |val| - 1));
      }
      var curAddr := addr;
      for i := 0 to |val|
        invariant curAddr == At(addr, i)
        invariant mem == Store(old(mem), addr, val[..i])
      {
        mem := mem[curAddr := val[i]];
        assert val[..i + 1][..i] == val[..i];
        AtNext(addr, i);
        curAddr := At(curAddr, 1);
      }
      assert val[..|val|] == val;
      return Done;
    }

    /** Each byte is promoted to a signed 32-bit `int` before it is shifted and widened. */
    method LoadInsn(pc: Word) returns (r: Fetch)
      ensures r == FetchAt(mem, pc)
    {
      var curAddr := pc;
      var retval: Word := 0;
      var shift := 0;
      for i := 0 to 4
        invariant curAddr == At(pc, i)
        invariant Mapped(mem, pc, i)
        invariant shift == 8 * i
        invariant retval == if i < 4 then LittleEndian(Present(mem, pc, i)) else Load(mem, pc, true, 4)
      {
        if curAddr !in mem {
          return Unmapped(curAddr);
        }
        assert At(pc, i) in mem;
        PresentMapped(mem, pc, i);
        if i < 3 {
          OrAppend(Present(mem, pc, i), mem[curAddr]);
          SmallIntShift(mem[curAddr], shift);
        } else {
          TopByte(Present(mem, pc, 3), mem[curAddr]);
        }
        retval := Or(retval, IntShift(mem[curAddr], shift));
        shift := shift + 8;
        AtNext(pc, i);
        curAddr := At(curAddr, 1);
      }
      return Fetched(retval);
    }
  }

  lemma {:induction false} AtZero(a: Word)
    ensures At(a, 0) == a
  {
  }

  /** The sign test and the extension mask chosen by length. */
  function WithSign(v: Word, len: int): Word {
    var signMask := match len case 1 => 0x80 case 2 => 0x8000 case 4 => 0x8000_0000 case _ => 0;
    var extMask: Word :=
      match len
      case 1 => 0xFFFF_FFFF_FFFF_FF00
      case 2 => 0xFFFF_FFFF_FFFF_0000
      case 4 => 0xFFFF_FFFF_0000_0000
      case _ => 0;
    if And(v, signMask) != 0 then Or(v, extMask) else v
  }

  /** `b << shift` on a 32-bit `int`, then converted to an unsigned 64-bit number. */
  function IntShift(b: Byte, shift: nat): Word {
    Sext32(Shl(b, shift))
  }

  lemma {:induction false} SmallIntShift(b: Byte, shift: nat)
    requires shift == 0 || shift == 8 || shift == 16
    ensures IntShift(b, shift) == Shl(b, shift)
  {
    Pow2Values();
    if shift == 8 {
      ShlFits(b, 8, 0x100);
    } else if shift == 16 {
      ShlFits(b, 16, 0x1_0000);
    }
    SmallSext(Shl(b, shift));
  }

  lemma {:induction false} SmallSext(x: int)
    requires 0 <= x < 0x8000_0000
    ensures Sext32(x) == x
  {
  }

  lemma {:induction false} SignIntShift(b: Byte)
    ensures IntShift(b, 24) == (if b < 0x80 then b else 0xFF_FFFF_FF00 + b) * 0x100_0000
  {
    assert Pow2(24) == 0x100_0000 by {
      Pow2Values();
    }
    ShlFits(b, 24, 0x100_0000);
    TopSext(b);
  }

  lemma {:induction false} TopSext(b: Byte)
    ensures Sext32(b * 0x100_0000) == (if b < 0x80 then b else 0xFF_FFFF_FF00 + b) * 0x100_0000
  {
  }

  /** The fourth byte lands on the sign bit of the `int`, so it brings the sign extension with it. */
  lemma {:induction false} TopByte(bs: seq<Byte>, b: Byte)
    requires |bs| == 3
    ensures LittleEndian(bs) < 0x100_0000
    ensures LittleEndian(bs + [b]) < 0x1_0000_0000
    ensures Or(LittleEndian(bs), IntShift(b, 24)) == Extend(LittleEndian(bs + [b]), true, 4)
  {
    hide Pow2;
    assert Pow2(24) == 0x100_0000 by {
      Pow2Values();
    }
    LittleEndianBound(bs);
    LittleEndianAppend(bs, b);
    assert LittleEndian(bs + [b]) == LittleEndian(bs) + b * 0x100_0000;
    TopByteValue(LittleEndian(bs), b);
  }

  lemma {:induction false} TopByteValue(low: Word, b: Byte)
    requires low < 0x100_0000
    ensures Or(low, IntShift(b, 24)) == Extend(low + b * 0x100_0000, true, 4)
  {
    assert Pow2(24) == 0x100_0000 by {
      Pow2Values();
    }
    SignIntShift(b);
    OrAbove(low, if b < 0x80 then b else 0xFF_FFFF_FF00 + b, 24, 0x100_0000);
    TopExtend(low, b);
  }

  lemma {:induction false} TopExtend(low: Word, b: Byte)
    requires low < 0x100_0000
    ensures Extend(low + b * 0x100_0000, true, 4)
         == low + (if b < 0x80 then b else 0xFF_FFFF_FF00 + b) * 0x100_0000
  {
  }

  lemma {:induction false} LowByte(v: Word)
    ensures And(v, 0xFF) == v % 0x100
    ensures Shr(v, 8) == v / 0x100
  {
    Pow2Values();
    AndMask(v, 8);
    ShrValue(v, 8, 0x100);
  }

  /** Testing one bit and or-ing ones above it is sign extension. */
  lemma {:induction false} WithSignExtends(v: Word, len: int)
    requires Width(len) && v < Pow2(8 * len)
    ensures WithSign(v, len) == Extend(v, true, len)
  {
    hide BitAnd, BitOr, Wrap, Pow2;
    assert Pow2(7) == 0x80 && Pow2(8) == 0x100 && Pow2(15) == 0x8000 && Pow2(16) == 0x1_0000
        && Pow2(31) == 0x8000_0000 && Pow2(32) == 0x1_0000_0000 by {
      Pow2Values();
    }
    match len
    case 1 => SetAbove(v, 8, 0x100, 0xFF_FFFF_FFFF_FFFF);
    case 2 => SetAbove(v, 16, 0x1_0000, 0xFFFF_FFFF_FFFF);
    case 4 => SetAbove(v, 32, 0x1_0000_0000, 0xFFFF_FFFF);
    case _ => AndZero(v);
  }

  /** The two halves of sign extension for a number of `n` bits, where `p` is 2^n and `p * ones` the bits above. */
  lemma {:induction false} SetAbove(v: Word, n: nat, p: int, ones: nat)
    requires 0 < n < 64 && p == Pow2(n) && v < p && p * ones == 0x1_0000_0000_0000_0000 - p
    ensures Pow2(n - 1) * 2 == p
    ensures BitAnd(v, Pow2(n - 1)) == if v >= Pow2(n - 1) then Pow2(n - 1) else 0
    ensures BitOr(v, p * ones) == v + p * ones
    ensures v - p < 0 && Wrap(v - p) == v + p * ones
  {
    SignBit(v, n - 1);
    OrAbove(v, ones, n, p);
    Quotient(v - p, 0x1_0000_0000_0000_0000, -1, v - p + 0x1_0000_0000_0000_0000);
  }

  lemma {:induction false} SignBit(v: Word, n: nat)
    requires n < 63 && v < Pow2(n + 1)
    ensures BitAnd(v, Pow2(n)) == if v >= Pow2(n) then Pow2(n) else 0
  {
    var hi, lo := if v >= Pow2(n) then 1 else 0, if v >= Pow2(n) then v - Pow2(n) else v;
    AndConcat(v, lo, hi, Pow2(n), 0, 1, n, Pow2(n));
    AndZero(lo);
    assert BitAnd(hi, 1) == hi;
  }
}
