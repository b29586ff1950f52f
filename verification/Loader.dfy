/**
Filling the memory before a run: named sections first, then program segments,
each byte going in only where no earlier one has.
*/
module Loader {
  import opened Words
  import opened Memory

  /** Bytes of the file and the address the first of them goes to. */
  datatype Range = Range(start: Word, bytes: seq<Byte>)

  datatype Section = Section(name: string, range: Range)

  /** What loading produces: the byte map and the forbidden intervals. */
  datatype Image = Image(mem: Mem, forbid: Intervals)

  // ----- copying ranges -----

  /** `std::map::insert`: an entry that is there already stays. */
  function Insert<K, V>(m: map<K, V>, k: K, v: V): map<K, V> {
    if k in m then m else m[k := v]
  }

  function Copy(mem: Mem, r: Range): Mem
    decreases |r.bytes|
  {
    if r.bytes == [] then mem
    else
      var n := |r.bytes| - 1;
      Insert(Copy(mem, Range(r.start, r.bytes[..n])), At(r.start, n), r.bytes[n])
  }

  function CopyAll(mem: Mem, rs: seq<Range>): Mem
    decreases |rs|
  {
    if rs == [] then mem
    else Copy(CopyAll(mem, rs[..|rs| - 1]), rs[|rs| - 1])
  }

  predicate Covers(r: Range, k: Word) {
    Offset(k, r.start) < |r.bytes|
  }

  function ByteOf(r: Range, k: Word): Byte
    requires Covers(r, k)
  {
    r.bytes[Offset(k, r.start)]
  }

  predicate Covered(rs: seq<Range>, k: Word) {
    exists i :: 0 <= i < |rs| && Covers(rs[i], k)
  }

  /** Copying a range, adds its bytes where there were none and changes nothing else. */
  lemma {:induction false} CopyMeaning(mem: Mem, r: Range, k: Word)
    ensures k in Copy(mem, r) <==> k in mem || Covers(r, k)
    ensures k in Copy(mem, r) ==> Copy(mem, r)[k] == if k in mem then mem[k] else ByteOf(r, k)
    decreases |r.bytes|
  {
    if r.bytes != [] {
      var n := |r.bytes| - 1;
      CopyMeaning(mem, Range(r.start, r.bytes[..n]), k);
      if n < 0x1_0000_0000_0000_0000 {
        OffsetAt(k, r.start, n);
      }
    }
  }

  /** Byte `i` of a range goes to the address `i` after its start, if nothing is there. */
  lemma {:induction false} CopyPlaces(mem: Mem, r: Range, i: nat)
    requires i < |r.bytes| && i < 0x1_0000_0000_0000_0000 && At(r.start, i) !in mem
    ensures At(r.start, i) in Copy(mem, r) && Copy(mem, r)[At(r.start, i)] == r.bytes[i]
  {
    hide Copy;
    CopyMeaning(mem, r, At(r.start, i));
    OffsetAt(At(r.start, i), r.start, i);
  }

  /** An address holds what it held before, or the byte of the first range that contains it. */
  lemma {:induction false} FirstWriterWins(mem: Mem, rs: seq<Range>, k: Word)
    ensures k in CopyAll(mem, rs) <==> k in mem || Covered(rs, k)
    ensures k in mem ==> CopyAll(mem, rs)[k] == mem[k]
    ensures forall i | 0 <= i < |rs| && Covers(rs[i], k) && !Covered(rs[..i], k) && k !in mem ::
      k in CopyAll(mem, rs) && CopyAll(mem, rs)[k] == ByteOf(rs[i], k)
    decreases |rs|
  {
    hide Covers, ByteOf, Copy, Covered;
    NoneCovered(k);
    if rs != [] {
      var n := |rs| - 1;
      FirstWriterWins(mem, rs[..n], k);
      CopyMeaning(CopyAll(mem, rs[..n]), rs[n], k);
      CoveredSplit(rs, k);
      forall i | 0 <= i <= n && Covers(rs[i], k) && !Covered(rs[..i], k) && k !in mem
        ensures k in CopyAll(mem, rs) && CopyAll(mem, rs)[k] == ByteOf(rs[i], k)
      {
        if i < n {
          assert rs[..n][i] == rs[i] && rs[..n][..i] == rs[..i];
        }
      }
    }
  }

  lemma {:induction false} NoneCovered(k: Word)
    ensures !Covered([], k)
  {
  }

  lemma {:induction false} CoveredSplit(rs: seq<Range>, k: Word)
    requires rs != []
    ensures Covered(rs, k) <==> Covered(rs[..|rs| - 1], k) || Covers(rs[|rs| - 1], k)
  {
    var n := |rs| - 1;
    if Covered(rs[..n], k) {
      var i :| 0 <= i < n && Covers(rs[..n][i], k);
      assert Covers(rs[i], k);
    }
    if Covered(rs, k) && !Covers(rs[n], k) {
      var i :| 0 <= i < |rs| && Covers(rs[i], k);
      assert Covers(rs[..n][i], k);
    }
  }

  // ----- ranges that do not contradict one another -----

  /** Where the two overlap they hold the same bytes. */
  ghost predicate Compatible(r: Range, s: Range) {
    forall k: Word | Covers(r, k) && Covers(s, k) :: ByteOf(r, k) == ByteOf(s, k)
  }

  ghost predicate AllCompatible(rs: seq<Range>) {
    forall r, s | r in rs && s in rs :: Compatible(r, s)
  }

  lemma {:induction false} FirstCover(rs: seq<Range>, k: Word) returns (i: nat)
    requires Covered(rs, k)
    ensures i < |rs| && Covers(rs[i], k) && !Covered(rs[..i], k)
  {
    i := 0;
    while !Covers(rs[i], k)
      invariant i < |rs| && forall j :: 0 <= j < i ==> !Covers(rs[j], k)
      decreases |rs| - i
    {
      i := i + 1;
    }
  }

  /** Then any range that contains an address decides what it holds. */
  lemma {:induction false} AnyWriterAgrees(mem: Mem, rs: seq<Range>, r: Range, k: Word)
    requires AllCompatible(rs) && r in rs && Covers(r, k) && k !in mem
    ensures k in CopyAll(mem, rs) && CopyAll(mem, rs)[k] == ByteOf(r, k)
  {
    var i :| 0 <= i < |rs| && rs[i] == r;
    var f := FirstCover(rs, k);
    FirstWriterWins(mem, rs, k);
    assert Compatible(rs[f], r);
  }

  /** Two lists of such ranges load the same memory exactly when they cover the same unmapped addresses. */
  lemma {:induction false} SameUnion(mem: Mem, rs: seq<Range>, ss: seq<Range>)
    requires AllCompatible(rs + ss)
    ensures CopyAll(mem, rs) == CopyAll(mem, ss) <==> forall k: Word | k !in mem :: Covered(rs, k) <==> Covered(ss, k)
  {
    hide CopyAll, Covered, AllCompatible;
    var left, right := CopyAll(mem, rs), CopyAll(mem, ss);
    forall k: Word
      ensures k !in mem ==> (k in left <==> Covered(rs, k)) && (k in right <==> Covered(ss, k))
      ensures k in mem ==> k in left && k in right
      ensures k in left && k in right ==> left[k] == right[k]
    {
      FirstWriterWins(mem, rs, k);
      FirstWriterWins(mem, ss, k);
      if k in left && k in right {
        SameByteLoaded(mem, rs, ss, k);
      }
    }
    SameMaps(left, right);
    if left == right {
      forall k: Word | k !in mem
        ensures Covered(rs, k) <==> Covered(ss, k)
      {
        assert k in left <==> k in right;
      }
    } else {
      var k: Word :| k in left <==> k !in right;
      assert k !in mem;
    }
  }

  lemma {:induction false} SameMaps(m: Mem, n: Mem)
    requires forall k: Word | k in m && k in n :: m[k] == n[k]
    ensures m == n <==> forall k: Word :: k in m <==> k in n
  {
  }

  lemma {:induction false} SameByteLoaded(mem: Mem, rs: seq<Range>, ss: seq<Range>, k: Word)
    requires AllCompatible(rs + ss)
    requires k in mem || (Covered(rs, k) && Covered(ss, k))
    ensures k in CopyAll(mem, rs) && k in CopyAll(mem, ss) && CopyAll(mem, rs)[k] == CopyAll(mem, ss)[k]
  {
    FirstWriterWins(mem, rs, k);
    FirstWriterWins(mem, ss, k);
    if k !in mem {
      var i := FirstCover(rs, k);
      var j := FirstCover(ss, k);
      assert rs[i] in rs + ss && ss[j] in rs + ss;
      assert Compatible(rs[i], ss[j]);
    }
  }

  ghost predicate Disjoint(r: Range, s: Range) {
    forall k: Word :: !(Covers(r, k) && Covers(s, k))
  }

  ghost predicate PairwiseDisjoint(rs: seq<Range>) {
    forall i, j | 0 <= i < j < |rs| :: Disjoint(rs[i], rs[j])
  }

  lemma {:induction false} DisjointIsCompatible(rs: seq<Range>)
    requires PairwiseDisjoint(rs)
    ensures AllCompatible(rs)
  {
    forall r, s | r in rs && s in rs
      ensures Compatible(r, s)
    {
      var i :| 0 <= i < |rs| && rs[i] == r;
      var j :| 0 <= j < |rs| && rs[j] == s;
      if i < j {
        assert Disjoint(rs[i], rs[j]);
      } else if j < i {
        assert Disjoint(rs[j], rs[i]);
      }
    }
  }

  /** Ranges that share no address can be loaded in any order. */
  lemma {:induction false} AnyLoadOrder(mem: Mem, rs: seq<Range>, ss: seq<Range>)
    requires PairwiseDisjoint(rs) && multiset(ss) == multiset(rs)
    ensures CopyAll(mem, ss) == CopyAll(mem, rs)
  {
    DisjointIsCompatible(rs);
    SameMembers(rs, ss);
    assert AllCompatible(rs + ss);
    forall k: Word
      ensures Covered(rs, k) <==> Covered(ss, k)
    {
      assert forall r :: r in rs ==> r in ss;
      SameCover(rs, ss, k);
      SameCover(ss, rs, k);
    }
    SameUnion(mem, rs, ss);
  }

  lemma {:induction false} SameMembers(rs: seq<Range>, ss: seq<Range>)
    requires multiset(ss) == multiset(rs)
    ensures forall r :: r in rs <==> r in ss
  {
    forall r
      ensures r in rs <==> r in ss
    {
      assert r in multiset(rs) <==> r in multiset(ss);
    }
  }

  lemma {:induction false} SameCover(rs: seq<Range>, ss: seq<Range>, k: Word)
    requires forall r :: r in rs ==> r in ss
    ensures Covered(rs, k) ==> Covered(ss, k)
  {
    if Covered(rs, k) {
      var i :| 0 <= i < |rs| && Covers(rs[i], k);
      assert rs[i] in ss;
      var j :| 0 <= j < |ss| && ss[j] == rs[i];
      assert Covers(ss[j], k);
    }
  }

  /** For two ranges the order is immaterial exactly when they do not contradict each other on fresh addresses. */
  lemma {:induction false} OrderMatters(mem: Mem, r: Range, s: Range)
    ensures CopyAll(mem, [r, s]) == CopyAll(mem, [s, r])
       <==> forall k: Word | k !in mem && Covers(r, k) && Covers(s, k) :: ByteOf(r, k) == ByteOf(s, k)
  {
    var rs, sr := CopyAll(mem, [r, s]), CopyAll(mem, [s, r]);
    forall k: Word
      ensures k in rs <==> k in sr
      ensures k in rs && rs[k] != sr[k] <==> k !in mem && Covers(r, k) && Covers(s, k) && ByteOf(r, k) != ByteOf(s, k)
    {
      TwoRanges(mem, r, s, k);
      TwoRanges(mem, s, r, k);
    }
  }

  lemma {:induction false} TwoRanges(mem: Mem, r: Range, s: Range, k: Word)
    ensures var m := CopyAll(mem, [r, s]);
      && (k in m <==> k in mem || Covers(r, k) || Covers(s, k))
      && (k in m ==> m[k] == (if k in mem then mem[k] else if Covers(r, k) then ByteOf(r, k) else ByteOf(s, k)))
  {
    assert [r, s][..1] == [r] && [r][..0] == [];
    assert CopyAll(mem, [r][..0]) == mem;
    CopyMeaning(mem, r, k);
    CopyMeaning(Copy(mem, r), s, k);
  }

  // ----- sections -----

  const LOADER: seq<string> := [".data", ".sdata", ".rodata", ".rodatal"]

  /** The position of a name among the four that are loaded; 4 when it is none of them. */
  function NameIndex(name: string): (j: nat)
    ensures j <= |LOADER|
    ensures j < |LOADER| <==> name in LOADER
    ensures j < |LOADER| ==> LOADER[j] == name
  {
    if name == ".data" then 0
    else if name == ".sdata" then 1
    else if name == ".rodata" then 2
    else if name == ".rodatal" then 3
    else 4
  }

  predicate ReadOnly(name: string) {
    name == ".rodata" || name == ".rodatal"
  }

  /** For every name: loading a section adds an interval exactly when it is called `.rodata` or `.rodatal`. */
  lemma {:induction false} IntervalAddedIff(img: Image, s: Section)
    requires s.range.start !in img.forbid
    ensures s.range.start in LoadSection(img, s).forbid <==> s.name == ".rodata" || s.name == ".rodatal"
    ensures forall lo | lo != s.range.start :: lo in LoadSection(img, s).forbid <==> lo in img.forbid
    ensures forall lo | lo in img.forbid ::
      lo in LoadSection(img, s).forbid && LoadSection(img, s).forbid[lo] == img.forbid[lo]
  {
  }

  /** Every number in the plan is below `n`. */
  predicate Within(plan: seq<nat>, n: nat) {
    forall p | 0 <= p < |plan| :: plan[p] < n
  }

  /** The interval for a read-only section runs one past its last byte. */
  function LoadSection(img: Image, s: Section): Image {
    Image(Copy(img.mem, s.range),
          if ReadOnly(s.name) then Insert(img.forbid, s.range.start, At(s.range.start, |s.range.bytes|))
          else img.forbid)
  }

  function LoadSections(img: Image, sections: seq<Section>, plan: seq<nat>): Image
    requires Within(plan, |sections|)
    decreases |plan|
  {
    if plan == [] then img
    else
      var n := |plan| - 1;
      LoadSection(LoadSections(img, sections, plan[..n]), sections[plan[n]])
  }

  /** The sections loaded: for each section whose name is listed, the one numbered like the name. */
  function Plan(sections: seq<Section>): (plan: seq<nat>)
    ensures Within(plan, |LOADER|)
    decreases |sections|
  {
    if sections == [] then []
    else
      var n := |sections| - 1;
      var j := NameIndex(sections[n].name);
      Plan(sections[..n]) + (if j < |LOADER| then [j] else [])
  }

  predicate NamesBelow(sections: seq<Section>, n: nat) {
    forall i | 0 <= i < |sections| && sections[i].name in LOADER :: NameIndex(sections[i].name) < n
  }

  /** What the header table must provide for the plan to stay inside it. */
  predicate NamesFit(sections: seq<Section>) {
    NamesBelow(sections, |sections|)
  }

  function ReadElf(img: Image, sections: seq<Section>, segments: seq<Range>): Image
    requires NamesFit(sections)
  {
    PlanWithin(sections, |sections|);
    var loaded := LoadSections(img, sections, Plan(sections));
    loaded.(mem := CopyAll(loaded.mem, segments))
  }

  /** Section `k` is loaded when some section carries the `k`th name. */
  predicate Loaded(sections: seq<Section>, k: nat) {
    exists i :: 0 <= i < |sections| && NameIndex(sections[i].name) == k < |LOADER|
  }

  lemma {:induction false} PlanMeaning(sections: seq<Section>)
    ensures forall k :: k in Plan(sections) <==> Loaded(sections, k)
    decreases |sections|
  {
    if sections != [] {
      var n := |sections| - 1;
      PlanMeaning(sections[..n]);
      forall k: nat
        ensures Loaded(sections, k) <==> Loaded(sections[..n], k) || NameIndex(sections[n].name) == k < |LOADER|
      {
        LoadedSplit(sections, k);
      }
    }
  }

  /** Some section is called `name`. */
  predicate Carried(sections: seq<Section>, name: string) {
    exists i :: 0 <= i < |sections| && sections[i].name == name
  }

  /** The names that cause sections 0 to 3 to be loaded; no others are. */
  lemma {:induction false} LoadedNames(sections: seq<Section>)
    ensures Loaded(sections, 0) <==> Carried(sections, ".data")
    ensures Loaded(sections, 1) <==> Carried(sections, ".sdata")
    ensures Loaded(sections, 2) <==> Carried(sections, ".rodata")
    ensures Loaded(sections, 3) <==> Carried(sections, ".rodatal")
    ensures forall k: nat | k >= 4 :: !Loaded(sections, k)
  {
    NumberedNames(sections, ".data", 0);
    NumberedNames(sections, ".sdata", 1);
    NumberedNames(sections, ".rodata", 2);
    NumberedNames(sections, ".rodatal", 3);
  }

  lemma {:induction false} NumberedNames(sections: seq<Section>, name: string, k: nat)
    requires k < |LOADER| && LOADER[k] == name
    ensures Loaded(sections, k) <==> Carried(sections, name)
  {
    hide NameIndex;
    NameAt(name, k);
    if Carried(sections, name) {
      var i :| 0 <= i < |sections| && sections[i].name == name;
      assert NameIndex(sections[i].name) == k;
    }
    if Loaded(sections, k) {
      var i :| 0 <= i < |sections| && NameIndex(sections[i].name) == k;
      assert sections[i].name == name;
    }
  }

  lemma {:induction false} PlanWithin(sections: seq<Section>, n: nat)
    requires NamesBelow(sections, n)
    ensures Within(Plan(sections), n)
  {
    hide NameIndex;
    PlanMeaning(sections);
    forall p | 0 <= p < |Plan(sections)|
      ensures Plan(sections)[p] < n
    {
      assert Plan(sections)[p] in Plan(sections);
      assert Loaded(sections, Plan(sections)[p]);
    }
  }

  lemma {:induction false} PlanAppend(sections: seq<Section>, s: Section)
    ensures Plan(sections + [s])
         == Plan(sections) + (if NameIndex(s.name) < |LOADER| then [NameIndex(s.name)] else [])
  {
    assert (sections + [s])[..|sections|] == sections;
  }

  lemma {:induction false} NothingPlanned(img: Image, sections: seq<Section>)
    ensures Plan(sections[..0]) == [] && LoadSections(img, sections, []) == img
  {
  }

  /** What looking at one more section adds to the plan and to the image. */
  lemma {:induction false} PlanNext(img: Image, sections: seq<Section>, i: nat)
    requires NamesFit(sections) && i < |sections| && Within(Plan(sections[..i]), |sections|)
    ensures Within(Plan(sections[..i + 1]), |sections|)
    ensures LoadSections(img, sections, Plan(sections[..i + 1]))
         == (var before := LoadSections(img, sections, Plan(sections[..i]));
             var name := sections[i].name;
             if name in LOADER then LoadSection(before, sections[NameIndex(name)]) else before)
  {
    hide NameIndex, Plan, LoadSection;
    var plan, j := Plan(sections[..i]), NameIndex(sections[i].name);
    PlanAppend(sections[..i], sections[i]);
    assert sections[..i + 1] == sections[..i] + [sections[i]];
    if j < |LOADER| {
      assert (plan + [j])[..|plan|] == plan;
    } else {
      assert plan + [] == plan;
    }
  }

  /** The names are distinct, so the position at which one is found is its number. */
  lemma {:induction false} NameAt(name: string, j: nat)
    requires j < |LOADER| && LOADER[j] == name
    ensures NameIndex(name) == j
  {
    assert |LOADER[0]| == 5 && |LOADER[1]| == 6 && |LOADER[2]| == 7 && |LOADER[3]| == 8;
  }

  lemma {:induction false} LoadedSplit(sections: seq<Section>, k: nat)
    requires sections != []
    ensures var n := |sections| - 1;
      Loaded(sections, k) <==> Loaded(sections[..n], k) || NameIndex(sections[n].name) == k < |LOADER|
  {
    hide NameIndex;
    var n := |sections| - 1;
    if Loaded(sections[..n], k) {
      var i :| 0 <= i < n && NameIndex(sections[..n][i].name) == k < |LOADER|;
      assert NameIndex(sections[i].name) == k;
    }
    if Loaded(sections, k) && NameIndex(sections[n].name) != k {
      var i :| 0 <= i < |sections| && NameIndex(sections[i].name) == k < |LOADER|;
      assert NameIndex(sections[..n][i].name) == k;
    }
  }

  /** The plan that loads each section with a listed name. */
  function IntendedPlan(sections: seq<Section>): seq<nat>
    decreases |sections|
  {
    if sections == [] then []
    else
      var n := |sections| - 1;
      IntendedPlan(sections[..n]) + (if sections[n].name in LOADER then [n] else [])
  }

  lemma {:induction false} IntendedMeaning(sections: seq<Section>)
    ensures forall k :: k in IntendedPlan(sections) <==> 0 <= k < |sections| && sections[k].name in LOADER
    ensures Within(IntendedPlan(sections), |sections|)
    decreases |sections|
  {
    if sections != [] {
      IntendedMeaning(sections[..|sections| - 1]);
    }
  }

  function Ranges(sections: seq<Section>, plan: seq<nat>): (rs: seq<Range>)
    requires Within(plan, |sections|)
    ensures |rs| == |plan|
    ensures forall i :: 0 <= i < |plan| ==> rs[i] == sections[plan[i]].range
  {
    seq(|plan|, i requires 0 <= i < |plan| => sections[plan[i]].range)
  }

  lemma {:induction false} SectionsCopy(img: Image, sections: seq<Section>, plan: seq<nat>)
    requires Within(plan, |sections|)
    ensures LoadSections(img, sections, plan).mem == CopyAll(img.mem, Ranges(sections, plan))
    decreases |plan|
  {
    if plan != [] {
      var n := |plan| - 1;
      SectionsCopy(img, sections, plan[..n]);
      assert Ranges(sections, plan)[..n] == Ranges(sections, plan[..n]);
    }
  }

  /** The sections numbered in `plan` share no address; the rest of the table, debug data at address 0 say, is free. */
  ghost predicate ApartAmong(sections: seq<Section>, plan: seq<nat>) {
    forall i, j | 0 <= i < j < |sections| && i in plan && j in plan :: Disjoint(sections[i].range, sections[j].range)
  }

  lemma {:induction false} SectionCovered(sections: seq<Section>, plan: seq<nat>, k: Word)
    requires Within(plan, |sections|)
    ensures Covered(Ranges(sections, plan), k) <==> exists i :: i in plan && Covers(sections[i].range, k)
  {
    var rs := Ranges(sections, plan);
    if i :| i in plan && Covers(sections[i].range, k) {
      var p :| 0 <= p < |plan| && plan[p] == i;
      assert Covers(rs[p], k);
    }
    if Covered(rs, k) {
      var p :| 0 <= p < |rs| && Covers(rs[p], k);
      assert plan[p] in plan && Covers(sections[plan[p]].range, k);
    }
  }

  lemma {:induction false} SectionsCompatible(sections: seq<Section>, plan: seq<nat>, other: seq<nat>)
    requires Within(plan, |sections|) && Within(other, |sections|)
    requires ApartAmong(sections, plan + other)
    ensures AllCompatible(Ranges(sections, plan) + Ranges(sections, other))
  {
    hide ApartAmong, Covers;
    var rs := Ranges(sections, plan) + Ranges(sections, other);
    forall r | r in rs
      ensures exists i :: i in plan + other && sections[i].range == r
    {
      var p :| 0 <= p < |rs| && rs[p] == r;
      assert (plan + other)[p] in plan + other && sections[(plan + other)[p]].range == r;
    }
    forall r, s | r in rs && s in rs
      ensures Compatible(r, s)
    {
      var i :| i in plan + other && sections[i].range == r;
      var j :| j in plan + other && sections[j].range == s;
      forall k: Word
        ensures i == j || !Covers(r, k) || !Covers(s, k)
      {
        OneCovers(sections, plan + other, i, j, k);
      }
    }
  }

  lemma {:induction false} OneCovers(sections: seq<Section>, plan: seq<nat>, i: nat, j: nat, k: Word)
    requires ApartAmong(sections, plan) && i in plan && j in plan && i < |sections| && j < |sections|
    ensures i == j || !Covers(sections[i].range, k) || !Covers(sections[j].range, k)
  {
    if i < j {
      assert Disjoint(sections[i].range, sections[j].range);
    } else if j < i {
      assert Disjoint(sections[j].range, sections[i].range);
    }
  }

  /** Which sections with contents are loaded is what it should be. */
  predicate RightSections(sections: seq<Section>) {
    forall k | 0 <= k < |sections| && sections[k].range.bytes != [] ::
      Loaded(sections, k) <==> sections[k].name in LOADER
  }

  /**
  Passing the number of the name where the number of the section is meant loads
  the named sections all the same exactly when the non-empty sections numbered
  like a name in use are the non-empty ones that carry a listed name.
  */
  lemma {:induction false} SectionsLoadedIff(sections: seq<Section>)
    requires NamesFit(sections) && ApartAmong(sections, Plan(sections) + IntendedPlan(sections))
    ensures Within(Plan(sections), |sections|) && Within(IntendedPlan(sections), |sections|)
    ensures LoadSections(Image(map[], map[]), sections, Plan(sections)).mem
         == LoadSections(Image(map[], map[]), sections, IntendedPlan(sections)).mem
       <==> RightSections(sections)
  {
    hide LoadSections, NameIndex, Loaded, Plan, IntendedPlan, Ranges, Covers;
    var plan, intended := Plan(sections), IntendedPlan(sections);
    PlanMeaning(sections);
    PlanWithin(sections, |sections|);
    IntendedMeaning(sections);
    var empty := Image(map[], map[]);
    SectionsCopy(empty, sections, plan);
    SectionsCopy(empty, sections, intended);
    SectionsCompatible(sections, plan, intended);
    SameUnion(map[], Ranges(sections, plan), Ranges(sections, intended));
    SameCoverIff(sections, plan, intended);
  }

  lemma {:induction false} SameCoverIff(sections: seq<Section>, plan: seq<nat>, other: seq<nat>)
    requires Within(plan, |sections|) && Within(other, |sections|)
    requires ApartAmong(sections, plan + other)
    ensures (forall k: Word :: Covered(Ranges(sections, plan), k) <==> Covered(Ranges(sections, other), k))
       <==> forall i | 0 <= i < |sections| && sections[i].range.bytes != [] :: i in plan <==> i in other
  {
    hide Ranges, Covers, Covered;
    if forall i | 0 <= i < |sections| && sections[i].range.bytes != [] :: i in plan <==> i in other {
      forall k: Word
        ensures Covered(Ranges(sections, plan), k) <==> Covered(Ranges(sections, other), k)
      {
        MoreCover(sections, plan, other, k);
        MoreCover(sections, other, plan, k);
      }
    }
    if forall k: Word :: Covered(Ranges(sections, plan), k) <==> Covered(Ranges(sections, other), k) {
      forall i | 0 <= i < |sections| && sections[i].range.bytes != []
        ensures i in plan <==> i in other
      {
        if i in plan + other {
          StartShows(sections, plan, plan + other, i);
          StartShows(sections, other, plan + other, i);
        }
      }
    }
  }

  lemma {:induction false} MoreCover(sections: seq<Section>, plan: seq<nat>, other: seq<nat>, k: Word)
    requires Within(plan, |sections|) && Within(other, |sections|)
    requires forall i | 0 <= i < |sections| && sections[i].range.bytes != [] :: i in plan ==> i in other
    ensures Covered(Ranges(sections, plan), k) ==> Covered(Ranges(sections, other), k)
  {
    hide Ranges, Covered;
    SectionCovered(sections, plan, k);
    SectionCovered(sections, other, k);
  }

  /** The first address of a non-empty section tells whether that section is loaded. */
  lemma {:induction false} StartShows(sections: seq<Section>, plan: seq<nat>, all: seq<nat>, i: nat)
    requires Within(plan, |sections|) && ApartAmong(sections, all) && forall j :: j in plan ==> j in all
    requires i in all && i < |sections| && sections[i].range.bytes != []
    ensures Covered(Ranges(sections, plan), sections[i].range.start) <==> i in plan
  {
    hide Ranges, Covered, ApartAmong;
    var k := sections[i].range.start;
    SectionCovered(sections, plan, k);
    assert Covers(sections[i].range, k);
    forall j | j in plan
      ensures i == j || !Covers(sections[j].range, k)
    {
      OneCovers(sections, all, i, j, k);
    }
  }

  // ----- segments over sections -----

  lemma {:induction false} CopyAllTwice(mem: Mem, rs: seq<Range>, ss: seq<Range>)
    ensures CopyAll(CopyAll(mem, rs), ss) == CopyAll(mem, rs + ss)
    decreases |ss|
  {
    if ss == [] {
      assert rs + ss == rs;
    } else {
      var n := |ss| - 1;
      CopyAllTwice(mem, rs, ss[..n]);
      assert (rs + ss)[..|rs + ss| - 1] == rs + ss[..n];
    }
  }

  /** The ranges that loading the sections copies. */
  function LoadedRanges(sections: seq<Section>): seq<Range>
    requires NamesFit(sections)
  {
    PlanWithin(sections, |sections|);
    Ranges(sections, Plan(sections))
  }

  /** When the segments hold the bytes of the sections loaded as well, which those are leaves no trace in the memory. */
  lemma {:induction false} SegmentsDecide(img: Image, sections: seq<Section>, segments: seq<Range>)
    requires NamesFit(sections)
    requires AllCompatible(LoadedRanges(sections) + segments)
    requires forall k: Word | Covered(LoadedRanges(sections), k) :: Covered(segments, k)
    ensures ReadElf(img, sections, segments).mem == CopyAll(img.mem, segments)
  {
    hide CopyAll, Covers, Covered, Compatible, Plan, Ranges;
    PlanWithin(sections, |sections|);
    var rs := LoadedRanges(sections);
    SectionsCopy(img, sections, Plan(sections));
    CopyAllTwice(img.mem, rs, segments);
    assert forall r :: r in rs + segments + segments ==> r in rs + segments;
    forall k: Word
      ensures Covered(rs + segments, k) <==> Covered(segments, k)
    {
      CoveredConcat(rs, segments, k);
    }
    SameUnion(img.mem, rs + segments, segments);
  }

  lemma {:induction false} CoveredConcat(rs: seq<Range>, ss: seq<Range>, k: Word)
    ensures Covered(rs + ss, k) <==> Covered(rs, k) || Covered(ss, k)
  {
    if i :| 0 <= i < |rs| && Covers(rs[i], k) {
      assert Covers((rs + ss)[i], k);
    }
    if i :| 0 <= i < |ss| && Covers(ss[i], k) {
      assert Covers((rs + ss)[|rs| + i], k);
    }
  }

  // ----- read-only sections -----

  /** Position `p` of the plan is the first to load a read-only section from its start address. */
  predicate Claims(sections: seq<Section>, plan: seq<nat>, p: nat)
    requires Within(plan, |sections|) && p < |plan|
  {
    (sections[plan[p]].name == ".rodata" || sections[plan[p]].name == ".rodatal")
    && forall q | 0 <= q < p && (sections[plan[q]].name == ".rodata" || sections[plan[q]].name == ".rodatal") ::
         sections[plan[q]].range.start != sections[plan[p]].range.start
  }

  /** Some position claims the interval starting at `lo`. */
  predicate Claimed(sections: seq<Section>, plan: seq<nat>, lo: Word)
    requires Within(plan, |sections|)
  {
    exists p :: 0 <= p < |plan| && Claims(sections, plan, p) && sections[plan[p]].range.start == lo
  }

  /** The table of intervals: one for each start address, with the end of the section that claimed it first. */
  lemma {:induction false} IntervalsMeaning(img: Image, sections: seq<Section>, plan: seq<nat>, lo: Word)
    requires Within(plan, |sections|)
    ensures var forbid := LoadSections(img, sections, plan).forbid;
      && (lo in forbid <==> lo in img.forbid || Claimed(sections, plan, lo))
      && (lo in img.forbid ==> forbid[lo] == img.forbid[lo])
      && (forall p | 0 <= p < |plan| && Claims(sections, plan, p) && sections[plan[p]].range.start == lo ::
            lo !in img.forbid ==> lo in forbid && forbid[lo] == At(lo, |sections[plan[p]].range.bytes|))
    decreases |plan|
  {
    hide ReadOnly, At, Claims;
    if plan != [] {
      var n := |plan| - 1;
      IntervalsMeaning(img, sections, plan[..n], lo);
      forall p | 0 <= p < n
        ensures Claims(sections, plan, p) <==> Claims(sections, plan[..n], p)
      {
        ClaimsPrefix(sections, plan, p);
      }
      LastClaim(sections, plan, lo);
    }
  }

  lemma {:induction false} ClaimsPrefix(sections: seq<Section>, plan: seq<nat>, p: nat)
    requires Within(plan, |sections|) && p < |plan| - 1
    ensures Claims(sections, plan, p) <==> Claims(sections, plan[..|plan| - 1], p)
  {
  }

  /** The last position claims its start exactly when it is read-only and no earlier position has. */
  lemma {:induction false} LastClaim(sections: seq<Section>, plan: seq<nat>, lo: Word)
    requires Within(plan, |sections|) && plan != []
    ensures var n := |plan| - 1; var s := sections[plan[n]];
      && (Claims(sections, plan, n) <==> ReadOnly(s.name) && !Claimed(sections, plan[..n], s.range.start))
      && (Claimed(sections, plan, lo) <==>
            Claimed(sections, plan[..n], lo) || (Claims(sections, plan, n) && s.range.start == lo))
  {
    var n := |plan| - 1;
    var start := sections[plan[n]].range.start;
    if q :| 0 <= q < n && ReadOnly(sections[plan[q]].name) && sections[plan[q]].range.start == start {
      FirstClaim(sections, plan[..n], q);
    }
    if Claimed(sections, plan[..n], lo) {
      var p :| 0 <= p < n && Claims(sections, plan[..n], p) && sections[plan[p]].range.start == lo;
      ClaimsPrefix(sections, plan, p);
    }
    if Claimed(sections, plan, lo) && !(Claims(sections, plan, n) && start == lo) {
      var p :| 0 <= p < |plan| && Claims(sections, plan, p) && sections[plan[p]].range.start == lo;
      ClaimsPrefix(sections, plan, p);
    }
  }

  lemma {:induction false} FirstClaim(sections: seq<Section>, plan: seq<nat>, q: nat)
    requires Within(plan, |sections|) && q < |plan| && ReadOnly(sections[plan[q]].name)
    ensures Claimed(sections, plan, sections[plan[q]].range.start)
    decreases q
  {
    if !Claims(sections, plan, q) {
      var e :| 0 <= e < q && ReadOnly(sections[plan[e]].name)
        && sections[plan[e]].range.start == sections[plan[q]].range.start;
      FirstClaim(sections, plan, e);
    }
  }

  /** The addresses at which the interval for a section refuses a byte. */
  predicate Refuses(r: Range, a: Word) {
    r.start <= a <= At(r.start, |r.bytes|)
  }

  /** They are its own and the one after the last; but none at all when the end goes round the address space. */
  lemma {:induction false} RefusesIff(r: Range, a: Word)
    requires |r.bytes| < 0x1_0000_0000_0000_0000
    ensures Refuses(r, a) <==>
      r.start + |r.bytes| < 0x1_0000_0000_0000_0000 && (Covers(r, a) || a == At(r.start, |r.bytes|))
  {
  }

  /** The bytes of a section are protected exactly when its end does not go round. */
  lemma {:induction false} ProtectedIff(r: Range)
    requires |r.bytes| < 0x1_0000_0000_0000_0000
    ensures (forall a: Word | Covers(r, a) :: Refuses(r, a)) <==> r.start + |r.bytes| < 0x1_0000_0000_0000_0000
  {
    forall a: Word
      ensures Refuses(r, a) <==>
        r.start + |r.bytes| < 0x1_0000_0000_0000_0000 && (Covers(r, a) || a == At(r.start, |r.bytes|))
    {
      RefusesIff(r, a);
    }
    assert r.bytes != [] ==> Covers(r, r.start);
  }

  /** No section, whatever its place and size, has exactly its own bytes protected. */
  lemma {:induction false} ProtectionNeverExact(r: Range)
    requires |r.bytes| < 0x1_0000_0000_0000_0000
    ensures exists a: Word :: Refuses(r, a) != Covers(r, a)
  {
    var end := At(r.start, |r.bytes|);
    RefusesIff(r, r.start);
    RefusesIff(r, end);
    OffsetAt(end, r.start, |r.bytes|);
    if r.start + |r.bytes| < 0x1_0000_0000_0000_0000 {
      assert Refuses(r, end) != Covers(r, end);
    } else {
      assert Refuses(r, r.start) != Covers(r, r.start);
    }
  }

  /** Storing a byte after loading is refused exactly by the intervals of the read-only sections that claimed one. */
  lemma {:induction false} RefusedIff(sections: seq<Section>, segments: seq<Range>, a: Word)
    requires NamesFit(sections)
    ensures Within(Plan(sections), |sections|)
    ensures !Accepts(ReadElf(Image(map[], map[]), sections, segments).forbid, a, 1) <==>
      exists p :: 0 <= p < |Plan(sections)| && Claims(sections, Plan(sections), p)
                  && Refuses(sections[Plan(sections)[p]].range, a)
  {
    hide LoadSections, Claims, Plan, CopyAll;
    PlanWithin(sections, |sections|);
    var plan, empty := Plan(sections), Image(map[], map[]);
    var forbid := LoadSections(empty, sections, plan).forbid;
    AtAhead(a, 0);
    if Banned(forbid, a) {
      var lo :| lo in forbid && lo <= a <= forbid[lo];
      IntervalsMeaning(empty, sections, plan, lo);
    }
    if p :| 0 <= p < |plan| && Claims(sections, plan, p) && Refuses(sections[plan[p]].range, a) {
      IntervalsMeaning(empty, sections, plan, sections[plan[p]].range.start);
    }
  }

  /** A table whose third section, number 2, is read-only: it is numbered like its name, so it is what gets loaded. */
  lemma {:induction false} ThirdIsReadOnly(none: Section, text: Section, rodata: Section)
    requires none.name == "" && text.name == ".text" && rodata.name == ".rodata"
    ensures NamesFit([none, text, rodata])
    ensures ReadElf(Image(map[], map[]), [none, text, rodata], []).forbid
         == map[rodata.range.start := At(rodata.range.start, |rodata.range.bytes|)]
  {
    hide Plan, LoadSections, CopyAll, Copy, NameIndex, At;
    var sections := [none, text, rodata];
    ShortNames();
    PlanAppend([], none);
    PlanAppend([none], text);
    PlanAppend([none, text], rodata);
    assert [none] == [] + [none] && [none, text] == [none] + [text] && sections == [none, text] + [rodata];
    assert Plan(sections) == [] + [2] == [2];
    LoadsOne(sections, 2);
  }

  lemma {:induction false} ShortNames()
    ensures Plan([]) == []
    ensures NameIndex("") == 4 && NameIndex(".text") == 4 && NameIndex(".data") == 0 && NameIndex(".rodata") == 2
  {
  }

  lemma {:induction false} LoadsOne(sections: seq<Section>, k: nat)
    requires k < |sections|
    ensures LoadSections(Image(map[], map[]), sections, [k]) == LoadSection(Image(map[], map[]), sections[k])
  {
    assert [k][..0] == [];
  }

  /** Eight read-only bytes at 0x1000: a store to the byte after them, at 0x1008, is refused as well. */
  lemma {:induction false} NextByteRefused(none: Section, text: Section, rodata: Section)
    requires none.name == "" && text.name == ".text"
    requires rodata == Section(".rodata", Range(0x1000, [1, 2, 3, 4, 5, 6, 7, 8]))
    ensures NamesFit([none, text, rodata])
    ensures !Covers(rodata.range, 0x1008)
    ensures !Accepts(ReadElf(Image(map[], map[]), [none, text, rodata], []).forbid, 0x1008, 1)
  {
    hide ReadElf, NamesFit;
    ThirdIsReadOnly(none, text, rodata);
    var forbid := ReadElf(Image(map[], map[]), [none, text, rodata], []).forbid;
    assert 0x1000 in forbid && forbid[0x1000] == 0x1008;
  }

  /** Eight read-only bytes across the last address: a store to the first of them is accepted. */
  lemma {:induction false} EndGoesRound(none: Section, text: Section, rodata: Section)
    requires none.name == "" && text.name == ".text"
    requires rodata == Section(".rodata", Range(0xFFFF_FFFF_FFFF_FFFC, [1, 2, 3, 4, 5, 6, 7, 8]))
    ensures NamesFit([none, text, rodata])
    ensures Covers(rodata.range, 0xFFFF_FFFF_FFFF_FFFC)
    ensures Accepts(ReadElf(Image(map[], map[]), [none, text, rodata], []).forbid, 0xFFFF_FFFF_FFFF_FFFC, 1)
  {
    hide ReadElf, NamesFit;
    ThirdIsReadOnly(none, text, rodata);
    assert At(0xFFFF_FFFF_FFFF_FFFC, 0) == 0xFFFF_FFFF_FFFF_FFFC;
  }

  /** No other read-only section of the plan starts where section `k` does. */
  predicate OwnStart(sections: seq<Section>, plan: seq<nat>, k: nat)
    requires k < |sections|
  {
    forall p | 0 <= p < |plan| && k != plan[p] < |sections| && ReadOnly(sections[plan[p]].name) ::
      sections[plan[p]].range.start != sections[k].range.start
  }

  /** A read-only section whose start no other claims gets its own interval if and only if it is loaded. */
  lemma {:induction false} IntervalOf(img: Image, sections: seq<Section>, plan: seq<nat>, k: nat)
    requires Within(plan, |sections|) && k < |sections| && ReadOnly(sections[k].name)
    requires OwnStart(sections, plan, k) && sections[k].range.start !in img.forbid
    ensures var s := sections[k].range; var forbid := LoadSections(img, sections, plan).forbid;
      && (s.start in forbid <==> k in plan)
      && (k in plan ==> forbid[s.start] == At(s.start, |s.bytes|))
  {
    hide At, LoadSections;
    var lo := sections[k].range.start;
    IntervalsMeaning(img, sections, plan, lo);
    if k in plan {
      var p :| 0 <= p < |plan| && plan[p] == k;
      FirstClaim(sections, plan, p);
    }
  }

  /** When the sections loaded do not overlap each has its bytes in memory, whatever the segments hold. */
  lemma {:induction false} SectionHeld(sections: seq<Section>, segments: seq<Range>, k: nat, a: Word)
    requires NamesFit(sections) && ApartAmong(sections, Plan(sections))
    requires k < |sections| && Loaded(sections, k) && Covers(sections[k].range, a)
    ensures var mem := ReadElf(Image(map[], map[]), sections, segments).mem;
      a in mem && mem[a] == ByteOf(sections[k].range, a)
  {
    hide CopyAll, Covers, Plan, Ranges, Compatible, ApartAmong, Loaded;
    PlanWithin(sections, |sections|);
    PlanMeaning(sections);
    var plan := Plan(sections);
    var rs := Ranges(sections, plan);
    SectionsCopy(Image(map[], map[]), sections, plan);
    assert plan + [] == plan;
    SectionsCompatible(sections, plan, []);
    assert AllCompatible(rs) by {
      assert Ranges(sections, []) == [] && rs + [] == rs;
    }
    var p :| 0 <= p < |plan| && plan[p] == k;
    assert rs[p] == sections[k].range;
    AnyWriterAgrees(map[], rs, rs[p], a);
    FirstWriterWins(CopyAll(map[], rs), segments, a);
  }

  // ----- the wrong index -----

  /** Sections numbered 4 and above are never loaded, whatever they are called. */
  lemma {:induction false} LateSectionMissed(sections: seq<Section>, k: nat)
    requires |LOADER| <= k < |sections|
    requires sections[k].name in LOADER && sections[k].range.bytes != []
    ensures !RightSections(sections)
  {
  }

  /** A table with the null section first and `.data` third: section 0 is taken for it, and its byte stays out. */
  lemma {:induction false} DataSectionMissed(none: Section, text: Section, data: Section)
    requires none == Section("", Range(0, []))
    requires text == Section(".text", Range(0x2000, [1]))
    requires data == Section(".data", Range(0x1000, [7]))
    ensures NamesFit([none, text, data])
    ensures ReadElf(Image(map[], map[]), [none, text, data], []).mem == map[]
    ensures !RightSections([none, text, data])
  {
    hide Plan, LoadSections, CopyAll, Copy, NameIndex;
    var sections := [none, text, data];
    ShortNames();
    PlanAppend([], none);
    PlanAppend([none], text);
    PlanAppend([none, text], data);
    assert [none] == [] + [none] && [none, text] == [none] + [text] && sections == [none, text] + [data];
    assert Plan(sections) == [0];
    PlanMeaning(sections);
    assert 2 !in Plan(sections);
    assert sections[2].range.bytes != [] && sections[2].name in LOADER;
    NullLoadsNothing(sections);
  }

  lemma {:induction false} NullLoadsNothing(sections: seq<Section>)
    requires sections != [] && sections[0].range.bytes == []
    ensures LoadSections(Image(map[], map[]), sections, [0]).mem == map[]
    ensures CopyAll(map[], []) == map[]
  {
    assert [0][..0] == [];
  }
}
