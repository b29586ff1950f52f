/**
The linear scan that names a fetched word, over any table that ends with the
catch-all entry.
*/
module Decoder {
  import opened Words
  import opened Encodings

  predicate Matches(bits: Word, d: Desc) {
    And(bits, d.mask) == d.want
  }

  /** Where a scan from the front stops. */
  predicate FirstMatch(table: seq<Desc>, bits: Word, i: int) {
    0 <= i < |table| && Matches(bits, table[i]) && forall j :: 0 <= j < i ==> !Matches(bits, table[j])
  }

  lemma {:induction false} EveryWordMatchesCatchAll(bits: Word)
    ensures Matches(bits, CatchAll())
  {
    AndZero(bits);
  }

  /** The scan, advancing an index until an entry matches; it never leaves the table. */
  method Scan(table: seq<Desc>, bits: Word) returns (p: nat)
    requires table != [] && table[|table| - 1] == CatchAll()
    ensures FirstMatch(table, bits, p)
  {
    EveryWordMatchesCatchAll(bits);
    p := 0;
    while And(bits, table[p].mask) != table[p].want
      invariant p < |table|
      invariant forall j :: 0 <= j < p ==> !Matches(bits, table[j])
      decreases |table| - p
    {
      p := p + 1;
    }
  }

  /** The instruction that a scan names, where `entries` are followed by the catch-all. */
  function Named(entries: seq<Desc>, bits: Word): Op {
    if entries == [] then ILLEGAL
    else if Matches(bits, entries[0]) then entries[0].op
    else Named(entries[1..], bits)
  }

  lemma {:induction false} ScanNames(entries: seq<Desc>, bits: Word, p: nat)
    requires FirstMatch(entries + [CatchAll()], bits, p)
    ensures (entries + [CatchAll()])[p].op == Named(entries, bits)
  {
    var table := entries + [CatchAll()];
    if entries != [] {
      assert table[0] == entries[0];
      if p > 0 {
        assert table[1..] == entries[1..] + [CatchAll()];
        MatchInRest(table, bits, p);
        ScanNames(entries[1..], bits, p - 1);
      }
    }
  }

  lemma {:induction false} MatchInRest(table: seq<Desc>, bits: Word, p: nat)
    requires p > 0 && FirstMatch(table, bits, p)
    ensures !Matches(bits, table[0])
    ensures FirstMatch(table[1..], bits, p - 1)
  {
    var rest := table[1..];
    assert forall j :: 0 <= j < |rest| ==> rest[j] == table[j + 1];
  }

  // ----- order independence -----

  /** No word matches two different entries. */
  ghost predicate Disjoint(entries: seq<Desc>) {
    forall d, e, bits: Word | d in entries && e in entries && Matches(bits, d) && Matches(bits, e) :: d == e
  }

  lemma {:induction false} NamedByAnEntry(entries: seq<Desc>, bits: Word)
    ensures (exists d :: d in entries && Matches(bits, d) && Named(entries, bits) == d.op)
         || (Named(entries, bits) == ILLEGAL && forall d :: d in entries ==> !Matches(bits, d))
  {
    if entries != [] && !Matches(bits, entries[0]) {
      NamedByAnEntry(entries[1..], bits);
    }
  }

  /** A disjoint table names a word by its one matching entry, wherever that entry stands. */
  lemma {:induction false} NamedByMatch(entries: seq<Desc>, bits: Word, d: Desc)
    requires Disjoint(entries) && d in entries && Matches(bits, d)
    ensures Named(entries, bits) == d.op
  {
    NamedByAnEntry(entries, bits);
  }

  /** Reordering a disjoint table, catch-all last, does not change what any word is named. */
  lemma {:induction false} OrderIndependent(entries: seq<Desc>, other: seq<Desc>, bits: Word)
    requires Disjoint(entries)
    requires multiset(entries) == multiset(other)
    ensures Named(other, bits) == Named(entries, bits)
  {
    assert forall d :: d in entries <==> d in multiset(entries);
    assert forall d :: d in other <==> d in multiset(other);
    NamedByAnEntry(entries, bits);
    if d :| d in entries && Matches(bits, d) && Named(entries, bits) == d.op {
      NamedByMatch(other, bits, d);
    } else {
      NamedByAnEntry(other, bits);
    }
  }
}
