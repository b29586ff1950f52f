/**
The instruction formats of the RISC-V unprivileged specification (version
20191213), sections 2.2 and 2.3, stated on 32-bit words with division and
remainder only.
*/
module Formats {
  import opened Words

  /** A number below `m` read as a two's-complement number. */
  function TwosComplement(v: int, m: int): int {
    if 2 * v >= m then v - m else v
  }

  type Register = x: int | 0 <= x < 32

  function Opcode(w: Word32): int {
    w % 0x80
  }

  function RdOf(w: Word32): Register {
    w / 0x80 % 0x20
  }

  function Funct3(w: Word32): int {
    w / 0x1000 % 8
  }

  function Rs1Of(w: Word32): Register {
    w / 0x8000 % 0x20
  }

  function Rs2Of(w: Word32): Register {
    w / 0x10_0000 % 0x20
  }

  function Funct7(w: Word32): int {
    w / 0x200_0000
  }

  function ImmI(w: Word32): int {
    TwosComplement(w / 0x10_0000, 0x1000)
  }

  function ImmS(w: Word32): int {
    TwosComplement(w / 0x200_0000 * 0x20 + w / 0x80 % 0x20, 0x1000)
  }

  function ImmB(w: Word32): int {
    TwosComplement(w / 0x8000_0000 * 0x1000
                   + (w / 0x100 % 0x10 * 2 + w / 0x200_0000 % 0x40 * 0x20 + w / 0x80 % 2 * 0x800), 0x2000)
  }

  function ImmU(w: Word32): int {
    TwosComplement(w / 0x1000 * 0x1000, 0x1_0000_0000)
  }

  function ImmJ(w: Word32): int {
    TwosComplement(w / 0x8000_0000 * 0x10_0000
                   + (w / 0x20_0000 % 0x400 * 2 + w / 0x10_0000 % 2 * 0x800 + w / 0x1000 % 0x100 * 0x1000), 0x20_0000)
  }

  // ----- assembling words -----

  type Major = x: int | 0 <= x < 0x80

  type Minor = x: int | 0 <= x < 8

  function EncodeI(imm: int, rs1: Register, f3: Minor, rd: Register, op: Major): Word32 {
    imm % 0x1000 * 0x10_0000 + rs1 * 0x8000 + f3 * 0x1000 + rd * 0x80 + op
  }

  function EncodeS(imm: int, rs2: Register, rs1: Register, f3: Minor, op: Major): Word32 {
    var u := imm % 0x1000;
    u / 0x20 * 0x200_0000 + rs2 * 0x10_0000 + rs1 * 0x8000 + f3 * 0x1000 + u % 0x20 * 0x80 + op
  }

  function EncodeB(imm: int, rs2: Register, rs1: Register, f3: Minor, op: Major): Word32 {
    var i := imm % 0x2000;
    i / 0x1000 * 0x8000_0000 + i / 0x20 % 0x40 * 0x200_0000 + rs2 * 0x10_0000 + rs1 * 0x8000 + f3 * 0x1000
    + i / 2 % 0x10 * 0x100 + i / 0x800 % 2 * 0x80 + op
  }

  function EncodeU(imm: int, rd: Register, op: Major): Word32 {
    imm % 0x1_0000_0000 / 0x1000 * 0x1000 + rd * 0x80 + op
  }

  function EncodeJ(imm: int, rd: Register, op: Major): Word32 {
    var i := imm % 0x20_0000;
    i / 0x10_0000 * 0x8000_0000 + i / 2 % 0x400 * 0x20_0000 + i / 0x800 % 2 * 0x10_0000
    + i / 0x1000 % 0x100 * 0x1000 + rd * 0x80 + op
  }

  // ----- taking words apart again -----

  /** The finest cut of a word that any format makes, bit 0 first. */
  datatype Chunks = Chunks(op: int, b7: int, b8: int, b12: int, b15: int, b20: int, b21: int, b25: int, b31: int)

  ghost predicate Cut(w: Word32, c: Chunks) {
    && 0 <= c.op < 0x80 && 0 <= c.b7 < 2 && 0 <= c.b8 < 0x10 && 0 <= c.b12 < 8 && 0 <= c.b15 < 0x20
    && 0 <= c.b20 < 2 && 0 <= c.b21 < 0x10 && 0 <= c.b25 < 0x40 && 0 <= c.b31 < 2
    && w == c.op + c.b7 * 0x80 + c.b8 * 0x100 + c.b12 * 0x1000 + c.b15 * 0x8000
         + c.b20 * 0x10_0000 + c.b21 * 0x20_0000 + c.b25 * 0x200_0000 + c.b31 * 0x8000_0000
  }

  lemma {:induction false} Pieces(w: Word32, c: Chunks)
    requires Cut(w, c)
    ensures Opcode(w) == c.op && Funct3(w) == c.b12 && Rs1Of(w) == c.b15
    ensures RdOf(w) == c.b7 + 2 * c.b8 && Rs2Of(w) == c.b20 + 2 * c.b21 && Funct7(w) == c.b25 + 0x40 * c.b31
    ensures w / 0x80 % 2 == c.b7 && w / 0x100 % 0x10 == c.b8 && w / 0x10_0000 % 2 == c.b20
    ensures w / 0x200_0000 % 0x40 == c.b25 && w / 0x8000_0000 == c.b31
    ensures w / 0x10_0000 == c.b20 + 2 * c.b21 + 0x20 * c.b25 + 0x800 * c.b31
    ensures w / 0x20_0000 % 0x400 == c.b21 + 0x10 * c.b25
    ensures w / 0x1000 % 0x100 == c.b12 + 8 * c.b15
    ensures w / 0x1000 * 0x1000 == w - c.op - c.b7 * 0x80 - c.b8 * 0x100
  {
    var q31 := c.b31;
    var q25 := c.b25 + 0x40 * q31;
    var q21 := c.b21 + 0x10 * q25;
    var q20 := c.b20 + 2 * q21;
    var q15 := c.b15 + 0x20 * q20;
    var q12 := c.b12 + 8 * q15;
    var q8 := c.b8 + 0x10 * q12;
    var q7 := c.b7 + 2 * q8;
    Quotient(w, 0x80, q7, c.op);
    Quotient(q7, 2, q8, c.b7);
    Quotient(q7, 0x20, q12, c.b7 + 2 * c.b8);
    Above(w, 0x80, 2, 0x100, q7, q8);
    Quotient(q8, 0x10, q12, c.b8);
    Above(w, 0x100, 0x10, 0x1000, q8, q12);
    Quotient(q12, 8, q15, c.b12);
    Quotient(q12, 0x100, q20, c.b12 + 8 * c.b15);
    Above(w, 0x1000, 8, 0x8000, q12, q15);
    Quotient(q15, 0x20, q20, c.b15);
    Above(w, 0x8000, 0x20, 0x10_0000, q15, q20);
    Quotient(q20, 2, q21, c.b20);
    Quotient(q20, 0x20, q25, c.b20 + 2 * c.b21);
    Above(w, 0x10_0000, 2, 0x20_0000, q20, q21);
    Quotient(q21, 0x10, q25, c.b21);
    Quotient(q21, 0x400, q31, c.b21 + 0x10 * c.b25);
    Above(w, 0x20_0000, 0x10, 0x200_0000, q21, q25);
    Quotient(q25, 0x40, q31, c.b25);
    Above(w, 0x200_0000, 0x40, 0x8000_0000, q25, q31);
  }

  lemma {:induction false} Above(w: int, p: int, q: int, pq: int, high: int, higher: int)
    requires p > 0 && q > 0 && pq == p * q
    requires w / p == high && high / q == higher
    ensures w / pq == higher
  {
    DivDiv(w, p, q);
  }

  /** The five immediates as sums of chunks. */
  lemma {:induction false} Immediates(w: Word32, c: Chunks)
    requires Cut(w, c)
    ensures ImmI(w) == TwosComplement(c.b20 + 2 * c.b21 + 0x20 * c.b25 + 0x800 * c.b31, 0x1000)
    ensures ImmS(w) == TwosComplement(c.b7 + 2 * c.b8 + 0x20 * c.b25 + 0x800 * c.b31, 0x1000)
    ensures ImmB(w) == TwosComplement(2 * c.b8 + 0x20 * c.b25 + 0x800 * c.b7 + 0x1000 * c.b31, 0x2000)
    ensures ImmU(w) == TwosComplement(w - c.op - c.b7 * 0x80 - c.b8 * 0x100, 0x1_0000_0000)
    ensures ImmJ(w) == TwosComplement(2 * c.b21 + 0x20 * c.b25 + 0x800 * c.b20 + 0x1000 * c.b12
                                      + 0x8000 * c.b15 + 0x10_0000 * c.b31, 0x20_0000)
  {
    hide TwosComplement, Cut;
    Pieces(w, c);
  }

  lemma {:induction false} TwosComplementOf(v: int, m: int)
    requires m > 0 && -m <= 2 * v < m
    ensures TwosComplement(v % m, m) == v
  {
    Quotient(v, m, if v < 0 then -1 else 0, if v < 0 then v + m else v);
  }

  // How each encoder lays its operands out, immediates as unsigned numbers.

  lemma {:induction false} ChunksI(u: int, rs1: Register, f3: Minor, rd: Register, op: Major) returns (c: Chunks)
    requires 0 <= u < 0x1000
    ensures 0 <= u * 0x10_0000 + rs1 * 0x8000 + f3 * 0x1000 + rd * 0x80 + op < 0x1_0000_0000
    ensures Cut(u * 0x10_0000 + rs1 * 0x8000 + f3 * 0x1000 + rd * 0x80 + op, c)
    ensures c.op == op && c.b7 + 2 * c.b8 == rd && c.b12 == f3 && c.b15 == rs1
    ensures c.b20 + 2 * c.b21 + 0x20 * c.b25 + 0x800 * c.b31 == u
  {
    c := Chunks(op, rd % 2, rd / 2, f3, rs1, u % 2, u / 2 % 0x10, u / 2 / 0x10 % 0x40, u / 2 / 0x10 / 0x40);
  }

  lemma {:induction false} ChunksS(u: int, rs2: Register, rs1: Register, f3: Minor, op: Major) returns (c: Chunks)
    requires 0 <= u < 0x1000
    ensures var w := u / 0x20 * 0x200_0000 + rs2 * 0x10_0000 + rs1 * 0x8000 + f3 * 0x1000 + u % 0x20 * 0x80 + op;
      0 <= w < 0x1_0000_0000 && Cut(w, c)
    ensures c.op == op && c.b20 + 2 * c.b21 == rs2 && c.b12 == f3 && c.b15 == rs1
    ensures c.b7 + 2 * c.b8 + 0x20 * c.b25 + 0x800 * c.b31 == u
  {
    var l, h := u % 0x20, u / 0x20;
    c := Chunks(op, l % 2, l / 2, f3, rs1, rs2 % 2, rs2 / 2, h % 0x40, h / 0x40);
  }

  lemma {:induction false} ChunksB(i: int, rs2: Register, rs1: Register, f3: Minor, op: Major) returns (c: Chunks)
    requires 0 <= i < 0x2000 && i % 2 == 0
    ensures c == Chunks(op, i / 0x800 % 2, i / 2 % 0x10, f3, rs1, rs2 % 2, rs2 / 2, i / 0x20 % 0x40, i / 0x1000)
    ensures var w := i / 0x1000 * 0x8000_0000 + i / 0x20 % 0x40 * 0x200_0000 + rs2 * 0x10_0000 + rs1 * 0x8000
                     + f3 * 0x1000 + i / 2 % 0x10 * 0x100 + i / 0x800 % 2 * 0x80 + op;
      0 <= w < 0x1_0000_0000 && Cut(w, c)
    ensures c.b20 + 2 * c.b21 == rs2
    ensures 2 * c.b8 + 0x20 * c.b25 + 0x800 * c.b7 + 0x1000 * c.b31 == i
  {
    Digits(i, 0x20, 0x40, 0x800);
    Digits(i, 0x800, 2, 0x1000);
    Digits(i, 2, 0x10, 0x20);
    c := Chunks(op, i / 0x800 % 2, i / 2 % 0x10, f3, rs1, rs2 % 2, rs2 / 2, i / 0x20 % 0x40, i / 0x1000);
  }

  lemma {:induction false} ChunksJ(i: int, rd: Register, op: Major) returns (c: Chunks)
    requires 0 <= i < 0x20_0000 && i % 2 == 0
    ensures var w := i / 0x10_0000 * 0x8000_0000 + i / 2 % 0x400 * 0x20_0000 + i / 0x800 % 2 * 0x10_0000
                     + i / 0x1000 % 0x100 * 0x1000 + rd * 0x80 + op;
      0 <= w < 0x1_0000_0000 && Cut(w, c)
    ensures c.op == op && c.b7 + 2 * c.b8 == rd
    ensures 2 * c.b21 + 0x20 * c.b25 + 0x800 * c.b20 + 0x1000 * c.b12 + 0x8000 * c.b15 + 0x10_0000 * c.b31 == i
  {
    Digits(i, 2, 0x400, 0x800);
    Digits(i, 0x800, 2, 0x1000);
    Digits(i, 0x1000, 0x100, 0x10_0000);
    c := SplitJ(i / 0x10_0000, i / 2 % 0x400, i / 0x800 % 2, i / 0x1000 % 0x100, rd, op);
  }

  lemma {:induction false} SplitJ(h: int, l: int, b: int, m: int, rd: Register, op: Major) returns (c: Chunks)
    requires 0 <= h < 2 && 0 <= l < 0x400 && 0 <= b < 2 && 0 <= m < 0x100
    ensures var w := h * 0x8000_0000 + l * 0x20_0000 + b * 0x10_0000 + m * 0x1000 + rd * 0x80 + op;
      0 <= w < 0x1_0000_0000 && Cut(w, c)
    ensures c.op == op && c.b7 + 2 * c.b8 == rd && c.b20 == b && c.b31 == h
    ensures c.b21 + 0x10 * c.b25 == l && c.b12 + 8 * c.b15 == m
  {
    c := Chunks(op, rd % 2, rd / 2, m % 8, m / 8, b, l % 0x10, l / 0x10, h);
  }

  lemma {:induction false} Digits(v: int, p: int, q: int, pq: int)
    requires p > 0 && q > 0 && pq == p * q
    ensures v / p == v / p % q + q * (v / pq)
  {
    DivDiv(v, p, q);
  }

  // Every in-range immediate and every field survives assembling and taking apart.

  lemma {:induction false} DecodeEncodeI(imm: int, rs1: Register, f3: Minor, rd: Register, op: Major)
    requires -0x800 <= imm < 0x800
    ensures var w := EncodeI(imm, rs1, f3, rd, op);
      ImmI(w) == imm && Rs1Of(w) == rs1 && Funct3(w) == f3 && RdOf(w) == rd && Opcode(w) == op
  {
    var c := ChunksI(imm % 0x1000, rs1, f3, rd, op);
    Pieces(EncodeI(imm, rs1, f3, rd, op), c);
    Immediates(EncodeI(imm, rs1, f3, rd, op), c);
    TwosComplementOf(imm, 0x1000);
  }

  lemma {:induction false} DecodeEncodeS(imm: int, rs2: Register, rs1: Register, f3: Minor, op: Major)
    requires -0x800 <= imm < 0x800
    ensures var w := EncodeS(imm, rs2, rs1, f3, op);
      ImmS(w) == imm && Rs2Of(w) == rs2 && Rs1Of(w) == rs1 && Funct3(w) == f3 && Opcode(w) == op
  {
    var c := ChunksS(imm % 0x1000, rs2, rs1, f3, op);
    Pieces(EncodeS(imm, rs2, rs1, f3, op), c);
    Immediates(EncodeS(imm, rs2, rs1, f3, op), c);
    TwosComplementOf(imm, 0x1000);
  }

  lemma {:induction false} DecodeEncodeB(imm: int, rs2: Register, rs1: Register, f3: Minor, op: Major)
    requires -0x1000 <= imm < 0x1000 && imm % 2 == 0
    ensures var w := EncodeB(imm, rs2, rs1, f3, op);
      ImmB(w) == imm && Rs2Of(w) == rs2 && Rs1Of(w) == rs1 && Funct3(w) == f3 && Opcode(w) == op
  {
    var c := ChunksB(imm % 0x2000, rs2, rs1, f3, op);
    Pieces(EncodeB(imm, rs2, rs1, f3, op), c);
    Immediates(EncodeB(imm, rs2, rs1, f3, op), c);
    TwosComplementOf(imm, 0x2000);
  }

  lemma {:induction false} DecodeEncodeU(imm: int, rd: Register, op: Major)
    requires -0x8000_0000 <= imm < 0x8000_0000 && imm % 0x1000 == 0
    ensures var w := EncodeU(imm, rd, op);
      ImmU(w) == imm && RdOf(w) == rd && Opcode(w) == op
  {
    var w, u := EncodeU(imm, rd, op), imm % 0x1_0000_0000;
    Quotient(w, 0x1000, u / 0x1000, rd * 0x80 + op);
    Quotient(w, 0x80, u / 0x1000 * 0x20 + rd, op);
    TwosComplementOf(imm, 0x1_0000_0000);
  }

  lemma {:induction false} DecodeEncodeJ(imm: int, rd: Register, op: Major)
    requires -0x10_0000 <= imm < 0x10_0000 && imm % 2 == 0
    ensures var w := EncodeJ(imm, rd, op);
      ImmJ(w) == imm && RdOf(w) == rd && Opcode(w) == op
  {
    var c := ChunksJ(imm % 0x20_0000, rd, op);
    Pieces(EncodeJ(imm, rd, op), c);
    Immediates(EncodeJ(imm, rd, op), c);
    TwosComplementOf(imm, 0x20_0000);
  }
}
