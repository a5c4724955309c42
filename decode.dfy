/** The four RV32I base instruction formats (RISC-V Unprivileged ISA,
    sections 2.2 and 2.3): field extraction from a 32-bit word and the
    reassembly of the scattered branch and jump immediates.

    A field `(inst >> lo) & (2^w - 1)` is written `(inst / 2^lo) % 2^w`
    (see Bits.MaskIsMod); the immediates are reassembled with `BitOr`
    exactly as simulator.py does, and `RawImmB`/`RawImmJ` show that the OR of
    those non-overlapping pieces is their sum. */
module Decode {
  import opened Bits

  datatype IType = IType(rd: nat, funct3: nat, rs1: nat, imm: int)
  datatype RType = RType(rd: nat, funct3: nat, rs1: nat, rs2: nat, funct7: nat)
  datatype BType = BType(funct3: nat, rs1: nat, rs2: nat, imm: int)
  datatype JType = JType(rd: nat, imm: int)

  /** The low 7 bits of a word: `inst & 0x7F`. */
  function Opcode(inst: Word): (op: nat)
    ensures op < 0x80 && (inst - op) % 0x80 == 0
  {
    inst % 0x80
  }

  function DecodeI(inst: Word): (f: IType)
    ensures f.rd < 32 && f.funct3 < 8 && f.rs1 < 32
    ensures -2048 <= f.imm <= 2047
  {
    Pow2Constants();
    SignExtendRange((inst / 0x10_0000) % 0x1000, 12);
    IType((inst / 0x80) % 0x20, (inst / 0x1000) % 0x8, (inst / 0x8000) % 0x20,
          SignExtend((inst / 0x10_0000) % 0x1000, 12))
  }

  function DecodeR(inst: Word): (f: RType)
    ensures f.rd < 32 && f.funct3 < 8 && f.rs1 < 32 && f.rs2 < 32 && f.funct7 < 128
  {
    RType((inst / 0x80) % 0x20, (inst / 0x1000) % 0x8, (inst / 0x8000) % 0x20,
          (inst / 0x10_0000) % 0x20, (inst / 0x200_0000) % 0x80)
  }

  /** The unsigned 13-bit branch offset: inst[31] -> bit 12, inst[7] -> bit 11,
      inst[30:25] -> bits 10..5, inst[11:8] -> bits 4..1, bit 0 zero. */
  function RawImmB(inst: Word): nat
  {
    BitOr(BitOr(BitOr(((inst / 0x8000_0000) % 0x2) * 0x1000, ((inst / 0x80) % 0x2) * 0x800),
                ((inst / 0x200_0000) % 0x40) * 0x20),
          ((inst / 0x100) % 0x10) * 0x2)
  }

  lemma RawImmBSum(inst: Word)
    ensures RawImmB(inst) == ((inst / 0x8000_0000) % 0x2) * 0x1000 + ((inst / 0x80) % 0x2) * 0x800
                             + ((inst / 0x200_0000) % 0x40) * 0x20 + ((inst / 0x100) % 0x10) * 0x2
    ensures RawImmB(inst) < 0x2000 && RawImmB(inst) % 2 == 0
  {
    var b12, b11 := (inst / 0x8000_0000) % 0x2, (inst / 0x80) % 0x2;
    var b10to5, b4to1 := (inst / 0x200_0000) % 0x40, (inst / 0x100) % 0x10;
    OrOfBPieces(b12, b11, b10to5, b4to1);
    var half := b12 * 0x800 + b11 * 0x400 + b10to5 * 0x10 + b4to1;
    MultipleMod(half, 2);
    assert RawImmB(inst) == half * 2;
  }

  lemma OrOfBPieces(b12: nat, b11: nat, b10to5: nat, b4to1: nat)
    requires b12 < 2 && b11 < 2 && b10to5 < 0x40 && b4to1 < 0x10
    ensures BitOr(BitOr(BitOr(b12 * 0x1000, b11 * 0x800), b10to5 * 0x20), b4to1 * 0x2)
            == b12 * 0x1000 + b11 * 0x800 + b10to5 * 0x20 + b4to1 * 0x2
  {
    var a, b, c, d := b12 * 0x1000, b11 * 0x800, b10to5 * 0x20, b4to1 * 0x2;
    Pow2Constants();
    assert Pow2(5) == 0x20 by { Pow2Succ(4); }
    MultipleMod(b12, 0x1000);
    assert a + b == (b12 * 2 + b11) * 0x800;
    MultipleMod(b12 * 2 + b11, 0x800);
    assert a + b + c == (b12 * 0x80 + b11 * 0x40 + b10to5) * 0x20;
    MultipleMod(b12 * 0x80 + b11 * 0x40 + b10to5, 0x20);
    OrInOrder(a, b, c, d, 12, 11, 5, 0x1000, 0x800, 0x20);
  }

  /** Four pieces ORed left to right, each one fitting below the bits
      already set (p1, p2, p3 are 2^k1, 2^k2, 2^k3). */
  lemma OrInOrder(a: nat, b: nat, c: nat, d: nat, k1: nat, k2: nat, k3: nat, p1: int, p2: int, p3: int)
    requires p1 == Pow2(k1) && p2 == Pow2(k2) && p3 == Pow2(k3)
    requires a % p1 == 0 && b < p1
    requires (a + b) % p2 == 0 && c < p2
    requires (a + b + c) % p3 == 0 && d < p3
    ensures BitOr(BitOr(BitOr(a, b), c), d) == a + b + c + d
  {
    var ab := BitOr(a, b);
    BitOrAlignedTo(a, b, k1, p1);
    var abc := BitOr(ab, c);
    BitOrAlignedTo(ab, c, k2, p2);
    BitOrAlignedTo(abc, d, k3, p3);
  }

  lemma ImmBRange(inst: Word)
    ensures -4096 <= SignExtend(RawImmB(inst), 13) <= 4094
    ensures SignExtend(RawImmB(inst), 13) % 2 == 0
  {
    RawImmBSum(inst);
    Pow2Constants();
    SignedEvenField(RawImmB(inst), 13);
  }

  /** An even `bits`-wide field sign-extends to an even value of the signed
      range with the lowest value bumped up to the next even one. */
  lemma SignedEvenField(u: nat, bits: nat)
    requires bits >= 2 && u < Pow2(bits) && u % 2 == 0
    ensures -Pow2(bits - 1) <= SignExtend(u, bits) <= Pow2(bits - 1) - 2
    ensures SignExtend(u, bits) % 2 == 0
  {
    SignExtendRange(u, bits);
    SignExtendEven(u, bits);
    Pow2Succ(bits - 2);
  }

  /** An even field sign-extends to an even value. */
  lemma SignExtendEven(u: nat, bits: nat)
    requires bits >= 2 && u % 2 == 0
    ensures SignExtend(u, bits) % 2 == 0
  {
    var p := Pow2(bits - 1);
    assert Pow2(bits) == 2 * p;
    var s := SignExtend(u, bits);
    if s != u {
      assert s == u - 2 * p;
      assert u == 2 * (u / 2);
      MultipleMod(u / 2 - p, 2);
      assert s == (u / 2 - p) * 2;
    }
  }

  function DecodeB(inst: Word): (f: BType)
    ensures f.funct3 < 8 && f.rs1 < 32 && f.rs2 < 32
    ensures -4096 <= f.imm <= 4094 && f.imm % 2 == 0
  {
    ImmBRange(inst);
    BType((inst / 0x1000) % 0x8, (inst / 0x8000) % 0x20, (inst / 0x10_0000) % 0x20,
          SignExtend(RawImmB(inst), 13))
  }

  /** The unsigned 21-bit jump offset: inst[31] -> bit 20, inst[30:21] ->
      bits 10..1, inst[20] -> bit 11, inst[19:12] -> bits 19..12, bit 0 zero. */
  function RawImmJ(inst: Word): nat
  {
    BitOr(BitOr(BitOr(((inst / 0x8000_0000) % 0x2) * 0x10_0000, ((inst / 0x20_0000) % 0x400) * 0x2),
                ((inst / 0x10_0000) % 0x2) * 0x800),
          ((inst / 0x1000) % 0x100) * 0x1000)
  }

  lemma RawImmJSum(inst: Word)
    ensures RawImmJ(inst) == ((inst / 0x8000_0000) % 0x2) * 0x10_0000 + ((inst / 0x20_0000) % 0x400) * 0x2
                             + ((inst / 0x10_0000) % 0x2) * 0x800 + ((inst / 0x1000) % 0x100) * 0x1000
    ensures RawImmJ(inst) < 0x20_0000 && RawImmJ(inst) % 2 == 0
  {
    var b20, b10to1 := (inst / 0x8000_0000) % 0x2, (inst / 0x20_0000) % 0x400;
    var b11, b19to12 := (inst / 0x10_0000) % 0x2, (inst / 0x1000) % 0x100;
    OrOfJPieces(b20, b10to1, b11, b19to12);
    var half := b20 * 0x8_0000 + b10to1 + b11 * 0x400 + b19to12 * 0x800;
    MultipleMod(half, 2);
    assert RawImmJ(inst) == half * 2;
  }

  lemma OrOfJPieces(b20: nat, b10to1: nat, b11: nat, b19to12: nat)
    requires b20 < 2 && b10to1 < 0x400 && b11 < 2 && b19to12 < 0x100
    ensures BitOr(BitOr(BitOr(b20 * 0x10_0000, b10to1 * 0x2), b11 * 0x800), b19to12 * 0x1000)
            == b20 * 0x10_0000 + b10to1 * 0x2 + b11 * 0x800 + b19to12 * 0x1000
  {
    Pow2Constants();
    MultipleMod(b11, 0x800);
    MultipleMod(b19to12, 0x1000);
    MultipleMod(b20, 0x10_0000);
    OrRegrouped(b20 * 0x10_0000, b10to1 * 0x2, b11 * 0x800, b19to12 * 0x1000);
  }

  /** The jump pieces are ORed out of bit order (bit 20, bits 10..1, bit 11,
      bits 19..12); regrouping as a | (d | (c | b)) puts them in order. */
  lemma OrRegrouped(a: nat, b: nat, c: nat, d: nat)
    requires c % 0x800 == 0 && b < 0x800
    requires d % 0x1000 == 0 && c + b < 0x1000
    requires a % 0x10_0000 == 0 && d + c + b < 0x10_0000
    ensures BitOr(BitOr(BitOr(a, b), c), d) == a + b + c + d
  {
    Pow2Constants();
    BitOrAssociates(a, b, c);
    BitOrCommutes(b, c);
    BitOrAlignedTo(c, b, 11, 0x800);
    var cb := c + b;
    var dcb := d + cb;
    var abc := BitOr(BitOr(a, b), c);
    assert abc == BitOr(a, cb);
    BitOrAssociates(a, cb, d);
    BitOrCommutes(cb, d);
    BitOrAlignedTo(d, cb, 12, 0x1000);
    assert BitOr(abc, d) == BitOr(a, dcb);
    BitOrAlignedTo(a, dcb, 20, 0x10_0000);
  }

  lemma ImmJRange(inst: Word)
    ensures -0x10_0000 <= SignExtend(RawImmJ(inst), 21) <= 0x0F_FFFE
    ensures SignExtend(RawImmJ(inst), 21) % 2 == 0
  {
    RawImmJSum(inst);
    Pow2Constants();
    SignedEvenField(RawImmJ(inst), 21);
  }

  function DecodeJ(inst: Word): (f: JType)
    ensures f.rd < 32
    ensures -0x10_0000 <= f.imm <= 0x0F_FFFE && f.imm % 2 == 0
  {
    ImmJRange(inst);
    JType((inst / 0x80) % 0x20, SignExtend(RawImmJ(inst), 21))
  }

  // ----- encoders: the inverse of each decoder -----

  predicate ValidI(f: IType)
  {
    f.rd < 32 && f.funct3 < 8 && f.rs1 < 32 && -2048 <= f.imm <= 2047
  }

  predicate ValidR(f: RType)
  {
    f.rd < 32 && f.funct3 < 8 && f.rs1 < 32 && f.rs2 < 32 && f.funct7 < 128
  }

  predicate ValidB(f: BType)
  {
    f.funct3 < 8 && f.rs1 < 32 && f.rs2 < 32 && -4096 <= f.imm <= 4094 && f.imm % 2 == 0
  }

  predicate ValidJ(f: JType)
  {
    f.rd < 32 && -0x10_0000 <= f.imm <= 0x0F_FFFE && f.imm % 2 == 0
  }

  function EncodeI(op: nat, f: IType): Word
    requires op < 0x80 && ValidI(f)
  {
    (f.imm % 0x1000) * 0x10_0000 + f.rs1 * 0x8000 + f.funct3 * 0x1000 + f.rd * 0x80 + op
  }

  function EncodeR(op: nat, f: RType): Word
    requires op < 0x80 && ValidR(f)
  {
    f.funct7 * 0x200_0000 + f.rs2 * 0x10_0000 + f.rs1 * 0x8000 + f.funct3 * 0x1000 + f.rd * 0x80 + op
  }

  function EncodeB(op: nat, f: BType): Word
    requires op < 0x80 && ValidB(f)
  {
    var u := f.imm % 0x2000;
    (u / 0x1000) * 0x8000_0000 + ((u / 0x20) % 0x40) * 0x200_0000
    + f.rs2 * 0x10_0000 + f.rs1 * 0x8000 + f.funct3 * 0x1000
    + ((u / 0x2) % 0x10) * 0x100 + ((u / 0x800) % 0x2) * 0x80 + op
  }

  function EncodeJ(op: nat, f: JType): Word
    requires op < 0x80 && ValidJ(f)
  {
    var u := f.imm % 0x20_0000;
    (u / 0x10_0000) * 0x8000_0000 + ((u / 0x2) % 0x400) * 0x20_0000
    + ((u / 0x800) % 0x2) * 0x10_0000 + ((u / 0x1000) % 0x100) * 0x1000
    + f.rd * 0x80 + op
  }

  // ----- the decoders and encoders are mutually inverse -----

  /** Every R-type field and the opcode come back out of an encoded word. */
  lemma DecodeEncodeR(op: nat, f: RType)
    requires op < 0x80 && ValidR(f)
    ensures Opcode(EncodeR(op, f)) == op && DecodeR(EncodeR(op, f)) == f
  {
    var w := EncodeR(op, f);
    Extract(w, 0x1, 0x80, f.funct7 * 0x4_0000 + f.rs2 * 0x2000 + f.rs1 * 0x100 + f.funct3 * 0x20 + f.rd, op, 0);
    Extract(w, 0x80, 0x20, f.funct7 * 0x2000 + f.rs2 * 0x100 + f.rs1 * 0x8 + f.funct3, f.rd, op);
    Extract(w, 0x1000, 0x8, f.funct7 * 0x400 + f.rs2 * 0x20 + f.rs1, f.funct3, f.rd * 0x80 + op);
    Extract(w, 0x8000, 0x20, f.funct7 * 0x20 + f.rs2, f.rs1, f.funct3 * 0x1000 + f.rd * 0x80 + op);
    Extract(w, 0x10_0000, 0x20, f.funct7, f.rs2, f.rs1 * 0x8000 + f.funct3 * 0x1000 + f.rd * 0x80 + op);
    Extract(w, 0x200_0000, 0x80, 0, f.funct7, f.rs2 * 0x10_0000 + f.rs1 * 0x8000 + f.funct3 * 0x1000 + f.rd * 0x80 + op);
  }

  /** Every 32-bit word is the encoding of its own R-type fields: the
      R format covers all 32 bits. */
  lemma EncodeDecodeR(w: Word)
    ensures EncodeR(Opcode(w), DecodeR(w)) == w
  {
    var f := DecodeR(w);
    var q1, q2, q3, q4, q5 := w / 0x80, w / 0x1000, w / 0x8000, w / 0x10_0000, w / 0x200_0000;
    assert w == Opcode(w) + 0x80 * q1 by { NextDigit(w, 0x1, 0x80, 0x80); }
    assert q1 == f.rd + 0x20 * q2 by { NextDigit(w, 0x80, 0x20, 0x1000); }
    assert q2 == f.funct3 + 0x8 * q3 by { NextDigit(w, 0x1000, 0x8, 0x8000); }
    assert q3 == f.rs1 + 0x20 * q4 by { NextDigit(w, 0x8000, 0x20, 0x100000); }
    assert q4 == f.rs2 + 0x20 * q5 by { NextDigit(w, 0x10_0000, 0x20, 0x2000000); }
    assert q5 == f.funct7 by { NextDigit(w, 0x200_0000, 0x80, 0x100000000); }
  }

  lemma DecodeEncodeI(op: nat, f: IType)
    requires op < 0x80 && ValidI(f)
    ensures Opcode(EncodeI(op, f)) == op && DecodeI(EncodeI(op, f)) == f
  {
    var w := EncodeI(op, f);
    var u := f.imm % 0x1000;
    Extract(w, 0x1, 0x80, u * 0x2000 + f.rs1 * 0x100 + f.funct3 * 0x20 + f.rd, op, 0);
    Extract(w, 0x80, 0x20, u * 0x100 + f.rs1 * 0x8 + f.funct3, f.rd, op);
    Extract(w, 0x1000, 0x8, u * 0x20 + f.rs1, f.funct3, f.rd * 0x80 + op);
    Extract(w, 0x8000, 0x20, u, f.rs1, f.funct3 * 0x1000 + f.rd * 0x80 + op);
    Extract(w, 0x10_0000, 0x1000, 0, u, f.rs1 * 0x8000 + f.funct3 * 0x1000 + f.rd * 0x80 + op);
    Pow2Constants();
    SignExtendTruncate(f.imm, 12);
  }

  lemma EncodeDecodeI(w: Word)
    ensures EncodeI(Opcode(w), DecodeI(w)) == w
  {
    Pow2Constants();
    SignExtendRange((w / 0x10_0000) % 0x1000, 12);
    NextDigit(w, 0x1, 0x80, 0x80);
    NextDigit(w, 0x80, 0x20, 0x1000);
    NextDigit(w, 0x1000, 0x8, 0x8000);
    NextDigit(w, 0x8000, 0x20, 0x100000);
    NextDigit(w, 0x10_0000, 0x1000, 0x100000000);
  }

  lemma DecodeEncodeB(op: nat, f: BType)
    requires op < 0x80 && ValidB(f)
    ensures Opcode(EncodeB(op, f)) == op && DecodeB(EncodeB(op, f)) == f
  {
    var w := EncodeB(op, f);
    var u := f.imm % 0x2000;
    var b12, b10to5 := u / 0x1000, (u / 0x20) % 0x40;
    var b4to1, b11 := (u / 0x2) % 0x10, (u / 0x800) % 0x2;
    Pow2Constants();
    SignExtendTruncate(f.imm, 13);
    ImmDigitsB(u);
    FieldsB(w, b12, b10to5, f.rs2, f.rs1, f.funct3, b4to1, b11, op);
    RawImmBSum(w);
    assert RawImmB(w) == u;
    assert SignExtend(u, 13) == f.imm;
  }

  /** Every 32-bit word is the B encoding of its own fields: the B format
      covers all 32 bits. */
  lemma EncodeDecodeB(w: Word)
    ensures EncodeB(Opcode(w), DecodeB(w)) == w
  {
    var u := RawImmB(w);
    RawImmBSum(w);
    Pow2Constants();
    SignExtendRange(u, 13);
    var b12, b11 := (w / 0x8000_0000) % 0x2, (w / 0x80) % 0x2;
    var b10to5, b4to1 := (w / 0x200_0000) % 0x40, (w / 0x100) % 0x10;
    assert SignExtend(u, 13) % 0x2000 == u;
    Extract(u, 0x2, 0x10, b12 * 0x80 + b11 * 0x40 + b10to5, b4to1, 0);
    Extract(u, 0x20, 0x40, b12 * 0x2 + b11, b10to5, b4to1 * 0x2);
    Extract(u, 0x800, 0x2, b12, b11, b10to5 * 0x20 + b4to1 * 0x2);
    Extract(u, 0x1000, 0x2, 0, b12, b11 * 0x800 + b10to5 * 0x20 + b4to1 * 0x2);
    WordDigitsB(w);
  }

  /** A word cut along the B-format field boundaries. */
  lemma WordDigitsB(w: Word)
    ensures w == ((w / 0x8000_0000) % 0x2) * 0x8000_0000 + ((w / 0x200_0000) % 0x40) * 0x200_0000
                 + ((w / 0x10_0000) % 0x20) * 0x10_0000 + ((w / 0x8000) % 0x20) * 0x8000
                 + ((w / 0x1000) % 0x8) * 0x1000 + ((w / 0x100) % 0x10) * 0x100
                 + ((w / 0x80) % 0x2) * 0x80 + w % 0x80
  {
    NextDigit(w, 0x1, 0x80, 0x80);
    NextDigit(w, 0x80, 0x2, 0x100);
    NextDigit(w, 0x100, 0x10, 0x1000);
    NextDigit(w, 0x1000, 0x8, 0x8000);
    NextDigit(w, 0x8000, 0x20, 0x10_0000);
    NextDigit(w, 0x10_0000, 0x20, 0x200_0000);
    NextDigit(w, 0x200_0000, 0x40, 0x8000_0000);
    NextDigit(w, 0x8000_0000, 0x2, 0x1_0000_0000);
  }

  /** Reading each B-format field back out of a word assembled from them. */
  lemma FieldsB(w: int, b12: int, b10to5: int, rs2: int, rs1: int, funct3: int, b4to1: int, b11: int, op: int)
    requires 0 <= b12 < 2 && 0 <= b10to5 < 0x40 && 0 <= rs2 < 0x20 && 0 <= rs1 < 0x20
    requires 0 <= funct3 < 8 && 0 <= b4to1 < 0x10 && 0 <= b11 < 2 && 0 <= op < 0x80
    requires w == b12 * 0x8000_0000 + b10to5 * 0x200_0000 + rs2 * 0x10_0000 + rs1 * 0x8000
                  + funct3 * 0x1000 + b4to1 * 0x100 + b11 * 0x80 + op
    ensures w % 0x80 == op && (w / 0x80) % 0x2 == b11 && (w / 0x100) % 0x10 == b4to1
    ensures (w / 0x1000) % 0x8 == funct3 && (w / 0x8000) % 0x20 == rs1
    ensures (w / 0x10_0000) % 0x20 == rs2 && (w / 0x200_0000) % 0x40 == b10to5
    ensures (w / 0x8000_0000) % 0x2 == b12
  {
    Extract(w, 0x1, 0x80, b12 * 0x100_0000 + b10to5 * 0x4_0000 + rs2 * 0x2000 + rs1 * 0x100
                          + funct3 * 0x20 + b4to1 * 0x2 + b11, op, 0);
    Extract(w, 0x80, 0x2, b12 * 0x80_0000 + b10to5 * 0x2_0000 + rs2 * 0x1000 + rs1 * 0x80
                          + funct3 * 0x10 + b4to1, b11, op);
    Extract(w, 0x100, 0x10, b12 * 0x8_0000 + b10to5 * 0x2000 + rs2 * 0x100 + rs1 * 0x8 + funct3,
            b4to1, b11 * 0x80 + op);
    Extract(w, 0x1000, 0x8, b12 * 0x1_0000 + b10to5 * 0x400 + rs2 * 0x20 + rs1,
            funct3, b4to1 * 0x100 + b11 * 0x80 + op);
    Extract(w, 0x8000, 0x20, b12 * 0x800 + b10to5 * 0x20 + rs2, rs1,
            funct3 * 0x1000 + b4to1 * 0x100 + b11 * 0x80 + op);
    Extract(w, 0x10_0000, 0x20, b12 * 0x40 + b10to5, rs2,
            rs1 * 0x8000 + funct3 * 0x1000 + b4to1 * 0x100 + b11 * 0x80 + op);
    var low := rs2 * 0x10_0000 + rs1 * 0x8000 + funct3 * 0x1000 + b4to1 * 0x100 + b11 * 0x80 + op;
    Extract(w, 0x200_0000, 0x40, b12, b10to5, low);
    Extract(w, 0x8000_0000, 0x2, 0, b12, b10to5 * 0x200_0000 + low);
  }

  lemma DecodeEncodeJ(op: nat, f: JType)
    requires op < 0x80 && ValidJ(f)
    ensures Opcode(EncodeJ(op, f)) == op && DecodeJ(EncodeJ(op, f)) == f
  {
    var w := EncodeJ(op, f);
    var u := f.imm % 0x20_0000;
    var b20, b10to1 := u / 0x10_0000, (u / 0x2) % 0x400;
    var b11, b19to12 := (u / 0x800) % 0x2, (u / 0x1000) % 0x100;
    Pow2Constants();
    SignExtendTruncate(f.imm, 21);
    ImmDigitsJ(u);
    FieldsJ(w, b20, b10to1, b11, b19to12, f.rd, op);
    RawImmJSum(w);
    assert RawImmJ(w) == u;
    assert SignExtend(u, 21) == f.imm;
  }

  /** Reading each J-format field back out of a word assembled from them. */
  lemma FieldsJ(w: int, b20: int, b10to1: int, b11: int, b19to12: int, rd: int, op: int)
    requires 0 <= b20 < 2 && 0 <= b10to1 < 0x400 && 0 <= b11 < 2 && 0 <= b19to12 < 0x100
    requires 0 <= rd < 0x20 && 0 <= op < 0x80
    requires w == b20 * 0x8000_0000 + b10to1 * 0x20_0000 + b11 * 0x10_0000 + b19to12 * 0x1000
                  + rd * 0x80 + op
    ensures w % 0x80 == op && (w / 0x80) % 0x20 == rd && (w / 0x1000) % 0x100 == b19to12
    ensures (w / 0x10_0000) % 0x2 == b11 && (w / 0x20_0000) % 0x400 == b10to1
    ensures (w / 0x8000_0000) % 0x2 == b20
  {
    Extract(w, 0x1, 0x80, b20 * 0x100_0000 + b10to1 * 0x4000 + b11 * 0x2000 + b19to12 * 0x20 + rd, op, 0);
    Extract(w, 0x80, 0x20, b20 * 0x8_0000 + b10to1 * 0x200 + b11 * 0x100 + b19to12, rd, op);
    Extract(w, 0x1000, 0x100, b20 * 0x800 + b10to1 * 0x2 + b11, b19to12, rd * 0x80 + op);
    Extract(w, 0x10_0000, 0x2, b20 * 0x400 + b10to1, b11, b19to12 * 0x1000 + rd * 0x80 + op);
    var low := b11 * 0x10_0000 + b19to12 * 0x1000 + rd * 0x80 + op;
    Extract(w, 0x20_0000, 0x400, b20, b10to1, low);
    Extract(w, 0x8000_0000, 0x2, 0, b20, b10to1 * 0x20_0000 + low);
  }

  lemma EncodeDecodeJ(w: Word)
    ensures EncodeJ(Opcode(w), DecodeJ(w)) == w
  {
    var u := RawImmJ(w);
    RawImmJSum(w);
    Pow2Constants();
    SignExtendRange(u, 21);
    var b20, b10to1 := (w / 0x8000_0000) % 0x2, (w / 0x20_0000) % 0x400;
    var b11, b19to12 := (w / 0x10_0000) % 0x2, (w / 0x1000) % 0x100;
    assert SignExtend(u, 21) % 0x20_0000 == u;
    Extract(u, 0x2, 0x400, b20 * 0x200 + b19to12 * 0x2 + b11, b10to1, 0);
    Extract(u, 0x800, 0x2, b20 * 0x100 + b19to12, b11, b10to1 * 0x2);
    Extract(u, 0x1000, 0x100, b20, b19to12, b11 * 0x800 + b10to1 * 0x2);
    Extract(u, 0x10_0000, 0x2, 0, b20, b19to12 * 0x1000 + b11 * 0x800 + b10to1 * 0x2);
    WordDigitsJ(w);
  }

  /** A word cut along the J-format field boundaries. */
  lemma WordDigitsJ(w: Word)
    ensures w == ((w / 0x8000_0000) % 0x2) * 0x8000_0000 + ((w / 0x20_0000) % 0x400) * 0x20_0000
                 + ((w / 0x10_0000) % 0x2) * 0x10_0000 + ((w / 0x1000) % 0x100) * 0x1000
                 + ((w / 0x80) % 0x20) * 0x80 + w % 0x80
  {
    NextDigit(w, 0x1, 0x80, 0x80);
    NextDigit(w, 0x80, 0x20, 0x1000);
    NextDigit(w, 0x1000, 0x100, 0x10_0000);
    NextDigit(w, 0x10_0000, 0x2, 0x20_0000);
    NextDigit(w, 0x20_0000, 0x400, 0x8000_0000);
    NextDigit(w, 0x8000_0000, 0x2, 0x1_0000_0000);
  }

  /** The digits of an even 13-bit branch offset. */
  lemma ImmDigitsB(u: int)
    requires 0 <= u < 0x2000 && u % 2 == 0
    ensures u == (u / 0x1000) * 0x1000 + ((u / 0x800) % 0x2) * 0x800
                 + ((u / 0x20) % 0x40) * 0x20 + ((u / 0x2) % 0x10) * 0x2
    ensures u / 0x1000 < 2
  {
    NextDigit(u, 0x1, 0x2, 0x2);
    NextDigit(u, 0x2, 0x10, 0x20);
    NextDigit(u, 0x20, 0x40, 0x800);
    NextDigit(u, 0x800, 0x2, 0x1000);
  }

  /** The digits of an even 21-bit jump offset. */
  lemma ImmDigitsJ(u: int)
    requires 0 <= u < 0x20_0000 && u % 2 == 0
    ensures u == (u / 0x10_0000) * 0x10_0000 + ((u / 0x1000) % 0x100) * 0x1000
                 + ((u / 0x800) % 0x2) * 0x800 + ((u / 0x2) % 0x400) * 0x2
    ensures u / 0x10_0000 < 2
  {
    NextDigit(u, 0x1, 0x2, 0x2);
    NextDigit(u, 0x2, 0x400, 0x800);
    NextDigit(u, 0x800, 0x2, 0x1000);
    NextDigit(u, 0x1000, 0x100, 0x100000);
  }

  /** Peeling one digit of base m off `w / p`. */
  lemma NextDigit(w: int, p: int, m: int, pm: int)
    requires p > 0 && m > 0 && pm == p * m
    ensures w / p == (w / p) % m + m * (w / pm)
  {
    SplitDigit(w, p, m);
  }

  // ----- field arithmetic -----

  /** A digit `x` of base `m` sitting at place value `p` is read back by
      `(w / p) % m`. */
  lemma Extract(w: int, p: int, m: int, hi: int, x: int, lo: int)
    requires p > 0 && m > 0 && 0 <= x < m && 0 <= lo < p
    requires w == (hi * m + x) * p + lo
    ensures (w / p) % m == x && w / p == hi * m + x
  {
    DivModUnique(w, p, hi * m + x, lo);
    DivModUnique(hi * m + x, m, hi, x);
  }
}
