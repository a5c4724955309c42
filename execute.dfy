/** One instruction of the simulator (`execute_instruction`): opcode
    dispatch, then funct3/funct7 dispatch, an in-place update of the
    32-entry register file, x0 forced back to zero, and the pair
    (pc increment, halt) handed back to the driver.

    `Step` is the specification: the register file afterwards and the pair,
    as a function of the word, the register file before, the data memory
    and the current pc. `Execute` is the in-place version on an array. */
module Execute {
  import opened Bits
  import opened Decode

  const OpAlu: nat := 0x33     // add, sub, slt, srl, or, and
  const OpBranch: nat := 0x63  // beq, bne, blt
  const OpImm: nat := 0x13     // addi
  const OpJalr: nat := 0x67    // jalr
  const OpLoad: nat := 0x03    // lw
  const OpJal: nat := 0x6F     // jal

  datatype Option<T> = None | Some(value: T)

  /** What one instruction does: the register file afterwards, the amount
      the driver adds to pc, and whether the run halts. */
  datatype Effect = Effect(regs: seq<Word>, pcIncrement: int, halt: bool)

  /** The signed reading of a register in simulator.py:
      `v if v < 0x80000000 else v - 0x100000000`. */
  function ToSigned(v: Word): (r: int)
    ensures -0x8000_0000 <= r < 0x8000_0000 && (v - r) % WordModulus == 0
  {
    if v < 0x8000_0000 then v else v - WordModulus
  }

  /** That reading is two's-complement sign extension from bit 31. */
  lemma ToSignedIsSignExtend(v: Word)
    ensures ToSigned(v) == SignExtend(v, 32)
  {
    Pow2Constants();
    SignExtendRange(v, 32);
  }

  /** `(a & 0xFFFFFFFF) >> shamt` for a register value a. */
  function ShiftRight(a: Word, shamt: nat): (r: Word)
    ensures r <= a
  {
    DivShrinks(a, Pow2(shamt));
    a / Pow2(shamt)
  }

  lemma DivShrinks(a: nat, d: int)
    requires d >= 1
    ensures 0 <= a / d <= a
  {
    if a / d > a {
      MulAtLeast(a / d, d);
    }
  }

  function Or32(a: Word, b: Word): Word
  {
    Pow2Constants();
    BitOrBound(a, b, 32);
    BitOr(a, b)
  }

  function And32(a: Word, b: Word): Word
  {
    BitAndBound(a, b);
    BitAnd(a, b)
  }

  /** The value an R-type instruction writes to rd; None when its
      funct3/funct7 pair is not one of the six supported operations. */
  function AluResult(f: RType, a: Word, b: Word): Option<Word>
  {
    if f.funct3 == 0 && f.funct7 == 0 then Some((a + b) % WordModulus)          // add
    else if f.funct3 == 0 && f.funct7 == 0x20 then Some((a - b) % WordModulus)  // sub
    else if f.funct3 == 2 && f.funct7 == 0 then
      Some(if ToSigned(a) < ToSigned(b) then 1 else 0)                          // slt
    else if f.funct3 == 5 && f.funct7 == 0 then Some(ShiftRight(a, b % 32))     // srl
    else if f.funct3 == 6 && f.funct7 == 0 then Some(Or32(a, b))                // or
    else if f.funct3 == 7 && f.funct7 == 0 then Some(And32(a, b))               // and
    else None
  }

  /** Whether a conditional branch is taken; None when funct3 is not beq,
      bne or blt. */
  function BranchTaken(funct3: nat, a: Word, b: Word): Option<bool>
  {
    if funct3 == 0 then Some(a == b)                         // beq
    else if funct3 == 1 then Some(a != b)                    // bne
    else if funct3 == 4 then Some(ToSigned(a) < ToSigned(b)) // blt
    else None
  }

  /** The supported encodings, as a table independent of the dispatch. */
  predicate Supported(inst: Word)
  {
    var op, funct3, funct7 := Opcode(inst), (inst / 0x1000) % 0x8, (inst / 0x200_0000) % 0x80;
    || (op == OpAlu && (funct3, funct7) in {(0, 0), (0, 0x20), (2, 0), (5, 0), (6, 0), (7, 0)})
    || (op == OpBranch && funct3 in {0, 1, 4})
    || (op == OpImm && funct3 == 0)
    || (op == OpJalr && funct3 == 0)
    || (op == OpLoad && funct3 == 2)
    || op == OpJal
  }

  /** `memory.get(addr, 0)`: unmapped addresses read as zero. */
  function Load(mem: map<Word, Word>, addr: Word): Word
  {
    if addr in mem then mem[addr] else 0
  }

  /** The R-type arm: rd receives the ALU result, if the operation is one
      of the six supported. */
  function AluStep(f: RType, regs: seq<Word>): (e: Effect)
    requires |regs| == 32 && ValidR(f)
    ensures |e.regs| == 32 && forall i :: 0 <= i < 32 && i != f.rd ==> e.regs[i] == regs[i]
    ensures e.pcIncrement == 4 && !e.halt
  {
    match AluResult(f, regs[f.rs1], regs[f.rs2])
    case Some(v) => Effect(regs[f.rd := v], 4, false)
    case None => Effect(regs, 4, false)
  }

  /** The branch arm: a taken branch with offset 0 is the halt signal
      (increment left at 4), any other taken branch moves pc by the offset. */
  function BranchStep(f: BType, regs: seq<Word>): (e: Effect)
    requires |regs| == 32 && ValidB(f)
    ensures e.regs == regs && (e.halt ==> e.pcIncrement == 4)
  {
    if BranchTaken(f.funct3, regs[f.rs1], regs[f.rs2]) == Some(true) then
      if f.imm == 0 then Effect(regs, 4, true) else Effect(regs, f.imm, false)
    else Effect(regs, 4, false)
  }

  /** The arm shared by the three I-format opcodes (addi, jalr, lw). */
  function ImmediateStep(op: nat, f: IType, regs: seq<Word>, mem: map<Word, Word>): (e: Effect)
    requires |regs| == 32 && ValidI(f)
    ensures |e.regs| == 32 && forall i :: 0 <= i < 32 && i != f.rd ==> e.regs[i] == regs[i]
    ensures !e.halt
  {
    if f.funct3 == 0 && op == OpImm then
      Effect(regs[f.rd := (regs[f.rs1] + f.imm) % WordModulus], 4, false)
    else if f.funct3 == 0 && op == OpJalr then
      // rd receives the constant 4 and the masked target becomes the increment.
      Effect(regs[f.rd := 4], BitAnd(regs[f.rs1] + f.imm, 0xFFFF_FFFE), false)
    else if f.funct3 == 2 && op == OpLoad then
      Effect(regs[f.rd := Load(mem, (regs[f.rs1] + f.imm) % WordModulus)], 4, false)
    else Effect(regs, 4, false)
  }

  /** The jal arm: the link value is written only when rd is not x0. */
  function JalStep(f: JType, regs: seq<Word>, pc: int): (e: Effect)
    requires |regs| == 32 && ValidJ(f)
    ensures |e.regs| == 32 && forall i :: 0 <= i < 32 && i != f.rd ==> e.regs[i] == regs[i]
    ensures e.pcIncrement == f.imm && !e.halt
  {
    Effect(if f.rd != 0 then regs[f.rd := (pc + 4) % WordModulus] else regs, f.imm, false)
  }

  /** The effect of executing `inst` at `pc` (simulator.py reads pc from a
      module-level variable; here it is a parameter): opcode dispatch, then
      x0 forced back to zero. */
  function Step(inst: Word, regs: seq<Word>, mem: map<Word, Word>, pc: int): (e: Effect)
    requires |regs| == 32
    ensures |e.regs| == 32 && e.regs[0] == 0
  {
    var op := Opcode(inst);
    var d :=
      if op == OpAlu then AluStep(DecodeR(inst), regs)
      else if op == OpBranch then BranchStep(DecodeB(inst), regs)
      else if op == OpImm || op == OpJalr || op == OpLoad then ImmediateStep(op, DecodeI(inst), regs, mem)
      else if op == OpJal then JalStep(DecodeJ(inst), regs, pc)
      else Effect(regs, 4, false);
    Effect(d.regs[0 := 0], d.pcIncrement, d.halt)
  }

  /** `execute_instruction` on the register array: the same dispatch, each
      operation writing `regs[rd]` in place, then `regs[0] := 0`. The data
      memory is a value the method cannot change. */
  method Execute(inst: Word, regs: array<Word>, mem: map<Word, Word>, pc: int)
      returns (pcIncrement: int, halt: bool)
    requires regs.Length == 32
    modifies regs
    ensures Effect(regs[..], pcIncrement, halt) == Step(inst, old(regs[..]), mem, pc)
  {
    var opcode := Opcode(inst);
    pcIncrement, halt := 4, false;
    if opcode == OpAlu {
      ExecuteAlu(DecodeR(inst), regs);
    } else if opcode == OpBranch {
      pcIncrement, halt := ExecuteBranch(DecodeB(inst), regs);
    } else if opcode == OpImm || opcode == OpJalr || opcode == OpLoad {
      pcIncrement := ExecuteImmediate(opcode, DecodeI(inst), regs, mem);
    } else if opcode == OpJal {
      var f := DecodeJ(inst);
      if f.rd != 0 {
        regs[f.rd] := (pc + 4) % WordModulus;
      }
      pcIncrement := f.imm;
    }
    regs[0] := 0;
  }

  method ExecuteAlu(f: RType, regs: array<Word>)
    requires regs.Length == 32 && ValidR(f)
    modifies regs
    ensures Effect(regs[..], 4, false) == AluStep(f, old(regs[..]))
  {
    var a, b := regs[f.rs1], regs[f.rs2];
    if f.funct3 == 0 && f.funct7 == 0 {
      regs[f.rd] := (a + b) % WordModulus;
    } else if f.funct3 == 0 && f.funct7 == 0x20 {
      regs[f.rd] := (a - b) % WordModulus;
    } else if f.funct3 == 2 && f.funct7 == 0 {
      regs[f.rd] := if ToSigned(a) < ToSigned(b) then 1 else 0;
    } else if f.funct3 == 5 && f.funct7 == 0 {
      regs[f.rd] := ShiftRight(a, b % 32);
    } else if f.funct3 == 6 && f.funct7 == 0 {
      regs[f.rd] := Or32(a, b);
    } else if f.funct3 == 7 && f.funct7 == 0 {
      regs[f.rd] := And32(a, b);
    }
  }

  method ExecuteBranch(f: BType, regs: array<Word>) returns (pcIncrement: int, halt: bool)
    requires regs.Length == 32 && ValidB(f)
    ensures Effect(regs[..], pcIncrement, halt) == BranchStep(f, regs[..])
  {
    var a, b := regs[f.rs1], regs[f.rs2];
    var taken := false;
    if f.funct3 == 0 {
      taken := a == b;
    } else if f.funct3 == 1 {
      taken := a != b;
    } else if f.funct3 == 4 {
      taken := ToSigned(a) < ToSigned(b);
    }
    pcIncrement, halt := 4, false;
    if taken {
      if f.imm == 0 {
        halt := true;
      } else {
        pcIncrement := f.imm;
      }
    }
  }

  method ExecuteImmediate(op: nat, f: IType, regs: array<Word>, mem: map<Word, Word>)
      returns (pcIncrement: int)
    requires regs.Length == 32 && ValidI(f)
    modifies regs
    ensures Effect(regs[..], pcIncrement, false) == ImmediateStep(op, f, old(regs[..]), mem)
  {
    pcIncrement := 4;
    if f.funct3 == 0 && op == OpImm {
      regs[f.rd] := (regs[f.rs1] + f.imm) % WordModulus;
    } else if f.funct3 == 0 && op == OpJalr {
      var target := regs[f.rs1] + f.imm;
      regs[f.rd] := pcIncrement;
      pcIncrement := BitAnd(target, 0xFFFF_FFFE);
    } else if f.funct3 == 2 && op == OpLoad {
      var addr := (regs[f.rs1] + f.imm) % WordModulus;
      regs[f.rd] := Load(mem, addr);
    }
  }

  // ----- what one instruction does -----

  /** Only rd may change, apart from x0 which is reset (the rd field sits at
      the same bits in the R, I and J formats); only a branch can halt, and
      it then leaves the increment at 4 and the registers as they were. */
  lemma StepFrame(inst: Word, regs: seq<Word>, mem: map<Word, Word>, pc: int)
    requires |regs| == 32
    ensures var e := Step(inst, regs, mem, pc);
            && (forall i :: 0 < i < 32 && i != DecodeR(inst).rd ==> e.regs[i] == regs[i])
            && (e.halt ==> Opcode(inst) == OpBranch && e.pcIncrement == 4 && e.regs == regs[0 := 0])
  {
  }

  /** An encoding outside the supported table leaves everything as it was
      (apart from the x0 reset) and moves on by 4. */
  lemma UnsupportedIsNoOp(inst: Word, regs: seq<Word>, mem: map<Word, Word>, pc: int)
    requires |regs| == 32 && !Supported(inst)
    ensures Step(inst, regs, mem, pc) == Effect(regs[0 := 0], 4, false)
  {
  }

  /** Step on an R-type word is that arm followed by the x0 reset. */
  lemma StepAlu(inst: Word, regs: seq<Word>, mem: map<Word, Word>, pc: int)
    requires |regs| == 32 && Opcode(inst) == OpAlu
    ensures var d := AluStep(DecodeR(inst), regs);
            Step(inst, regs, mem, pc) == Effect(d.regs[0 := 0], d.pcIncrement, d.halt)
  {
  }

  /** Step on one of the I-format opcodes is that arm followed by the x0 reset. */
  lemma StepImmediate(inst: Word, regs: seq<Word>, mem: map<Word, Word>, pc: int)
    requires |regs| == 32
    requires Opcode(inst) == OpImm || Opcode(inst) == OpJalr || Opcode(inst) == OpLoad
    ensures var d := ImmediateStep(Opcode(inst), DecodeI(inst), regs, mem);
            Step(inst, regs, mem, pc) == Effect(d.regs[0 := 0], d.pcIncrement, d.halt)
  {
  }


  /** The three branch conditions as the instruction set defines them, blt
      comparing two's-complement values. */
  predicate Condition(funct3: nat, a: Word, b: Word)
  {
    || (funct3 == 0 && a == b)
    || (funct3 == 1 && a != b)
    || (funct3 == 4 && SignExtend(a, 32) < SignExtend(b, 32))
  }

  /** A branch never writes a register; it halts exactly when its condition
      holds and its offset is zero (the increment then stays 4), moves pc
      by the offset when the condition holds otherwise, and falls through
      by 4 when it does not. */
  lemma BranchOutcome(inst: Word, regs: seq<Word>, mem: map<Word, Word>, pc: int)
    requires |regs| == 32 && Opcode(inst) == OpBranch
    ensures var f, e := DecodeB(inst), Step(inst, regs, mem, pc);
            var c := Condition(f.funct3, regs[f.rs1], regs[f.rs2]);
            && e.regs == regs[0 := 0]
            && (e.halt <==> c && f.imm == 0)
            && e.pcIncrement == (if c && f.imm != 0 then f.imm else 4)
  {
    var f := DecodeB(inst);
    ToSignedIsSignExtend(regs[f.rs1]);
    ToSignedIsSignExtend(regs[f.rs2]);
  }

  /** slt writes 1 when rs1 is less than rs2 as signed 32-bit values and 0
      otherwise. */
  lemma SetLessThan(inst: Word, regs: seq<Word>, mem: map<Word, Word>, pc: int)
    requires |regs| == 32 && Opcode(inst) == OpAlu
    requires DecodeR(inst).funct3 == 2 && DecodeR(inst).funct7 == 0 && DecodeR(inst).rd != 0
    ensures var f := DecodeR(inst);
            Step(inst, regs, mem, pc).regs[f.rd]
              == if SignExtend(regs[f.rs1], 32) < SignExtend(regs[f.rs2], 32) then 1 else 0
  {
    var f := DecodeR(inst);
    ToSignedIsSignExtend(regs[f.rs1]);
    ToSignedIsSignExtend(regs[f.rs2]);
  }

  /** srl shifts in zeros: the result is rs1 divided by 2^(rs2 mod 32), and
      its top (rs2 mod 32) bits are clear. */
  lemma ShiftRightLogical(inst: Word, regs: seq<Word>, mem: map<Word, Word>, pc: int)
    requires |regs| == 32 && Opcode(inst) == OpAlu
    requires DecodeR(inst).funct3 == 5 && DecodeR(inst).funct7 == 0 && DecodeR(inst).rd != 0
    ensures var f := DecodeR(inst);
            var r, shamt := Step(inst, regs, mem, pc).regs[f.rd], regs[f.rs2] % 32;
            r == regs[f.rs1] / Pow2(shamt) && r < Pow2(32 - shamt)
  {
    var f := DecodeR(inst);
    var a, shamt := regs[f.rs1], regs[f.rs2] % 32;
    Pow2Constants();
    Pow2Add(shamt, 32 - shamt);
    DivBelow(a, Pow2(shamt), Pow2(32 - shamt));
  }

  lemma {:induction false} Pow2Add(m: nat, n: nat)
    ensures Pow2(m + n) == Pow2(m) * Pow2(n)
  {
    if m > 0 {
      Pow2Add(m - 1, n);
      assert Pow2(m) * Pow2(n) == 2 * (Pow2(m - 1) * Pow2(n));
    }
  }

  lemma DivBelow(a: nat, p: int, q: int)
    requires p >= 1 && a < p * q
    ensures a / p < q
  {
    var d := a / p;
    assert d * p <= a;
    if d >= q {
      MulMonotone(q, d, p);
      assert false;
    }
  }

  /** `or rd, rs1, rs2` and `and rd, rs1, rs2`: `or` writes at least either
      operand, `and` writes at most either operand, and the two written
      values add up to rs1 + rs2. */
  lemma OrAndStep(rd: nat, rs1: nat, rs2: nat, regs: seq<Word>, mem: map<Word, Word>, pc: int)
    requires |regs| == 32 && 0 < rd < 32 && rs1 < 32 && rs2 < 32
    ensures var a, b: int := regs[rs1], regs[rs2];
            var o: int := Step(EncodeR(OpAlu, RType(rd, 6, rs1, rs2, 0)), regs, mem, pc).regs[rd];
            var n: int := Step(EncodeR(OpAlu, RType(rd, 7, rs1, rs2, 0)), regs, mem, pc).regs[rd];
            && a <= o && b <= o && n <= a && n <= b && o + n == a + b
  {
    var orInst, andInst := EncodeR(OpAlu, RType(rd, 6, rs1, rs2, 0)), EncodeR(OpAlu, RType(rd, 7, rs1, rs2, 0));
    var a, b := regs[rs1], regs[rs2];
    DecodeEncodeR(OpAlu, RType(rd, 6, rs1, rs2, 0));
    DecodeEncodeR(OpAlu, RType(rd, 7, rs1, rs2, 0));
    StepAlu(orInst, regs, mem, pc);
    StepAlu(andInst, regs, mem, pc);
    Pow2Constants();
    BitOrBound(a, b, 32);
    BitAndBound(a, b);
    BitOrPlusBitAnd(a, b);
  }

  /** add and sub write a word congruent to the exact sum or difference
      modulo 2^32. */
  lemma AddSubWrap(inst: Word, regs: seq<Word>, mem: map<Word, Word>, pc: int)
    requires |regs| == 32 && Opcode(inst) == OpAlu
    requires DecodeR(inst).funct3 == 0 && (DecodeR(inst).funct7 == 0 || DecodeR(inst).funct7 == 0x20)
    requires DecodeR(inst).rd != 0
    ensures var f := DecodeR(inst);
            var r, a, b: int := Step(inst, regs, mem, pc).regs[f.rd], regs[f.rs1], regs[f.rs2];
            && 0 <= r < WordModulus
            && (f.funct7 == 0 ==> (r - (a + b)) % WordModulus == 0)
            && (f.funct7 == 0x20 ==> (r - (a - b)) % WordModulus == 0)
  {
    var f := DecodeR(inst);
    var a, b: int := regs[f.rs1], regs[f.rs2];
    StepAlu(inst, regs, mem, pc);
    var s := if f.funct7 == 0 then a + b else a - b;
    assert Step(inst, regs, mem, pc).regs[f.rd] == s % WordModulus;
    DivModUnique(s, WordModulus, s / WordModulus, s % WordModulus);
    assert s % WordModulus - s == -WordModulus * (s / WordModulus);
    MultipleMod(-(s / WordModulus), WordModulus);
  }

  /** `add rd, rs1, rs2` followed by `sub rd, rd, rs2` leaves rs1's value in
      rd: 32-bit wrap-around is undone by the subtraction. */
  lemma SubUndoesAdd(add: Word, sub: Word, regs: seq<Word>, mem: map<Word, Word>, pc: int)
    requires |regs| == 32 && regs[0] == 0 && Opcode(add) == OpAlu && Opcode(sub) == OpAlu
    requires DecodeR(add).funct3 == 0 && DecodeR(add).funct7 == 0
    requires DecodeR(add).rd != 0 && DecodeR(add).rd != DecodeR(add).rs2
    requires DecodeR(sub) == DecodeR(add).(rs1 := DecodeR(add).rd, funct7 := 0x20)
    ensures var f := DecodeR(add);
            Step(sub, Step(add, regs, mem, pc).regs, mem, pc + 4).regs[f.rd] == regs[f.rs1]
  {
    var f := DecodeR(add);
    var a, b := regs[f.rs1], regs[f.rs2];
    StepAlu(add, regs, mem, pc);
    var regs1 := Step(add, regs, mem, pc).regs;
    assert regs1[f.rd] == (a + b) % WordModulus;
    assert regs1[f.rs2] == b;
    StepAlu(sub, regs1, mem, pc + 4);
    ModSubtract(a, b);
  }

  lemma ModSubtract(a: Word, b: Word)
    ensures ((a + b) % WordModulus - b) % WordModulus == a
  {
    var s := a + b;
    if s >= WordModulus {
      DivModUnique(s, WordModulus, 1, s - WordModulus);
      DivModUnique(s - WordModulus - b, WordModulus, -1, a);
    } else {
      DivModUnique(s, WordModulus, 0, s);
      DivModUnique(a, WordModulus, 0, a);
    }
  }

  /** `addi rd, rs1, imm` writes rs1 + imm modulo 2^32 to rd. */
  lemma AddImmediate(inst: Word, regs: seq<Word>, mem: map<Word, Word>, pc: int)
    requires |regs| == 32 && Opcode(inst) == OpImm && DecodeI(inst).funct3 == 0 && DecodeI(inst).rd != 0
    ensures var f := DecodeI(inst);
            Step(inst, regs, mem, pc).regs[f.rd] == (regs[f.rs1] + f.imm) % WordModulus
  {
    StepImmediate(inst, regs, mem, pc);
  }

  /** `addi rd, rs1, imm` followed by `addi rd, rd, -imm` leaves rs1's value
      in rd. */
  lemma AddImmediateInverse(first: Word, second: Word, regs: seq<Word>, mem: map<Word, Word>, pc: int)
    requires |regs| == 32 && Opcode(first) == OpImm && Opcode(second) == OpImm
    requires DecodeI(first).funct3 == 0 && DecodeI(first).rd != 0
    requires DecodeI(second) == DecodeI(first).(rs1 := DecodeI(first).rd, imm := -DecodeI(first).imm)
    ensures var f := DecodeI(first);
            Step(second, Step(first, regs, mem, pc).regs, mem, pc + 4).regs[f.rd] == regs[f.rs1]
  {
    var f, g := DecodeI(first), DecodeI(second);
    assert g.rd == f.rd && g.rs1 == f.rd && g.imm == -f.imm;
    var regs1 := Step(first, regs, mem, pc).regs;
    var t := regs1[f.rd];
    assert t == (regs[f.rs1] + f.imm) % WordModulus by {
      AddImmediate(first, regs, mem, pc);
    }
    assert Step(second, regs1, mem, pc + 4).regs[f.rd] == (t + -f.imm) % WordModulus by {
      AddImmediate(second, regs1, mem, pc + 4);
    }
    ModAddCancel(regs[f.rs1], f.imm, t);
  }

  lemma ModAddCancel(a: Word, imm: int, t: int)
    requires -2048 <= imm <= 2047 && t == (a + imm) % WordModulus
    ensures (t + -imm) % WordModulus == a
  {
    var s := a + imm;
    var q := if s < 0 then -1 else if s >= WordModulus then 1 else 0;
    DivModUnique(s, WordModulus, q, s - q * WordModulus);
    DivModUnique(s - q * WordModulus - imm, WordModulus, -q, a);
  }

  /** jalr writes the constant 4 to rd (not the return address) and yields
      as increment the word rs1 + imm modulo 2^32 with bit 0 cleared: an
      even value below 2^32. */
  lemma JumpAndLinkRegister(inst: Word, regs: seq<Word>, mem: map<Word, Word>, pc: int)
    requires |regs| == 32 && Opcode(inst) == OpJalr && DecodeI(inst).funct3 == 0
    ensures var f, e := DecodeI(inst), Step(inst, regs, mem, pc);
            var target := regs[f.rs1] + f.imm;
            && !e.halt
            && (f.rd != 0 ==> e.regs[f.rd] == 4)
            && e.pcIncrement == target % WordModulus - target % 2
            && 0 <= e.pcIncrement < WordModulus && e.pcIncrement % 2 == 0
  {
    var f := DecodeI(inst);
    var target := regs[f.rs1] + f.imm;
    StepImmediate(inst, regs, mem, pc);
    var d := ImmediateStep(OpJalr, f, regs, mem);
    assert d == Effect(regs[f.rd := 4], BitAnd(target, 0xFFFF_FFFE), false);
    MaskedTarget(target);
  }

  /** `t & 0xFFFFFFFE` is t modulo 2^32 with bit 0 cleared: even and below 2^32. */
  lemma MaskedTarget(t: int)
    ensures BitAnd(t, 0xFFFF_FFFE) == t % WordModulus - t % 2
    ensures 0 <= t % WordModulus - t % 2 < WordModulus
    ensures (t % WordModulus - t % 2) % 2 == 0
  {
    ClearLowBit32(t);
    EvenPart(t);
  }

  lemma EvenPart(t: int)
    ensures 0 <= t % WordModulus - t % 2 < WordModulus
    ensures (t % WordModulus - t % 2) % 2 == 0
  {
    var k, r := t / WordModulus, t % WordModulus;
    assert t == WordModulus * k + r;
    assert t == 2 * (0x8000_0000 * k) + r;
    var h := r / 2;
    assert r == 2 * h + r % 2;
    assert t == 2 * (0x8000_0000 * k + h) + r % 2;
    DivModUnique(t, 2, 0x8000_0000 * k + h, r % 2);
    MultipleMod(h, 2);
  }

  /** lw reads the word at (rs1 + imm) mod 2^32, and an address the memory
      does not hold reads as 0. */
  lemma LoadWord(inst: Word, regs: seq<Word>, mem: map<Word, Word>, pc: int)
    requires |regs| == 32 && Opcode(inst) == OpLoad && DecodeI(inst).funct3 == 2 && DecodeI(inst).rd != 0
    ensures var f, e := DecodeI(inst), Step(inst, regs, mem, pc);
            var addr := (regs[f.rs1] + f.imm) % WordModulus;
            && e.pcIncrement == 4 && !e.halt
            && (addr in mem ==> e.regs[f.rd] == mem[addr])
            && (addr !in mem ==> e.regs[f.rd] == 0)
  {
    StepImmediate(inst, regs, mem, pc);
  }

  /** jal moves pc by exactly its offset and links pc + 4 into rd unless
      rd is x0. */
  lemma JumpAndLink(inst: Word, regs: seq<Word>, mem: map<Word, Word>, pc: int)
    requires |regs| == 32 && Opcode(inst) == OpJal
    ensures var f, e := DecodeJ(inst), Step(inst, regs, mem, pc);
            && e.pcIncrement == f.imm && !e.halt
            && -0x10_0000 <= e.pcIncrement <= 0x0F_FFFE && e.pcIncrement % 2 == 0
            && (f.rd != 0 ==> e.regs[f.rd] == (pc + 4) % WordModulus)
            && (f.rd == 0 ==> e.regs == regs[0 := 0])
  {
  }

  /** Every encodable jal is decoded back to its own destination and offset,
      so it moves pc by the offset it was assembled with. */
  lemma JumpAndLinkEncoded(rd: nat, imm: int, regs: seq<Word>, mem: map<Word, Word>, pc: int)
    requires |regs| == 32 && ValidJ(JType(rd, imm))
    ensures var e := Step(EncodeJ(OpJal, JType(rd, imm)), regs, mem, pc);
            e.pcIncrement == imm && (rd != 0 ==> e.regs[rd] == (pc + 4) % WordModulus)
  {
    var inst := EncodeJ(OpJal, JType(rd, imm));
    DecodeEncodeJ(OpJal, JType(rd, imm));
    JumpAndLink(inst, regs, mem, pc);
  }
}
