# RV32I simulator, modelled in Dafny

A model of `simulator.py`, a functional simulator for a subset of the 32-bit
RISC-V base integer instruction set (RV32I). It runs a program of
pre-encoded instruction words placed at pc 4, 8, 12, ... and keeps a
32-entry register file (x2, the stack pointer, starts at 380; x0 is always
zero) and a word-addressed data memory of 32 zero words from 0x0001_0000.
Each non-halting instruction adds one trace line to the output: its pc
followed by the 32 registers, each written as `0b` and 32 binary digits.
After the loop comes one closing trace line at `pc - pc_inc`, then a memory
dump of lines `0xAAAAAAAA:0b...`, one per address in ascending order.

Supported instructions:

- add, sub, slt, srl, or, and (opcode 0x33);
- beq, bne, blt (0x63);
- addi (0x13), jalr (0x67), lw (0x03) and jal (0x6F).

A taken branch with offset 0 is the halt signal.

Modules:

- `Bits`: Python's unbounded-integer `&`, `|` and `sign_extend`, with the
  lemmas that turn masks into `%` and disjoint ORs into `+`. Shifts get no
  definition of their own: `>> k` is written inline as `/ 2^k` and `<< k` as
  `* 2^k`.
- `Decode`: the I, R, B and J decoders, the matching encoders, and both
  round trips.
- `Execute`: `execute_instruction`, written two ways:
  - as the pure function `Step`, on a register sequence;
  - as the method `Execute`, which updates a register `array` in place and is
    proved equal to `Step`.

  Lemmas about `Step` state what add, sub, slt, srl, or, and, addi, jalr,
  lw, jal and the branches do.
- `Trace`: `to_binary32`, `format_trace_line` and `format_memory_dump`, with
  readings that invert them.
- `Simulator`: the driver. It sets up the instruction memory, registers and
  data memory, then runs the fetch/execute/record loop as a method over the
  register array. `Run` is the function that specifies that loop, and the
  lemmas about it describe how a run ends.

Integers are unbounded here as in Python; register and memory values are
`Word`s (0 <= w < 2^32), so "every register stays a 32-bit word" is a
type invariant that every write is checked against.

The model follows simulator.py literally, including where it departs from
the RISC-V specification:

- jalr writes the constant 4 into rd, not the address of the next
  instruction. The masked target `(rs1 + imm) & 0xFFFFFFFE` is returned as
  an increment that the loop adds to pc, rather than used as the new pc.
- jal, like the branches, returns its offset as an increment that the loop
  adds to pc, as RV32I specifies.
- After the loop, pc is reduced by the last increment on both exit paths.
  On a halt this gives the halting pc less 4.
- A trace line pairs the pc an instruction was fetched from with the
  registers after that instruction ran.
- The halting instruction gets no trace line.
- Nothing writes data memory, because there is no store instruction.

## Model

| member | source | states |
|---|---|---|
| Bits.BitAnd | simulator.py:64 | Python's `&` on integers of any sign; no ensures of its own: MaskIsMod, BitTest, ClearLowBit32 and BitAndBound state what it computes |
| Bits.BitOr | simulator.py:62 | Python's `\|` on naturals; no ensures of its own: BitOrAligned, BitOrPlusBitAnd, BitOrCommutes, BitOrAssociates and BitOrBound state what it computes |
| Bits.SignExtend | simulator.py:5-9 | `sign_extend`; no ensures of its own: SignExtendMatchesMask, SignExtendRange and SignExtendTruncate state what it computes |
| Bits.MaskIsMod | simulator.py:12-15 | masking with `2^n - 1` is reduction modulo `2^n`, for every integer including negatives |
| Bits.BitTest | simulator.py:7 | `value & (1 << k)` is `2^k` times bit k of value |
| Bits.ClearLowBit32 | simulator.py:99 | `x & 0xFFFFFFFE` is x modulo 2^32 with bit 0 cleared |
| Bits.BitOrAligned | simulator.py:30-31 | OR of a multiple of `2^k` with a value below `2^k` is their sum |
| Bits.BitOrPlusBitAnd | simulator.py:62-64 | `(a \| b) + (a & b) == a + b` |
| Bits.BitOrCommutes | simulator.py:62 | OR is commutative |
| Bits.BitOrAssociates | simulator.py:36-37 | OR is associative |
| Bits.BitOrBound | simulator.py:62 | the OR of two values below `2^n` is below `2^n` and at least each operand |
| Bits.BitAndBound | simulator.py:64 | the AND of two naturals lies between 0 and each operand |
| Bits.SignExtendMatchesMask | simulator.py:5-9 | `SignExtend` subtracts `2^bits` exactly when bit `bits-1` is set, as simulator.py tests it with `&` |
| Bits.SignExtendRange | simulator.py:5-9 | for `0 <= value < 2^bits`, the result lies in `[-2^(bits-1), 2^(bits-1))`, is congruent to value modulo `2^bits`, and is value itself when the top bit is clear |
| Bits.SignExtendTruncate | simulator.py:5-9 | sign extension inverts truncation: any value in the signed range is recovered from its low `bits` bits |
| Decode.Opcode | simulator.py:44 | the opcode is below 0x80 and is the word's residue modulo 0x80 |
| Decode.DecodeI | simulator.py:11-16 | rd and rs1 are below 32, funct3 is below 8, and the immediate lies in [-2048, 2047] |
| Decode.DecodeR | simulator.py:18-24 | rd, rs1 and rs2 are below 32, funct3 is below 8 and funct7 is below 128 |
| Decode.DecodeB | simulator.py:26-33 | rs1 and rs2 are below 32, funct3 is below 8, and the immediate is even and lies in [-4096, 4094] |
| Decode.DecodeJ | simulator.py:34-39 | rd is below 32, and the immediate is even and lies in [-2^20, 2^20 - 2] |
| Decode.RawImmB | simulator.py:30-31 | the B immediate before sign extension, built with the same ORs; no ensures of its own: RawImmBSum states its value |
| Decode.RawImmJ | simulator.py:36-37 | the J immediate before sign extension, built with the same ORs; no ensures of its own: RawImmJSum states its value |
| Decode.RawImmBSum | simulator.py:30-31 | the OR of the four B-immediate pieces equals their sum, an even value below 2^13 |
| Decode.RawImmJSum | simulator.py:36-37 | the OR of the four J-immediate pieces equals their sum, an even value below 2^21 |
| Decode.ImmBRange | simulator.py:30-32 | the sign-extended B immediate is even and lies in [-4096, 4094] |
| Decode.ImmJRange | simulator.py:36-38 | the sign-extended J immediate is even and lies in [-2^20, 2^20 - 2] |
| Decode.DecodeEncodeR | simulator.py:18-24 | decoding an encoded R instruction gives back its opcode and fields |
| Decode.EncodeDecodeR | simulator.py:18-24 | every word is the R encoding of its own decoded fields |
| Decode.DecodeEncodeI | simulator.py:11-16 | decoding an encoded I instruction gives back its opcode and fields |
| Decode.EncodeDecodeI | simulator.py:11-16 | every word is the I encoding of its own decoded fields |
| Decode.DecodeEncodeB | simulator.py:26-33 | decoding an encoded B instruction gives back its opcode, fields and immediate |
| Decode.EncodeDecodeB | simulator.py:26-33 | every 32-bit word is the B encoding of its own opcode, fields and immediate |
| Decode.DecodeEncodeJ | simulator.py:34-39 | decoding an encoded J instruction gives back its opcode, rd and immediate |
| Decode.EncodeDecodeJ | simulator.py:34-39 | every word is the J encoding of its own decoded fields |
| Execute.ToSigned | simulator.py:55-56 | the signed reading of a register lies in `[-2^31, 2^31)` and is congruent to the register mod 2^32 |
| Execute.ShiftRight | simulator.py:59-60 | the logical right shift of a word is a word no larger than it |
| Execute.AluResult | simulator.py:50-64 | the value each of the six R-type operations writes, None for any other funct3/funct7; no ensures of its own: AddSubWrap, SetLessThan, ShiftRightLogical and OrAndStep state what it computes |
| Execute.BranchTaken | simulator.py:69-84 | whether beq, bne or blt is taken, None for any other funct3; no ensures of its own: BranchOutcome states it against SignExtend |
| Execute.Load | simulator.py:102 | `memory.get(addr, 0)`; no ensures of its own: LoadWord states it |
| Execute.ToSignedIsSignExtend | simulator.py:55-56 | simulator.py's signed reading of a register is sign extension from bit 31 |
| Execute.AluStep | simulator.py:48-66 | the R-type arm changes no register but rd, moves pc by 4 and never halts |
| Execute.BranchStep | simulator.py:67-90 | the branch arm changes no register, and it halts only with increment 4 |
| Execute.ImmediateStep | simulator.py:91-104 | the addi/jalr/lw arm changes no register but rd and never halts |
| Execute.JalStep | simulator.py:105-109 | jal changes no register but rd, returns the J immediate as increment and never halts |
| Execute.Step | simulator.py:42-114 | after any instruction there are still 32 word-valued registers and x0 is zero |
| Execute.Execute | simulator.py:42-114 | updating the register array in place gives exactly the registers, increment and halt flag of `Step` |
| Execute.ExecuteAlu | simulator.py:48-66 | the in-place R-type arm agrees with `AluStep` |
| Execute.ExecuteBranch | simulator.py:67-90 | the branch arm agrees with `BranchStep` and does not touch the registers |
| Execute.ExecuteImmediate | simulator.py:91-104 | the in-place I-type arm agrees with `ImmediateStep` |
| Execute.StepFrame | simulator.py:42-114 | only rd (and the reset of x0) can change. Only a branch halts, and then the increment is 4 and no register changes |
| Execute.UnsupportedIsNoOp | simulator.py:65-111 | any encoding outside the supported table gives `(4, False)` and leaves every register as it was, x0 aside |
| Execute.StepAlu | simulator.py:48-66 | unfolding lemma: `Step` on opcode 0x33 is the R-type arm followed by the x0 reset |
| Execute.StepImmediate | simulator.py:91-104 | unfolding lemma: `Step` on opcodes 0x13, 0x67 and 0x03 is the I-type arm followed by the x0 reset |
| Execute.BranchOutcome | simulator.py:67-90 | for a branch, with the condition written as beq, bne or signed blt: halt iff condition and imm == 0; increment imm if condition and imm != 0, else 4; registers unchanged |
| Execute.AddSubWrap | simulator.py:50-53 | add and sub write a word congruent to the exact sum or difference modulo 2^32 |
| Execute.SetLessThan | simulator.py:54-57 | slt writes 1 when rs1 is less than rs2 as two's-complement values and 0 otherwise |
| Execute.ShiftRightLogical | simulator.py:58-60 | srl writes `rs1 / 2^(rs2 mod 32)`, a value below `2^(32 - shamt)` |
| Execute.OrAndStep | simulator.py:61-64 | for any rd other than x0 and any rs1, rs2: `or rd, rs1, rs2` writes a value at least either operand, `and rd, rs1, rs2` writes a value at most either operand, and the two add up to rs1 + rs2 |
| Execute.SubUndoesAdd | simulator.py:50-53 | `add rd, rs1, rs2` then `sub rd, rd, rs2` leaves rs1's value in rd despite wrap-around |
| Execute.AddImmediate | simulator.py:94-95 | addi writes `(rs1 + imm) mod 2^32` |
| Execute.AddImmediateInverse | simulator.py:94-95 | addi with imm then with -imm on the result gives back rs1's value |
| Execute.JumpAndLinkRegister | simulator.py:96-99 | jalr writes 4 into rd and returns `(rs1 + imm) mod 2^32` with bit 0 cleared, an even value below 2^32; it never halts |
| Execute.LoadWord | simulator.py:100-102 | lw moves pc by 4 and writes the word at `(rs1 + imm) mod 2^32`, or 0 when that address is unmapped |
| Execute.JumpAndLink | simulator.py:105-109 | jal returns its even offset as increment. It writes `(pc + 4) mod 2^32` into rd when rd is not x0, and otherwise changes nothing |
| Execute.JumpAndLinkEncoded | simulator.py:105-109 | an encoded jal, run, returns the encoded offset and links `pc + 4` |
| Trace.Numeral | simulator.py:3 | the fixed-width numeral has exactly `width` digits |
| Trace.NumeralDigits | simulator.py:3 | every character of a numeral is a digit of its base |
| Trace.NumeralRoundTrip | simulator.py:3 | reading a numeral back gives the value modulo `base^width` |
| Trace.ToBinary32 | simulator.py:1-3 | the binary field is 34 characters long and starts with "0b" |
| Trace.ToBinary32Value | simulator.py:1-3 | every digit after "0b" is '0' or '1', and the digits read back as `v mod 2^32` |
| Trace.ToBinary32Injective | simulator.py:1-3 | distinct words give distinct binary fields |
| Trace.Join | simulator.py:117 | `" ".join(fields)`; no ensures of its own: JoinLayout states where each field and space goes |
| Trace.FormatTraceLine | simulator.py:116-118 | `format_trace_line`; no ensures of its own: TraceLineLayout states its length and columns |
| Trace.JoinLayout | simulator.py:117 | joining 34-character fields with single spaces puts field i at columns 35i to 35i+33, with a space after each field but the last |
| Trace.TraceLineLayout | simulator.py:116-118 | a trace line is 1154 characters: pc's binary field at columns 0-33, then register i's field at columns 35(i+1) to 35(i+1)+33, with single spaces between fields |
| Trace.SortedKeys | simulator.py:122 | `sorted(memory.keys())` holds each key exactly once, in strictly ascending order |
| Trace.SortedKeysUnique | simulator.py:122 | any strictly ascending enumeration of a key set is `sorted` of it |
| Trace.Hex8 | simulator.py:123 | the `{:08X}` field is 8 characters; Hex8Value states that it reads back as the address |
| Trace.DumpLine | simulator.py:123 | a dump line is 45 characters; DumpLineReadsBack and DumpLineDetermined state exactly which lines it produces |
| Trace.Hex8Value | simulator.py:123 | the 8-digit upper-case hex field reads back as the address |
| Trace.DumpLineReadsBack | simulator.py:123 | a dump line is 45 characters: `0x`, 8 upper-case hex digits reading back as the address, `:`, `0b` and 32 binary digits reading back as the word |
| Trace.DumpLineDetermined | simulator.py:123 | conversely, any line laid out that way for an address and a word is exactly their dump line, so a dump line determines its entry and vice versa |
| Trace.FormatMemoryDump | simulator.py:120-124 | the dump has one line per memory entry |
| Trace.DumpMemory | simulator.py:120-124 | the loop that appends one line per sorted key produces exactly `FormatMemoryDump` |
| Trace.MemoryDumpReadsBack | simulator.py:120-124 | the dump's addresses ascend strictly and are exactly the memory's keys, and line i is laid out as `0x`, hex digits, `:`, `0b`, binary digits reading back as key i and its word |
| Simulator.InstructionMemory | simulator.py:135 | an address holds an instruction iff it is a multiple of 4 in `[4, 4 * len(program)]` |
| Simulator.InstructionAt | simulator.py:135 | instruction i sits at address `4 * (i + 1)` |
| Simulator.InitialRegisters | simulator.py:136-137 | 32 registers, all zero except x2 = 380 |
| Simulator.InitialDataMemory | simulator.py:141 | the data memory has a zero word at each multiple of 4 from 0x0001_0000 to 0x0001_007C, and nothing else |
| Simulator.InitialAddresses | simulator.py:141 | the sorted data addresses are `0x0001_0000 + 4i` for i in [0, 32) |
| Simulator.InitialDump | simulator.py:141-158 | the dump of the initial memory is 32 lines, with line i reading back as address `0x0001_0000 + 4i` holding 0 |
| Simulator.Run | simulator.py:146-153 | a finished run ends with 32 registers |
| Simulator.Fetch | simulator.py:147-149 | fetching and executing the instruction at pc leaves 32 registers |
| Simulator.Advance | simulator.py:150-153 | after an instruction, a halt ends the loop without a trace line and otherwise the loop goes on at `pc + pc_inc`; a finished run leaves 32 registers |
| Simulator.Outcome | simulator.py:135-146 | the whole program run from pc 4 with the initial registers and data memory; a finished run leaves 32 registers |
| Simulator.RunOneStep | simulator.py:146-153 | unfolding lemma for one iteration: on a halt the loop ends at pc without a snapshot; otherwise the snapshot `(pc, registers after)` comes first and the loop continues at `pc + pc_inc` |
| Simulator.Iterate | simulator.py:147-153 | one pass of the loop body on the register array is one step of `Run` |
| Simulator.RunSnapshots | simulator.py:146-152 | every snapshot was taken at an address holding an instruction, and x0 is zero in every snapshot and at the end |
| Simulator.RunExit | simulator.py:146-154 | the final registers are those of the last snapshot. On a halt the exit pc holds a branch and the last increment is 4. Otherwise pc has left the program and `pc - pc_inc` is the last snapshot's pc |
| Simulator.RunFuel | simulator.py:146 | more fuel does not change a run that finished |
| Simulator.StepLines | simulator.py:152 | one trace line per snapshot |
| Simulator.FinishTrace | simulator.py:154-158 | the output is the lines so far, then the closing trace line, then the memory dump |
| Simulator.ClosingPc | simulator.py:154 | `pc - pc_inc` after the loop; no ensures of its own: RunExit and SimulationExit state its value on each exit path |
| Simulator.TraceText | simulator.py:143-158 | a finished run writes `steps + 1 + len(memory)` lines |
| Simulator.TraceTextLines | simulator.py:152-155 | line i of the output, for each snapshot i, is that snapshot's trace line, and the next line is the closing line at `pc - pc_inc` |
| Simulator.SnapshotAddresses | simulator.py:135-152 | every trace line of a simulation is at an instruction address `4 * (i + 1)` and shows x0 = 0 |
| Simulator.SimulationExit | simulator.py:146-155 | on a halt the closing line is at the halting pc less 4, with the last line's registers. When pc leaves the program there is at least one trace line, and the closing line is at the last line's pc |
| Simulator.RepeatedLine | simulator.py:152-155 | when the closing pc and registers are the last snapshot's, the closing line repeats the last trace line |
| Simulator.Loop | simulator.py:143-153 | the loop on the register array ends exactly when `Run` finishes, with the trace lines, pc, last increment and registers of that run |
| Simulator.Simulate | simulator.py:135-158 | the program finishes within the fuel iff `Run` does, and then its output is that run's trace text and the initial memory's dump |

## Left out

- Console prompts, file reading and writing, and the diagnostics printed for
  unsupported instructions (simulator.py:66, 90, 104, 111, 126-132,
  160-164) are I/O. An unsupported instruction is modelled as the no-op it is.
- Parsing the instruction file: stripping lines, skipping blank ones, and
  `int(inst_bin, 2)` (simulator.py:132, 148). The program is a sequence of
  already-decoded 32-bit words.
- Simulator.Simulate: the loop in simulator.py has no bound, so it need not end.
  The model runs on a `fuel` step budget and reports running out of fuel
  (no lines) instead of looping forever.
- Simulator.Simulate: requires a non-empty program. With an empty one,
  `pc_inc` is never assigned and simulator.py fails at line 154.
- Simulator.Run: `pc_inc` has no value before the first iteration. The
  model starts it at 0; with a non-empty program the first iteration
  always assigns it before it is read.
- Execute.Execute: the data memory is a value (`map`), not a shared
  dictionary. simulator.py never writes it, so "memory is never modified" holds
  by construction rather than being a stated postcondition.
