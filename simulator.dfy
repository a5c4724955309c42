/** The driver around `execute_instruction`: the program is laid out at
    pc 4, 8, 12, ..., the register file starts with the stack pointer x2 at
    380, the data memory holds 32 zero words from 0x0001_0000, and
    instructions run while pc names an instruction, stopping early on a
    halt. The trace gets one line per executed non-halting instruction, one
    closing line at `pc - pc_inc`, then the memory dump.

    The loop of simulator.py need not terminate; here it runs on `fuel`, and
    running out of fuel is a result of its own. */
module Simulator {
  import opened Bits
  import opened Decode
  import opened Execute
  import opened Trace

  const FirstPc := 4
  const StackPointer := 380
  const DataBase := 0x0001_0000
  const DataEnd := 0x0001_0080

  /** `instr_mem`: instruction i at address 4 * (i + 1). */
  function InstructionMemory(program: seq<Word>): (imem: map<int, Word>)
    ensures forall pc :: pc in imem <==> 4 <= pc <= 4 * |program| && pc % 4 == 0
  {
    map pc | 4 <= pc <= 4 * |program| && pc % 4 == 0 :: program[pc / 4 - 1]
  }

  /** Instruction i sits at address 4 * (i + 1). */
  lemma InstructionAt(program: seq<Word>, i: int)
    requires 0 <= i < |program|
    ensures 4 * (i + 1) in InstructionMemory(program)
    ensures InstructionMemory(program)[4 * (i + 1)] == program[i]
  {
  }

  /** All registers zero except x2, the stack pointer. */
  function InitialRegisters(): (regs: seq<Word>)
    ensures |regs| == 32 && regs[2] == StackPointer
    ensures forall i :: 0 <= i < 32 && i != 2 ==> regs[i] == 0
  {
    seq(32, i => if i == 2 then StackPointer else 0)
  }

  /** The data memory: a zero word at every fourth address from 0x0001_0000
      up to 0x0001_007C. */
  function InitialDataMemory(): (mem: map<Word, Word>)
    ensures forall a: Word :: a in mem <==> DataBase <= a < DataEnd && a % 4 == 0
    ensures forall a :: a in mem ==> mem[a] == 0
  {
    map a: Word | DataBase <= a < DataEnd && a % 4 == 0 :: 0
  }

  /** One trace line's content: the pc an instruction was fetched from and
      the registers after it ran. */
  datatype Snapshot = Snapshot(pc: int, regs: seq<Word>)

  /** How the loop ended: the snapshots in order, pc, registers and the last
      increment at exit, and whether a halt ended it (otherwise pc left the
      program). */
  datatype Exit = Exit(steps: seq<Snapshot>, pc: int, regs: seq<Word>, lastIncrement: int, halted: bool)

  /** Puts earlier snapshots in front of a run's own. */
  function Prepend(steps: seq<Snapshot>, r: Option<Exit>): (r': Option<Exit>)
    ensures r'.Some? <==> r.Some?
    ensures r.Some? ==> r'.value == r.value.(steps := steps + r.value.steps)
  {
    match r
    case None => None
    case Some(x) => Some(x.(steps := steps + x.steps))
  }

  lemma PrependTwice(first: seq<Snapshot>, second: seq<Snapshot>, r: Option<Exit>)
    ensures Prepend(first, Prepend(second, r)) == Prepend(first + second, r)
  {
    if r.Some? {
      assert first + (second + r.value.steps) == (first + second) + r.value.steps;
    }
  }

  lemma PrependNothing(r: Option<Exit>)
    ensures Prepend([], r) == r
  {
    if r.Some? {
      assert [] + r.value.steps == r.value.steps;
    }
  }

  /** Snapshots before an exit that has none of its own. */
  lemma PrependExit(steps: seq<Snapshot>, x: Exit)
    requires x.steps == []
    ensures Prepend(steps, Some(x)) == Some(x.(steps := steps))
  {
    assert steps + [] == steps;
  }

  /** The loop from pc with the given registers, `lastIncrement` being the
      value `pc_inc` holds on entry; None when fuel runs out first. The loop
      test is here; fetching and executing are the two functions below. */
  function Run(imem: map<int, Word>, mem: map<Word, Word>, pc: int, regs: seq<Word>, lastIncrement: int, fuel: nat)
    : (r: Option<Exit>)
    requires |regs| == 32
    ensures r.Some? ==> |r.value.regs| == 32
    decreases fuel, 2
  {
    if pc !in imem then Some(Exit([], pc, regs, lastIncrement, false))
    else if fuel == 0 then None
    else Fetch(imem, mem, pc, regs, fuel)
  }

  /** The instruction at pc is fetched from the instruction memory and
      executed. */
  function Fetch(imem: map<int, Word>, mem: map<Word, Word>, pc: int, regs: seq<Word>, fuel: nat)
    : (r: Option<Exit>)
    requires |regs| == 32 && pc in imem && fuel > 0
    ensures r.Some? ==> |r.value.regs| == 32
    decreases fuel, 1
  {
    Advance(imem, mem, pc, Step(imem[pc], regs, mem, pc), fuel)
  }

  /** After the instruction at pc: a halt stops the loop before its trace
      line, otherwise its line is recorded and pc moves by the increment. */
  function Advance(imem: map<int, Word>, mem: map<Word, Word>, pc: int, e: Effect, fuel: nat)
    : (r: Option<Exit>)
    requires |e.regs| == 32 && fuel > 0
    ensures r.Some? ==> |r.value.regs| == 32
    decreases fuel, 0
  {
    if e.halt then Some(Exit([], pc, e.regs, e.pcIncrement, true))
    else Prepend([Snapshot(pc, e.regs)], Run(imem, mem, pc + e.pcIncrement, e.regs, e.pcIncrement, fuel - 1))
  }

  /** One iteration: the instruction at pc runs; a halt ends the loop there,
      otherwise its snapshot comes first and the loop goes on at the moved pc. */
  lemma RunOneStep(imem: map<int, Word>, mem: map<Word, Word>, pc: int, regs: seq<Word>, lastIncrement: int, fuel: nat)
    requires |regs| == 32 && pc in imem && fuel > 0
    ensures var e := Step(imem[pc], regs, mem, pc);
            Run(imem, mem, pc, regs, lastIncrement, fuel)
            == if e.halt then Some(Exit([], pc, e.regs, e.pcIncrement, true))
               else Prepend([Snapshot(pc, e.regs)], Run(imem, mem, pc + e.pcIncrement, e.regs, e.pcIncrement, fuel - 1))
  {
    var e := Step(imem[pc], regs, mem, pc);
    assert Run(imem, mem, pc, regs, lastIncrement, fuel) == Fetch(imem, mem, pc, regs, fuel);
    assert Fetch(imem, mem, pc, regs, fuel) == Advance(imem, mem, pc, e, fuel);
  }

  /** One pass of the loop body: `execute_instruction` on the fetched
      word, with the effect stated as the step of the loop it makes. */
  method Iterate(imem: map<int, Word>, mem: map<Word, Word>, pc: int, registers: array<Word>,
                 ghost lastIncrement: int, ghost fuel: nat)
      returns (pcInc: int, halt: bool)
    requires registers.Length == 32 && pc in imem && fuel > 0
    modifies registers
    ensures Run(imem, mem, pc, old(registers[..]), lastIncrement, fuel)
            == if halt then Some(Exit([], pc, registers[..], pcInc, true))
               else Prepend([Snapshot(pc, registers[..])], Run(imem, mem, pc + pcInc, registers[..], pcInc, fuel - 1))
  {
    ghost var before := registers[..];
    pcInc, halt := Execute.Execute(imem[pc], registers, mem, pc);
    RunOneStep(imem, mem, pc, before, lastIncrement, fuel);
  }

  /** The whole simulation of a program. `pc_inc` has no value before the
      first instruction; since the program is not empty, the first
      iteration always assigns it, and 0 stands in for it. */
  function Outcome(program: seq<Word>, fuel: nat): (r: Option<Exit>)
    requires |program| > 0
    ensures r.Some? ==> |r.value.regs| == 32
  {
    Run(InstructionMemory(program), InitialDataMemory(), FirstPc, InitialRegisters(), 0, fuel)
  }

  /** The registers the loop holds after the given snapshots: those of the
      last one, or the starting ones when there is none. */
  function LastRegisters(regs: seq<Word>, steps: seq<Snapshot>): seq<Word>
  {
    if steps == [] then regs else steps[|steps| - 1].regs
  }

  /** Every snapshot of a run was taken at an instruction of the program and
      has 32 registers with x0 zero, and so do the final registers. */
  lemma {:induction false} RunSnapshots(imem: map<int, Word>, mem: map<Word, Word>, pc: int, regs: seq<Word>,
                                        lastIncrement: int, fuel: nat)
    requires |regs| == 32 && regs[0] == 0
    ensures var r := Run(imem, mem, pc, regs, lastIncrement, fuel);
            r.Some? ==>
              && r.value.regs[0] == 0
              && forall i :: 0 <= i < |r.value.steps| ==>
                   r.value.steps[i].pc in imem && |r.value.steps[i].regs| == 32 && r.value.steps[i].regs[0] == 0
    decreases fuel
  {
    if pc in imem && fuel > 0 {
      RunOneStep(imem, mem, pc, regs, lastIncrement, fuel);
      var e := Step(imem[pc], regs, mem, pc);
      if !e.halt {
        RunSnapshots(imem, mem, pc + e.pcIncrement, e.regs, e.pcIncrement, fuel - 1);
      }
    }
  }

  /** How a run ends. The final registers are those of the last snapshot (a
      halting branch writes none). On a halt the word at the exit pc is a
      branch and the last increment is 4. Otherwise pc has left the program
      and the exit pc less the last increment is the pc of the last
      snapshot, so the closing trace line repeats the last one. */
  lemma {:induction false} RunExit(imem: map<int, Word>, mem: map<Word, Word>, pc: int, regs: seq<Word>,
                                   lastIncrement: int, fuel: nat)
    requires |regs| == 32 && regs[0] == 0
    ensures var r := Run(imem, mem, pc, regs, lastIncrement, fuel);
            r.Some? ==>
              && r.value.regs == LastRegisters(regs, r.value.steps)
              && (r.value.steps == [] && !r.value.halted ==> pc !in imem)
              && (r.value.halted ==>
                    r.value.pc in imem && Opcode(imem[r.value.pc]) == OpBranch && r.value.lastIncrement == 4)
              && (!r.value.halted ==>
                    && r.value.pc !in imem
                    && ClosingPc(r.value)
                       == if r.value.steps == [] then pc - lastIncrement else r.value.steps[|r.value.steps| - 1].pc)
    decreases fuel
  {
    if pc in imem && fuel > 0 {
      RunOneStep(imem, mem, pc, regs, lastIncrement, fuel);
      var e := Step(imem[pc], regs, mem, pc);
      StepFrame(imem[pc], regs, mem, pc);
      if e.halt {
        assert regs[0 := 0] == regs;
      } else {
        RunExit(imem, mem, pc + e.pcIncrement, e.regs, e.pcIncrement, fuel - 1);
      }
    }
  }

  /** More fuel leaves a finished run as it was. */
  lemma {:induction false} RunFuel(imem: map<int, Word>, mem: map<Word, Word>, pc: int, regs: seq<Word>,
                                   lastIncrement: int, fuel: nat, more: nat)
    requires |regs| == 32 && fuel <= more
    requires Run(imem, mem, pc, regs, lastIncrement, fuel).Some?
    ensures Run(imem, mem, pc, regs, lastIncrement, more) == Run(imem, mem, pc, regs, lastIncrement, fuel)
    decreases fuel
  {
    if pc in imem {
      RunOneStep(imem, mem, pc, regs, lastIncrement, fuel);
      RunOneStep(imem, mem, pc, regs, lastIncrement, more);
      var e := Step(imem[pc], regs, mem, pc);
      if !e.halt {
        RunFuel(imem, mem, pc + e.pcIncrement, e.regs, e.pcIncrement, fuel - 1, more - 1);
      }
    }
  }

  /** The trace lines of the snapshots, in order. */
  function StepLines(steps: seq<Snapshot>): (lines: seq<string>)
    ensures |lines| == |steps|
  {
    seq(|steps|, i requires 0 <= i < |steps| => FormatTraceLine(steps[i].pc, steps[i].regs))
  }

  lemma StepLinesAppend(steps: seq<Snapshot>, s: Snapshot)
    ensures StepLines(steps + [s]) == StepLines(steps) + [FormatTraceLine(s.pc, s.regs)]
  {
  }

  /** What the program prints after the loop: the lines already printed,
      one more trace line at `pc` and the memory dump. */
  function FinishTrace(traceLines: seq<string>, pc: int, regs: seq<Word>, mem: map<Word, Word>): (lines: seq<string>)
    requires |regs| == 32
    ensures |lines| == |traceLines| + 1 + |mem|
    ensures lines[..|traceLines|] == traceLines
    ensures lines[|traceLines|] == FormatTraceLine(pc, regs)
    ensures lines[|traceLines| + 1..] == FormatMemoryDump(mem)
  {
    traceLines + [FormatTraceLine(pc, regs)] + FormatMemoryDump(mem)
  }

  /** The pc of the closing trace line: the loop's last pc less the last
      increment, on either exit path. */
  function ClosingPc(x: Exit): int
  {
    x.pc - x.lastIncrement
  }

  /** The whole output of a finished run: a line per non-halting step, the
      closing line, the memory dump. */
  function TraceText(x: Exit, mem: map<Word, Word>): (lines: seq<string>)
    requires |x.regs| == 32
    ensures |lines| == |x.steps| + 1 + |mem|
  {
    FinishTrace(StepLines(x.steps), ClosingPc(x), x.regs, mem)
  }

  /** The lines printed so far and the final pc and registers give the
      whole output of the run. */
  lemma FinishedTrace(x: Exit, mem: map<Word, Word>, traceLines: seq<string>, pc: int, regs: seq<Word>)
    requires |x.regs| == 32
    requires traceLines == StepLines(x.steps) && pc == ClosingPc(x) && regs == x.regs
    ensures FinishTrace(traceLines, pc, regs, mem) == TraceText(x, mem)
  {
  }

  /** The addresses of the initial data memory in ascending order. */
  lemma InitialAddresses()
    ensures SortedKeys(InitialDataMemory().Keys) == seq(32, i requires 0 <= i < 32 => DataBase + 4 * i)
  {
    var mem := InitialDataMemory();
    var keys: seq<Word> := seq(32, i requires 0 <= i < 32 => DataBase + 4 * i);
    forall k | k in mem.Keys
      ensures k in keys
    {
      assert keys[(k - DataBase) / 4] == k;
    }
    SortedKeysUnique(mem.Keys, keys);
  }

  /** The dump of the initial data memory: 32 lines, line i reading back
      as address 0x0001_0000 + 4i holding zero. */
  lemma InitialDump()
    ensures var lines := FormatMemoryDump(InitialDataMemory());
            && |lines| == 32
            && forall i :: 0 <= i < 32 ==>
                 NumeralValue(lines[i][2..10], 16) == DataBase + 4 * i && NumeralValue(lines[i][13..], 2) == 0
  {
    MemoryDumpReadsBack(InitialDataMemory());
    InitialAddresses();
  }

  /** Every trace line of a finished simulation comes from an instruction
      address 4, 8, ..., 4 * |program| and shows x0 as zero. */
  lemma SnapshotAddresses(program: seq<Word>, fuel: nat)
    requires |program| > 0 && Outcome(program, fuel).Some?
    ensures var x := Outcome(program, fuel).value;
            forall i :: 0 <= i < |x.steps| ==>
              && 4 <= x.steps[i].pc <= 4 * |program| && x.steps[i].pc % 4 == 0
              && |x.steps[i].regs| == 32 && x.steps[i].regs[0] == 0
  {
    RunSnapshots(InstructionMemory(program), InitialDataMemory(), FirstPc, InitialRegisters(), 0, fuel);
  }

  /** How a finished simulation ends. The final registers are those of the
      last trace line (the initial ones when there is none). When a halt
      ended the loop the closing pc is the halting pc less 4; when pc left
      the program there is at least one trace line and the closing pc is
      that of the last one. */
  lemma SimulationExit(program: seq<Word>, fuel: nat)
    requires |program| > 0 && Outcome(program, fuel).Some?
    ensures var x := Outcome(program, fuel).value;
            && x.regs == LastRegisters(InitialRegisters(), x.steps)
            && (x.halted ==> ClosingPc(x) == x.pc - 4)
            && (!x.halted ==> x.steps != [] && ClosingPc(x) == x.steps[|x.steps| - 1].pc)
  {
    RunExit(InstructionMemory(program), InitialDataMemory(), FirstPc, InitialRegisters(), 0, fuel);
    InstructionAt(program, 0);
  }

  /** Line i of the output, for i up to the number of snapshots: the
      snapshot lines, then the closing line. */
  lemma TraceTextLines(x: Exit, mem: map<Word, Word>)
    requires |x.regs| == 32
    ensures forall i :: 0 <= i < |x.steps| ==>
              TraceText(x, mem)[i] == FormatTraceLine(x.steps[i].pc, x.steps[i].regs)
    ensures TraceText(x, mem)[|x.steps|] == FormatTraceLine(ClosingPc(x), x.regs)
  {
    var t, head := TraceText(x, mem), StepLines(x.steps);
    assert t[..|x.steps|] == head;
    forall i | 0 <= i < |x.steps|
      ensures t[i] == FormatTraceLine(x.steps[i].pc, x.steps[i].regs)
    {
      assert t[i] == head[i];
    }
  }

  /** When the closing pc and registers are those of the last snapshot, the
      closing trace line repeats the line before it. */
  lemma RepeatedLine(x: Exit, mem: map<Word, Word>)
    requires |x.regs| == 32 && x.steps != []
    requires ClosingPc(x) == x.steps[|x.steps| - 1].pc && x.regs == x.steps[|x.steps| - 1].regs
    ensures TraceText(x, mem)[|x.steps|] == TraceText(x, mem)[|x.steps| - 1]
  {
    TraceTextLines(x, mem);
  }

  /** The simulation loop with pc as a local, the register file as an array
      updated by `Execute`, one trace line appended per non-halting
      instruction. It ends when pc leaves the program or on a halt
      (`finished`), or when fuel runs out; `exit` is the run it made. */
  method Loop(imem: map<int, Word>, mem: map<Word, Word>, registers: array<Word>, fuel: nat)
      returns (pc: int, pcInc: int, traceLines: seq<string>, finished: bool, ghost exit: Exit)
    requires registers.Length == 32
    modifies registers
    ensures finished <==> Run(imem, mem, FirstPc, old(registers[..]), 0, fuel).Some?
    ensures finished ==> Run(imem, mem, FirstPc, old(registers[..]), 0, fuel) == Some(exit)
    ensures finished ==> traceLines == StepLines(exit.steps)
    ensures finished ==> pc == exit.pc && pcInc == exit.lastIncrement && registers[..] == exit.regs
  {
    pc, pcInc := FirstPc, 0;
    traceLines := [];
    var remaining := fuel;
    ghost var steps: seq<Snapshot> := [];
    ghost var halted := false;
    ghost var whole := Run(imem, mem, pc, registers[..], pcInc, remaining);
    PrependNothing(whole);
    while pc in imem
      invariant whole == Prepend(steps, Run(imem, mem, pc, registers[..], pcInc, remaining))
      invariant traceLines == StepLines(steps)
      decreases remaining
    {
      if remaining == 0 {
        finished, exit := false, Exit(steps, pc, registers[..], pcInc, false);
        return;
      }
      ghost var incBefore := pcInc;
      var halt;
      pcInc, halt := Iterate(imem, mem, pc, registers, incBefore, remaining);
      if halt {
        PrependExit(steps, Exit([], pc, registers[..], pcInc, true));
        halted := true;
        break;
      }
      ghost var snapshot := Snapshot(pc, registers[..]);
      PrependTwice(steps, [snapshot], Run(imem, mem, pc + pcInc, registers[..], pcInc, remaining - 1));
      StepLinesAppend(steps, snapshot);
      traceLines := traceLines + [FormatTraceLine(pc, registers[..])];
      steps := steps + [snapshot];
      pc := pc + pcInc;
      remaining := remaining - 1;
    }
    if !halted {
      PrependExit(steps, Exit([], pc, registers[..], pcInc, false));
    }
    exit := Exit(steps, pc, registers[..], pcInc, halted);
    finished := true;
  }

  /** The whole program run: instruction and data memory and the register
      file set up, the loop, the closing trace line at `pc - pc_inc`, and
      the memory dump. `finished` is false when fuel ran out, and then no
      lines are returned. */
  method Simulate(program: seq<Word>, fuel: nat) returns (lines: seq<string>, finished: bool)
    requires |program| > 0
    ensures finished <==> Outcome(program, fuel).Some?
    ensures finished ==> lines == TraceText(Outcome(program, fuel).value, InitialDataMemory())
  {
    var imem := InstructionMemory(program);
    var registers := new Word[32](i => if i == 2 then StackPointer else 0);
    var mem := InitialDataMemory();
    assert registers[..] == InitialRegisters();
    var pc, pcInc, traceLines, ok, exit := Loop(imem, mem, registers, fuel);
    if !ok {
      return [], false;
    }
    assert Outcome(program, fuel) == Some(exit);
    pc := pc - pcInc;
    var dump := DumpMemory(mem);
    lines := traceLines + [FormatTraceLine(pc, registers[..])] + dump;
    assert lines == FinishTrace(traceLines, pc, registers[..], mem);
    finished := true;
    FinishedTrace(exit, mem, traceLines, pc, registers[..]);
  }
}
