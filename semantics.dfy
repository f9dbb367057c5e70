/**
 * The meaning of the interpreter's state changes, as functions on a value `Machine`
 * that holds what an `InterpreterState` (Interpreter/Program.cs) holds besides its
 * program: the tape, the pointer, the current instruction, the `Done` flag, and the
 * input still to be read and the output written so far. The class in module Engine
 * is proved to change its fields exactly as these functions say.
 */
module Semantics {
  import opened Wrappers
  import opened Instructions

  /** The faults that stop a run. */
  datatype Fault =
    | PointerUnderflow   // InvalidInterpreterStateException from IncrementPointer
    | MissingMatch       // a jump taken while its MatchingInstruction is null
    | InputExhausted     // a ReadCharacter with no input left

  datatype Machine = Machine(
    tape: seq<int32>,
    pointer: nat,
    current: nat,
    done: bool,
    input: seq<byte>,
    output: seq<byte>)

  /** A fresh state whose program has just been added: everything empty, at the first instruction. */
  function Start(input: seq<byte>): Machine {
    Machine([], 0, 0, false, input, [])
  }

  /** The conceptual, zero-initialised infinite tape: cell k, or 0 past the stored end. */
  function CellOf(tape: seq<int32>, k: nat): int32 {
    if k < |tape| then tape[k] else 0
  }

  /** `tape'` is `tape` with zero cells appended. */
  ghost predicate ZeroExtension(tape: seq<int32>, tape': seq<int32>) {
    && |tape| <= |tape'|
    && tape'[..|tape|] == tape
    && forall k | |tape| <= k < |tape'| :: tape'[k] == 0
  }

  /** `tape` after appending zeros until it has a cell at `pointer`. */
  function Grown(tape: seq<int32>, pointer: nat): (r: seq<int32>)
    ensures |r| == if |tape| <= pointer then pointer + 1 else |tape|
    ensures ZeroExtension(tape, r)
    decreases pointer + 1 - |tape|
  {
    if |tape| < pointer + 1 then Grown(tape + [0], pointer) else tape
  }

  /** Growing the stored tape never changes the conceptual tape. */
  lemma GrownKeepsCells(tape: seq<int32>, pointer: nat, k: nat)
    ensures CellOf(Grown(tape, pointer), k) == CellOf(tape, k)
  {
    var r := Grown(tape, pointer);
    if k < |tape| {
      assert r[..|tape|][k] == r[k];
    }
  }

  /** The state after SortArrayOut: the tape grown to reach the pointer. */
  function Settled(m: Machine): (r: Machine)
    ensures r == m.(tape := r.tape)
    ensures m.pointer < |r.tape| && ZeroExtension(m.tape, r.tape)
    ensures |m.tape| > m.pointer ==> r == m
  {
    m.(tape := Grown(m.tape, m.pointer))
  }

  /** What GetCurrentValue returns: the cell at the pointer (the state afterwards is Settled(m)). */
  function CurrentValue(m: Machine): (v: int32)
    ensures v == CellOf(m.tape, m.pointer)
    ensures m.pointer >= |m.tape| ==> v == 0
  {
    GrownKeepsCells(m.tape, m.pointer, m.pointer);
    Settled(m).tape[m.pointer]
  }

  /**
   * What GetValueAt returns: the cell at p, which must be stored once the tape has grown to the
   * pointer (the state afterwards is Settled(m)).
   */
  function ValueAt(m: Machine, p: nat): (v: int32)
    requires p < |m.tape| || p <= m.pointer
    ensures v == CellOf(m.tape, p)
  {
    GrownKeepsCells(m.tape, m.pointer, p);
    Settled(m).tape[p]
  }

  /** The state after IncrementValue(i): i added, with 32-bit wrap-around, to the cell at the pointer. */
  function Incremented(m: Machine, i: int): (r: Machine)
    ensures r == m.(tape := r.tape) && |r.tape| == |Settled(m).tape|
    ensures CellOf(r.tape, m.pointer) == Wrap32(CellOf(m.tape, m.pointer) as int + i)
    ensures forall k: nat | k != m.pointer :: CellOf(r.tape, k) == CellOf(m.tape, k)
  {
    var s := Settled(m);
    var r := s.(tape := s.tape[m.pointer := Wrap32(s.tape[m.pointer] as int + i)]);
    forall k: nat ensures k != m.pointer ==> CellOf(r.tape, k) == CellOf(m.tape, k) {
      GrownKeepsCells(m.tape, m.pointer, k);
    }
    GrownKeepsCells(m.tape, m.pointer, m.pointer);
    r
  }

  /** The state after SetCurrentValueTo(b): byte b stored in the cell at the pointer. */
  function Stored(m: Machine, b: byte): (r: Machine)
    ensures r == m.(tape := r.tape) && |r.tape| == |Settled(m).tape|
    ensures CellOf(r.tape, m.pointer) as int == b as int
    ensures forall k: nat | k != m.pointer :: CellOf(r.tape, k) == CellOf(m.tape, k)
  {
    var s := Settled(m);
    var r := s.(tape := s.tape[m.pointer := b as int as int32]);
    forall k: nat ensures k != m.pointer ==> CellOf(r.tape, k) == CellOf(m.tape, k) {
      GrownKeepsCells(m.tape, m.pointer, k);
    }
    r
  }

  /**
   * The tape reads back what was written: after SetCurrentValueTo(b) the current
   * value is b, after IncrementValue(i) it is the old value plus i (wrapped), and a
   * cell never written reads 0.
   */
  lemma WrittenReadsBack(m: Machine, b: byte, i: int, k: nat)
    ensures CurrentValue(Stored(m, b)) as int == b as int
    ensures CurrentValue(Incremented(m, i)) == Wrap32(CurrentValue(m) as int + i)
    ensures k >= |m.tape| ==> CellOf(Settled(m).tape, k) == 0
  {
  }

  /** The state after IncrementPointer(amount): the pointer moved by `amount`, failing if it would go below zero. */
  function Moved(m: Machine, amount: int): (r: Result<Machine, Fault>)
    ensures r.Success? <==> m.pointer + amount >= 0
    ensures r.Failure? ==> r.error == PointerUnderflow
    ensures r.Success? ==> r.value.pointer == m.pointer + amount && r.value == m.(pointer := r.value.pointer)
  {
    if m.pointer + amount < 0 then Failure(PointerUnderflow) else Success(m.(pointer := m.pointer + amount))
  }

  /** What a fault leaves behind: `m` with nothing changed but zero cells appended to the tape. */
  ghost predicate FaultLeft(m: Machine, m': Machine) {
    m' == m.(tape := m'.tape) && ZeroExtension(m.tape, m'.tape)
  }

  /** Both tapes hold the same conceptual tape. */
  ghost predicate SameCells(t: seq<int32>, t': seq<int32>) {
    forall k: nat :: CellOf(t, k) == CellOf(t', k)
  }

  // The RunInstruction of each instruction class of Interpreter/Instructions.cs.

  function RunMovePointer(d: Direction, m: Machine): (r: Result<Machine, Fault>)
    ensures r.Failure? <==> d == Backwards && m.pointer == 0
    ensures r.Failure? ==> r.error == PointerUnderflow
    ensures r.Success? ==> r.value.pointer == m.pointer + Amount(d) && r.value == m.(pointer := r.value.pointer)
  {
    Moved(m, Amount(d))
  }

  function RunIncrementValue(d: Direction, m: Machine): (r: Machine)
    ensures r == m.(tape := r.tape)
    ensures CellOf(r.tape, m.pointer) == Wrap32(CellOf(m.tape, m.pointer) as int + Amount(d))
    ensures forall k: nat | k != m.pointer :: CellOf(r.tape, k) == CellOf(m.tape, k)
  {
    Incremented(m, Amount(d))
  }

  function RunPrintCharacter(m: Machine): (r: Machine)
    ensures r.output == m.output + [LowByte(CellOf(m.tape, m.pointer))]
    ensures r == m.(tape := r.tape, output := r.output) && SameCells(m.tape, r.tape)
  {
    var v := CurrentValue(m);
    var s := Settled(m);
    forall k: nat ensures CellOf(m.tape, k) == CellOf(s.tape, k) {
      GrownKeepsCells(m.tape, m.pointer, k);
    }
    s.(output := s.output + [LowByte(v)])
  }

  function RunReadCharacter(m: Machine): (r: Result<Machine, Fault>)
    ensures r.Failure? <==> m.input == []
    ensures r.Failure? ==> r.error == InputExhausted
    ensures r.Success? ==> && r.value.input == m.input[1..]
                           && r.value == m.(tape := r.value.tape, input := r.value.input)
                           && CellOf(r.value.tape, m.pointer) as int == m.input[0] as int
                           && forall k: nat | k != m.pointer :: CellOf(r.value.tape, k) == CellOf(m.tape, k)
  {
    if m.input == [] then Failure(InputExhausted)
    else Success(Stored(m.(input := m.input[1..]), m.input[0]))
  }

  function RunJumpIfZero(matching: Option<nat>, m: Machine): (r: Result<Machine, Fault>)
    ensures r.Failure? <==> CellOf(m.tape, m.pointer) == 0 && matching.None?
    ensures r.Failure? ==> r.error == MissingMatch
    ensures r.Success? ==> && r.value == m.(tape := r.value.tape, current := r.value.current)
                           && SameCells(m.tape, r.value.tape)
                           && r.value.current == if CellOf(m.tape, m.pointer) == 0 then matching.value else m.current
  {
    var v := CurrentValue(m);
    var s := Settled(m);
    forall k: nat ensures CellOf(m.tape, k) == CellOf(s.tape, k) {
      GrownKeepsCells(m.tape, m.pointer, k);
    }
    if v == 0 then
      if matching.None? then Failure(MissingMatch) else Success(s.(current := matching.value))
    else Success(s)
  }

  function RunJumpIfNotZero(matching: Option<nat>, m: Machine): (r: Result<Machine, Fault>)
    ensures r.Failure? <==> CellOf(m.tape, m.pointer) != 0 && matching.None?
    ensures r.Failure? ==> r.error == MissingMatch
    ensures r.Success? ==> && r.value == m.(tape := r.value.tape, current := r.value.current)
                           && SameCells(m.tape, r.value.tape)
                           && r.value.current == if CellOf(m.tape, m.pointer) != 0 then matching.value else m.current
  {
    var v := CurrentValue(m);
    var s := Settled(m);
    forall k: nat ensures CellOf(m.tape, k) == CellOf(s.tape, k) {
      GrownKeepsCells(m.tape, m.pointer, k);
    }
    if v != 0 then
      if matching.None? then Failure(MissingMatch) else Success(s.(current := matching.value))
    else Success(s)
  }

  /** The dispatch on the instruction's kind (the virtual call RunInstruction). */
  function RunInstruction(op: Op, m: Machine): (r: Result<Machine, Fault>)
    ensures r.Success? ==> r.value.done == m.done
    ensures r.Success? ==> r.value.current == m.current || (op.IsJump() && op.matching == Some(r.value.current))
    ensures r.Success? && r.value.pointer != m.pointer ==> op.MovePointer?
    ensures r.Success? && r.value.output != m.output ==> op.PrintCharacter?
    ensures r.Success? && r.value.input != m.input ==> op.ReadCharacter?
    ensures r.Success? && !SameCells(m.tape, r.value.tape) ==> op.IncrementValue? || op.ReadCharacter?
  {
    match op
    case MovePointer(d) => RunMovePointer(d, m)
    case IncrementValue(d) => Success(RunIncrementValue(d, m))
    case PrintCharacter => Success(RunPrintCharacter(m))
    case ReadCharacter => RunReadCharacter(m)
    case JumpIfZero(matching) => RunJumpIfZero(matching, m)
    case JumpIfNotZero(matching) => RunJumpIfNotZero(matching, m)
  }

  /**
   * ExecuteNextInstruction: run the current instruction, then move to the successor
   * of whatever instruction is current afterwards; with no successor, set Done and
   * stay where it is.
   */
  function Step(p: seq<Instruction>, m: Machine): (r: Result<Machine, Fault>)
    requires m.current < |p| && LinksInRange(p)
    ensures r.Success? ==> r.value.current < |p|
  {
    match RunInstruction(p[m.current].op, m)
    case Failure(e) => Failure(e)
    case Success(s) =>
      if s.current + 1 < |p| then Success(s.(current := s.current + 1)) else Success(s.(done := true))
  }

  /** The driver loop `while (!Done) ExecuteNextInstruction()`, for at most `fuel` steps. */
  function Run(p: seq<Instruction>, m: Machine, fuel: nat): (r: Result<Machine, Fault>)
    requires m.current < |p| && LinksInRange(p)
    ensures r.Success? ==> r.value.current < |p|
    ensures m.done ==> r == Success(m)
    decreases fuel
  {
    if m.done || fuel == 0 then Success(m)
    else
      match Step(p, m)
      case Failure(e) => Failure(e)
      case Success(m') => Run(p, m', fuel - 1)
  }

  /** A step faults exactly when its instruction does, and with the instruction's fault. */
  lemma StepFaults(p: seq<Instruction>, m: Machine)
    requires m.current < |p| && LinksInRange(p)
    ensures Step(p, m).Failure? <==> RunInstruction(p[m.current].op, m).Failure?
    ensures Step(p, m).Failure? ==> Step(p, m).error == RunInstruction(p[m.current].op, m).error
  {
  }

  /** A run with fuel left from a state not Done is one step followed by the rest of the run. */
  lemma RunUnfolds(p: seq<Instruction>, m: Machine, fuel: nat)
    requires m.current < |p| && LinksInRange(p) && !m.done && fuel > 0
    ensures Step(p, m).Failure? ==> Run(p, m, fuel) == Failure(Step(p, m).error)
    ensures Step(p, m).Success? ==> Run(p, m, fuel) == Run(p, Step(p, m).value, fuel - 1)
  {
  }

  /** After an instruction other than a jump, the next one in program order is current, or Done is set. */
  lemma NonJumpAdvances(p: seq<Instruction>, m: Machine)
    requires m.current < |p| && LinksInRange(p) && !p[m.current].op.IsJump()
    ensures var r := Step(p, m);
      r.Success? ==> && (m.current + 1 < |p| ==> r.value.current == m.current + 1 && r.value.done == m.done)
                     && (m.current + 1 == |p| ==> r.value.current == m.current && r.value.done)
  {
  }

  /**
   * A JumpIfZero of a built program: taken (cell 0), execution resumes right after
   * its JumpIfNotZero, or Done is set when that closes the program; not taken, at
   * the next instruction.
   */
  lemma JumpIfZeroResumes(p: seq<Instruction>, m: Machine, c: nat)
    requires m.current < |p| && LinksInRange(p) && Paired(p)
    requires p[m.current].op == JumpIfZero(Some(c))
    ensures c < |p| && p[c].op == JumpIfNotZero(Some(m.current))
    ensures var r := Step(p, m);
      && r.Success?
      && (CellOf(m.tape, m.pointer) == 0 ==>
            if c + 1 < |p| then r.value.current == c + 1 && r.value.done == m.done
            else r.value.current == c && r.value.done)
      && (CellOf(m.tape, m.pointer) != 0 ==> r.value.current == m.current + 1 && r.value.done == m.done)
  {
  }

  /**
   * A JumpIfNotZero of a built program: taken (cell not 0), execution resumes right
   * after its JumpIfZero, which is not tested again; not taken, at the next
   * instruction or with Done set.
   */
  lemma JumpIfNotZeroResumes(p: seq<Instruction>, m: Machine, o: nat)
    requires m.current < |p| && LinksInRange(p) && Paired(p)
    requires p[m.current].op == JumpIfNotZero(Some(o))
    ensures o < m.current && p[o].op == JumpIfZero(Some(m.current))
    ensures var r := Step(p, m);
      && r.Success?
      && (CellOf(m.tape, m.pointer) != 0 ==> r.value.current == o + 1 && r.value.done == m.done)
      && (CellOf(m.tape, m.pointer) == 0 ==>
            if m.current + 1 < |p| then r.value.current == m.current + 1 && r.value.done == m.done
            else r.value.current == m.current && r.value.done)
  {
  }

  /**
   * A program without jumps runs straight through: when no step faults, after k
   * steps from instruction i the current instruction is i + k while k < |p| - i, and
   * after |p| - i steps the run is Done, each instruction having run once.
   */
  lemma {:induction false} JumpFreeRunsThrough(p: seq<Instruction>, m: Machine, fuel: nat)
    requires m.current < |p| && JumpFree(p) && !m.done
    ensures LinksInRange(p)
    ensures var r := Run(p, m, fuel);
      r.Success? ==> if fuel < |p| - m.current then !r.value.done && r.value.current == m.current + fuel
                     else r.value.done
    decreases fuel
  {
    if fuel > 0 {
      NonJumpAdvances(p, m);
      var e := Step(p, m);
      if e.Success? && !e.value.done {
        JumpFreeRunsThrough(p, e.value, fuel - 1);
      }
    }
  }

  /** Three IncrementValue and a PrintCharacter. */
  const PrintThree: seq<Instruction> := [
    Instruction(1, IncrementValue(Forward)),
    Instruction(2, IncrementValue(Forward)),
    Instruction(3, IncrementValue(Forward)),
    Instruction(4, PrintCharacter)
  ]

  /** On an empty tape it writes the byte 3 and is Done after its four instructions. */
  lemma PrintThreeWritesThree(input: seq<byte>)
    ensures LinksInRange(PrintThree)
    ensures Run(PrintThree, Start(input), 4) == Success(Machine([3], 0, 3, true, input, [3]))
  {
    var p := PrintThree;
    var m1 := Machine([1], 0, 1, false, input, []);
    var m2 := Machine([2], 0, 2, false, input, []);
    var m3 := Machine([3], 0, 3, false, input, []);
    assert RunIncrementValue(Forward, Start(input)) == m1.(current := 0);
    assert Step(p, Start(input)) == Success(m1);
    assert RunIncrementValue(Forward, m1) == m2.(current := 1);
    assert Step(p, m1) == Success(m2);
    assert RunIncrementValue(Forward, m2) == m3.(current := 2);
    assert Step(p, m2) == Success(m3);
    assert RunPrintCharacter(m3) == m3.(output := [3]);
    assert Step(p, m3) == Success(Machine([3], 0, 3, true, input, [3]));
  }

  /** Three IncrementValue, then a loop that decrements the cell until it is 0. */
  const CountDown: seq<Instruction> := [
    Instruction(1, IncrementValue(Forward)),
    Instruction(2, IncrementValue(Forward)),
    Instruction(3, IncrementValue(Forward)),
    Instruction(4, JumpIfZero(Some(5))),
    Instruction(5, IncrementValue(Backwards)),
    Instruction(6, JumpIfNotZero(Some(3)))
  ]

  /** The state of a CountDown run: one cell holding v, at instruction c. */
  function CountDownAt(input: seq<byte>, v: int32, c: nat): Machine {
    Start(input).(tape := [v], current := c)
  }

  lemma CountDownCountsUp(input: seq<byte>)
    ensures LinksInRange(CountDown)
    ensures Step(CountDown, Start(input)) == Success(CountDownAt(input, 1, 1))
    ensures Step(CountDown, CountDownAt(input, 1, 1)) == Success(CountDownAt(input, 2, 2))
    ensures Step(CountDown, CountDownAt(input, 2, 2)) == Success(CountDownAt(input, 3, 3))
    ensures Step(CountDown, CountDownAt(input, 3, 3)) == Success(CountDownAt(input, 3, 4))
  {
    var s := Start(input);
    assert RunIncrementValue(Forward, s) == CountDownAt(input, 1, 0);
    assert RunIncrementValue(Forward, CountDownAt(input, 1, 1)) == CountDownAt(input, 2, 1);
    assert RunIncrementValue(Forward, CountDownAt(input, 2, 2)) == CountDownAt(input, 3, 2);
    assert RunJumpIfZero(Some(5), CountDownAt(input, 3, 3)) == Success(CountDownAt(input, 3, 3));
  }

  /** One round of the loop body from a cell holding v + 1 > 1: decrement, test, jump back. */
  lemma CountDownRound(input: seq<byte>, v: int32)
    requires 0 < v < 3
    ensures LinksInRange(CountDown)
    ensures Step(CountDown, CountDownAt(input, v + 1, 4)) == Success(CountDownAt(input, v, 5))
    ensures Step(CountDown, CountDownAt(input, v, 5)) == Success(CountDownAt(input, v, 4))
  {
    assert RunIncrementValue(Backwards, CountDownAt(input, v + 1, 4)) == CountDownAt(input, v, 4);
    assert RunJumpIfNotZero(Some(3), CountDownAt(input, v, 5)) == Success(CountDownAt(input, v, 3));
  }

  /** The last round: the cell reaches 0, the test falls through and the program is Done. */
  lemma CountDownFinishes(input: seq<byte>)
    ensures LinksInRange(CountDown)
    ensures Step(CountDown, CountDownAt(input, 1, 4)) == Success(CountDownAt(input, 0, 5))
    ensures Step(CountDown, CountDownAt(input, 0, 5)) == Success(CountDownAt(input, 0, 5).(done := true))
  {
    assert RunIncrementValue(Backwards, CountDownAt(input, 1, 4)) == CountDownAt(input, 0, 4);
    assert RunJumpIfNotZero(Some(3), CountDownAt(input, 0, 5)) == Success(CountDownAt(input, 0, 5));
  }

  /** The last nine steps of a CountDown run, from the first state after an increment. */
  lemma CountDownRunsOut(input: seq<byte>)
    ensures LinksInRange(CountDown)
    ensures Run(CountDown, CountDownAt(input, 1, 1), 9) == Success(CountDownAt(input, 0, 5).(done := true))
    ensures Run(CountDown, CountDownAt(input, 1, 1), 8) == Success(CountDownAt(input, 0, 5))
  {
    var p := CountDown;
    CountDownCountsUp(input);
    CountDownRound(input, 2);
    CountDownRound(input, 1);
    CountDownFinishes(input);
    var fin := CountDownAt(input, 0, 5).(done := true);
    var pre := CountDownAt(input, 0, 5);
    assert Run(p, pre, 1) == Success(fin) && Run(p, pre, 0) == Success(pre);
    assert Run(p, CountDownAt(input, 1, 4), 2) == Success(fin) && Run(p, CountDownAt(input, 1, 4), 1) == Success(pre);
    assert Run(p, CountDownAt(input, 1, 5), 3) == Success(fin) && Run(p, CountDownAt(input, 1, 5), 2) == Success(pre);
    assert Run(p, CountDownAt(input, 2, 4), 4) == Success(fin) && Run(p, CountDownAt(input, 2, 4), 3) == Success(pre);
    assert Run(p, CountDownAt(input, 2, 5), 5) == Success(fin) && Run(p, CountDownAt(input, 2, 5), 4) == Success(pre);
    assert Run(p, CountDownAt(input, 3, 4), 6) == Success(fin) && Run(p, CountDownAt(input, 3, 4), 5) == Success(pre);
    assert Run(p, CountDownAt(input, 3, 3), 7) == Success(fin) && Run(p, CountDownAt(input, 3, 3), 6) == Success(pre);
    assert Run(p, CountDownAt(input, 2, 2), 8) == Success(fin) && Run(p, CountDownAt(input, 2, 2), 7) == Success(pre);
  }

  /**
   * From an empty tape the loop body runs three times: Done after exactly ten steps
   * (three increments, the first test, three decrement-and-test rounds) with the cell 0.
   */
  lemma CountDownEndsAtZero(input: seq<byte>)
    ensures LinksInRange(CountDown)
    ensures Run(CountDown, Start(input), 10) == Success(Machine([0], 0, 5, true, input, []))
    ensures Run(CountDown, Start(input), 9) == Success(Machine([0], 0, 5, false, input, []))
  {
    CountDownCountsUp(input);
    CountDownRunsOut(input);
  }

  /** CountDown's links are the ones the builder makes. */
  lemma CountDownPaired()
    ensures Paired(CountDown) && Nested(CountDown)
  {
    var p := CountDown;
    assert forall o | 0 <= o < |p| && p[o].op.JumpIfZero? :: o == 3;
    assert forall c | 0 <= c < |p| && p[c].op.JumpIfNotZero? :: c == 5;
    assert !p[4].op.IsJump();
  }

  /** A loop around one IncrementValue. */
  const SkippedLoop: seq<Instruction> := [
    Instruction(1, JumpIfZero(Some(2))),
    Instruction(2, IncrementValue(Forward)),
    Instruction(3, JumpIfNotZero(Some(0)))
  ]

  /** On a zero cell the body never runs: Done after the first test, every cell still 0. */
  lemma SkippedLoopRunsNothing(input: seq<byte>)
    ensures LinksInRange(SkippedLoop) && Paired(SkippedLoop)
    ensures Run(SkippedLoop, Start(input), 1) == Success(Machine([0], 0, 2, true, input, []))
  {
    assert RunJumpIfZero(Some(2), Start(input)) == Success(Machine([0], 0, 2, false, input, []));
    assert Step(SkippedLoop, Start(input)) == Success(Machine([0], 0, 2, true, input, []));
  }
}
