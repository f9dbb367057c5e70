/**
 * The execution engine: `InterpreterState` (Interpreter/Program.cs) with its tape,
 * pointer, instruction list, current instruction and `Done` flag, and the
 * `RunInstruction` of each instruction class (Interpreter/Instructions.cs), which
 * acts on that state. Every method is proved to change the state exactly as a
 * function of module Semantics describes: each `RunInstruction` as the function
 * of the same name, the methods of `InterpreterState` as `Moved`, `Settled`,
 * `Incremented`, `Stored`, `Step` and `Run`; after a fault the state left behind
 * is stated as `FaultLeft` (the old state with zero cells appended to the tape).
 */
module Engine {
  import opened Wrappers
  import opened Instructions
  import Semantics

  /** A link moved by `offset` positions. */
  function ShiftLink(op: Op, offset: nat): (r: Op)
    ensures r.Unlinked() == op.Unlinked()
    ensures r.IsJump() && op.matching.Some? ==> r.matching == Some(op.matching.value + offset)
    ensures r.IsJump() && op.matching.None? ==> r.matching == None
  {
    if op.IsJump() && op.matching.Some? then op.(matching := Some(op.matching.value + offset)) else op
  }

  /**
   * An instruction list appended behind `offset` instructions: its links still
   * name the same instructions, which now sit `offset` positions further on.
   */
  function Relocated(instructions: seq<Instruction>, offset: nat): (r: seq<Instruction>)
    ensures |r| == |instructions|
    ensures forall k | 0 <= k < |r| ::
      && r[k].number == instructions[k].number
      && r[k].op.Unlinked() == instructions[k].op.Unlinked()
      && r[k].op.IsJump() == instructions[k].op.IsJump()
    ensures forall k | 0 <= k < |r| && instructions[k].op.IsJump() ::
      && r[k].op.IsJump()
      && r[k].op.matching == if instructions[k].op.matching.Some?
                             then Some(instructions[k].op.matching.value + offset) else None
  {
    seq(|instructions|, k requires 0 <= k < |instructions| =>
      instructions[k].(op := ShiftLink(instructions[k].op, offset)))
  }

  /**
   * Load a built program into a fresh state and drive it for at most `fuel` steps:
   * the bytes written, or the fault that stopped it.
   */
  method Execute(program: seq<Instruction>, input: seq<byte>, fuel: nat) returns (r: Result<seq<byte>, Semantics.Fault>)
    requires program != [] && LinksInRange(program)
    ensures var run := Semantics.Run(program, Semantics.Start(input), fuel);
      && (run.Success? ==> r == Success(run.value.output))
      && (run.Failure? ==> r == Failure(run.error))
  {
    var state := new InterpreterState(input);
    var ok := state.AddInstructionList(program);
    RelocatedByZero(program);
    assert state.program == program && state.Snapshot() == Semantics.Start(input);
    var fault := state.Run(fuel);
    if fault.Some? {
      return Failure(fault.value);
    }
    return Success(state.output);
  }

  lemma RelocatedByZero(instructions: seq<Instruction>)
    ensures Relocated(instructions, 0) == instructions
  {
    var r := Relocated(instructions, 0);
    forall k | 0 <= k < |r| ensures r[k] == instructions[k] {
      var op := instructions[k].op;
      if op.IsJump() && op.matching.Some? {
        assert ShiftLink(op, 0) == op;
      }
    }
  }

  /** A relocated jump is the same jump with its link moved by the offset. */
  lemma RelocatedJump(p: seq<Instruction>, offset: nat, j: nat)
    requires j < |p| && p[j].op.IsJump() && p[j].op.matching.Some?
    ensures Relocated(p, offset)[j].op == p[j].op.(matching := Some(p[j].op.matching.value + offset))
  {
    var op := Relocated(p, offset)[j].op;
    assert op.Unlinked() == p[j].op.Unlinked();
    assert op.JumpIfZero? == p[j].op.JumpIfZero?;
  }

  /**
   * Appending a program with the builder's links behind another keeps the links
   * mutual: each relocated jump still names its own partner.
   */
  lemma RelocatedPaired(q: seq<Instruction>, p: seq<Instruction>)
    requires Paired(q) && Paired(p)
    ensures Paired(q + Relocated(p, |q|))
  {
    RelocatedClosersPaired(q, p);
    RelocatedOpenersPaired(q, p);
  }

  lemma RelocatedClosersPaired(q: seq<Instruction>, p: seq<Instruction>)
    requires Paired(q) && Paired(p)
    ensures var all := q + Relocated(p, |q|);
      forall c | 0 <= c < |all| && all[c].op.JumpIfNotZero? ::
        all[c].op.matching.Some? && all[c].op.matching.value < c
        && all[all[c].op.matching.value].op == JumpIfZero(Some(c))
  {
    var n := |q|;
    var r := Relocated(p, n);
    var all := q + r;
    forall c | 0 <= c < |all| && all[c].op.JumpIfNotZero?
      ensures all[c].op.matching.Some? && all[c].op.matching.value < c
              && all[all[c].op.matching.value].op == JumpIfZero(Some(c))
    {
      if c < n {
        assert all[c] == q[c];
        var o := q[c].op.matching.value;
        assert all[o] == q[o];
      } else {
        var j := c - n;
        assert all[c] == r[j];
        assert p[j].op.JumpIfNotZero?;
        RelocatedJump(p, n, j);
        var o := p[j].op.matching.value;
        assert p[o].op == JumpIfZero(Some(j));
        RelocatedJump(p, n, o);
        assert all[n + o] == r[o];
      }
    }
  }

  lemma RelocatedOpenersPaired(q: seq<Instruction>, p: seq<Instruction>)
    requires Paired(q) && Paired(p)
    ensures var all := q + Relocated(p, |q|);
      forall o | 0 <= o < |all| && all[o].op.JumpIfZero? && all[o].op.matching.Some? ::
        o < all[o].op.matching.value < |all|
        && all[all[o].op.matching.value].op == JumpIfNotZero(Some(o))
  {
    var n := |q|;
    var r := Relocated(p, n);
    var all := q + r;
    forall o | 0 <= o < |all| && all[o].op.JumpIfZero? && all[o].op.matching.Some?
      ensures o < all[o].op.matching.value < |all|
              && all[all[o].op.matching.value].op == JumpIfNotZero(Some(o))
    {
      if o < n {
        assert all[o] == q[o];
        var c := q[o].op.matching.value;
        assert all[c] == q[c];
      } else {
        var j := o - n;
        assert all[o] == r[j];
        assert p[j].op.JumpIfZero?;
        assert p[j].op.matching.Some?;
        RelocatedJump(p, n, j);
        var c := p[j].op.matching.value;
        assert p[c].op == JumpIfNotZero(Some(j));
        RelocatedJump(p, n, c);
        assert all[n + c] == r[c];
      }
    }
  }

  class InterpreterState {
    var tape: seq<int32>              // internalArray
    var pointer: nat                  // currentPointerLocation
    var program: seq<Instruction>     // instructionList
    var current: nat                  // the position of CurrentInstruction in instructionList
    var done: bool                    // Done
    var input: seq<byte>              // the keys the console still has to give
    var output: seq<byte>             // the bytes PrintCharacter has written

    /** The links and the current instruction stay inside the program once there is one. */
    ghost predicate Valid()
      reads this
    {
      LinksInRange(program) && (program != [] ==> current < |program|)
    }

    /** The state apart from the program, as a value. */
    function Snapshot(): Semantics.Machine
      reads this
    {
      Semantics.Machine(tape, pointer, current, done, input, output)
    }

    constructor (input: seq<byte>)
      ensures Valid() && program == [] && Snapshot() == Semantics.Start(input)
    {
      tape, pointer, program, current, done := [], 0, [], 0, false;
      this.input, output := input, [];
    }

    /**
     * Append a list of instructions and make the first instruction of the program
     * current; false (the null `First` of an empty list) when the program is still empty.
     */
    method AddInstructionList(instructions: seq<Instruction>) returns (ok: bool)
      requires Valid() && LinksInRange(instructions)
      modifies this
      ensures Valid()
      ensures ok <==> program != []
      ensures program == old(program) + Relocated(instructions, |old(program)|)
      ensures Snapshot() == if ok then old(Snapshot()).(current := 0) else old(Snapshot())
    {
      var offset := |program|;
      var added := Relocated(instructions, offset);
      program := program + added;
      if program == [] {
        return false;
      }
      current := 0;
      forall k | 0 <= k < |program| && program[k].op.IsJump() && program[k].op.matching.Some?
        ensures program[k].op.matching.value < |program|
      {
        if k >= offset {
          assert program[k] == added[k - offset];
        }
      }
      return true;
    }

    method ExecuteNextInstruction() returns (fault: Option<Semantics.Fault>)
      requires Valid() && program != []
      modifies this
      ensures Valid() && program == old(program)
      ensures var r := Semantics.Step(program, old(Snapshot()));
        && (r.Success? ==> fault == None && Snapshot() == r.value)
        && (r.Failure? ==> fault == Some(r.error) && Semantics.FaultLeft(old(Snapshot()), Snapshot()))
    {
      fault := RunInstruction(program[current], this);
      if fault.Some? {
        return;
      }
      if current + 1 < |program| {
        current := current + 1;
      } else {
        done := true;
      }
    }

    /** The driver loop `while (!Done) ExecuteNextInstruction()`, stopped after `fuel` steps. */
    method Run(fuel: nat) returns (fault: Option<Semantics.Fault>)
      requires Valid() && program != []
      modifies this
      ensures Valid() && program == old(program)
      ensures var r := Semantics.Run(program, old(Snapshot()), fuel);
        && (r.Success? ==> fault == None && Snapshot() == r.value)
        && (r.Failure? ==> fault == Some(r.error))
    {
      ghost var goal := Semantics.Run(program, Snapshot(), fuel);
      var steps := 0;
      while !done && steps < fuel
        invariant Valid() && program == old(program) && steps <= fuel
        invariant Semantics.Run(program, Snapshot(), fuel - steps) == goal
      {
        Semantics.RunUnfolds(program, Snapshot(), fuel - steps);
        fault := ExecuteNextInstruction();
        if fault.Some? {
          return;
        }
        steps := steps + 1;
      }
      assert Semantics.Run(program, Snapshot(), fuel - steps) == Success(Snapshot());
      return None;
    }

    /** Move the pointer by `amount`; false (the exception) when it would go below zero, nothing changed. */
    method IncrementPointer(amount: int) returns (ok: bool)
      modifies this`pointer
      ensures var r := Semantics.Moved(old(Snapshot()), amount);
        && ok == r.Success?
        && (ok ==> Snapshot() == r.value)
        && (!ok ==> pointer == old(pointer))
    {
      if pointer + amount < 0 {
        return false;
      }
      pointer := pointer + amount;
      return true;
    }

    method GetCurrentValue() returns (v: int32)
      modifies this`tape
      ensures Snapshot() == Semantics.Settled(old(Snapshot()))
      ensures v == Semantics.CurrentValue(old(Snapshot()))
    {
      SortArrayOut();
      v := tape[pointer];
    }

    method IncrementValue(i: int)
      modifies this`tape
      ensures Snapshot() == Semantics.Incremented(old(Snapshot()), i)
    {
      SortArrayOut();
      tape := tape[pointer := Wrap32(tape[pointer] as int + i)];
    }

    method GetValueAt(p: nat) returns (v: int32)
      requires p < |tape| || p <= pointer
      modifies this`tape
      ensures Snapshot() == Semantics.Settled(old(Snapshot()))
      ensures v == Semantics.ValueAt(old(Snapshot()), p)
    {
      SortArrayOut();
      v := tape[p];
    }

    method SetCurrentValueTo(b: byte)
      modifies this`tape
      ensures Snapshot() == Semantics.Stored(old(Snapshot()), b)
    {
      SortArrayOut();
      tape := tape[pointer := b as int as int32];
    }

    /** Append zero cells until the tape has a cell at the pointer. */
    method SortArrayOut()
      modifies this`tape
      ensures Snapshot() == Semantics.Settled(old(Snapshot()))
    {
      while |tape| < pointer + 1
        invariant Semantics.Grown(tape, pointer) == Semantics.Grown(old(tape), pointer)
        decreases pointer + 1 - |tape|
      {
        tape := tape + [0];
      }
    }
  }

  /** The virtual call `CurrentInstruction.RunInstruction(this)`: dispatch on the kind. */
  method RunInstruction(ins: Instruction, state: InterpreterState) returns (fault: Option<Semantics.Fault>)
    requires state.Valid() && state.program != []
    requires ins.op.IsJump() && ins.op.matching.Some? ==> ins.op.matching.value < |state.program|
    modifies state
    ensures state.Valid() && state.program == old(state.program)
    ensures var r := Semantics.RunInstruction(ins.op, old(state.Snapshot()));
      && (r.Success? ==> fault == None && state.Snapshot() == r.value)
      && (r.Failure? ==> fault == Some(r.error) && Semantics.FaultLeft(old(state.Snapshot()), state.Snapshot()))
  {
    match ins.op
    case MovePointer(d) => fault := RunMovePointer(d, state);
    case IncrementValue(d) => RunIncrementValue(d, state); fault := None;
    case PrintCharacter => RunPrintCharacter(state); fault := None;
    case ReadCharacter => fault := RunReadCharacter(state);
    case JumpIfZero(matching) => fault := RunJumpIfZero(matching, state);
    case JumpIfNotZero(matching) => fault := RunJumpIfNotZero(matching, state);
  }

  method RunMovePointer(d: Direction, state: InterpreterState) returns (fault: Option<Semantics.Fault>)
    requires state.Valid()
    modifies state
    ensures state.Valid() && state.program == old(state.program)
    ensures var r := Semantics.RunMovePointer(d, old(state.Snapshot()));
      && (r.Success? ==> fault == None && state.Snapshot() == r.value)
      && (r.Failure? ==> fault == Some(r.error) && state.Snapshot() == old(state.Snapshot()))
  {
    var ok := state.IncrementPointer(Amount(d));
    fault := if ok then None else Some(Semantics.PointerUnderflow);
  }

  method RunIncrementValue(d: Direction, state: InterpreterState)
    requires state.Valid()
    modifies state
    ensures state.Valid() && state.program == old(state.program)
    ensures state.Snapshot() == Semantics.RunIncrementValue(d, old(state.Snapshot()))
  {
    state.IncrementValue(Amount(d));
  }

  method RunPrintCharacter(state: InterpreterState)
    requires state.Valid()
    modifies state
    ensures state.Valid() && state.program == old(state.program)
    ensures state.Snapshot() == Semantics.RunPrintCharacter(old(state.Snapshot()))
  {
    var v := state.GetCurrentValue();
    state.output := state.output + [LowByte(v)];
  }

  method RunReadCharacter(state: InterpreterState) returns (fault: Option<Semantics.Fault>)
    requires state.Valid()
    modifies state
    ensures state.Valid() && state.program == old(state.program)
    ensures var r := Semantics.RunReadCharacter(old(state.Snapshot()));
      && (r.Success? ==> fault == None && state.Snapshot() == r.value)
      && (r.Failure? ==> fault == Some(r.error) && state.Snapshot() == old(state.Snapshot()))
  {
    if state.input == [] {
      return Some(Semantics.InputExhausted);
    }
    var b := state.input[0];
    state.input := state.input[1..];
    state.SetCurrentValueTo(b);
    return None;
  }

  method RunJumpIfZero(matching: Option<nat>, state: InterpreterState) returns (fault: Option<Semantics.Fault>)
    requires state.Valid() && state.program != []
    requires matching.Some? ==> matching.value < |state.program|
    modifies state
    ensures state.Valid() && state.program == old(state.program)
    ensures var r := Semantics.RunJumpIfZero(matching, old(state.Snapshot()));
      && (r.Success? ==> fault == None && state.Snapshot() == r.value)
      && (r.Failure? ==> fault == Some(r.error) && Semantics.FaultLeft(old(state.Snapshot()), state.Snapshot()))
  {
    var v := state.GetCurrentValue();
    if v == 0 {
      if matching.None? {
        return Some(Semantics.MissingMatch);
      }
      state.current := matching.value;
    }
    return None;
  }

  method RunJumpIfNotZero(matching: Option<nat>, state: InterpreterState) returns (fault: Option<Semantics.Fault>)
    requires state.Valid() && state.program != []
    requires matching.Some? ==> matching.value < |state.program|
    modifies state
    ensures state.Valid() && state.program == old(state.program)
    ensures var r := Semantics.RunJumpIfNotZero(matching, old(state.Snapshot()));
      && (r.Success? ==> fault == None && state.Snapshot() == r.value)
      && (r.Failure? ==> fault == Some(r.error) && Semantics.FaultLeft(old(state.Snapshot()), state.Snapshot()))
  {
    var v := state.GetCurrentValue();
    if v != 0 {
      if matching.None? {
        return Some(Semantics.MissingMatch);
      }
      state.current := matching.value;
    }
    return None;
  }
}
