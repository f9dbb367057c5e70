# ook-sharp interpreter core, modelled in Dafny

ook-sharp runs Ook! programs, which are Brainfuck under other names. A parser (not
modelled) turns the source text into mnemonic tokens such as `increment-pointer` or
`jump-ifzero`. `CreateInstructionList` builds one instruction object per token and
links each loop-open (`JumpIfZero`) to its loop-close (`JumpIfNotZero`) with a
stack. An `InterpreterState` holds these things:

- a lazily grown tape of `int` cells;
- a pointer;
- the instruction list;
- the current instruction;
- a `Done` flag.

The `Main` method calls `ExecuteNextInstruction` until `Done` is set. Each call runs
the current instruction's `RunInstruction`, then steps to the successor of whichever
instruction is current afterwards.

The project has five files:

- `wrappers.dfy` defines `Option` and `Result`.
- `instructions.dfy` covers `Direction`, the six instruction kinds (`Op`),
  `Instruction` (kind plus `Number`), the 32-bit cell type with its wrap-around, and
  the shape of jump links:
  - `Paired` says links are mutual, with the opener before its closer.
  - `Nested` expresses the stack discipline.
  - `AllMatched` says every opener is linked.
- `builder.dfy` has `CreateInstructionList` as a loop over the tokens with a jump
  stack. It is proved against an independent description of the result: the
  numbering, the kind of each instruction, the first offending token and the link
  structure.
- `semantics.dfy` gives the meaning of each state change as a function on a
  `Machine` value. A `Machine` is what an `InterpreterState` holds besides its
  program, plus the console input still unread and the output written so far. The
  file also has lemmas about stepping and running, and a few concrete programs
  worked out step by step.
- `engine.dfy` has the class `InterpreterState` with the source's fields and methods.
  It also has one method per instruction class's `RunInstruction`.
  - Each `RunInstruction` method is proved to change the state exactly as the
    function of the same name in `Semantics` says.
  - The methods of `InterpreterState` are proved against `Moved`, `Settled`,
    `Incremented`, `Stored`, `Step` and `Run`.
  - After a fault, the state left behind is stated as `FaultLeft`: the old state
    with zero cells appended to the tape. A failed move and a read with no input
    are stated to leave the state unchanged.

Modelling choices:

- **Jump links.** An instruction's `MatchingInstruction` reference is an index into
  the program, as `Option<nat>`. A `null` reference is `None`.
- **Cells.** Cells are `int32`: `internalArray[p] += i` is C#'s unchecked 32-bit
  addition, written out with `Wrap32`. `PrintCharacter` keeps the low byte of the
  cell, as the `(byte)` cast does. `ReadCharacter` stores a byte.
- **Exceptions.** Exceptions become error values:
  - `UnknownInstruction(token)` for the `default:` of the token switch;
  - `EmptyJumpStack` for `Stack.Pop` on an empty stack;
  - `PointerUnderflow` for `InvalidInterpreterStateException`;
  - `MissingMatch` for a jump taken while its `MatchingInstruction` is `null`. The
    source then dereferences the null instruction.
- **The driver loop.** The loop is given a step budget (`fuel`), because an Ook!
  program need not terminate.

### Unmatched loop-opens

One would expect a loop-open left unmatched at the end of the tokens to be rejected
as malformed. `CreateInstructionList` (Interpreter/Program.cs:39-87) never
examines the stack after the loop. It returns the list with that `JumpIfZero`
unlinked. The model follows the code:

- `Builder.CreateInstructionList` succeeds on such tokens.
- Its last `ensures` says that all openers are linked exactly when the nesting depth
  of the tokens is zero.
- Running an unlinked `JumpIfZero` on a zero cell faults with `MissingMatch`.

## Model

| member | source | states |
|---|---|---|
| Instructions.Wrap32 | Interpreter/Program.cs:149 | the result is congruent to the exact sum modulo 2^32 and equals it when it fits in 32 bits (unchecked `int` addition) |
| Instructions.LowByte | Interpreter/Instructions.cs:52 | the byte is congruent to the cell modulo 256 and equals it for 0..255 (the `(byte)` cast) |
| Instructions.Amount | Interpreter/Instructions.cs:72 | a direction gives +1 or -1, and +1 exactly for `Forward` |
| Instructions.PairedLinksInRange | Interpreter/Program.cs:77-79 | links made by the builder always name an instruction of the same program |
| Builder.LookupFrom | Interpreter/Program.cs:48-82 | a recognised mnemonic decodes to a fresh instruction whose jump link is still null |
| Builder.LookupFound | Interpreter/Program.cs:48-82 | the table lookup succeeds exactly when some entry carries the token, and then gives the kind of the first such entry |
| Builder.DecodeTable | Interpreter/Program.cs:48-82 | each of the eight `case` mnemonics gives its own instruction kind and direction, and every other string is unknown |
| Builder.CreateInstructionList | Interpreter/Program.cs:39-87 | succeeds exactly when no token is unknown and no loop-close comes at nesting depth 0; on failure the error is the one for the first such token (`UnknownInstruction` naming it, or `EmptyJumpStack`); on success one instruction per token, numbered 1..n and of the token's kind, with mutual links from each opener to a later closer, the links nested, and every opener linked exactly when the depth of the whole sequence is 0 |
| Builder.PushStep | Interpreter/Program.cs:68-72 | a loop-open keeps the build invariant: appended unlinked, its index pushed, depth one higher |
| Builder.CloseStep | Interpreter/Program.cs:73-80 | a loop-close with an open opener keeps the build invariant: the top opener and the new closer are linked to each other and the stack is popped |
| Builder.AppendStep | Interpreter/Program.cs:50-67 | any other recognised token keeps the build invariant: appended with its kind and number, stack unchanged |
| Builder.Finished | Interpreter/Program.cs:84-86 | when the loop ends, no token was faulty and the list satisfies every success clause; all openers are linked exactly when the depth of the whole sequence is 0 |
| Builder.PushKeeps | Interpreter/Program.cs:69-71 | pushing a new opener preserves the stack discipline, pairing and nesting |
| Builder.CloseKeeps | Interpreter/Program.cs:77-79 | linking the top opener to a new closer and popping it preserves the stack discipline, pairing and nesting |
| Builder.TranslatedClosed | Interpreter/Program.cs:74-79 | setting the opener's link does not change its number or kind |
| Semantics.Grown | Interpreter/Program.cs:166-170 | SortArrayOut's tape reaches the pointer and is the old tape with zero cells appended |
| Semantics.GrownKeepsCells | Interpreter/Program.cs:166-170 | growing the tape never changes any cell of the conceptual zero-filled tape |
| Semantics.Settled | Interpreter/Program.cs:166-170 | only the tape changes, it then holds a cell at the pointer, and nothing changes when it already did |
| Semantics.CurrentValue | Interpreter/Program.cs:138-143 | GetCurrentValue returns the conceptual cell at the pointer, 0 if never stored |
| Semantics.ValueAt | Interpreter/Program.cs:152-157 | GetValueAt returns the conceptual cell at the index |
| Semantics.Incremented | Interpreter/Program.cs:145-150 | only the cell at the pointer changes, to its old value plus i with 32-bit wrap-around |
| Semantics.Stored | Interpreter/Program.cs:159-164 | the cell at the pointer holds the byte; no other cell and no other field changes |
| Semantics.WrittenReadsBack | Interpreter/Program.cs:138-164 | a stored byte or an increment reads back at the pointer, and a cell never stored reads 0 |
| Semantics.Moved | Interpreter/Program.cs:130-136 | IncrementPointer fails with PointerUnderflow exactly when the pointer would go below 0; otherwise only the pointer moves, by the amount |
| Semantics.RunMovePointer | Interpreter/Instructions.cs:85-88 | fails exactly for `Backwards` at pointer 0; otherwise only the pointer moves, by +1 or -1 |
| Semantics.RunIncrementValue | Interpreter/Instructions.cs:70-73 | the cell at the pointer is incremented or decremented (wrapping), no other cell or field changes |
| Semantics.RunPrintCharacter | Interpreter/Instructions.cs:50-55 | the low byte of the current cell is appended to the output; the conceptual tape and other fields are unchanged |
| Semantics.RunReadCharacter | Interpreter/Instructions.cs:40-45 | consumes the first input byte and stores it at the pointer, other cells unchanged; faults exactly when the input is empty |
| Semantics.RunJumpIfZero | Interpreter/Instructions.cs:16-23 | on a zero cell the matching instruction becomes current, otherwise nothing changes; faults exactly when a zero cell meets a null link |
| Semantics.RunJumpIfNotZero | Interpreter/Instructions.cs:28-35 | on a non-zero cell the matching instruction becomes current, otherwise nothing changes; faults exactly when a non-zero cell meets a null link |
| Semantics.RunInstruction | Interpreter/Instructions.cs:91-101 | across all kinds: Done is untouched, the current instruction changes only to a taken jump's target, and only the kind concerned moves the pointer, writes output, reads input or changes cells |
| Semantics.Step | Interpreter/Program.cs:115-128 | the current instruction stays inside the program |
| Semantics.StepFaults | Interpreter/Program.cs:119 | a step faults exactly when its instruction does, and with that instruction's fault |
| Semantics.RunUnfolds | Interpreter/Program.cs:31-34 | a loop with steps left, from a state not Done, is one step followed by the rest of the loop, or the step's fault |
| Semantics.Run | Interpreter/Program.cs:31-34 | the loop keeps the current instruction inside the program and does nothing once Done is set |
| Semantics.NonJumpAdvances | Interpreter/Program.cs:121-127 | after a non-jump the next instruction in order is current, or Done is set after the last one |
| Semantics.JumpIfZeroResumes | Interpreter/Instructions.cs:18-20 | a taken loop-open of a built program continues right after its loop-close (or sets Done if that is last); not taken, at the next instruction |
| Semantics.JumpIfNotZeroResumes | Interpreter/Instructions.cs:30-32 | a taken loop-close continues right after its loop-open, without testing it again; not taken, at the next instruction or Done |
| Semantics.JumpFreeRunsThrough | Interpreter/Program.cs:115-128 | a program without jumps, unless it faults, executes its instructions once each, in order, and is Done after exactly as many steps as it has instructions left |
| Semantics.PrintThreeWritesThree | Interpreter/Program.cs:31-34 | three increments and a print write the byte 3 and finish Done |
| Semantics.CountDownCountsUp | Interpreter/Program.cs:31-34 | the first four steps of a counting loop program, state by state |
| Semantics.CountDownRound | Interpreter/Program.cs:31-34 | one decrement-and-jump-back round of the loop |
| Semantics.CountDownFinishes | Interpreter/Program.cs:31-34 | the last round leaves the cell 0, falls through the loop-close and sets Done |
| Semantics.CountDownRunsOut | Interpreter/Program.cs:31-34 | nine steps after the first increment the run is Done; eight steps leave it at the last instruction, not Done |
| Semantics.CountDownEndsAtZero | Interpreter/Program.cs:31-34 | from an empty tape the loop program is Done after exactly 10 steps with the cell 0 and not after 9 |
| Semantics.CountDownPaired | Interpreter/Program.cs:68-80 | the loop program's links have the shape the builder produces |
| Semantics.SkippedLoopRunsNothing | Interpreter/Instructions.cs:18-20 | on a zero cell a loop body is skipped entirely and the run ends Done with the cell 0 |
| Engine.ShiftLink | Interpreter/Program.cs:110-111 | a link moved by an offset names the same instruction after appending; kind and null links unchanged |
| Engine.Relocated | Interpreter/Program.cs:110-111 | every appended instruction keeps its number, its kind and whether it is a jump; a jump's link is shifted by the offset, and a null link stays null |
| Engine.RelocatedJump | Interpreter/Program.cs:110-111 | a relocated linked jump is the same jump with its link moved by the offset |
| Engine.RelocatedPaired | Interpreter/Program.cs:110-111 | appending a program with the builder's links behind another keeps every link mutual: each appended jump still names its own partner |
| Engine.RelocatedClosersPaired | Interpreter/Program.cs:110-111 | after appending, every loop-close is linked to an earlier loop-open that is linked back to it |
| Engine.RelocatedOpenersPaired | Interpreter/Program.cs:110-111 | after appending, every linked loop-open is linked to a later loop-close that is linked back to it |
| Engine.RelocatedByZero | Interpreter/Program.cs:110-111 | appending onto an empty program changes no link |
| Engine.Execute | Interpreter/Program.cs:28-34 | a fresh state loaded with a built program and driven by the loop produces the output of Semantics.Run, or its fault |
| Engine.InterpreterState.constructor | Interpreter/Program.cs:99-106 | a new state has an empty program and the start state: no cells, pointer 0, not Done, no output |
| Engine.InterpreterState.AddInstructionList | Interpreter/Program.cs:108-113 | appends the instructions, links relocated, and makes the first instruction current; fails, with nothing else changed, when the program stays empty |
| Engine.InterpreterState.ExecuteNextInstruction | Interpreter/Program.cs:115-128 | changes the state exactly as Semantics.Step; on a fault it leaves the state unchanged apart from zero cells appended |
| Engine.InterpreterState.Run | Interpreter/Program.cs:31-34 | the loop leaves exactly the state, or the fault, of Semantics.Run |
| Engine.InterpreterState.IncrementPointer | Interpreter/Program.cs:130-136 | moves the pointer as Semantics.Moved; reports failure with the pointer unchanged |
| Engine.InterpreterState.GetCurrentValue | Interpreter/Program.cs:138-143 | returns Semantics.CurrentValue, leaving the Settled state |
| Engine.InterpreterState.IncrementValue | Interpreter/Program.cs:145-150 | leaves exactly the state Semantics.Incremented |
| Engine.InterpreterState.GetValueAt | Interpreter/Program.cs:152-157 | returns Semantics.ValueAt, leaving the Settled state |
| Engine.InterpreterState.SetCurrentValueTo | Interpreter/Program.cs:159-164 | leaves exactly the state Semantics.Stored |
| Engine.InterpreterState.SortArrayOut | Interpreter/Program.cs:166-170 | the zero-appending loop leaves exactly the Settled state |
| Engine.RunInstruction | Interpreter/Program.cs:119 | the virtual call runs the instruction's kind, as Semantics.RunInstruction |
| Engine.RunMovePointer | Interpreter/Instructions.cs:85-88 | as Semantics.RunMovePointer; the state is unchanged on failure |
| Engine.RunIncrementValue | Interpreter/Instructions.cs:70-73 | as Semantics.RunIncrementValue |
| Engine.RunPrintCharacter | Interpreter/Instructions.cs:50-55 | as Semantics.RunPrintCharacter |
| Engine.RunReadCharacter | Interpreter/Instructions.cs:40-45 | as Semantics.RunReadCharacter; the state is unchanged when the input is exhausted |
| Engine.RunJumpIfZero | Interpreter/Instructions.cs:16-23 | as Semantics.RunJumpIfZero |
| Engine.RunJumpIfNotZero | Interpreter/Instructions.cs:28-35 | as Semantics.RunJumpIfNotZero |

## Left out

- Reading `fib.ook`, the F# `Parser`, echoing the tokens and writing `log.txt` (Interpreter/Program.cs:14-24) are file I/O and a foreign library. `Execute` starts from the instructions the builder produced, and the builder takes the tokens as a sequence of strings.
- The final `Console.ReadKey()` of `Main` is console I/O.
- The console is modelled as two byte sequences: `input` for what `ReadCharacter` will read and `output` for what `PrintCharacter` wrote. The ASCII encoding is not modelled: characters outside 0..127, which .NET turns into `?`, are bytes here.
- Engine.RunReadCharacter: when the input is exhausted the source blocks in `Console.ReadKey`. The model ends the run with the fault `InputExhausted` instead.
- `Debug.WriteLine` tracing has no effect on the state.
- In a debug build, a jump to a null target throws inside `RunInstruction`, while tracing its target. Otherwise it throws in the `Find` of `ExecuteNextInstruction`. Both happen in the same step, and the model reports both as `MissingMatch`.
- `Main`'s loop is bounded: it runs for `fuel` steps, because a program may never set `Done`.
- The constructors, messages and serialization of the exception classes are not modelled. Only which error arises is modelled.
- Engine.InterpreterState.IncrementPointer: the pointer is a `nat`. The source's `int` pointer overflowing past 2^31 - 1 is not modelled.
- Builder.CreateInstructionList: the `int` counter `Number` cannot overflow in the model (more than 2^31 - 1 tokens).
- Engine.InterpreterState.GetValueAt: the model's requires rules out an index past the grown tape, which .NET's list indexer rejects with an exception. A negative index is ruled out by the `nat` type.
- Semantics.Step: ExecuteNextInstruction finds the current instruction's node with `LinkedList.Find`, which returns the first node holding that object. The model keeps an index into the program. The two differ only if the same instruction objects are added twice by `AddInstructionList`.
- Semantics.RunJumpIfZero: after a `MissingMatch` fault the source has set `CurrentInstruction` to `null`. The model leaves the current index unchanged and reports only the fault.
- Engine.InterpreterState.ExecuteNextInstruction: on a fault, the state left behind is stated only as the old state plus zero cells appended to the tape. It is not stated as a function of the input.
