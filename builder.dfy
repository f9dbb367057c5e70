/**
 * The program builder, `CreateInstructionList` of Interpreter/Program.cs: turn the
 * tokenizer's mnemonics into numbered instructions, linking every `jump-ifnotzero`
 * to the most recent still-open `jump-ifzero` through a stack of open jumps.
 */
module Builder {
  import opened Wrappers
  import opened Instructions

  /** Why a build is abandoned. */
  datatype BuildError =
    | UnknownInstruction(token: string)   // UnknownInstructionException carrying the token
    | EmptyJumpStack                      // Stack.Pop on an empty jump stack

  /** The eight mnemonics the tokenizer produces, each with the instruction kind it stands for. */
  const Mnemonics: seq<(string, Op)> := [
    ("increment-pointer", MovePointer(Forward)),
    ("decrement-pointer", MovePointer(Backwards)),
    ("increment-value", IncrementValue(Forward)),
    ("decrement-value", IncrementValue(Backwards)),
    ("stdout", PrintCharacter),
    ("stdin", ReadCharacter),
    ("jump-ifzero", JumpIfZero(None)),
    ("jump-ifnotzero", JumpIfNotZero(None))
  ]

  /** The kind of the first mnemonic from position k of the table on that equals `token`. */
  function LookupFrom(token: string, k: nat): (r: Option<Op>)
    requires k <= |Mnemonics|
    ensures r.Some? ==> r.value.Unlinked() == r.value
    decreases |Mnemonics| - k
  {
    if k == |Mnemonics| then None
    else if Mnemonics[k].0 == token then Some(Mnemonics[k].1)
    else LookupFrom(token, k + 1)
  }

  /** The instruction kind a mnemonic stands for, with its links still clear. */
  function Decode(token: string): Option<Op> {
    LookupFrom(token, 0)
  }

  /** Each of the eight mnemonics names its own instruction kind; nothing else is recognised. */
  lemma {:induction false} DecodeTable(token: string)
    ensures token == "increment-pointer" ==> Decode(token) == Some(MovePointer(Forward))
    ensures token == "decrement-pointer" ==> Decode(token) == Some(MovePointer(Backwards))
    ensures token == "increment-value" ==> Decode(token) == Some(IncrementValue(Forward))
    ensures token == "decrement-value" ==> Decode(token) == Some(IncrementValue(Backwards))
    ensures token == "stdout" ==> Decode(token) == Some(PrintCharacter)
    ensures token == "stdin" ==> Decode(token) == Some(ReadCharacter)
    ensures token == "jump-ifzero" ==> Decode(token) == Some(JumpIfZero(None))
    ensures token == "jump-ifnotzero" ==> Decode(token) == Some(JumpIfNotZero(None))
    ensures Decode(token).Some? <==>
      token in {"increment-pointer", "decrement-pointer", "increment-value", "decrement-value",
                "stdout", "stdin", "jump-ifzero", "jump-ifnotzero"}
  {
    LookupFound(token, 0);
  }

  /** The lookup from position k finds `token` exactly when a later entry carries it, and then the first such entry. */
  lemma {:induction false} LookupFound(token: string, k: nat)
    requires k <= |Mnemonics|
    ensures LookupFrom(token, k).Some? <==> exists j | k <= j < |Mnemonics| :: Mnemonics[j].0 == token
    ensures forall j | k <= j < |Mnemonics| && Mnemonics[j].0 == token && (forall i | k <= i < j :: Mnemonics[i].0 != token) ::
      LookupFrom(token, k) == Some(Mnemonics[j].1)
    decreases |Mnemonics| - k
  {
    if k < |Mnemonics| {
      LookupFound(token, k + 1);
    }
  }

  /** The change a token makes to the number of open jumps. */
  function Nesting(token: string): int {
    match Decode(token)
    case Some(JumpIfZero(_)) => 1
    case Some(JumpIfNotZero(_)) => -1
    case _ => 0
  }

  /** Openers minus closers in a token sequence. */
  function Depth(ts: seq<string>): int {
    if ts == [] then 0 else Depth(ts[..|ts| - 1]) + Nesting(ts[|ts| - 1])
  }

  /** Token k cannot be built: it is no mnemonic, or it closes a jump while none is open. */
  ghost predicate Faulty(ts: seq<string>, k: int) {
    0 <= k < |ts| && (Decode(ts[k]).None? || (Decode(ts[k]) == Some(JumpIfNotZero(None)) && Depth(ts[..k]) <= 0))
  }

  /** Token k is the first token that cannot be built. */
  ghost predicate FirstFault(ts: seq<string>, k: int) {
    Faulty(ts, k) && forall j | 0 <= j < k :: !Faulty(ts, j)
  }

  /** The error the builder reports at token k. */
  function ErrorAt(ts: seq<string>, k: nat): BuildError
    requires k < |ts|
  {
    if Decode(ts[k]).None? then UnknownInstruction(ts[k]) else EmptyJumpStack
  }

  lemma DepthSnoc(ts: seq<string>, i: nat)
    requires i < |ts|
    ensures Depth(ts[..i + 1]) == Depth(ts[..i]) + Nesting(ts[i])
  {
    assert ts[..i + 1][..i] == ts[..i];
  }

  /**
   * The jump stack holds, bottom to top, the indices of the still-unlinked
   * JumpIfZero instructions of `list`, and every jump above a stacked one that is
   * not itself stacked is linked to a jump between that stacked one and the end.
   */
  ghost predicate StackInv(list: seq<Instruction>, stack: seq<nat>) {
    && (forall a, b | 0 <= a < b < |stack| :: stack[a] < stack[b])
    && (forall a | 0 <= a < |stack| :: stack[a] < |list| && list[stack[a]].op == JumpIfZero(None))
    && (forall o | 0 <= o < |list| && list[o].op == JumpIfZero(None) :: o in stack)
    && (forall a, j | 0 <= a < |stack| && stack[a] < j < |list| && list[j].op.IsJump() && j !in stack ::
          list[j].op.matching.Some? && stack[a] < list[j].op.matching.value < |list|)
  }

  /** The numbering and kinds of the first |list| tokens. */
  ghost predicate Translated(ts: seq<string>, list: seq<Instruction>) {
    && |list| <= |ts|
    && forall k | 0 <= k < |list| ::
         Decode(ts[k]).Some? && list[k].number == k + 1 && list[k].op.Unlinked() == Decode(ts[k]).value
  }

  /** What holds after the first i tokens have been built into `list` with `stack` open. */
  ghost predicate BuildInv(ts: seq<string>, i: nat, list: seq<Instruction>, stack: seq<nat>) {
    && i <= |ts| && |list| == i
    && (forall k | 0 <= k < i :: !Faulty(ts, k))
    && Translated(ts, list)
    && Depth(ts[..i]) == |stack|
    && StackInv(list, stack)
    && Paired(list) && Nested(list)
  }

  method CreateInstructionList(tokens: seq<string>) returns (r: Result<seq<Instruction>, BuildError>)
    ensures r.Success? <==> forall k | 0 <= k < |tokens| :: !Faulty(tokens, k)
    ensures r.Failure? ==> exists k | 0 <= k < |tokens| :: FirstFault(tokens, k) && r.error == ErrorAt(tokens, k)
    ensures r.Success? ==> |r.value| == |tokens| && Translated(tokens, r.value)
    ensures r.Success? ==> Paired(r.value) && Nested(r.value)
    ensures r.Success? ==> (AllMatched(r.value) <==> Depth(tokens) == 0)
  {
    var list: seq<Instruction> := [];
    var jumpStack: seq<nat> := [];
    var i := 0;
    while i < |tokens|
      invariant BuildInv(tokens, i, list, jumpStack)
    {
      var token := tokens[i];
      var number := i + 1;
      var op := Decode(token);
      if op.None? {
        assert FirstFault(tokens, i);
        return Failure(UnknownInstruction(token));
      } else if op.value.JumpIfZero? {
        PushStep(tokens, i, list, jumpStack);
        jumpStack := jumpStack + [|list|];
        list := list + [Instruction(number, JumpIfZero(None))];
      } else if op.value.JumpIfNotZero? {
        if jumpStack == [] {
          DepthSnoc(tokens, i);
          assert FirstFault(tokens, i);
          return Failure(EmptyJumpStack);
        }
        CloseStep(tokens, i, list, jumpStack);
        list := Closed(list, jumpStack, number);
        jumpStack := jumpStack[..|jumpStack| - 1];
      } else {
        AppendStep(tokens, i, list, jumpStack, op.value);
        list := list + [Instruction(number, op.value)];
      }
      i := i + 1;
    }
    Finished(tokens, list, jumpStack);
    return Success(list);
  }

  lemma Finished(ts: seq<string>, list: seq<Instruction>, stack: seq<nat>)
    requires BuildInv(ts, |ts|, list, stack)
    ensures forall k | 0 <= k < |ts| :: !Faulty(ts, k)
    ensures |list| == |ts| && Translated(ts, list) && Paired(list) && Nested(list)
    ensures AllMatched(list) <==> Depth(ts) == 0
  {
    assert ts[..|ts|] == ts;
    if Depth(ts) != 0 {
      assert list[stack[0]].op == JumpIfZero(None);
    }
  }

  lemma PushStep(ts: seq<string>, i: nat, list: seq<Instruction>, stack: seq<nat>)
    requires BuildInv(ts, i, list, stack) && i < |ts| && Decode(ts[i]) == Some(JumpIfZero(None))
    ensures BuildInv(ts, i + 1, list + [Instruction(i + 1, JumpIfZero(None))], stack + [|list|])
  {
    DepthSnoc(ts, i);
    TranslatedSnoc(ts, list, Instruction(i + 1, JumpIfZero(None)));
    PushKeeps(list, stack, i + 1);
  }

  lemma CloseStep(ts: seq<string>, i: nat, list: seq<Instruction>, stack: seq<nat>)
    requires BuildInv(ts, i, list, stack) && i < |ts| && Decode(ts[i]) == Some(JumpIfNotZero(None))
    requires stack != []
    ensures BuildInv(ts, i + 1, Closed(list, stack, i + 1), stack[..|stack| - 1])
  {
    DepthSnoc(ts, i);
    TranslatedClosed(ts, list, stack, i + 1);
    CloseKeeps(list, stack, i + 1);
  }

  lemma AppendStep(ts: seq<string>, i: nat, list: seq<Instruction>, stack: seq<nat>, op: Op)
    requires BuildInv(ts, i, list, stack) && i < |ts| && Decode(ts[i]) == Some(op) && !op.IsJump()
    ensures BuildInv(ts, i + 1, list + [Instruction(i + 1, op)], stack)
  {
    DepthSnoc(ts, i);
    TranslatedSnoc(ts, list, Instruction(i + 1, op));
    AppendKeeps(list, stack, Instruction(i + 1, op));
  }

  lemma PushKeeps(list: seq<Instruction>, stack: seq<nat>, number: int)
    requires StackInv(list, stack) && Paired(list) && Nested(list)
    ensures var list' := list + [Instruction(number, JumpIfZero(None))];
      StackInv(list', stack + [|list|]) && Paired(list') && Nested(list')
  {
    PushKeepsStack(list, stack, number);
    var list' := list + [Instruction(number, JumpIfZero(None))];
    assert forall k | 0 <= k < |list| :: list'[k] == list[k];
  }

  lemma PushKeepsStack(list: seq<Instruction>, stack: seq<nat>, number: int)
    requires StackInv(list, stack)
    ensures StackInv(list + [Instruction(number, JumpIfZero(None))], stack + [|list|])
  {
    var n := |list|;
    var list' := list + [Instruction(number, JumpIfZero(None))];
    var stack' := stack + [n];
    assert forall k | 0 <= k < n :: list'[k] == list[k];
    assert forall a | 0 <= a < |stack| :: stack'[a] == stack[a];
    forall o | 0 <= o < |list'| && list'[o].op == JumpIfZero(None) ensures o in stack' {
      if o < n {
        assert o in stack;
      }
    }
    forall a, j | 0 <= a < |stack'| && stack'[a] < j < |list'| && list'[j].op.IsJump() && j !in stack'
      ensures list'[j].op.matching.Some? && stack'[a] < list'[j].op.matching.value < |list'|
    {
      assert a < |stack| && j < n && j !in stack;
    }
  }

  lemma TranslatedSnoc(ts: seq<string>, list: seq<Instruction>, ins: Instruction)
    requires Translated(ts, list) && |list| < |ts| && ins.number == |list| + 1
    requires Decode(ts[|list|]) == Some(ins.op.Unlinked())
    ensures Translated(ts, list + [ins])
  {
  }

  lemma TranslatedClosed(ts: seq<string>, list: seq<Instruction>, stack: seq<nat>, number: int)
    requires Translated(ts, list) && |list| < |ts| && number == |list| + 1
    requires stack != [] && stack[|stack| - 1] < |list| && list[stack[|stack| - 1]].op.JumpIfZero?
    requires Decode(ts[|list|]) == Some(JumpIfNotZero(None))
    ensures Translated(ts, Closed(list, stack, number))
  {
    var list' := Closed(list, stack, number);
    forall k | 0 <= k < |list'|
      ensures Decode(ts[k]).Some? && list'[k].number == k + 1 && list'[k].op.Unlinked() == Decode(ts[k]).value
    {
      if k < |list| {
        assert list'[k].number == list[k].number && list'[k].op.Unlinked() == list[k].op.Unlinked();
      }
    }
  }

  lemma AppendKeeps(list: seq<Instruction>, stack: seq<nat>, ins: Instruction)
    requires StackInv(list, stack) && Paired(list) && Nested(list) && !ins.op.IsJump()
    ensures StackInv(list + [ins], stack) && Paired(list + [ins]) && Nested(list + [ins])
  {
    AppendKeepsStack(list, stack, ins);
    AppendKeepsPaired(list, ins);
    AppendKeepsNested(list, ins);
  }

  lemma AppendKeepsStack(list: seq<Instruction>, stack: seq<nat>, ins: Instruction)
    requires StackInv(list, stack) && !ins.op.IsJump()
    ensures StackInv(list + [ins], stack)
  {
    var n := |list|;
    var list' := list + [ins];
    assert forall k | 0 <= k < n :: list'[k] == list[k];
    assert !list'[n].op.IsJump();
    forall o | 0 <= o < |list'| && list'[o].op == JumpIfZero(None) ensures o in stack {
      assert o < n && list[o] == list'[o];
    }
    forall a, j | 0 <= a < |stack| && stack[a] < j < |list'| && list'[j].op.IsJump() && j !in stack
      ensures list'[j].op.matching.Some? && stack[a] < list'[j].op.matching.value < |list'|
    {
      assert j < n && list[j] == list'[j];
    }
  }

  lemma AppendKeepsPaired(list: seq<Instruction>, ins: Instruction)
    requires Paired(list) && !ins.op.IsJump()
    ensures Paired(list + [ins])
  {
    var n := |list|;
    var list' := list + [ins];
    assert forall k | 0 <= k < n :: list'[k] == list[k];
    assert !list'[n].op.IsJump();
    forall c | 0 <= c < |list'| && list'[c].op.JumpIfNotZero?
      ensures list'[c].op.matching.Some? && list'[c].op.matching.value < c
              && list'[list'[c].op.matching.value].op == JumpIfZero(Some(c))
    {
      assert c < n && list[c] == list'[c];
      var o := list[c].op.matching.value;
      assert list[o] == list'[o];
    }
    forall o | 0 <= o < |list'| && list'[o].op.JumpIfZero? && list'[o].op.matching.Some?
      ensures o < list'[o].op.matching.value < |list'|
              && list'[list'[o].op.matching.value].op == JumpIfNotZero(Some(o))
    {
      assert o < n && list[o] == list'[o];
      var c := list[o].op.matching.value;
      assert c < n && list[c] == list'[c];
    }
  }

  lemma AppendKeepsNested(list: seq<Instruction>, ins: Instruction)
    requires Nested(list) && !ins.op.IsJump()
    ensures Nested(list + [ins])
  {
    var n := |list|;
    var list' := list + [ins];
    assert forall k | 0 <= k < n :: list'[k] == list[k];
    assert !list'[n].op.IsJump();
    forall o, j | 0 <= o < j < |list'| && list'[o].op.JumpIfZero? && list'[o].op.matching.Some?
                  && j < list'[o].op.matching.value && list'[j].op.IsJump()
      ensures list'[j].op.matching.Some? && o < list'[j].op.matching.value < list'[o].op.matching.value
    {
      assert j < n && list[j] == list'[j] && list[o] == list'[o];
    }
  }

  /** `list` after a `jump-ifnotzero` has closed the jump on top of the stack. */
  function Closed(list: seq<Instruction>, stack: seq<nat>, number: int): seq<Instruction>
    requires stack != [] && stack[|stack| - 1] < |list|
  {
    var top := stack[|stack| - 1];
    list[top := list[top].(op := JumpIfZero(Some(|list|)))] + [Instruction(number, JumpIfNotZero(Some(top)))]
  }

  lemma CloseKeeps(list: seq<Instruction>, stack: seq<nat>, number: int)
    requires StackInv(list, stack) && Paired(list) && Nested(list) && stack != []
    ensures var list' := Closed(list, stack, number);
      StackInv(list', stack[..|stack| - 1]) && Paired(list') && Nested(list')
  {
    CloseKeepsStack(list, stack, number);
    CloseKeepsPaired(list, stack, number);
    CloseKeepsNested(list, stack, number);
  }

  lemma CloseKeepsStack(list: seq<Instruction>, stack: seq<nat>, number: int)
    requires StackInv(list, stack) && stack != []
    ensures StackInv(Closed(list, stack, number), stack[..|stack| - 1])
  {
    var top := stack[|stack| - 1];
    var list' := Closed(list, stack, number);
    var stack' := stack[..|stack| - 1];
    assert forall a | 0 <= a < |stack'| :: stack'[a] == stack[a] && stack[a] < top;
    assert forall k | 0 <= k < |list| && k != top :: list'[k] == list[k];
    CloseKeepsOpen(list, stack, number);
    CloseKeepsLinked(list, stack, number);
  }

  /** After closing, every still-unlinked opener is on the popped stack. */
  lemma CloseKeepsOpen(list: seq<Instruction>, stack: seq<nat>, number: int)
    requires StackInv(list, stack) && stack != []
    ensures var list' := Closed(list, stack, number);
      forall o | 0 <= o < |list'| && list'[o].op == JumpIfZero(None) :: o in stack[..|stack| - 1]
  {
    var n := |list|;
    var top := stack[|stack| - 1];
    var list' := Closed(list, stack, number);
    var stack' := stack[..|stack| - 1];
    assert list'[top].op == JumpIfZero(Some(n)) && list'[n].op == JumpIfNotZero(Some(top));
    forall o | 0 <= o < |list'| && list'[o].op == JumpIfZero(None) ensures o in stack' {
      assert o != top && o != n;
      assert list'[o] == list[o];
      assert o in stack;
      var a :| 0 <= a < |stack| && stack[a] == o;
      assert a != |stack| - 1;
      assert stack'[a] == o;
    }
  }

  /** After closing, every jump above a stacked opener and not itself stacked is linked inside. */
  lemma CloseKeepsLinked(list: seq<Instruction>, stack: seq<nat>, number: int)
    requires StackInv(list, stack) && stack != []
    ensures var list' := Closed(list, stack, number);
      var stack' := stack[..|stack| - 1];
      forall a, j | 0 <= a < |stack'| && stack'[a] < j < |list'| && list'[j].op.IsJump() && j !in stack' ::
        list'[j].op.matching.Some? && stack'[a] < list'[j].op.matching.value < |list'|
  {
    var n := |list|;
    var top := stack[|stack| - 1];
    var list' := Closed(list, stack, number);
    var stack' := stack[..|stack| - 1];
    assert list'[top].op == JumpIfZero(Some(n)) && list'[n].op == JumpIfNotZero(Some(top));
    forall a, j | 0 <= a < |stack'| && stack'[a] < j < |list'| && list'[j].op.IsJump() && j !in stack'
      ensures list'[j].op.matching.Some? && stack'[a] < list'[j].op.matching.value < |list'|
    {
      assert stack[a] == stack'[a] && stack[a] < top;
      if j != top && j != n {
        assert list'[j] == list[j];
        assert j !in stack;
      }
    }
  }

  lemma CloseKeepsPaired(list: seq<Instruction>, stack: seq<nat>, number: int)
    requires StackInv(list, stack) && Paired(list) && stack != []
    ensures Paired(Closed(list, stack, number))
  {
    var n := |list|;
    var top := stack[|stack| - 1];
    var list' := Closed(list, stack, number);
    assert forall k | 0 <= k < n && k != top :: list'[k] == list[k];
    assert list'[top].op == JumpIfZero(Some(n)) && list'[n].op == JumpIfNotZero(Some(top));
    forall c | 0 <= c < |list'| && list'[c].op.JumpIfNotZero?
      ensures list'[c].op.matching.Some? && list'[c].op.matching.value < c
              && list'[list'[c].op.matching.value].op == JumpIfZero(Some(c))
    {
      if c < n {
        assert list[c].op.JumpIfNotZero?;
        assert list[list[c].op.matching.value].op == JumpIfZero(Some(c));
      }
    }
    forall o | 0 <= o < |list'| && list'[o].op.JumpIfZero? && list'[o].op.matching.Some?
      ensures o < list'[o].op.matching.value < |list'|
              && list'[list'[o].op.matching.value].op == JumpIfNotZero(Some(o))
    {
      if o != top {
        assert list[o] == list'[o];
      }
    }
  }

  lemma CloseKeepsNested(list: seq<Instruction>, stack: seq<nat>, number: int)
    requires StackInv(list, stack) && Nested(list) && stack != []
    ensures Nested(Closed(list, stack, number))
  {
    var n := |list|;
    var top := stack[|stack| - 1];
    var list' := Closed(list, stack, number);
    assert forall k | 0 <= k < n && k != top :: list'[k] == list[k];
    assert list'[top].op == JumpIfZero(Some(n)) && list'[n].op == JumpIfNotZero(Some(top));
    forall o, j | 0 <= o < j < |list'| && list'[o].op.JumpIfZero? && list'[o].op.matching.Some?
                  && j < list'[o].op.matching.value && list'[j].op.IsJump()
      ensures list'[j].op.matching.Some? && o < list'[j].op.matching.value < list'[o].op.matching.value
    {
      if o == top {
        assert j != top && j < n;
        assert j !in stack;
      } else {
        assert list'[o] == list[o];
        assert j < n;
        assert j != top;
        assert list'[j] == list[j];
      }
    }
  }
}
