/**
 * The instruction set of the Ook! interpreter (Interpreter/Instructions.cs): the
 * direction of a move or increment, the six instruction kinds (named by eight
 * mnemonics) with the links of the two jumps, sequence numbers, and the
 * fixed-width numbers the cells and the input/output bytes use.
 */
module Instructions {
  import opened Wrappers

  /** A C# `int`: the cells of the tape hold values of this width. */
  newtype int32 = x: int | -0x8000_0000 <= x < 0x8000_0000

  /** A C# `byte`: what is read from the input and written to the output. */
  newtype byte = x: int | 0 <= x < 0x100

  /** Wrap-around of unchecked 32-bit two's-complement arithmetic. */
  function Wrap32(x: int): (r: int32)
    ensures (r as int - x) % 0x1_0000_0000 == 0
    ensures -0x8000_0000 <= x < 0x8000_0000 ==> r as int == x
  {
    ((x + 0x8000_0000) % 0x1_0000_0000 - 0x8000_0000) as int32
  }

  /** The unchecked `(byte)` cast of an `int`: its low eight bits. */
  function LowByte(v: int32): (b: byte)
    ensures (v as int - b as int) % 0x100 == 0
    ensures 0 <= v < 0x100 ==> b as int == v as int
  {
    (v as int % 0x100) as byte
  }

  datatype Direction = Forward | Backwards

  /** The displacement `direction == Direction.Forward ? 1 : -1`. */
  function Amount(d: Direction): (r: int)
    ensures r == 1 || r == -1
    ensures r == 1 <==> d == Forward
  {
    match d
    case Forward => 1
    case Backwards => -1
  }

  /**
   * The instruction kinds. A jump's `matching` is the index, in the program, of the
   * instruction its `MatchingInstruction` field refers to, or None while that
   * field is null.
   */
  datatype Op =
    | MovePointer(direction: Direction)
    | IncrementValue(direction: Direction)
    | PrintCharacter
    | ReadCharacter
    | JumpIfZero(matching: Option<nat>)
    | JumpIfNotZero(matching: Option<nat>)
  {
    predicate IsJump() {
      JumpIfZero? || JumpIfNotZero?
    }

    /** The same kind with its link cleared, as the builder first creates it. */
    function Unlinked(): (r: Op)
      ensures !r.IsJump() ==> r == this
      ensures r.IsJump() ==> r.matching == None && (r.JumpIfZero? <==> JumpIfZero?)
    {
      if IsJump() then this.(matching := None) else this
    }
  }

  /** An instruction with its 1-based sequence number (the `Number` property). */
  datatype Instruction = Instruction(number: int, op: Op)

  /** Every jump link names an instruction of the program itself. */
  ghost predicate LinksInRange(p: seq<Instruction>) {
    forall k | 0 <= k < |p| && p[k].op.IsJump() && p[k].op.matching.Some? ::
      p[k].op.matching.value < |p|
  }

  /**
   * The links the builder establishes: every JumpIfNotZero is linked to an earlier
   * JumpIfZero that is linked back to it, and every linked JumpIfZero is linked to
   * a later JumpIfNotZero that is linked back to it.
   */
  ghost predicate Paired(p: seq<Instruction>) {
    && (forall c | 0 <= c < |p| && p[c].op.JumpIfNotZero? ::
          p[c].op.matching.Some? && p[c].op.matching.value < c
          && p[p[c].op.matching.value].op == JumpIfZero(Some(c)))
    && (forall o | 0 <= o < |p| && p[o].op.JumpIfZero? && p[o].op.matching.Some? ::
          o < p[o].op.matching.value < |p|
          && p[p[o].op.matching.value].op == JumpIfNotZero(Some(o)))
  }

  /**
   * Stack discipline: every jump strictly between a linked JumpIfZero and its
   * JumpIfNotZero is itself linked to a jump strictly between the two.
   */
  ghost predicate Nested(p: seq<Instruction>) {
    forall o, j | 0 <= o < j < |p| && p[o].op.JumpIfZero? && p[o].op.matching.Some?
                  && j < p[o].op.matching.value && p[j].op.IsJump() ::
      p[j].op.matching.Some? && o < p[j].op.matching.value < p[o].op.matching.value
  }

  /** Every JumpIfZero is linked to a JumpIfNotZero. */
  ghost predicate AllMatched(p: seq<Instruction>) {
    forall o | 0 <= o < |p| && p[o].op.JumpIfZero? :: p[o].op.matching.Some?
  }

  /** The program holds no jump at all. */
  ghost predicate JumpFree(p: seq<Instruction>) {
    forall k | 0 <= k < |p| :: !p[k].op.IsJump()
  }

  /** A program with the builder's links can be loaded: all its links are in range. */
  lemma PairedLinksInRange(p: seq<Instruction>)
    requires Paired(p)
    ensures LinksInRange(p)
  {
    forall k | 0 <= k < |p| && p[k].op.IsJump() && p[k].op.matching.Some?
      ensures p[k].op.matching.value < |p|
    {
      if p[k].op.JumpIfNotZero? {
        assert p[k].op.matching.value < k;
      }
    }
  }
}
