/** The machine object: a fixed buffer of words and a size counter, updated in
    place by one instruction at a time, and the driver loop that runs a
    program until the first trap. */
module Vm {
  import opened Traps
  import opened Insts
  import Semantics

  /** The capacity of the buffer in the source. */
  const StackCapacity: nat := 1

  class Ibvm {
    /** The buffer; its length is the capacity. */
    const stack: array<Word>
    /** The number of slots in use. */
    var size: nat

    ghost predicate Valid()
      reads this
    {
      size <= stack.Length
    }

    /** The whole state of the machine as a value. */
    function AsState(): (s: Semantics.State)
      reads this, stack
      ensures Valid() <==> Semantics.Wf(s)
      ensures |s.words| == stack.Length
    {
      Semantics.State(stack[..], size)
    }

    /** An empty machine whose slots are all zero, as the zero-initialised
        global of the source is. */
    constructor (capacity: nat)
      ensures Valid() && fresh(stack)
      ensures AsState() == Semantics.Empty(capacity)
    {
      stack := new Word[capacity](_ => 0);
      size := 0;
    }

    /** Executes one instruction: the checked transition of
        `Semantics.Step`. A trap leaves the buffer and the size as they were. */
    method Execute(inst: Inst) returns (trap: Trap)
      requires Valid() && Semantics.Defined(AsState(), inst)
      modifies this`size, stack
      ensures Valid()
      ensures Semantics.Outcome(trap, AsState()) == Semantics.Step(old(AsState()), inst)
      ensures trap != Ok ==> size == old(size) && stack[..] == old(stack[..])
    {
      match inst.kind {
      case Push =>
        if size >= stack.Length {
          return StackOverflow;
        }
        stack[size] := inst.operand;
        size := size + 1;
      case Plus =>
        if size < 2 {
          return StackUnderflow;
        }
        stack[size - 2] := stack[size - 2] + stack[size - 1];
        size := size - 1;
      case Minus =>
        if size < 2 {
          return StackUnderflow;
        }
        stack[size - 2] := stack[size - 2] - stack[size - 1];
        size := size - 1;
      case Mult =>
        if size < 2 {
          return StackUnderflow;
        }
        stack[size - 2] := stack[size - 2] * stack[size - 1];
        size := size - 1;
      case Div =>
        if size < 2 {
          return StackUnderflow;
        }
        stack[size - 2] := Semantics.TruncDiv(stack[size - 2] as int, stack[size - 1] as int) as Word;
        size := size - 1;
      case Illegal(_) =>
        return IllegalInst;
      }
      trap := Ok;
    }

    /** Executes the program from its first instruction and stops at the first
        trap, returning that trap and the index of the failing instruction, or
        `Ok` and the program length when every step succeeded. */
    method Run(program: seq<Inst>) returns (trap: Trap, index: nat)
      requires Valid() && Semantics.RunDefined(AsState(), program)
      modifies this`size, stack
      ensures Valid()
      ensures Semantics.RunResult(trap, index, AsState()) == Semantics.Run(old(AsState()), program)
    {
      trap, index := Ok, 0;
      while index < |program|
        invariant Valid() && index <= |program| && trap == Ok
        invariant Semantics.RunDefined(AsState(), program[index..])
        invariant var r := Semantics.Run(AsState(), program[index..]);
                  Semantics.Run(old(AsState()), program) == Semantics.RunResult(r.trap, r.index + index, r.state)
      {
        assert program[index..][0] == program[index];
        assert program[index..][1..] == program[index + 1..];
        trap := Execute(program[index]);
        if trap != Ok {
          return;
        }
        index := index + 1;
      }
      assert program[index..] == [];
    }
  }
}
