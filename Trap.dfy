/** The trap taxonomy: every step of the machine reports one of these values
    instead of faulting. */
module Traps {

  datatype Trap = Ok | StackOverflow | StackUnderflow | IllegalInst

  /** The stable diagnostic name of a trap. The enumeration is closed, so the
      unreachable default branch of the C switch has no counterpart here. */
  function TrapName(t: Trap): (name: string)
    ensures |name| > 5 && name[..5] == "TRAP_"
  {
    match t
    case Ok => "TRAP_OK"
    case StackOverflow => "TRAP_STACK_OVERFLOW"
    case StackUnderflow => "TRAP_STACK_UNDERFLOW"
    case IllegalInst => "TRAP_ILLEGAL_INST"
  }

  /** Distinct traps have distinct names, so a name identifies its trap. */
  lemma TrapNamesDistinct(t: Trap, u: Trap)
    ensures TrapName(t) == TrapName(u) <==> t == u
  {
  }
}
