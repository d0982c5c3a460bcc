# ibvm in Dafny

A model of ibvm, a tiny stack-based bytecode interpreter written in C. The
machine holds a fixed buffer of signed 64-bit words and a size counter. An
instruction is one of five kinds (`PUSH`, `PLUS`, `MINUS`, `MULT`, `DIV`) with
an operand that only `PUSH` reads. Executing one instruction either pushes the
operand or replaces the two top words `a` (below) and `b` (top) by `a op b`,
and returns a trap value instead of faulting. A driver loop runs a fixed
program and stops at the first trap that is not `OK`.

Files and modules:

- `Trap.dfy` (module `Traps`): the four traps and their diagnostic names.
- `Inst.dfy` (module `Insts`): the 64-bit `Word` newtype, instruction kinds
  (with an `Illegal(tag)` kind for type fields outside the enumeration, so the
  default branch of the dispatch exists; the subset type `Kind` rules out an
  `Illegal` tag equal to an enumerator's value) and the C enumeration numbering.
- `Semantics.dfy` (module `Semantics`): the machine state as a value (all
  buffer slots plus the size), the checked transition `Step`, truncating
  division, the trap-stopping `Run` over a program, the left fold `Fold`, and
  the lemmas relating them.
- `Vm.dfy` (module `Vm`): the class `Ibvm` with an `array<Word>` buffer and a
  `size` field; `Execute` updates them in place and is proved equal to `Step`;
  `Run` is the driver loop, proved equal to `Semantics.Run`. The capacity is a
  constructor parameter; `StackCapacity` is the source's value, 1.
- `Driver.dfy` (module `Driver`): the source's fixed program and a method that
  runs it on a fresh machine.

Undefined behaviour of the C code is a precondition, not a trap:
`Semantics.Defined` demands that a binary step that reaches its arithmetic
does not divide by zero and that its exact result fits in 64 bits (which also
rules out the minimum word divided by -1). `Step`, `Execute` and both `Run`s
require it of every step they take.

The code has no instruction pointer, jump, halt or division-by-zero trap:
there are four traps (main.c:10-15), five kinds (main.c:39-45), the loop walks
the program array by index (main.c:134), and the capacity is 1 (main.c:8).

Two constants carry the source's data: `Vm.StackCapacity` is the capacity
(main.c:8) and `Driver.ExampleProgram` is the fixed program (main.c:123-129),
with zero operands for the kinds that take none.

## Model

| member | source | states |
|---|---|---|
| Traps.TrapName | main.c:17-30 | every trap has a name, and each name starts with `TRAP_` |
| Traps.TrapNamesDistinct | main.c:17-30 | two traps have the same name exactly when they are the same trap |
| Insts.TagOf | main.c:39-45 | the numbering of the kinds: `PUSH` is 0 and the binary kinds are exactly 1 to 4 |
| Insts.KindOf | main.c:39-50 | decoding a type field gives an illegal kind exactly for values outside 0..4, and encoding the kind gives the value back |
| Insts.KindTagRoundTrip | main.c:39-45 | decoding the numbering of a kind gives the kind back (an illegal kind never carries an enumerator's value) |
| Semantics.Empty | main.c:121 | a fresh machine has the given capacity and an empty stack |
| Semantics.TruncDiv | main.c:95 | C division: the quotient is at most the dividend in magnitude, and the remainder is smaller than the divisor in magnitude with the dividend's sign |
| Semantics.Apply | main.c:80-95 | the arithmetic of the four binary kinds: the sum minus the right operand is the left one, the difference plus the right operand is the left one, the product divided by a nonzero right factor is the left factor, the quotient is no larger than the dividend |
| Semantics.TruncDivExact | main.c:90-95 | truncating division of an exact multiple `a * b` by `b` gives `a` |
| Semantics.Defined | main.c:78-96 | the C step is defined unless a binary kind with two words divides by zero or overflows 64 bits; push, illegal and underflowing steps are always defined, and a defined division has a nonzero divisor and is never the minimum word divided by -1 |
| Semantics.Step | main.c:70-104 | overflow exactly for `PUSH` on a full buffer, underflow exactly for a binary kind with fewer than two words, illegal exactly for an unknown kind; every trap leaves the state unchanged; a successful push appends the operand and grows the size by one; a successful binary op shrinks the size by one and replaces the top two words by `a+b`, `a-b`, `a*b` or the truncated `a/b` with everything below untouched; slots at or above the new size keep their values; the capacity is kept and the size stays within it |
| Semantics.Run | main.c:134-142 | the run ends `OK` exactly when it walked the whole program, otherwise at an index inside the program; the state stays well-formed |
| Semantics.Fold | main.c:134-142 | folding the step over a program of successful steps keeps the capacity and a well-formed state |
| Semantics.RunOkIsFold | main.c:134-142 | a run returns `OK` exactly when every step returns `OK`, and then its final state is the left fold of the step over the program |
| Semantics.RunStopsAtFirstTrap | main.c:134-142 | a trapping run stops at the first failing index: every earlier step succeeded, the final state is the fold over the earlier instructions, and the failing step left that state unchanged |
| Semantics.PushesRun | main.c:72-76 | pushes fill the free slots in order; with too many words the run overflows at the first push past the capacity with exactly the words that fit on the stack |
| Vm.Ibvm.AsState | main.c:34-37 | the machine's fields as a state value; the object invariant holds exactly when that value is well-formed |
| Vm.Ibvm.constructor | main.c:121 | a new machine owns a fresh zero-filled buffer of the given capacity and an empty stack |
| Vm.Ibvm.Execute | main.c:70-104 | the in-place update returns the trap of `Step` and leaves exactly `Step`'s new state; a trap changes neither the buffer nor the size; the size stays within the capacity |
| Vm.Ibvm.Run | main.c:134-142 | the loop returns the trap, the stopping index and the final state of `Semantics.Run` |
| Driver.ExampleRun | main.c:123-129 | the example program overflows at index 0 with capacity 0, overflows at index 1 with stack `[69]` with capacity 1, and ends `OK` with stack `[447]` with capacity 2 or more |
| Driver.RunExample | main.c:131-142 | running the example on a fresh machine of the source's capacity returns overflow at index 1 with stack `[69]`; with capacity 2 or more it returns `OK` after the whole program with stack `[447]` |

## Left out

- The `assert(0 && ...)` default branch of `trap_as_cstr` (main.c:27-28): `Trap` is a closed datatype, so no value reaches it and `Traps.TrapName` has no such case.
- `ibvm_dump` (main.c:106-117): formatted output to a stream only.
- The `fprintf` to standard error and `exit(0)` in `main`: the driver returns the trap and the failing index instead; the dumps after each step are left out with `ibvm_dump`.
- The commented-out `inst_push`/`inst_plus` helpers: dead code.
- The `MAKE_INST_*` macros and `ARRAY_SIZE`: datatype constructors and the sequence length stand for them.
- The global `ibvm` and `program`: the machine is a constructed object and the program a sequence parameter.
- Signed overflow, division by zero and the minimum word divided by -1 are undefined in C; they are preconditions (`Semantics.Defined`), not modelled wrap-around or traps.
- `stack_size` is a `size_t` in C; it is a `nat` here, since it never exceeds the capacity.
