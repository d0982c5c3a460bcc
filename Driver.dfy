/** The source's fixed program and the driver that runs it on a fresh machine,
    reporting the trap and the failing index instead of printing and exiting. */
module Driver {
  import opened Traps
  import opened Insts
  import opened Semantics
  import Vm

  /** push 69, push 420, plus, push 42, minus. Operands of the kinds that take
      none are zero, as the designated initialisers leave them. */
  const ExampleProgram: seq<Inst> := [
    Inst(Push, 69),
    Inst(Push, 420),
    Inst(Plus, 0),
    Inst(Push, 42),
    Inst(Minus, 0)
  ]

  /** The example program on an empty machine of any capacity: with no room it
      overflows at once, with room for one word it overflows on the second
      push, and with room for two it computes 69 + 420 - 42. */
  lemma {:induction false} ExampleRun(capacity: nat)
    ensures RunDefined(Empty(capacity), ExampleProgram)
    ensures var r := Run(Empty(capacity), ExampleProgram);
            Contents(r.state) ==
              (if capacity == 0 then [] else if capacity == 1 then [69] else [447]) &&
            (r.trap, r.index) ==
              (if capacity == 0 then (StackOverflow, 0)
               else if capacity == 1 then (StackOverflow, 1)
               else (Ok, |ExampleProgram|))
  {
    var p := ExampleProgram;
    var s0 := Empty(capacity);
    if capacity == 0 {
      assert Step(s0, p[0]).trap == StackOverflow;
      return;
    }
    var s1 := Step(s0, p[0]).state;
    assert Contents(s1) == [69];
    if capacity == 1 {
      assert Step(s1, p[1]).trap == StackOverflow;
      assert Run(s1, p[1..]) == RunResult(StackOverflow, 0, s1);
      return;
    }
    var s2 := Step(s1, p[1]).state;
    assert Contents(s2) == [69, 420];
    assert s2.words[0] == 69 && s2.words[1] == 420;
    var s3 := Step(s2, p[2]).state;
    assert Contents(s3) == [489];
    var s4 := Step(s3, p[3]).state;
    assert Contents(s4) == [489, 42];
    assert s4.words[0] == 489 && s4.words[1] == 42;
    var s5 := Step(s4, p[4]).state;
    assert Contents(s5) == [447];
    assert p[5..] == [];
    assert p[4..][1..] == p[5..];
    assert p[3..][1..] == p[4..];
    assert p[2..][1..] == p[3..];
    assert p[1..][1..] == p[2..];
    assert Run(s5, p[5..]) == RunResult(Ok, 0, s5);
    assert Run(s4, p[4..]) == RunResult(Ok, 1, s5);
    assert Run(s3, p[3..]) == RunResult(Ok, 2, s5);
    assert Run(s2, p[2..]) == RunResult(Ok, 3, s5);
    assert Run(s1, p[1..]) == RunResult(Ok, 4, s5);
  }

  /** Runs the example program on a fresh machine of the given capacity and
      returns the trap, the index where the run stopped and the final stack. */
  method RunExample(capacity: nat) returns (trap: Trap, index: nat, contents: seq<Word>)
    ensures capacity == Vm.StackCapacity ==> trap == StackOverflow && index == 1 && contents == [69]
    ensures capacity >= 2 ==> trap == Ok && index == |ExampleProgram| && contents == [447]
    ensures capacity == 0 ==> trap == StackOverflow && index == 0 && contents == []
  {
    var vm := new Vm.Ibvm(capacity);
    ExampleRun(capacity);
    trap, index := vm.Run(ExampleProgram);
    contents := vm.stack[..vm.size];
    assert contents == Contents(vm.AsState());
  }
}
