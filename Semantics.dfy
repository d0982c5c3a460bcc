/** The value-level meaning of the machine: its state as a sequence of words
    and a size, one checked transition, and the trap-stopping run over a
    program. The class in module Vm is proved against these functions. */
module Semantics {
  import opened Traps
  import opened Insts

  /** The whole machine state: every slot of the fixed buffer (its length is
      the capacity) and the number of slots in use. */
  datatype State = State(words: seq<Word>, size: nat)

  predicate Wf(s: State) {
    s.size <= |s.words|
  }

  /** The words on the stack, bottom first. */
  function Contents(s: State): (c: seq<Word>)
    requires Wf(s)
    ensures |c| == s.size
  {
    s.words[..s.size]
  }

  /** A machine with the given capacity, every slot zero and nothing pushed. */
  function Empty(capacity: nat): (s: State)
    ensures Wf(s) && |s.words| == capacity && Contents(s) == []
  {
    State(seq(capacity, _ => 0), 0)
  }

  function Abs(x: int): nat {
    if x < 0 then -x else x
  }

  /** Division of naturals: the quotient times the divisor is within one
      divisor below the dividend, and the quotient is no larger than it. */
  lemma NatDivBounds(n: nat, d: nat)
    requires d > 0
    ensures 0 <= (n / d) * d <= n < (n / d) * d + d
    ensures 0 <= n / d <= n
  {
    var m, r := n / d, n % d;
    assert n == m * d + r && 0 <= r < d;
    if m > n {
      MulMonotone(m, 1, d);
    }
  }

  lemma MulMonotone(m: nat, d: nat, e: nat)
    requires d <= e
    ensures m * d <= m * e
  {
  }

  /** Multiplying by a signed factor, written with the factor's magnitude. */
  lemma SignedProduct(m: int, b: int)
    ensures m * b == if b < 0 then -(m * Abs(b)) else m * Abs(b)
    ensures (-m) * b == -(m * b)
  {
  }

  /** The sign bookkeeping of truncating division, with the products named
      (`p` stands for the magnitude quotient times the magnitude divisor and
      `qb` for the signed quotient times the divisor). */
  lemma TruncDivSigns(a: int, b: int, m: int, p: int, q: int, qb: int)
    requires b != 0
    requires 0 <= p <= Abs(a) < p + Abs(b) && 0 <= m <= Abs(a)
    requires q == if (a < 0) == (b < 0) then m else -m
    requires qb == if (a < 0) == (b < 0) then (if b < 0 then -p else p) else (if b < 0 then p else -p)
    ensures Abs(q) <= Abs(a)
    ensures a >= 0 ==> 0 <= a - qb < Abs(b)
    ensures a < 0 ==> 0 <= qb - a < Abs(b)
  {
  }

  /** Signed division truncating toward zero, as C's `/` does: the quotient
      never exceeds the dividend in magnitude and the remainder `a - q * b`
      is smaller than the divisor in magnitude and has the dividend's sign. */
  function TruncDiv(a: int, b: int): (q: int)
    requires b != 0
    ensures Abs(q) <= Abs(a)
    ensures a >= 0 ==> 0 <= a - q * b < Abs(b)
    ensures a < 0 ==> 0 <= q * b - a < Abs(b)
  {
    var m := Abs(a) / Abs(b);
    NatDivBounds(Abs(a), Abs(b));
    SignedProduct(m, b);
    var q := if (a < 0) == (b < 0) then m else -m;
    TruncDivSigns(a, b, m, m * Abs(b), q, q * b);
    q
  }

  /** The mathematical result of a binary kind on left operand `a` and right
      operand `b`: addition and subtraction undo each other, a product
      divided by its nonzero right factor gives the left factor back, and a
      quotient is no larger than its dividend. */
  function Apply(k: InstType, a: int, b: int): (r: int)
    requires k.IsBinary()
    requires k.Div? ==> b != 0
    ensures k.Plus? ==> r - b == a
    ensures k.Minus? ==> r + b == a
    ensures k.Mult? && b != 0 ==> TruncDiv(r, b) == a
    ensures k.Div? ==> Abs(r) <= Abs(a)
  {
    match k
    case Plus => a + b
    case Minus => a - b
    case Mult =>
      if b != 0 then TruncDivExact(a, b); a * b else a * b
    case Div => TruncDiv(a, b)
  }

  /** A nonzero multiple of `b` is at least `b` in magnitude. */
  lemma MultipleMagnitude(x: int, b: int)
    requires x != 0
    ensures Abs(x * b) >= Abs(b)
  {
    SignedProduct(x, b);
    SignedProduct(Abs(x), b);
    MulMonotone(Abs(b), 1, Abs(x));
    assert Abs(x) * Abs(b) == Abs(b) * Abs(x);
    if x < 0 {
      assert x * b == -(Abs(x) * b);
    }
  }

  /** Truncating division of an exact multiple leaves no remainder. */
  lemma TruncDivExact(a: int, b: int)
    requires b != 0
    ensures TruncDiv(a * b, b) == a
  {
    var q := TruncDiv(a * b, b);
    assert a * b - q * b == (a - q) * b;
    if a != q {
      MultipleMagnitude(a - q, b);
    }
  }

  /** The step has defined behaviour in C: a binary kind that reaches its
      arithmetic does not divide by zero and its result fits in a word.
      Only that arithmetic can be undefined, and a defined division never
      divides the minimum word by -1. */
  function Defined(s: State, inst: Inst): (ok: bool)
    requires Wf(s)
    ensures !inst.kind.IsBinary() || s.size < 2 ==> ok
    ensures ok && inst.kind.Div? && s.size >= 2 ==>
              s.words[s.size - 1] != 0 &&
              !(s.words[s.size - 2] as int == WORD_MIN && s.words[s.size - 1] == -1)
  {
    inst.kind.IsBinary() && s.size >= 2 ==>
      var a, b := s.words[s.size - 2], s.words[s.size - 1];
      if inst.kind.Div? && b == 0 then false
      else InWordRange(Apply(inst.kind, a as int, b as int))
  }

  datatype Outcome = Outcome(trap: Trap, state: State)

  /** One checked transition. Traps are decided before anything is written;
      the binary kinds overwrite slot `size - 2` with `a op b` and drop the
      size by one, leaving the old top word in the slot above. */
  function Step(s: State, inst: Inst): (o: Outcome)
    requires Wf(s) && Defined(s, inst)
    ensures Wf(o.state) && |o.state.words| == |s.words|
    ensures o.trap == StackOverflow <==> inst.kind.Push? && s.size >= |s.words|
    ensures o.trap == StackUnderflow <==> inst.kind.IsBinary() && s.size < 2
    ensures o.trap == IllegalInst <==> inst.kind.Illegal?
    ensures o.trap != Ok ==> o.state == s
    ensures o.trap == Ok && inst.kind.Push? ==>
              o.state.size == s.size + 1 && Contents(o.state) == Contents(s) + [inst.operand]
    ensures o.trap == Ok && inst.kind.IsBinary() ==>
              s.size >= 2 && o.state.size == s.size - 1 &&
              Contents(o.state) == Contents(s)[..s.size - 2] +
                [Apply(inst.kind, Contents(s)[s.size - 2] as int, Contents(s)[s.size - 1] as int) as Word]
    ensures forall i | o.state.size <= i < |s.words| :: o.state.words[i] == s.words[i]
  {
    match inst.kind
    case Push =>
      if s.size >= |s.words| then Outcome(StackOverflow, s)
      else Outcome(Ok, State(s.words[s.size := inst.operand], s.size + 1))
    case Illegal(_) =>
      Outcome(IllegalInst, s)
    case _ =>
      if s.size < 2 then Outcome(StackUnderflow, s)
      else
        var a, b := s.words[s.size - 2], s.words[s.size - 1];
        var r := Apply(inst.kind, a as int, b as int) as Word;
        Outcome(Ok, State(s.words[s.size - 2 := r], s.size - 1))
  }

  /** How a run ended: the trap of the last step taken, the loop index at which
      the run stopped (the program length when every step succeeded), and the
      final state. */
  datatype RunResult = RunResult(trap: Trap, index: nat, state: State)

  /** Every step that a run takes has defined behaviour. */
  predicate RunDefined(s: State, program: seq<Inst>)
    requires Wf(s)
    decreases |program|
  {
    program == [] ||
    (Defined(s, program[0]) &&
     var o := Step(s, program[0]);
     (o.trap == Ok ==> RunDefined(o.state, program[1..])))
  }

  /** Executes the program from its first instruction, stopping at the first
      step that does not return `Ok`. */
  function Run(s: State, program: seq<Inst>): (r: RunResult)
    requires Wf(s) && RunDefined(s, program)
    ensures Wf(r.state) && |r.state.words| == |s.words|
    ensures r.trap == Ok <==> r.index == |program|
    ensures r.index <= |program|
    decreases |program|
  {
    if program == [] then RunResult(Ok, 0, s)
    else
      var o := Step(s, program[0]);
      if o.trap != Ok then RunResult(o.trap, 0, o.state)
      else
        var r := Run(o.state, program[1..]);
        RunResult(r.trap, r.index + 1, r.state)
  }

  /** Every step of the program is defined and returns `Ok`. */
  predicate AllOk(s: State, program: seq<Inst>)
    requires Wf(s)
    decreases |program|
  {
    program == [] ||
    (Defined(s, program[0]) &&
     var o := Step(s, program[0]);
     o.trap == Ok && AllOk(o.state, program[1..]))
  }

  /** The left fold of the step's state transition over the program. */
  function Fold(s: State, program: seq<Inst>): (t: State)
    requires Wf(s) && AllOk(s, program)
    ensures Wf(t) && |t.words| == |s.words|
    decreases |program|
  {
    if program == [] then s
    else Fold(Step(s, program[0]).state, program[1..])
  }

  /** A run returns `Ok` exactly when every step does, and then its final state
      is the fold of the step over the whole program. */
  lemma {:induction false} RunOkIsFold(s: State, program: seq<Inst>)
    requires Wf(s)
    ensures AllOk(s, program) ==>
              RunDefined(s, program) && Run(s, program) == RunResult(Ok, |program|, Fold(s, program))
    ensures RunDefined(s, program) && Run(s, program).trap == Ok ==> AllOk(s, program)
    decreases |program|
  {
    if program != [] && Defined(s, program[0]) {
      var o := Step(s, program[0]);
      if o.trap == Ok {
        RunOkIsFold(o.state, program[1..]);
      }
    }
  }

  /** A run that traps stops at the first failing index, and its state is the
      fold over the instructions before it: the failing step changed nothing. */
  lemma {:induction false} RunStopsAtFirstTrap(s: State, program: seq<Inst>)
    requires Wf(s) && RunDefined(s, program)
    requires Run(s, program).trap != Ok
    ensures var r := Run(s, program);
            r.index < |program| &&
            AllOk(s, program[..r.index]) &&
            r.state == Fold(s, program[..r.index]) &&
            Defined(r.state, program[r.index]) &&
            Step(r.state, program[r.index]) == Outcome(r.trap, r.state)
    decreases |program|
  {
    var o := Step(s, program[0]);
    var r := Run(s, program);
    if o.trap == Ok {
      var rest := program[1..];
      RunStopsAtFirstTrap(o.state, rest);
      var k := Run(o.state, rest).index;
      assert program[..r.index] == [program[0]] + rest[..k];
      assert program[..r.index][1..] == rest[..k];
      assert program[r.index] == rest[k];
    } else {
      assert program[..0] == [];
    }
  }

  /** A program that pushes the given words in order. */
  function Pushes(values: seq<Word>): (p: seq<Inst>)
    ensures |p| == |values|
    ensures forall i | 0 <= i < |p| :: p[i] == Inst(Push, values[i])
  {
    seq(|values|, i requires 0 <= i < |values| => Inst(Push, values[i]))
  }

  /** Pushing words fills the free slots in order: if they all fit, the run
      succeeds with the words on top of the old stack; otherwise it overflows
      at the first push beyond the capacity, with exactly the words that fit
      pushed. */
  lemma {:induction false} PushesRun(s: State, values: seq<Word>)
    requires Wf(s)
    ensures RunDefined(s, Pushes(values))
    ensures var r := Run(s, Pushes(values));
            var room := |s.words| - s.size;
            if |values| <= room then
              r.trap == Ok && Contents(r.state) == Contents(s) + values
            else
              r.trap == StackOverflow && r.index == room &&
              Contents(r.state) == Contents(s) + values[..room]
    decreases |values|
  {
    var p := Pushes(values);
    var room := |s.words| - s.size;
    if values != [] {
      var o := Step(s, p[0]);
      if room == 0 {
        assert o.trap == StackOverflow;
        assert Run(s, p) == RunResult(StackOverflow, 0, s);
        assert values[..room] == [];
      } else {
        assert o.trap == Ok && Contents(o.state) == Contents(s) + [values[0]];
        var rest := values[1..];
        assert p[1..] == Pushes(rest);
        PushesRun(o.state, rest);
        var r1 := Run(o.state, Pushes(rest));
        assert Run(s, p) == RunResult(r1.trap, r1.index + 1, r1.state);
        assert Contents(s) + values == Contents(o.state) + rest;
        if |values| > room {
          assert values[..room] == [values[0]] + rest[..room - 1];
        }
      }
    }
  }
}
