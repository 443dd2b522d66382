/**
 * Whole programs: text compiled by `poliz_compile` and then run handler by
 * handler from an empty stack with no input. Each run is taken apart one
 * instruction at a time, from the last one back to the first.
 */
module Programs {
  import opened Int32Arith
  import opened Opcodes
  import opened Compiler
  import opened Semantics

  const Empty := Machine([], Ok)

  /** A run that starts with neither `r` nor the terminator is its first step followed by the rest. */
  lemma RunFirst(p: seq<Op>, s: Machine, o: Outcome, r: Outcome)
    requires p != [] && p[0] != Halt && p[0] != Read
    requires Step(s, p[0], None) == o && Run(p[1..], o.next, []) == r
    ensures Run(p, s, []) == Outcome(r.next, o.out + r.out)
  {
  }

  lemma PushStep(st: seq<int32>, v: int32)
    ensures Step(Machine(st, Ok), Push(v), None) == Outcome(Machine(st + [v], Ok), [])
  {
  }

  lemma WriteOnce(x: int32)
    ensures Run([Write, Halt], Machine([x], Ok), []) == Outcome(Empty, [Number(x)])
  {
    var p := [Write, Halt];
    assert p[1..] == [Halt];
    RunFirst(p, Machine([x], Ok), Outcome(Empty, [Number(x)]), Outcome(Empty, []));
  }

  /** Two writes print the top cell and then the one below it. */
  lemma WriteTwice(x: int32, y: int32)
    ensures Run([Write, Write, Halt], Machine([y, x], Ok), []) == Outcome(Empty, [Number(x), Number(y)])
  {
    var p := [Write, Write, Halt];
    assert p[1..] == [Write, Halt];
    WriteOnce(y);
    RunFirst(p, Machine([y, x], Ok), Outcome(Machine([y], Ok), [Number(x)]), Outcome(Empty, [Number(y)]));
  }

  // ---------------------------------------------------------------------
  // `a b + w`
  // ---------------------------------------------------------------------

  lemma AddStep(a: int32, b: int32, c: int32)
    requires c as int == a as int + b as int
    ensures Step(Machine([a, b], Ok), Plus, None) == Outcome(Machine([c], Ok), [])
  {
    assert Machine([a, b], Ok).stack[..0] + [c] == [c];
  }

  lemma AddThenWrite(a: int32, b: int32, c: int32)
    requires c as int == a as int + b as int
    ensures Run([Plus, Write, Halt], Machine([a, b], Ok), []) == Outcome(Empty, [Number(c)])
  {
    var p := [Plus, Write, Halt];
    assert p[1..] == [Write, Halt];
    WriteOnce(c);
    AddStep(a, b, c);
    RunFirst(p, Machine([a, b], Ok), Outcome(Machine([c], Ok), []), Outcome(Empty, [Number(c)]));
  }

  lemma PushAddThenWrite(a: int32, b: int32, c: int32)
    requires c as int == a as int + b as int
    ensures Run([Push(b), Plus, Write, Halt], Machine([a], Ok), []) == Outcome(Empty, [Number(c)])
  {
    var p := [Push(b), Plus, Write, Halt];
    assert p[1..] == [Plus, Write, Halt];
    AddThenWrite(a, b, c);
    PushStep([a], b);
    RunFirst(p, Machine([a], Ok), Outcome(Machine([a, b], Ok), []), Outcome(Empty, [Number(c)]));
  }

  /** Pushing two values, adding them and writing the sum prints the sum and leaves the stack empty. */
  lemma RunSum(a: int32, b: int32)
    requires InInt32(a as int + b as int)
    ensures Run([Push(a), Push(b), Plus, Write, Halt], Empty, []) ==
      Outcome(Empty, [Number((a as int + b as int) as int32)])
  {
    var p := [Push(a), Push(b), Plus, Write, Halt];
    var c := (a as int + b as int) as int32;
    assert p[1..] == [Push(b), Plus, Write, Halt];
    PushAddThenWrite(a, b, c);
    PushStep([], a);
    RunFirst(p, Empty, Outcome(Machine([a], Ok), []), Outcome(Empty, [Number(c)]));
  }

  lemma SpelledSum()
    ensures Spaced(Spelled([Push(3), Push(4), Plus, Write])) == "3 4 + w"
  {
  }

  /** Text such as `3 4 + w` (see `SpelledSum`) prints the sum and leaves the stack empty. */
  lemma Sum(a: int32, b: int32)
    requires InInt32(a as int + b as int)
    ensures Run(Compiled(Spaced(Spelled([Push(a), Push(b), Plus, Write]))), Empty, []) ==
      Outcome(Empty, [Number((a as int + b as int) as int32)])
  {
    var ops := [Push(a), Push(b), Plus, Write];
    CompileSpaced(ops);
    assert ops + [Halt] == [Push(a), Push(b), Plus, Write, Halt];
    RunSum(a, b);
  }

  // ---------------------------------------------------------------------
  // `a d0 w w`
  // ---------------------------------------------------------------------

  lemma CopyStep(a: int32)
    ensures Step(Machine([a], Ok), ToTop(0), None) == Outcome(Machine([a, a], Ok), [])
  {
  }

  lemma CopyThenWrite(a: int32)
    ensures Run([ToTop(0), Write, Write, Halt], Machine([a], Ok), []) == Outcome(Empty, [Number(a), Number(a)])
  {
    var p := [ToTop(0), Write, Write, Halt];
    assert p[1..] == [Write, Write, Halt];
    WriteTwice(a, a);
    CopyStep(a);
    RunFirst(p, Machine([a], Ok), Outcome(Machine([a, a], Ok), []), Outcome(Empty, [Number(a), Number(a)]));
  }

  /** `d0` copies the top, so writing twice prints the value twice. */
  lemma RunCopy(a: int32)
    ensures Run([Push(a), ToTop(0), Write, Write, Halt], Empty, []) == Outcome(Empty, [Number(a), Number(a)])
  {
    var p := [Push(a), ToTop(0), Write, Write, Halt];
    assert p[1..] == [ToTop(0), Write, Write, Halt];
    CopyThenWrite(a);
    PushStep([], a);
    RunFirst(p, Empty, Outcome(Machine([a], Ok), []), Outcome(Empty, [Number(a), Number(a)]));
  }

  lemma SpelledCopy()
    ensures Spaced(Spelled([Push(5), ToTop(0), Write, Write])) == "5 d0 w w"
  {
  }

  /** Text such as `5 d0 w w` (see `SpelledCopy`) prints the pushed value twice. */
  lemma Copy(a: int32)
    ensures Run(Compiled(Spaced(Spelled([Push(a), ToTop(0), Write, Write]))), Empty, []) ==
      Outcome(Empty, [Number(a), Number(a)])
  {
    var ops := [Push(a), ToTop(0), Write, Write];
    CompileSpaced(ops);
    assert ops + [Halt] == [Push(a), ToTop(0), Write, Write, Halt];
    RunCopy(a);
  }

  // ---------------------------------------------------------------------
  // `a b s1 w w`
  // ---------------------------------------------------------------------

  lemma ExchangeStep(a: int32, b: int32)
    ensures Step(Machine([a, b], Ok), Swap(1), None) == Outcome(Machine([b, a], Ok), [])
  {
  }

  lemma ExchangeThenWrite(a: int32, b: int32)
    ensures Run([Swap(1), Write, Write, Halt], Machine([a, b], Ok), []) == Outcome(Empty, [Number(a), Number(b)])
  {
    var p := [Swap(1), Write, Write, Halt];
    assert p[1..] == [Write, Write, Halt];
    WriteTwice(a, b);
    ExchangeStep(a, b);
    RunFirst(p, Machine([a, b], Ok), Outcome(Machine([b, a], Ok), []), Outcome(Empty, [Number(a), Number(b)]));
  }

  lemma PushExchangeThenWrite(a: int32, b: int32)
    ensures Run([Push(b), Swap(1), Write, Write, Halt], Machine([a], Ok), []) == Outcome(Empty, [Number(a), Number(b)])
  {
    var p := [Push(b), Swap(1), Write, Write, Halt];
    assert p[1..] == [Swap(1), Write, Write, Halt];
    ExchangeThenWrite(a, b);
    PushStep([a], b);
    RunFirst(p, Machine([a], Ok), Outcome(Machine([a, b], Ok), []), Outcome(Empty, [Number(a), Number(b)]));
  }

  /** `s1` exchanges the two cells, so the values are written in the order they were pushed. */
  lemma RunExchange(a: int32, b: int32)
    ensures Run([Push(a), Push(b), Swap(1), Write, Write, Halt], Empty, []) == Outcome(Empty, [Number(a), Number(b)])
  {
    var p := [Push(a), Push(b), Swap(1), Write, Write, Halt];
    assert p[1..] == [Push(b), Swap(1), Write, Write, Halt];
    PushExchangeThenWrite(a, b);
    PushStep([], a);
    RunFirst(p, Empty, Outcome(Machine([a], Ok), []), Outcome(Empty, [Number(a), Number(b)]));
  }

  lemma SpelledExchange()
    ensures Spaced(Spelled([Push(1), Push(2), Swap(1), Write, Write])) == "1 2 s1 w w"
  {
  }

  /** Text such as `1 2 s1 w w` (see `SpelledExchange`) prints the two values in the order they were pushed. */
  lemma Exchange(a: int32, b: int32)
    ensures Run(Compiled(Spaced(Spelled([Push(a), Push(b), Swap(1), Write, Write]))), Empty, []) ==
      Outcome(Empty, [Number(a), Number(b)])
  {
    var ops := [Push(a), Push(b), Swap(1), Write, Write];
    CompileSpaced(ops);
    assert ops + [Halt] == [Push(a), Push(b), Swap(1), Write, Write, Halt];
    RunExchange(a, b);
  }
}
