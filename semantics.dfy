/**
 * What one instruction does to the calculator's state, as a function: the
 * stack (bottom first), the sticky error cell and the text written. The
 * handler methods of `Interpreter.PolizState` are proved against `Step`.
 */
module Semantics {
  import opened Int32Arith
  import opened Opcodes

  datatype Option<T> = None | Some(value: T)

  /**
   * The error cell. `Ok` is `PE_OK`, the value 0 every handler tests before
   * doing anything; a handler that fails returns the negated code of the
   * other kinds.
   */
  datatype Error =
    | Ok
    | OutOfMemory
    | StackUnderflow
    | IntOverflow
    | DivisionByZero
    | ReadFailed
    | InvalidIndex

  /** The observable part of a `PolizState`: the cells `data[0 .. size)` and `err`. */
  datatype Machine = Machine(stack: seq<int32>, err: Error)

  /** What `write` and `endstr` print: a number in decimal, or a newline. */
  datatype Output = Number(value: int32) | Newline

  datatype Outcome = Outcome(next: Machine, out: seq<Output>)

  /** The handlers `plus`, `minus`, `mult`, `dev` and `mod`. */
  predicate IsBinary(op: Op) {
    op.Plus? || op.Minus? || op.Mult? || op.Div? || op.Mod?
  }

  /** How many stack cells a handler needs before it does anything. */
  function Arity(op: Op): nat {
    if IsBinary(op) then 2
    else if op.Neg? || op.Del? || op.Write? then 1
    else 0
  }

  /**
   * The exact value of `left OP right`, computed wider than 32 bits as the
   * handlers do; the product stands for `__builtin_mul_overflow`, which
   * cannot overflow on operands that fit in 32 bits.
   */
  function Arith(op: Op, left: int32, right: int32): int
    requires IsBinary(op)
    requires (op.Div? || op.Mod?) ==> right != 0
  {
    match op
    case Plus => right + left
    case Minus => left - right
    case Mult => right * left
    case Div => Quotient(left, right)
    case Mod => Modulo(left, right)
  }

  function Fail(s: Machine, e: Error): Outcome {
    Outcome(s.(err := e), [])
  }

  /** `add`: the value goes on top and the error cell is set to `PE_OK`. */
  function Pushed(s: Machine, v: int32): Outcome {
    Outcome(Machine(s.stack + [v], Ok), [])
  }

  /**
   * One handler applied to a state. `inp` is what `scanf` delivers to `read`
   * (`None` when it does not match a number) and is ignored by the others.
   * A handler that fails leaves the stack as it was and prints nothing; one
   * that succeeds prints at most one item.
   */
  function Step(s: Machine, op: Op, inp: Option<int>): (o: Outcome)
    requires op != Halt
    ensures o.next.err != Ok ==> o.next.stack == s.stack && o.out == []
    ensures |o.out| <= 1
  {
    var st := s.stack;
    var n := |st|;
    if s.err != Ok then Outcome(s, [])
    else match op
      case Push(v) => Pushed(s, v)
      case Plus => Binary(s, op)
      case Minus => Binary(s, op)
      case Mult => Binary(s, op)
      case Div => Binary(s, op)
      case Mod => Binary(s, op)
      case Neg =>
        if n < 1 then Fail(s, StackUnderflow)
        else
          var v: int := st[n - 1] as int * -1;
          if !InInt32(v) then Fail(s, IntOverflow) else Pushed(s.(stack := st[..n - 1]), v)
      case Read =>
        if inp.None? then Fail(s, ReadFailed)
        else if !InInt32(inp.value) then Fail(s, IntOverflow)
        else Pushed(s, inp.value)
      case Del =>
        if n < 1 then Fail(s, StackUnderflow) else Outcome(Machine(st[..n - 1], Ok), [])
      case Write =>
        if n < 1 then Fail(s, StackUnderflow)
        else Outcome(Machine(st[..n - 1], Ok), [Number(st[n - 1])])
      case EndStr => Outcome(s, [Newline])
      case ToTop(k) =>
        if k >= n || k < 0 then Fail(s, InvalidIndex) else Pushed(s, st[n - k - 1])
      case Swap(k) =>
        if k == 0 then Outcome(s, [])
        else if k >= n || k < 0 then Fail(s, InvalidIndex)
        else Outcome(Machine(st[n - 1 := st[n - k - 1]][n - k - 1 := st[n - 1]], Ok), [])
  }

  /**
   * The common shape of the binary handlers: too few operands, then a zero
   * divisor, then a result outside 32 bits fail in that order and before
   * anything is popped; otherwise both operands are replaced by the result.
   */
  function Binary(s: Machine, op: Op): (o: Outcome)
    requires IsBinary(op)
    ensures o.out == []
    ensures o.next.err != Ok ==> o.next.stack == s.stack
    ensures o.next.err == Ok ==> |s.stack| >= 2 && |o.next.stack| == |s.stack| - 1
  {
    var st := s.stack;
    var n := |st|;
    if n < 2 then Fail(s, StackUnderflow)
    else if (op.Div? || op.Mod?) && st[n - 1] == 0 then Fail(s, DivisionByZero)
    else
      var v := Arith(op, st[n - 2], st[n - 1]);
      if !InInt32(v) then Fail(s, IntOverflow) else Pushed(s.(stack := st[..n - 2]), v)
  }

  /**
   * A compiled program run from its first instruction up to the terminator.
   * Each `read` with the error cell clear consumes one item of `input`; an
   * exhausted input is a `scanf` that fails.
   */
  function Run(prog: seq<Op>, s: Machine, input: seq<Option<int>>): Outcome
    decreases |prog|
  {
    if prog == [] || prog[0] == Halt then Outcome(s, [])
    else
      var reading := prog[0] == Read && s.err == Ok;
      var inp := if reading && input != [] then input[0] else None;
      var rest := if reading && input != [] then input[1..] else input;
      var o := Step(s, prog[0], inp);
      var r := Run(prog[1..], o.next, rest);
      Outcome(r.next, o.out + r.out)
  }

  // ---------------------------------------------------------------------
  // Properties of one step
  // ---------------------------------------------------------------------

  /** A state whose error cell is set is left exactly as it is, and nothing is printed. */
  lemma StepSticky(s: Machine, op: Op, inp: Option<int>)
    requires op != Halt && s.err != Ok
    ensures Step(s, op, inp) == Outcome(s, [])
  {
  }

  /** Only `read` looks at the input. */
  lemma StepIgnoresInput(s: Machine, op: Op, inp: Option<int>)
    requires op != Halt && op != Read
    ensures Step(s, op, inp) == Step(s, op, None)
  {
  }

  /** Too few operands: `PE_STACK_UNDERFLOW`, with the stack unchanged. */
  lemma StepUnderflow(s: Machine, op: Op, inp: Option<int>)
    requires op != Halt && s.err == Ok
    ensures |s.stack| < Arity(op) ==> Step(s, op, inp) == Fail(s, StackUnderflow)
    ensures Step(s, op, inp).next.err == StackUnderflow ==> |s.stack| < Arity(op)
  {
  }

  /**
   * A binary operator whose divisor, if it has one, is not 0: a result
   * outside 32 bits is `PE_INT_OVERFLOW` with the stack unchanged, and any
   * other result replaces `[.., left, right]` with `left OP right`.
   */
  lemma BinaryEffect(s: Machine, op: Op)
    requires IsBinary(op) && s.err == Ok && |s.stack| >= 2
    ensures var n := |s.stack|;
      var left, right := s.stack[n - 2], s.stack[n - 1];
      var o := Step(s, op, None);
      ((op.Div? || op.Mod?) ==> right != 0) ==>
        (!InInt32(Arith(op, left, right)) ==> o == Fail(s, IntOverflow)) &&
        (InInt32(Arith(op, left, right)) ==>
          o == Outcome(Machine(s.stack[..n - 2] + [Arith(op, left, right)], Ok), []))
  {
  }

  /** A zero divisor fails whatever the dividend, before anything is popped. */
  lemma DivisionByZeroFirst(s: Machine, op: Op)
    requires (op.Div? || op.Mod?) && s.err == Ok && |s.stack| >= 2
    ensures Step(s, op, None).next.err == DivisionByZero <==> s.stack[|s.stack| - 1] == 0
    ensures s.stack[|s.stack| - 1] == 0 ==> Step(s, op, None) == Fail(s, DivisionByZero)
  {
  }

  /** Division overflows for `INT_MIN / -1` only. */
  lemma DivOverflowIff(s: Machine)
    requires s.err == Ok && |s.stack| >= 2
    ensures var n := |s.stack|;
      Step(s, Div, None).next.err == IntOverflow <==>
        s.stack[n - 2] == INT32_MIN && s.stack[n - 1] == -1
  {
    var n := |s.stack|;
    if s.stack[n - 1] != 0 {
      QuotientOverflowsIff(s.stack[n - 2], s.stack[n - 1]);
    }
  }

  /** The remainder always fits, so `%` never reports `PE_INT_OVERFLOW`. */
  lemma ModNeverOverflows(s: Machine)
    requires s.err == Ok
    ensures Step(s, Mod, None).next.err != IntOverflow
  {
    var n := |s.stack|;
    if n >= 2 && s.stack[n - 1] != 0 {
      ModuloFitsInt32(s.stack[n - 2], s.stack[n - 1]);
    }
  }

  /** `#` overflows for `INT_MIN` only, and otherwise replaces the top by its negation. */
  lemma NegEffect(s: Machine)
    requires s.err == Ok && |s.stack| >= 1
    ensures var n := |s.stack|;
      var o := Step(s, Neg, None);
      (o.next.err == IntOverflow <==> s.stack[n - 1] == INT32_MIN) &&
      (s.stack[n - 1] != INT32_MIN ==> o == Outcome(Machine(s.stack[..n - 1] + [-s.stack[n - 1]], Ok), []))
  {
  }

  /** `dN` copies the cell `N` below the top onto the stack when `0 <= N < size`. */
  lemma ToTopEffect(s: Machine, k: int32)
    requires s.err == Ok
    ensures var n := |s.stack|;
      var o := Step(s, ToTop(k), None);
      (0 <= k < n ==> o == Outcome(Machine(s.stack + [s.stack[n - 1 - k]], Ok), [])) &&
      (!(0 <= k < n) ==> o == Fail(s, InvalidIndex))
  {
  }

  /**
   * `s0` succeeds even on an empty stack; `sN` with `0 < N < size` exchanges
   * the top with the cell `N` below it and keeps the contents as a multiset;
   * any other `N` is `PE_INVALID_INDEX`.
   */
  lemma SwapEffect(s: Machine, k: int32)
    requires s.err == Ok
    ensures var n := |s.stack|;
      var o := Step(s, Swap(k), None);
      (k == 0 ==> o == Outcome(s, [])) &&
      (0 < k < n ==>
        o.next.err == Ok && o.out == [] && |o.next.stack| == n &&
        o.next.stack[n - 1] == s.stack[n - 1 - k] &&
        o.next.stack[n - 1 - k] == s.stack[n - 1] &&
        (forall j :: 0 <= j < n && j != n - 1 && j != n - 1 - k ==> o.next.stack[j] == s.stack[j]) &&
        multiset(o.next.stack) == multiset(s.stack)) &&
      (k != 0 && !(0 < k < n) ==> o == Fail(s, InvalidIndex))
  {
    var n := |s.stack|;
    if 0 < k < n {
      Exchanged(s.stack, n - 1, n - 1 - k);
    }
  }

  /** Exchanging two cells keeps the other cells and the contents as a multiset. */
  lemma Exchanged(st: seq<int32>, i: nat, j: nat)
    requires i < |st| && j < |st|
    ensures var u := st[i := st[j]][j := st[i]];
      |u| == |st| && u[i] == st[j] && u[j] == st[i] &&
      (forall m :: 0 <= m < |st| && m != i && m != j ==> u[m] == st[m]) &&
      multiset(u) == multiset(st)
  {
    var t := st[i := st[j]];
    Overwritten(st, i, st[j]);
    Overwritten(t, j, st[i]);
  }

  lemma Overwritten(st: seq<int32>, i: nat, x: int32)
    requires i < |st|
    ensures multiset(st[i := x]) == multiset(st) - multiset{st[i]} + multiset{x}
  {
  }

  /** `r`: a failed `scanf`, a value outside 32 bits, or a push of the value read. */
  lemma ReadEffect(s: Machine, inp: Option<int>)
    requires s.err == Ok
    ensures var o := Step(s, Read, inp);
      (inp.None? ==> o == Fail(s, ReadFailed)) &&
      (inp.Some? && !InInt32(inp.value) ==> o == Fail(s, IntOverflow)) &&
      (inp.Some? && InInt32(inp.value) ==> o == Outcome(Machine(s.stack + [inp.value], Ok), []))
  {
  }

  /** `;` pops the top cell and prints nothing. */
  lemma DelEffect(s: Machine)
    requires s.err == Ok
    ensures var n := |s.stack|;
      n >= 1 ==> Step(s, Del, None) == Outcome(Machine(s.stack[..n - 1], Ok), [])
  {
  }

  /** Only `w` and `n` print. */
  lemma StepPrints(s: Machine, op: Op, inp: Option<int>)
    requires op != Halt
    ensures Step(s, op, inp).out != [] ==> op == Write || op == EndStr
  {
  }

  /** `w` prints the top cell and pops it; `n` prints a newline and changes nothing. */
  lemma OutputEffect(s: Machine)
    requires s.err == Ok
    ensures var n := |s.stack|;
      n >= 1 ==> Step(s, Write, None) == Outcome(Machine(s.stack[..n - 1], Ok), [Number(s.stack[n - 1])])
    ensures Step(s, EndStr, None) == Outcome(s, [Newline])
  {
  }

  // ---------------------------------------------------------------------
  // Properties of a whole run
  // ---------------------------------------------------------------------

  /** Once the error cell is set, the rest of the program has no effect at all. */
  lemma {:induction false} RunSticky(prog: seq<Op>, s: Machine, input: seq<Option<int>>)
    requires s.err != Ok
    ensures Run(prog, s, input) == Outcome(s, [])
    decreases |prog|
  {
    if prog != [] && prog[0] != Halt {
      StepSticky(s, prog[0], None);
      RunSticky(prog[1..], s, input);
    }
  }

  /**
   * Once a part of a program that does not contain the terminator ends in an
   * error, the rest of the program has no effect: the whole run ends in the
   * state and with the output of that part. So the error a run ends with is
   * the first one raised, and a run that ends without error has no part that
   * ends in one.
   */
  lemma {:induction false} RunKeepsError(p: seq<Op>, q: seq<Op>, s: Machine, input: seq<Option<int>>)
    requires forall j :: 0 <= j < |p| ==> p[j] != Halt
    ensures Run(p, s, input).next.err != Ok ==> Run(p + q, s, input) == Run(p, s, input)
    ensures Run(p + q, s, input).next.err == Ok ==> Run(p, s, input).next.err == Ok
    decreases |p|
  {
    if p == [] {
      assert p + q == q;
      if s.err != Ok {
        RunSticky(q, s, input);
      }
    } else {
      var reading := p[0] == Read && s.err == Ok;
      var inp := if reading && input != [] then input[0] else None;
      var rest := if reading && input != [] then input[1..] else input;
      assert (p + q)[0] == p[0] && (p + q)[1..] == p[1..] + q;
      RunKeepsError(p[1..], q, Step(s, p[0], inp).next, rest);
    }
  }

  /** Nothing after the terminator is run. */
  lemma RunStopsAtHalt(prog: seq<Op>, tail: seq<Op>, s: Machine, input: seq<Option<int>>)
    ensures Run(prog + [Halt] + tail, s, input) == Run(prog + [Halt], s, input)
    decreases |prog|
  {
    if prog != [] && prog[0] != Halt {
      assert (prog + [Halt] + tail)[1..] == prog[1..] + [Halt] + tail;
      assert (prog + [Halt])[1..] == prog[1..] + [Halt];
    }
  }

  lemma StepExamples()
    ensures Step(Machine([3, 4], Ok), Plus, None) == Outcome(Machine([7], Ok), [])
    ensures Step(Machine([-10, 3], Ok), Div, None) == Outcome(Machine([-4], Ok), [])
    ensures Step(Machine([1, 0], Ok), Mod, None) == Outcome(Machine([1, 0], DivisionByZero), [])
    ensures Step(Machine([INT32_MIN], Ok), Neg, None) == Outcome(Machine([INT32_MIN], IntOverflow), [])
  {
    assert Quotient(-10, 3) == -4;
  }
}
