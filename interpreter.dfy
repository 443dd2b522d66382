/**
 * `struct PolizState` and its handlers: a stack of `long` cells in a buffer
 * that doubles when it fills up, and a sticky error cell. Every cell holds a
 * value that fits in 32 bits, since `add` takes an `int`, so the cells are
 * `int32` here. Each handler is proved to do what `Semantics.Step` says.
 */
module Interpreter {
  import opened Int32Arith
  import opened Opcodes
  import opened Semantics
  import Storage

  class PolizState {
    var data: array<int32>
    var size: nat
    var capacity: nat
    var err: Error

    /** The buffer is `capacity` cells long and always has room for one more push. */
    ghost predicate Valid()
      reads this
    {
      data.Length == capacity && 1 <= capacity && size < capacity
    }

    /** The live cells, bottom first, and the error cell. */
    ghost function Model(): Machine
      reads this, data
      requires size <= data.Length
    {
      Machine(data[..size], err)
    }

    /** `poliz_new_state`: an empty stack in a buffer of one cell, no error. */
    constructor ()
      ensures Valid() && fresh(data)
      ensures Model() == Machine([], Ok) && capacity == 1
    {
      data := new int32[1](_ => 0);
      size, capacity, err := 0, 1, Ok;
    }

    /** `poliz_last_error`. */
    function LastError(): (e: Error)
      reads this, data
      requires Valid()
      ensures e == Model().err
    {
      err
    }

    /**
     * `add`: pushes `v`, first doubling the buffer when at most one free cell
     * is left; the value lands at the old `size` and the cells below stay.
     */
    method Add(v: int32) returns (status: Error)
      requires Valid()
      modifies this, data
      ensures Valid() && status == err
      ensures Model() == Step(old(Model()), Op.Push(v), None).next
      ensures capacity == if old(err) == Ok && old(size) >= old(capacity) - 1 then 2 * old(capacity) else old(capacity)
      ensures if capacity == old(capacity) then data == old(data) else fresh(data)
    {
      if err != Ok {
        return err;
      }
      if size >= capacity - 1 {
        var newCapacity := capacity * 2;
        data := Storage.Realloc(data, newCapacity, 0);
        capacity := newCapacity;
      }
      Storage.Put(data, size, v);
      size := size + 1;
      err := Ok;
      return Ok;
    }

    /** `plus`. */
    method Plus() returns (status: Error)
      requires Valid()
      modifies this, data
      ensures Valid() && status == err
      ensures Model() == Step(old(Model()), Op.Plus, None).next
      ensures data == old(data) && capacity == old(capacity)
    {
      if err != Ok {
        return err;
      }
      if size < 2 {
        err := StackUnderflow;
        return err;
      }
      var sum := data[size - 1] as int + data[size - 2] as int;
      if !InInt32(sum) {
        err := IntOverflow;
        return err;
      }
      size := size - 2;
      status := Add(sum);
    }

    /** `minus`: the cell below the top minus the top. */
    method Minus() returns (status: Error)
      requires Valid()
      modifies this, data
      ensures Valid() && status == err
      ensures Model() == Step(old(Model()), Op.Minus, None).next
      ensures data == old(data) && capacity == old(capacity)
    {
      if err != Ok {
        return err;
      }
      if size < 2 {
        err := StackUnderflow;
        return err;
      }
      var dif := data[size - 2] as int - data[size - 1] as int;
      if !InInt32(dif) {
        err := IntOverflow;
        return err;
      }
      size := size - 2;
      status := Add(dif);
    }

    /** `mult`. */
    method Mult() returns (status: Error)
      requires Valid()
      modifies this, data
      ensures Valid() && status == err
      ensures Model() == Step(old(Model()), Op.Mult, None).next
      ensures data == old(data) && capacity == old(capacity)
    {
      if err != Ok {
        return err;
      }
      if size < 2 {
        err := StackUnderflow;
        return err;
      }
      var prod := data[size - 1] as int * data[size - 2] as int;
      if !InInt32(prod) {
        err := IntOverflow;
        return err;
      }
      size := size - 2;
      status := Add(prod);
    }

    /** `dev`: the zero check comes before the quotient is formed. */
    method Div() returns (status: Error)
      requires Valid()
      modifies this, data
      ensures Valid() && status == err
      ensures Model() == Step(old(Model()), Op.Div, None).next
      ensures data == old(data) && capacity == old(capacity)
    {
      if err != Ok {
        return err;
      }
      if size < 2 {
        err := StackUnderflow;
        return err;
      }
      if data[size - 1] == 0 {
        err := DivisionByZero;
        return err;
      }
      var quot := Quotient(data[size - 2], data[size - 1]);
      if !InInt32(quot) {
        err := IntOverflow;
        return err;
      }
      size := size - 2;
      status := Add(quot);
    }

    /**
     * `mod`: for a negative dividend the remainder left by `quotient`,
     * otherwise the remainder of the dividend by the divisor's magnitude.
     */
    method Mod() returns (status: Error)
      requires Valid()
      modifies this, data
      ensures Valid() && status == err
      ensures Model() == Step(old(Model()), Op.Mod, None).next
      ensures data == old(data) && capacity == old(capacity)
    {
      if err != Ok {
        return err;
      }
      if size < 2 {
        err := StackUnderflow;
        return err;
      }
      if data[size - 1] == 0 {
        err := DivisionByZero;
        return err;
      }
      var a: int, b: int := data[size - 2], data[size - 1];
      ModuloCases(a, b);
      ghost var expected := Modulo(a, b);
      var m: int;
      if a < 0 {
        var quot := Quotient(a, b);
        m := a - b * quot;
      } else {
        if b < 0 {
          b := -b;
        }
        m := a % b;
      }
      assert m == expected;
      if !InInt32(m) {
        err := IntOverflow;
        return err;
      }
      size := size - 2;
      status := Add(m);
    }

    /** `neg`: `INT_MIN` has no 32-bit negation. */
    method Neg() returns (status: Error)
      requires Valid()
      modifies this, data
      ensures Valid() && status == err
      ensures Model() == Step(old(Model()), Op.Neg, None).next
      ensures data == old(data) && capacity == old(capacity)
    {
      if err != Ok {
        return err;
      }
      if size < 1 {
        err := StackUnderflow;
        return err;
      }
      var prod := data[size - 1] as int * -1;
      if !InInt32(prod) {
        err := IntOverflow;
        return err;
      }
      size := size - 1;
      status := Add(prod);
    }

    /** `read`: `inp` is what `scanf("%lld")` delivers, `None` when it matches nothing. */
    method Read(inp: Option<int>) returns (status: Error)
      requires Valid()
      modifies this, data
      ensures Valid() && status == err
      ensures Model() == Step(old(Model()), Op.Read, inp).next
      ensures capacity == if old(err) == Ok && err == Ok && old(size) >= old(capacity) - 1 then 2 * old(capacity) else old(capacity)
      ensures if capacity == old(capacity) then data == old(data) else fresh(data)
    {
      if err != Ok {
        return err;
      }
      if inp.None? {
        err := ReadFailed;
        return err;
      }
      if !InInt32(inp.value) {
        err := IntOverflow;
        return err;
      }
      status := Add(inp.value);
    }

    /** `del`. */
    method Del() returns (status: Error)
      requires Valid()
      modifies this
      ensures Valid() && status == err
      ensures Model() == Step(old(Model()), Op.Del, None).next
      ensures data == old(data) && capacity == old(capacity)
    {
      if err != Ok {
        return err;
      }
      if size < 1 {
        err := StackUnderflow;
        return err;
      }
      size := size - 1;
      err := Ok;
      return Ok;
    }

    /** `write`: prints the top cell, then pops it through `del`. */
    method Write() returns (status: Error, out: seq<Output>)
      requires Valid()
      modifies this
      ensures Valid() && status == err
      ensures Outcome(Model(), out) == Step(old(Model()), Op.Write, None)
      ensures data == old(data) && capacity == old(capacity)
    {
      out := [];
      if err != Ok {
        return err, out;
      }
      if size < 1 {
        err := StackUnderflow;
        return err, out;
      }
      out := [Number(data[size - 1])];
      status := Del();
    }

    /** `endstr`: prints a newline. */
    method EndStr() returns (status: Error, out: seq<Output>)
      requires Valid()
      modifies this
      ensures Valid() && status == err
      ensures Outcome(Model(), out) == Step(old(Model()), Op.EndStr, None)
      ensures data == old(data) && capacity == old(capacity)
    {
      out := [];
      if err != Ok {
        return err, out;
      }
      out := [Newline];
      err := Ok;
      return Ok, out;
    }

    /** `totop`: pushes a copy of the cell `n` below the top. */
    method ToTop(n: int32) returns (status: Error)
      requires Valid()
      modifies this, data
      ensures Valid() && status == err
      ensures Model() == Step(old(Model()), Op.ToTop(n), None).next
      ensures capacity == if old(err) == Ok && err == Ok && old(size) >= old(capacity) - 1 then 2 * old(capacity) else old(capacity)
      ensures if capacity == old(capacity) then data == old(data) else fresh(data)
    {
      if err != Ok {
        return err;
      }
      if n as int >= size || n < 0 {
        err := InvalidIndex;
        return err;
      }
      status := Add(data[size - n as int - 1]);
    }

    /** `swap`: exchanges the top with the cell `n` below it, through a temporary. */
    method Swap(n: int32) returns (status: Error)
      requires Valid()
      modifies this, data
      ensures Valid() && status == err
      ensures Model() == Step(old(Model()), Op.Swap(n), None).next
      ensures data == old(data) && capacity == old(capacity)
    {
      if err != Ok {
        return err;
      }
      if n == 0 {
        err := Ok;
        return Ok;
      }
      if n as int >= size || n < 0 {
        err := InvalidIndex;
        return err;
      }
      var top, below := size - 1, size - n as int - 1;
      var tmp := data[top];
      data[top] := data[below];
      data[below] := tmp;
      err := Ok;
      return Ok;
    }

    /** Calls the handler an instruction names, with its `iextra`. */
    method Dispatch(op: Op, inp: Option<int>) returns (status: Error, out: seq<Output>)
      requires Valid() && op != Halt
      modifies this, data
      ensures Valid() && status == err
      ensures Outcome(Model(), out) == Step(old(Model()), op, inp)
      ensures data == old(data) || fresh(data)
    {
      if !op.Read? {
        StepIgnoresInput(Model(), op, inp);
      }
      out := [];
      match op {
        case Push(v) => status := Add(v);
        case Plus => status := Binary(op);
        case Minus => status := Binary(op);
        case Mult => status := Binary(op);
        case Div => status := Binary(op);
        case Mod => status := Binary(op);
        case Neg => status := Neg();
        case Read => status := Read(inp);
        case Write => status, out := Print(op);
        case EndStr => status, out := Print(op);
        case Del => status := Del();
        case ToTop(n) => status := ToTop(n);
        case Swap(n) => status := Swap(n);
      }
    }

    /** The two handlers that print. */
    method Print(op: Op) returns (status: Error, out: seq<Output>)
      requires Valid() && (op.Write? || op.EndStr?)
      modifies this
      ensures Valid() && status == err
      ensures Outcome(Model(), out) == Step(old(Model()), op, None)
      ensures data == old(data) && capacity == old(capacity)
    {
      if op.Write? {
        status, out := Write();
      } else {
        status, out := EndStr();
      }
    }

    /** The five binary handlers. */
    method Binary(op: Op) returns (status: Error)
      requires Valid() && IsBinary(op)
      modifies this, data
      ensures Valid() && status == err
      ensures Model() == Step(old(Model()), op, None).next
      ensures data == old(data) && capacity == old(capacity)
    {
      match op {
        case Plus => status := Plus();
        case Minus => status := Minus();
        case Mult => status := Mult();
        case Div => status := Div();
        case Mod => status := Mod();
      }
    }
  }

  /**
   * Runs a compiled program against a state, one instruction after another
   * up to the terminator, feeding each `read` the next item of `input`.
   */
  method Execute(prog: seq<Op>, state: PolizState, input: seq<Option<int>>) returns (out: seq<Output>)
    requires state.Valid()
    modifies state, state.data
    ensures state.Valid()
    ensures Outcome(state.Model(), out) == Run(prog, old(state.Model()), input)
  {
    var pc := 0;
    var rest := input;
    out := [];
    while pc < |prog| && prog[pc] != Halt
      invariant pc <= |prog| && state.Valid()
      invariant state.data == old(state.data) || fresh(state.data)
      invariant Run(prog, old(state.Model()), input) == Then(out, Run(prog[pc..], state.Model(), rest))
      decreases |prog| - pc
    {
      var op := prog[pc];
      var reading := op == Read && state.LastError() == Ok;
      var inp := if reading && rest != [] then rest[0] else None;
      var rest' := if reading && rest != [] then rest[1..] else rest;
      ghost var before := state.Model();
      assert prog[pc..][1..] == prog[pc + 1..];
      var status, printed := state.Dispatch(op, inp);
      ThenAssociates(out, printed, Run(prog[pc + 1..], state.Model(), rest'));
      out := out + printed;
      rest := rest';
      pc := pc + 1;
    }
  }

  /** The output `out` followed by what `o` prints, ending in the state `o` ends in. */
  function Then(out: seq<Output>, o: Outcome): (r: Outcome)
    ensures r.next == o.next && r.out == out + o.out
  {
    Outcome(o.next, out + o.out)
  }

  lemma ThenAssociates(a: seq<Output>, b: seq<Output>, o: Outcome)
    ensures Then(a, Then(b, o)) == Then(a + b, o)
  {
    assert a + (b + o.out) == (a + b) + o.out;
  }
}
