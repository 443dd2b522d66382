# poliz: a postfix calculator, modelled and proved in Dafny

`poliz.c` is a two-stage engine for postfix ("reverse Polish") arithmetic.
`poliz_compile` cuts program text into whitespace-separated tokens and turns
each one into an instruction (a handler plus an `int` operand), closing the
program with a terminator whose handler is NULL. The handlers act on a
`struct PolizState`: a stack of cells in a buffer that doubles when full, and
a sticky error cell that, once set, turns every later handler into a no-op.
Arithmetic is done wider than 32 bits and range-checked afterwards; `/` and
`%` use the rounding rule of `quotient`.

The model has these modules, one file each:

- `Int32Arith` (`arith.dfy`): the 32-bit range, `quotient` and the remainder
  the `%` handler computes. `quotient` is shown to be floor division for a
  positive divisor and ceiling division for a negative one. It is the unique
  value leaving a remainder in `[0, abs(b))`, so it equals Euclidean division.
  It overflows only for `INT_MIN / -1`.
- `Literals` (`literals.dfy`): the part of `strtol` the compiler relies on,
  the narrowing of its `long` result into an `int`, and a decimal rendering
  used to state round trips.
- `Opcodes` (`ops.dfy`): the instruction set as a datatype, in place of the
  handler function pointers.
- `Storage` (`storage.dfy`): what `realloc` and an indexed write do to a
  growing array.
- `Compiler` (`compiler.dfy`): the token structure of program text (`Tokens`),
  the dispatch of one token (`Decode`), the program that results
  (`Compiled`), and `Compile`, the imperative loop of `poliz_compile` over a
  64-character token buffer and a doubling instruction array, proved to
  produce `Compiled(text)`. Every instruction has a spelling (`Encode`) that
  compiles back to it, and compiling the text of any instruction sequence
  gives that sequence back.
- `Semantics` (`semantics.dfy`): what one handler does to the stack, the
  error cell and the output, as the function `Step`, and a whole run as
  `Run`. Lemmas state the sticky error, the underflow, zero-divisor and
  overflow rules, and the stack effect of each handler.
- `Programs` (`programs.dfy`): whole programs compiled from text and run from
  an empty state, such as `3 4 + w`, `5 d0 w w` and `1 2 s1 w w`.
- `Interpreter` (`interpreter.dfy`): `struct PolizState` as a class with the
  fields `data`, `size`, `capacity` and `err`, and one method per handler.
  The methods change the fields in place as the C code does: the binary
  handlers pop two cells and call `Add`, and `Add` reallocates. Each is
  proved to leave the state `Step` prescribes. `Execute` is a small driver
  that runs a compiled program up to its terminator and is proved to agree
  with `Run`. `poliz.c` has no driver of its own; this one only connects
  the two stages.

The I/O of `read`, `write` and `endstr` is abstracted. What `scanf` delivers
to `read` is a parameter: `Some(v)` for a number, `None` when it matches
nothing. What `write` and `endstr` print is returned as a list of `Output`
events.

## Model

| member | source | states |
|---|---|---|
| Int32Arith.Quotient | poliz.c:7-29 | for `b != 0`, the four sign cases leave a remainder `a - b*q` in `[0, abs(b))` |
| Int32Arith.QuotientRounding | poliz.c:7-29 | `quotient` is floor division when `b > 0` and ceiling division when `b < 0` |
| Int32Arith.QuotientUnique | poliz.c:7-29 | any `q` leaving a remainder in `[0, abs(b))` is `quotient(a, b)` |
| Int32Arith.QuotientIsEuclidean | poliz.c:7-29 | `quotient(a, b)` equals Euclidean division `a / b` |
| Int32Arith.QuotientOverflowsIff | poliz.c:123-128 | for 32-bit operands the quotient leaves the 32-bit range iff `a == INT_MIN` and `b == -1` |
| Int32Arith.Modulo | poliz.c:144-157 | the `%` result equals `a - b*quotient(a, b)` and lies in `[0, abs(b))` |
| Int32Arith.ModuloCases | poliz.c:148-157 | the result is `a - b*quotient(a, b)` for a negative dividend, otherwise `a % abs(b)` |
| Int32Arith.ModuloOfNonNegative | poliz.c:152-157 | for `a >= 0`, `a % abs(b)` is the same remainder `a - b*quotient(a, b)` |
| Int32Arith.ModuloFitsInt32 | poliz.c:158-161 | the remainder of 32-bit operands always fits in 32 bits, so the overflow branch of `%` is dead |
| Int32Arith.QuotientExamples | poliz.c:7-29 | 7/2=3, 7/-2=-3, -7/2=-4, -7/-2=4, -7%3=2, 7%-3=1 |
| Literals.StrToL | poliz.c:349-353 | the base-10 `strtol` value of a token always lies in the range of a 64-bit `long` |
| Literals.Narrow | poliz.c:351-353 | the `long` to `int` conversion keeps the value modulo 2^32, and keeps it unchanged when it fits |
| Literals.StrToLOfShow | poliz.c:349-353 | `strtol` reads back the decimal text of every `long` value |
| Literals.StrToLSkipsBlank | poliz.c:327-329 | blanking the first character of `dN` and `sN` leaves `strtol` reading the suffix `N` |
| Literals.StrToLOfNonNumeric | poliz.c:349-353 | text that does not start with a blank, a sign or a digit reads as 0 |
| Literals.StrToLExamples | poliz.c:349-353 | `"12abc"` reads as 12 and `"abc"` as 0 |
| Compiler.Tokens | poliz.c:271-278 | every token is a non-empty run of characters none of which is whitespace |
| Compiler.TokensOfBlank | poliz.c:272-273 | a leading whitespace character is skipped and starts no token |
| Compiler.TokensOfWordSep | poliz.c:274-279 | a word followed by a whitespace character is one token, and the tokens of the rest follow it |
| Compiler.TokensOfWord | poliz.c:271-279 | the empty text has no tokens; a word running to the end of the text is one token |
| Compiler.TokensOfSpaced | poliz.c:271-279 | words joined by single blanks split back into the same words |
| Compiler.Decode | poliz.c:294-354 | no token decodes to the terminator; what a token decodes to is stated by the rows below and the `Compiler.Decode` line under "Left out" |
| Compiler.Compiled | poliz.c:271-361 | the program has one instruction per token, in order, each the token's decoding, then exactly one terminator, at the end |
| Compiler.Compile | poliz.c:258-364 | the loop over the text, with its token buffer and doubling instruction array, returns `Compiled(text)` |
| Compiler.Close | poliz.c:274-355 | the last character of a token is stored after the open token, and the completed token is decoded into slot `size` after the instructions decoded so far; the tokens still to come are those of the rest of the text |
| Compiler.Emit | poliz.c:279-355 | the completed token is decoded into slot `size`, extending the instructions decoded so far by one |
| Compiler.Append | poliz.c:281-293 | the instruction array doubles when fewer than two slots beyond `size` are free; the new instruction goes into slot `size` and the slots below are kept |
| Compiler.Encode | poliz.c:294-354 | every instruction has a spelling that is a single token of at most 12 characters |
| Compiler.DecodeEncode | poliz.c:294-354 | decoding the spelling of any instruction gives that instruction back |
| Compiler.DecodePushed | poliz.c:349-353 | a token that starts with `-`, `+` or a digit and is not a lone sign pushes its `strtol` value |
| Compiler.DecodePlusSign | poliz.c:294-353 | `+5` is not the operator `+` but a push of 5 |
| Compiler.DecodeOther | poliz.c:349-353 | a token that is neither a lone operator character nor starts with `d` or `s` pushes its `strtol` value narrowed to 32 bits |
| Compiler.DecodeLiteral | poliz.c:349-353 | the decimal text of any 64-bit value pushes that value narrowed to 32 bits, so `2147483648` pushes `INT_MIN` |
| Compiler.DecodeDigit | poliz.c:349-353 | a single digit pushes its value |
| Compiler.DecodeAllOf | poliz.c:279-355 | tokens that each decode to an instruction decode together to those instructions, in order |
| Compiler.DecodeOperand | poliz.c:324-348 | `d` or `s` followed by text that `strtol` reads as `n` is `totop(n)` or `swap(n)` |
| Compiler.TokensOfUnparse | poliz.c:271-278 | the tokens of the text written for an instruction sequence are the spellings of its instructions, in order |
| Compiler.Spelled | poliz.c:294-354 | one spelling per instruction, in order, each the instruction's `Encode` |
| Compiler.CompileSpaced | poliz.c:271-361 | compiling the spellings of a terminator-free instruction sequence joined by single blanks gives that sequence plus the terminator |
| Compiler.CompileUnparse | poliz.c:271-361 | compiling the text written for any terminator-free instruction sequence gives that sequence plus the terminator |
| Compiler.DecodeExamples | poliz.c:294-347 | `+` and `;` map by spelling; a bare `d` is `totop(0)` and a bare `s` is `swap(1)` |
| Compiler.DecodeNumberExamples | poliz.c:324-353 | `d2` is `totop(2)` and `-5` pushes -5 |
| Compiler.DecodeNonNumeric | poliz.c:337-353 | `abc` pushes 0 and `sfoo` is `swap(0)` |
| Semantics.Step | poliz.c:38-256 | a handler that fails leaves the stack as it was and prints nothing; one that succeeds prints at most one item |
| Semantics.Binary | poliz.c:61-164 | a binary handler prints nothing; on failure the stack is unchanged, on success it is one cell shorter |
| Semantics.StepSticky | poliz.c:38-256 | with the error cell set, every handler leaves stack and error unchanged and prints nothing |
| Semantics.StepIgnoresInput | poliz.c:183-196 | only `read` consumes input |
| Semantics.StepUnderflow | poliz.c:61-216 | a stack shorter than the handler's arity (2 for binary operators; 1 for `#`, `;` and `w`) gives `PE_STACK_UNDERFLOW` with the stack unchanged, and only then |
| Semantics.BinaryEffect | poliz.c:61-164 | with a non-zero divisor where there is one, a binary operator whose exact result lies outside 32 bits gives `PE_INT_OVERFLOW` with the stack unchanged, and otherwise succeeds, replacing `[.., left, right]` with `left OP right` and keeping the cells below |
| Semantics.DivisionByZeroFirst | poliz.c:112-143 | `/` and `%` fail with `PE_DIVISION_BY_ZERO` iff the divisor is 0, whatever the dividend, before anything is popped |
| Semantics.DivOverflowIff | poliz.c:123-128 | `/` reports `PE_INT_OVERFLOW` iff the operands are `INT_MIN` and `-1` |
| Semantics.ModNeverOverflows | poliz.c:144-161 | `%` never reports `PE_INT_OVERFLOW` |
| Semantics.NegEffect | poliz.c:166-181 | `#` overflows iff the top is `INT_MIN`, and otherwise replaces the top by its negation and prints nothing |
| Semantics.ToTopEffect | poliz.c:229-237 | `dN` with `0 <= N < size` pushes a copy of the cell `N` below the top and prints nothing; any other `N` gives `PE_INVALID_INDEX` with the stack unchanged |
| Semantics.SwapEffect | poliz.c:239-256 | `s0` succeeds and changes nothing, even on an empty stack; `sN` with `0 < N < size` exchanges the top with the cell `N` below it, keeps every other cell and the multiset of cells, and prints nothing; any other `N` gives `PE_INVALID_INDEX` |
| Semantics.Exchanged | poliz.c:250-253 | exchanging two cells through a temporary keeps the other cells and the multiset of cells |
| Semantics.ReadEffect | poliz.c:183-196 | `r` fails with `PE_READ_FAILED` when nothing is read, with `PE_INT_OVERFLOW` for a value outside 32 bits, and otherwise pushes the value and prints nothing |
| Semantics.DelEffect | poliz.c:198-208 | `;` on a non-empty stack pops the top cell and prints nothing |
| Semantics.StepPrints | poliz.c:210-227 | only `w` and `n` print anything |
| Semantics.OutputEffect | poliz.c:210-227 | `w` prints the top cell and pops it; `n` prints a newline and changes nothing |
| Semantics.RunSticky | poliz.c:38-256 | once the error cell is set, the rest of a program changes nothing and prints nothing |
| Semantics.RunKeepsError | poliz.c:38-256 | once a terminator-free part of a program ends in an error, the whole program ends in that part's state and output, so the error a run ends with is the first one raised; a run that ends without error has no such part that ends in one |
| Semantics.RunStopsAtHalt | poliz.c:360-361 | nothing after the terminator is run |
| Semantics.StepExamples | poliz.c:61-181 | `3 4 +` gives 7, `-10 3 /` gives -4, `1 0 %` is a division by zero, `# INT_MIN` overflows |
| Programs.RunSum | poliz.c:61-76 | pushing `a` and `b`, adding and writing prints `a + b` and leaves the stack empty |
| Programs.RunCopy | poliz.c:229-237 | pushing `a`, `d0` and two writes print `a` twice and leave the stack empty |
| Programs.RunExchange | poliz.c:239-256 | pushing `a` and `b`, `s1` and two writes print `a` and then `b` |
| Programs.SpelledSum | poliz.c:294-353 | the program `3 4 + w` is written `3 4 + w` |
| Programs.SpelledCopy | poliz.c:324-353 | the program `5 d0 w w` is written `5 d0 w w` |
| Programs.SpelledExchange | poliz.c:324-353 | the program `1 2 s1 w w` is written `1 2 s1 w w` |
| Programs.Sum | poliz.c:258-361 | compiling and running text such as `3 4 + w` from an empty state prints the sum and leaves the stack empty; with `SpelledSum`, `3 4 + w` prints 7 |
| Programs.Copy | poliz.c:258-361 | compiling and running text such as `5 d0 w w` prints the pushed value twice; with `SpelledCopy`, `5 d0 w w` prints 5 and 5 |
| Programs.Exchange | poliz.c:258-361 | compiling and running text such as `1 2 s1 w w` prints the values in the order pushed; with `SpelledExchange`, `1 2 s1 w w` prints 1 and then 2 |
| Interpreter.PolizState.constructor | poliz.c:366-380 | a new state has an empty stack, capacity 1 and no error |
| Interpreter.PolizState.LastError | poliz.c:385-387 | returns the error cell |
| Interpreter.PolizState.Add | poliz.c:38-59 | pushes the value at the old `size`, keeping the cells below; doubles the capacity exactly when `size >= capacity - 1`; no effect once the error is set |
| Interpreter.PolizState.Plus | poliz.c:61-76 | leaves the state `Step` gives for `+`, in the same buffer |
| Interpreter.PolizState.Minus | poliz.c:78-93 | leaves the state `Step` gives for `-`, in the same buffer |
| Interpreter.PolizState.Mult | poliz.c:95-110 | leaves the state `Step` gives for `*`, in the same buffer |
| Interpreter.PolizState.Div | poliz.c:112-131 | leaves the state `Step` gives for `/`, in the same buffer |
| Interpreter.PolizState.Mod | poliz.c:133-164 | leaves the state `Step` gives for `%`, in the same buffer |
| Interpreter.PolizState.Neg | poliz.c:166-181 | leaves the state `Step` gives for `#`, in the same buffer |
| Interpreter.PolizState.Read | poliz.c:183-196 | leaves the state `Step` gives for `r` on the value read, doubling the capacity as `Add` does |
| Interpreter.PolizState.Del | poliz.c:198-208 | leaves the state `Step` gives for `;` |
| Interpreter.PolizState.Write | poliz.c:210-219 | leaves the state and the output `Step` gives for `w` |
| Interpreter.PolizState.EndStr | poliz.c:221-227 | leaves the state and the output `Step` gives for `n` |
| Interpreter.PolizState.ToTop | poliz.c:229-237 | leaves the state `Step` gives for `dN`, doubling the capacity as `Add` does |
| Interpreter.PolizState.Swap | poliz.c:239-256 | leaves the state `Step` gives for `sN`, in the same buffer |
| Interpreter.PolizState.Binary | poliz.c:61-164 | the five binary handlers leave the state `Step` gives |
| Interpreter.PolizState.Print | poliz.c:210-227 | the two printing handlers leave the state and output `Step` gives |
| Interpreter.PolizState.Dispatch | poliz.c:294-354 | calling the handler an instruction names leaves the state and output `Step` gives |
| Interpreter.Execute | poliz.c:360-361 | running a program against a state up to its terminator ends in the state and output `Run` gives |
| Storage.Realloc | poliz.c:46-53 | the grown buffer keeps the old cells in order |
| Storage.Put | poliz.c:55-56 | writing at index `k` extends the prefix below `k` by the value |

## Left out

- `scanf` in `read` and `printf` in `write` and `endstr` are not modelled as formatted I/O. The value `scanf` delivers is a parameter of `Read`. What is printed is returned as `Output` events.
- Allocation failure is not modelled, because Dafny allocation does not fail. This covers the `malloc`/`realloc` failure branches of `add`, `poliz_compile` and `poliz_new_state`, so `PE_OUT_OF_MEMORY` is never produced. It also covers the pointer left dangling after a failed `realloc`, and the leak in `poliz_new_state`.
- `poliz_free_state` is not modelled: memory is not managed explicitly in Dafny.
- The numeric values of the `PE_*` codes are not modelled, because `poliz.h` is not part of this model. A handler returns the `Error` it leaves in the error cell: `Ok` for `PE_OK` (0), and otherwise the kind whose negated code the C handler returns.
- Compiler.Compile requires every token to be shorter than 64 characters. The C buffer has no bound check, so a longer token overflows it, which the model does not describe.
- Compiler.Compile takes the program text as a sequence of single-byte characters: each `char` stands for one byte of the C string, which is what `isspace`, `strcmp` and the 64-byte buffer see. A character outside the single-byte range, which takes several bytes in the C string, is not modelled, so the bound of 64 characters is a bound of 64 bytes only for text of single-byte characters.
- Compiler.Compile treats its text as the characters before the terminating NUL. A `'\0'` inside the Dafny string is an ordinary character.
- Literals.StrToL models base-10 `strtol` only as far as the compiler uses it: the end pointer and `errno` are ignored, and an out-of-range value clamps to the range of a 64-bit `long`.
- Literals.Narrow models the implementation-defined conversion of `long` to `int` as GCC defines it: two's complement, keeping the low 32 bits. A numeric literal in the program text is narrowed this way with no range check, unlike every computed result.
- Compiler.Decode states only that a token never decodes to the terminator. What it decodes to is stated by the lemmas about it: `DecodeEncode`, `DecodePushed`, `DecodeOther`, `DecodeOperand`, `DecodeLiteral` and the examples.
- The `!new_capacity` branches (minimum capacity 16) of `add` and `poliz_compile` are not modelled, because they are unreachable: neither capacity is ever 0.
- The `iextra` of an operator instruction is not modelled. The operator branches (poliz.c:294-323) do not set it. It is 0 only in slot 0 (poliz.c:264) and in a slot written just after the array grows (poliz.c:292). The operator handlers never read it.
- `__builtin_mul_overflow` in `mult` and `neg` is modelled as the exact product followed by the 32-bit range check. The product of two 32-bit values never overflows 64 bits.
- A stack cell is a `long` in C, but here it is an `int32`: every value pushed passes through `add`'s `int` parameter.
