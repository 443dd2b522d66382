/**
 * The compiler `poliz_compile`: program text is cut into maximal runs of
 * non-whitespace characters, each run becomes one instruction, and a
 * terminator closes the program.
 */
module Compiler {
  import opened Int32Arith
  import opened Literals
  import opened Opcodes
  import Storage

  /** A token: a non-empty run of characters none of which is whitespace. */
  predicate IsWord(t: string) {
    t != [] && forall k :: 0 <= k < |t| ==> !IsSpace(t[k])
  }

  /**
   * The tokens of `text` from index `i` on, when the characters `cur` have
   * already been read into a token that is still open.
   */
  function Lex(text: string, i: nat, cur: string): seq<string>
    requires i <= |text|
    decreases |text| - i
  {
    if i == |text| then
      (if cur == [] then [] else [cur])
    else if IsSpace(text[i]) then
      (if cur == [] then [] else [cur]) + Lex(text, i + 1, [])
    else
      Lex(text, i + 1, cur + [text[i]])
  }

  /**
   * The whitespace-delimited tokens of a program, in order: each is a
   * non-empty run of characters that are not whitespace.
   */
  function Tokens(text: string): (toks: seq<string>)
    ensures forall t :: t in toks ==> IsWord(t)
  {
    LexWords(text, 0, []);
    Lex(text, 0, [])
  }

  /** The ten one-character operators. */
  predicate IsOperator(c: char) {
    c == '+' || c == '-' || c == '*' || c == '/' || c == '%' ||
    c == '#' || c == 'r' || c == 'w' || c == 'n' || c == ';'
  }

  function Operator(c: char): (op: Op)
    requires IsOperator(c)
    ensures op != Halt && !op.Push? && !op.ToTop? && !op.Swap?
  {
    match c
    case '+' => Plus
    case '-' => Minus
    case '*' => Mult
    case '/' => Div
    case '%' => Mod
    case '#' => Neg
    case 'r' => Read
    case 'w' => Write
    case 'n' => EndStr
    case ';' => Del
  }

  /**
   * The instruction for one token. A one-character token that is one of the
   * ten operators maps to it (the `strcmp` chain); any other token starting
   * with `d` or `s` is `totop` or `swap`, whose operand is what `strtol` reads
   * once the first character is blanked, or 0 and 1 for a bare `d` and `s`;
   * everything else pushes its `strtol` value, so text that is not a number
   * pushes 0.
   */
  function Decode(tok: string): (op: Op)
    ensures op != Halt
  {
    if |tok| == 1 && IsOperator(tok[0]) then Operator(tok[0])
    else if tok != [] && tok[0] == 'd' then
      ToTop(if |tok| > 1 then Narrow(StrToL([' '] + tok[1..])) else 0)
    else if tok != [] && tok[0] == 's' then
      Swap(if |tok| > 1 then Narrow(StrToL([' '] + tok[1..])) else 1)
    else
      Push(Narrow(StrToL(tok)))
  }

  /** The instructions of a token sequence, token by token. */
  function DecodeAll(toks: seq<string>): (ops: seq<Op>)
    ensures |ops| == |toks|
  {
    if toks == [] then [] else DecodeAll(toks[..|toks| - 1]) + [Decode(toks[|toks| - 1])]
  }

  lemma DecodeAllSnoc(toks: seq<string>, t: string)
    ensures DecodeAll(toks + [t]) == DecodeAll(toks) + [Decode(t)]
  {
    assert (toks + [t])[..|toks|] == toks;
  }

  lemma {:induction false} DecodeAllIndex(toks: seq<string>)
    ensures forall k :: 0 <= k < |toks| ==> DecodeAll(toks)[k] == Decode(toks[k])
  {
    if toks != [] {
      var init := toks[..|toks| - 1];
      DecodeAllIndex(init);
      forall k | 0 <= k < |toks| - 1
        ensures DecodeAll(toks)[k] == Decode(toks[k])
      {
        assert DecodeAll(toks)[k] == DecodeAll(init)[k];
        assert init[k] == toks[k];
      }
    }
  }

  /** Conversely, tokens that decode one by one to `ops` decode together to `ops`. */
  lemma {:induction false} DecodeAllOf(toks: seq<string>, ops: seq<Op>)
    requires |toks| == |ops|
    requires forall k :: 0 <= k < |toks| ==> Decode(toks[k]) == ops[k]
    ensures DecodeAll(toks) == ops
  {
    if toks != [] {
      DecodeAllOf(toks[..|toks| - 1], ops[..|ops| - 1]);
    }
  }

  /**
   * The program `poliz_compile` produces: one instruction per token, in
   * order, then the terminator, which is the only `Halt` in it.
   */
  function Compiled(text: string): (prog: seq<Op>)
    ensures |prog| == |Tokens(text)| + 1 && prog[|prog| - 1] == Halt
    ensures forall k :: 0 <= k < |prog| - 1 ==> prog[k] == Decode(Tokens(text)[k]) && prog[k] != Halt
  {
    DecodeAllIndex(Tokens(text));
    DecodeAll(Tokens(text)) + [Halt]
  }

  /** Whether a token is open at index `i`: the character there is part of one. */
  predicate Opens(text: string, i: nat) {
    i < |text| && !IsSpace(text[i])
  }

  /**
   * `poliz_compile`: one pass over the text with a 64-byte token buffer and a
   * growable instruction array (32 slots at first, doubled whenever fewer
   * than two slots beyond slot `size` are free). A token is complete when
   * the next character is whitespace or the end of the text; it is then
   * decoded into the next slot. The buffer has no bound check, so no token may be 64 characters
   * or longer (one byte stays for the NUL written after the token).
   */
  method Compile(text: string) returns (prog: seq<Op>)
    requires forall t :: t in Tokens(text) ==> |t| < 64
    ensures prog == Compiled(text)
  {
    var data := new Op[32](_ => Halt);
    var size: nat, capacity: nat := 0, 32;
    var buf := new char[64](_ => '\0');
    var pos: nat := 0;
    var i: nat := 0;
    ghost var all := Tokens(text);
    ghost var done: seq<string> := [];
    ghost var cur: string := [];
    while i < |text|
      invariant i <= |text| && pos < 64 && buf.Length == 64
      invariant fresh(data) && data.Length == capacity && size + 2 <= capacity
      invariant data[..size] == DecodeAll(done)
      invariant Opens(text, i) ==> buf[..pos] == cur
      invariant Opens(text, i) || cur == []
      invariant done + Lex(text, i, cur) == all
    {
      var c := text[i];
      if IsSpace(c) {
        LexSpace(text, i, done, all);
        pos := 0;
        assert cur == [] && buf[..pos] == [];
        i := i + 1;
      } else if i + 1 == |text| || IsSpace(text[i + 1]) {
        // the last character of a token
        data, capacity := Close(text, i, buf, pos, data, size, capacity, cur, done, all);
        size := size + 1;
        done := done + [cur + [c]];
        cur := [];
        pos := 0;
        i := i + 1;
      } else {
        LexChar(text, i, cur, done, all);
        Storage.Put(buf, pos, c);
        cur := cur + [c];
        pos := pos + 1;
        i := i + 1;
      }
    }
    assert done == all by {
      assert cur == [];
    }
    Storage.Put(data, size, Halt);
    prog := data[..size + 1];
  }

  /**
   * The last character of a token: it goes into the buffer after the open
   * token `cur`, and the buffer's contents are decoded into slot `size`.
   */
  method Close(text: string, i: nat, buf: array<char>, pos: nat, data: array<Op>, size: nat, capacity: nat,
               ghost cur: string, ghost done: seq<string>, ghost all: seq<string>)
    returns (data': array<Op>, capacity': nat)
    requires i < |text| && !IsSpace(text[i]) && (i + 1 == |text| || IsSpace(text[i + 1]))
    requires buf.Length == 64 && pos < 64 && buf[..pos] == cur
    requires data.Length == capacity && size + 2 <= capacity && data[..size] == DecodeAll(done)
    requires done + Lex(text, i, cur) == all
    requires forall t :: t in all ==> |t| < 64
    modifies buf, data
    ensures data' == data || fresh(data')
    ensures data'.Length == capacity' && size + 3 <= capacity'
    ensures data'[..size + 1] == DecodeAll(done + [cur + [text[i]]])
    ensures (done + [cur + [text[i]]]) + Lex(text, i + 1, []) == all
  {
    LexChar(text, i, cur, done, all);
    Storage.Put(buf, pos, text[i]);
    assert buf[..pos + 1] == cur + [text[i]];
    LexClose(text, i + 1, cur + [text[i]], done, all);
    data', capacity' := Emit(data, size, capacity, buf[..pos + 1], done);
  }

  /** Decodes the completed token `tok` into slot `size`. */
  method Emit(data: array<Op>, size: nat, capacity: nat, tok: string, ghost done: seq<string>)
    returns (data': array<Op>, capacity': nat)
    requires data.Length == capacity && size + 2 <= capacity
    requires data[..size] == DecodeAll(done)
    modifies data
    ensures data' == data || fresh(data')
    ensures data'.Length == capacity' && size + 3 <= capacity'
    ensures data'[..size + 1] == DecodeAll(done + [tok])
  {
    data', capacity' := Append(data, size, capacity, Decode(tok));
    DecodeAllSnoc(done, tok);
  }

  /**
   * Writes `op` into slot `size` of the instruction array, first doubling the
   * array when fewer than two slots beyond `size` are free, so that one slot
   * always stays for the terminator.
   */
  method Append(data: array<Op>, size: nat, capacity: nat, op: Op) returns (data': array<Op>, capacity': nat)
    requires data.Length == capacity && size + 2 <= capacity
    modifies data
    ensures data'.Length == capacity' && size + 3 <= capacity'
    ensures capacity' == if size >= capacity - 2 then 2 * capacity else capacity
    ensures data' == data || fresh(data')
    ensures data'[..size + 1] == old(data[..size]) + [op]
  {
    data', capacity' := data, capacity;
    if size >= capacity - 2 {
      var newCapacity := capacity * 2;
      data' := Storage.Realloc(data, newCapacity, Halt);
      capacity' := newCapacity;
    }
    data'[size] := op;
  }

  /** Whitespace with no token open is skipped. */
  lemma LexSpace(text: string, i: nat, done: seq<string>, all: seq<string>)
    requires i < |text| && IsSpace(text[i])
    requires done + Lex(text, i, []) == all
    ensures done + Lex(text, i + 1, []) == all
  {
  }

  /** A character that is not whitespace extends the open token, which stays shorter than the buffer. */
  lemma LexChar(text: string, i: nat, cur: string, done: seq<string>, all: seq<string>)
    requires i < |text| && !IsSpace(text[i])
    requires done + Lex(text, i, cur) == all
    requires forall t :: t in all ==> |t| < 64
    ensures done + Lex(text, i + 1, cur + [text[i]]) == all
    ensures |cur| + 1 < 64
  {
    LexHead(text, i + 1, cur + [text[i]]);
    assert all[|done|] == Lex(text, i + 1, cur + [text[i]])[0];
  }

  /** An open token followed by whitespace or by the end of the text is complete. */
  lemma LexClose(text: string, j: nat, cur: string, done: seq<string>, all: seq<string>)
    requires j <= |text| && cur != []
    requires j == |text| || IsSpace(text[j])
    requires done + Lex(text, j, cur) == all
    ensures (done + [cur]) + Lex(text, j, []) == all
  {
    if j < |text| {
      assert Lex(text, j, []) == Lex(text, j + 1, []);
    }
  }

  /** The open token is the beginning of the next token produced. */
  lemma {:induction false} LexHead(text: string, i: nat, cur: string)
    requires i <= |text| && cur != []
    ensures Lex(text, i, cur) != [] && cur <= Lex(text, i, cur)[0]
    decreases |text| - i
  {
    if i < |text| && !IsSpace(text[i]) {
      LexHead(text, i + 1, cur + [text[i]]);
    }
  }

  /** Every token is a non-empty run of characters that are not whitespace. */
  lemma {:induction false} LexWords(text: string, i: nat, cur: string)
    requires i <= |text|
    requires forall k :: 0 <= k < |cur| ==> !IsSpace(cur[k])
    ensures forall t :: t in Lex(text, i, cur) ==> IsWord(t)
    decreases |text| - i
  {
    if i < |text| {
      if IsSpace(text[i]) {
        LexWords(text, i + 1, []);
      } else {
        LexWords(text, i + 1, cur + [text[i]]);
      }
    }
  }

  /** The spelling of an instruction, which `Decode` maps back to it. */
  function Encode(op: Op): (tok: string)
    requires op != Halt
    ensures IsWord(tok) && |tok| <= 12
  {
    match op
    case Push(v) => ShowInt32Length(v); Show(v)
    case ToTop(n) => ShowInt32Length(n); "d" + Show(n)
    case Swap(n) => ShowInt32Length(n); "s" + Show(n)
    case Plus => "+"
    case Minus => "-"
    case Mult => "*"
    case Div => "/"
    case Mod => "%"
    case Neg => "#"
    case Read => "r"
    case Write => "w"
    case EndStr => "n"
    case Del => ";"
  }

  /** Every instruction other than the terminator can be written as a token that compiles back to it. */
  lemma DecodeEncode(op: Op)
    requires op != Halt
    ensures Decode(Encode(op)) == op
  {
    match op
    case Push(v) =>
      StrToLOfShow(v);
      DecodePushed(Show(v), v);
    case ToTop(n) =>
      StrToLOfShow(n);
      DecodeOperand('d', Show(n), n);
    case Swap(n) =>
      StrToLOfShow(n);
      DecodeOperand('s', Show(n), n);
    case _ =>
  }

  /** A token that starts with a sign or a digit, and is not a lone operator, pushes what `strtol` reads. */
  lemma DecodePushed(tok: string, v: int32)
    requires tok != [] && (tok[0] == '-' || tok[0] == '+' || IsDigit(tok[0])) && (|tok| == 1 ==> IsDigit(tok[0]))
    requires StrToL(tok) == v
    ensures Decode(tok) == Push(v)
  {
    assert !(|tok| == 1 && IsOperator(tok[0]));
    assert tok[0] != 'd' && tok[0] != 's';
    assert Narrow(v) == v;
  }

  /** `d` or `s` followed by text that `strtol` reads as `n` is `totop(n)` or `swap(n)`. */
  lemma DecodeOperand(c: char, s: string, n: int32)
    requires c == 'd' || c == 's'
    requires s != [] && StrToL(s) == n
    ensures Decode([c] + s) == if c == 'd' then ToTop(n) else Swap(n)
  {
    var tok := [c] + s;
    assert |tok| > 1 && tok[0] == c;
    assert tok[1..] == s;
    StrToLSkipsBlank(s);
    DecodeLetter(tok);
  }

  /** The operand branch of `Decode`, for a token of at least two characters. */
  lemma DecodeLetter(tok: string)
    requires |tok| > 1 && (tok[0] == 'd' || tok[0] == 's')
    ensures var n := Narrow(StrToL([' '] + tok[1..]));
      Decode(tok) == if tok[0] == 'd' then ToTop(n) else Swap(n)
  {
  }

  /** Every other token is a push of the value `strtol` reads, narrowed to 32 bits. */
  lemma DecodeOther(tok: string)
    requires !(|tok| == 1 && IsOperator(tok[0]))
    requires tok == [] || (tok[0] != 'd' && tok[0] != 's')
    ensures Decode(tok) == Push(Narrow(StrToL(tok)))
  {
  }

  /** A one-digit token pushes its value. */
  lemma DecodeDigit(d: char)
    requires IsDigit(d)
    ensures Decode([d]) == Push((d as int - '0' as int) as int32)
  {
    StrToLDigit(d);
    DecodePushed([d], (d as int - '0' as int) as int32);
  }

  /**
   * The decimal text of any `long` pushes that value narrowed to 32 bits,
   * with no range check: `2147483648` pushes `INT_MIN`.
   */
  lemma DecodeLiteral(v: int)
    requires LONG_MIN <= v <= LONG_MAX
    ensures Decode(Show(v)) == Push(Narrow(v))
    ensures v == 0x8000_0000 ==> Decode(Show(v)) == Push(INT32_MIN)
  {
    StrToLOfShow(v);
    DecodeOther(Show(v));
  }

  predicate NoHalt(ops: seq<Op>) {
    forall k :: 0 <= k < |ops| ==> ops[k] != Halt
  }

  /** Program text for `ops`: each instruction's spelling followed by a blank. */
  function Unparse(ops: seq<Op>): (text: string)
    requires NoHalt(ops)
  {
    if ops == [] then [] else Encode(ops[0]) + " " + Unparse(ops[1..])
  }

  /** Lexing from index `|a| + j` of `a + b` ignores `a`. */
  lemma {:induction false} LexShift(a: string, b: string, j: nat, cur: string)
    requires j <= |b|
    ensures Lex(a + b, |a| + j, cur) == Lex(b, j, cur)
    decreases |b| - j
  {
    if j < |b| {
      assert (a + b)[|a| + j] == b[j];
      if IsSpace(b[j]) {
        LexShift(a, b, j + 1, []);
      } else {
        LexShift(a, b, j + 1, cur + [b[j]]);
      }
    }
  }

  /** A word followed by whitespace is read as one token, extending whatever was open. */
  lemma {:induction false} LexWord(text: string, i: nat, w: string, cur: string)
    requires i + |w| < |text| && text[i..i + |w|] == w && IsSpace(text[i + |w|])
    requires forall k :: 0 <= k < |w| ==> !IsSpace(w[k])
    requires cur + w != []
    ensures Lex(text, i, cur) == [cur + w] + Lex(text, i + |w| + 1, [])
    decreases |w|
  {
    if w == [] {
      assert cur + w == cur;
    } else {
      assert text[i] == w[0];
      assert text[i + 1..i + 1 + |w[1..]|] == w[1..];
      LexWord(text, i + 1, w[1..], cur + [w[0]]);
      assert (cur + [w[0]]) + w[1..] == cur + w;
    }
  }

  /** Whitespace in front of some text adds no token. */
  lemma TokensOfBlank(c: char, rest: string)
    requires IsSpace(c)
    ensures Tokens([c] + rest) == Tokens(rest)
  {
    assert ([c] + rest)[0] == c;
    LexShift([c], rest, 0, []);
  }

  /** A word and one whitespace character in front of some text add that word in front of its tokens. */
  lemma TokensOfWordSep(w: string, c: char, rest: string)
    requires IsWord(w) && IsSpace(c)
    ensures Tokens(w + [c] + rest) == [w] + Tokens(rest)
  {
    var text := w + [c] + rest;
    assert text[0..|w|] == w && text[|w|] == c;
    LexWord(text, 0, w, []);
    assert [] + w == w;
    LexShift(w + [c], rest, 0, []);
  }

  /** A word at the end of the text, with no whitespace after it, is closed by the end. */
  lemma {:induction false} LexLast(text: string, i: nat, cur: string)
    requires i <= |text| && forall k :: i <= k < |text| ==> !IsSpace(text[k])
    requires cur + text[i..] != []
    ensures Lex(text, i, cur) == [cur + text[i..]]
    decreases |text| - i
  {
    if i == |text| {
      assert cur + text[i..] == cur;
    } else {
      assert text[i..] == [text[i]] + text[i + 1..];
      assert (cur + [text[i]]) + text[i + 1..] == cur + text[i..];
      LexLast(text, i + 1, cur + [text[i]]);
    }
  }

  /** The empty text has no tokens, and a lone word is one token. */
  lemma TokensOfWord(w: string)
    requires IsWord(w)
    ensures Tokens([]) == []
    ensures Tokens(w) == [w]
  {
    assert [] + w[0..] == w;
    LexLast(w, 0, []);
  }

  /** Words separated by single blanks, with nothing after the last one. */
  function Spaced(words: seq<string>): string {
    if words == [] then []
    else if |words| == 1 then words[0]
    else words[0] + " " + Spaced(words[1..])
  }

  /** Splitting words joined by blanks gives the words back. */
  lemma {:induction false} TokensOfSpaced(words: seq<string>)
    requires forall k :: 0 <= k < |words| ==> IsWord(words[k])
    ensures Tokens(Spaced(words)) == words
  {
    if words == [] {
      TokensOfWord("w");
    } else if |words| == 1 {
      TokensOfWord(words[0]);
    } else {
      var rest := Spaced(words[1..]);
      assert words[0] + " " + rest == words[0] + [' '] + rest;
      TokensOfWordSep(words[0], ' ', rest);
      TokensOfSpaced(words[1..]);
    }
  }

  /** The spelling of each instruction, in order. */
  function Spelled(ops: seq<Op>): (toks: seq<string>)
    requires NoHalt(ops)
    ensures |toks| == |ops| && forall k :: 0 <= k < |ops| ==> toks[k] == Encode(ops[k])
  {
    if ops == [] then [] else [Encode(ops[0])] + Spelled(ops[1..])
  }

  /**
   * Compiling the spellings of a terminator-free instruction sequence,
   * separated by single blanks and with none after the last, gives that
   * sequence and the terminator.
   */
  lemma CompileSpaced(ops: seq<Op>)
    requires NoHalt(ops)
    ensures Compiled(Spaced(Spelled(ops))) == ops + [Halt]
  {
    var toks := Spelled(ops);
    TokensOfSpaced(toks);
    forall k | 0 <= k < |toks|
      ensures Decode(toks[k]) == ops[k]
    {
      DecodeEncode(ops[k]);
    }
    DecodeAllOf(toks, ops);
  }

  /** The tokens of `Unparse(ops)` are the spellings of `ops`, in order. */
  lemma {:induction false} TokensOfUnparse(ops: seq<Op>)
    requires NoHalt(ops)
    ensures |Tokens(Unparse(ops))| == |ops|
    ensures forall k :: 0 <= k < |ops| ==> Tokens(Unparse(ops))[k] == Encode(ops[k])
  {
    if ops != [] {
      var w := Encode(ops[0]);
      var rest := Unparse(ops[1..]);
      assert Unparse(ops) == (w + " ") + rest;
      assert (w + " ") + rest == w + [' '] + rest;
      TokensOfWordSep(w, ' ', rest);
      TokensOfUnparse(ops[1..]);
    }
  }

  /**
   * Compiling the text of any terminator-free instruction sequence gives back
   * that sequence and the terminator; the text meets the buffer bound.
   */
  lemma CompileUnparse(ops: seq<Op>)
    requires NoHalt(ops)
    ensures forall t :: t in Tokens(Unparse(ops)) ==> |t| < 64
    ensures Compiled(Unparse(ops)) == ops + [Halt]
  {
    var prog := Compiled(Unparse(ops));
    TokensOfUnparse(ops);
    UnparseFits(ops);
    forall k | 0 <= k < |ops|
      ensures prog[k] == ops[k]
    {
      DecodeEncode(ops[k]);
    }
    assert prog == ops + [Halt];
  }

  lemma UnparseFits(ops: seq<Op>)
    requires NoHalt(ops)
    ensures forall t :: t in Tokens(Unparse(ops)) ==> |t| < 64
  {
    var toks := Tokens(Unparse(ops));
    TokensOfUnparse(ops);
    forall t | t in toks
      ensures |t| < 64
    {
      var k :| 0 <= k < |toks| && toks[k] == t;
      assert |Encode(ops[k])| <= 12;
    }
  }

  /** The dispatch rules at work on single tokens: operators, and the defaults of a bare `d` and `s`. */
  lemma DecodeExamples()
    ensures Decode("+") == Plus && Decode(";") == Del
    ensures Decode("d") == ToTop(0) && Decode("s") == Swap(1)
  {
  }

  lemma DecodeNumberExamples()
    ensures Decode("d2") == ToTop(2) && Decode("-5") == Push(-5)
  {
    assert Show(2) == "2";
    StrToLOfShow(2);
    DecodeOperand('d', "2", 2);
    assert Show(-5) == "-5";
    StrToLOfShow(-5);
    DecodePushed("-5", -5);
  }

  /** A leading `+` is the sign `strtol` accepts, not the operator. */
  lemma DecodePlusSign()
    ensures Decode("+5") == Push(5)
  {
    assert SkipSpaces("+5") == "+5";
    assert "+5"[1..] == "5";
    assert DigitPrefix("5") == "5";
    assert DigitsValue("5") == 5;
    DecodePushed("+5", 5);
  }

  /** Text that is not a number compiles to a push of 0, also after `s`. */
  lemma DecodeNonNumeric()
    ensures Decode("abc") == Push(0) && Decode("sfoo") == Swap(0)
  {
    StrToLOfNonNumeric("abc");
    StrToLOfNonNumeric("foo");
    DecodeOperand('s', "foo", 0);
    assert ['s'] + "foo" == "sfoo";
  }
}
