/**
 * Numeric text as the compiler reads it: the part of `strtol(s, &end, 10)`
 * the compiler relies on, the narrowing of its `long` result into an `int`
 * operand, and a decimal rendering used to state round trips.
 */
module Literals {
  import opened Int32Arith

  const LONG_MIN: int := -0x8000_0000_0000_0000
  const LONG_MAX: int := 0x7fff_ffff_ffff_ffff

  /** `isspace` in the C locale: space, tab, newline, vertical tab, form feed, carriage return. */
  predicate IsSpace(c: char) {
    c == ' ' || '\t' <= c <= '\r'
  }

  predicate IsDigit(c: char) {
    '0' <= c <= '9'
  }

  predicate AllDigits(s: string) {
    forall k :: 0 <= k < |s| ==> IsDigit(s[k])
  }

  /** The leading whitespace `strtol` skips. */
  function SkipSpaces(s: string): (t: string)
    ensures |t| <= |s| && t == s[|s| - |t|..]
    ensures t != [] ==> !IsSpace(t[0])
    ensures forall k :: 0 <= k < |s| - |t| ==> IsSpace(s[k])
  {
    if s != [] && IsSpace(s[0]) then SkipSpaces(s[1..]) else s
  }

  /** The longest run of decimal digits at the front of `s`. */
  function DigitPrefix(s: string): (d: string)
    ensures d <= s && AllDigits(d)
    ensures |d| < |s| ==> !IsDigit(s[|d|])
  {
    if s != [] && IsDigit(s[0]) then [s[0]] + DigitPrefix(s[1..]) else []
  }

  /** The value of a run of decimal digits, most significant first; the empty run is 0. */
  function DigitsValue(ds: string): nat
    requires AllDigits(ds)
  {
    if ds == [] then 0
    else DigitsValue(ds[..|ds| - 1]) * 10 + (ds[|ds| - 1] as int - '0' as int)
  }

  /**
   * `strtol` in base 10: optional leading whitespace, one optional sign, then
   * the longest digit prefix; no digits gives 0, and a value beyond the range
   * of `long` is clamped to it.
   */
  function StrToL(s: string): (r: int)
    ensures LONG_MIN <= r <= LONG_MAX
  {
    SignedValue(SkipSpaces(s))
  }

  /** One optional sign, then the digit prefix; clamped to the range of `long`. */
  function SignedValue(t: string): (r: int)
    ensures LONG_MIN <= r <= LONG_MAX
  {
    var signed := t != [] && (t[0] == '-' || t[0] == '+');
    var body := if signed then t[1..] else t;
    var magnitude: int := DigitsValue(DigitPrefix(body));
    if t != [] && t[0] == '-' then
      (if -magnitude < LONG_MIN then LONG_MIN else -magnitude)
    else
      (if magnitude > LONG_MAX then LONG_MAX else magnitude)
  }

  /**
   * The conversion of a `long` into an `int` operand, which keeps the low 32
   * bits (two's complement, as GCC defines it).
   */
  function Narrow(x: int): (r: int32)
    ensures (r - x) % 0x1_0000_0000 == 0
    ensures InInt32(x) ==> r == x
  {
    var w := (x + 0x8000_0000) % 0x1_0000_0000;
    w - 0x8000_0000
  }

  function DigitChar(d: nat): (c: char)
    requires d < 10
    ensures IsDigit(c)
  {
    ('0' as int + d) as char
  }

  /** Decimal digits of `n`, most significant first, without leading zeros. */
  function ShowNat(n: nat): (s: string)
    ensures s != [] && AllDigits(s)
  {
    if n < 10 then [DigitChar(n)] else ShowNat(n / 10) + [DigitChar(n % 10)]
  }

  /** Decimal text of `v` as `printf("%ld")` writes it: a minus sign for negatives, then the digits. */
  function Show(v: int): (s: string)
    ensures s != [] && (s[0] == '-' || IsDigit(s[0]))
    ensures forall k :: 0 < k < |s| ==> IsDigit(s[k])
    ensures v < 0 ==> |s| >= 2
  {
    if v < 0 then "-" + ShowNat(-v) else ShowNat(v)
  }

  lemma {:induction false} DigitsValueOfShowNat(n: nat)
    ensures DigitsValue(ShowNat(n)) == n
  {
    if n >= 10 {
      var s := ShowNat(n);
      DigitsValueOfShowNat(n / 10);
      assert s[..|s| - 1] == ShowNat(n / 10);
    }
  }

  lemma {:induction false} DigitPrefixOfDigits(s: string)
    requires AllDigits(s)
    ensures DigitPrefix(s) == s
  {
    if s != [] {
      DigitPrefixOfDigits(s[1..]);
    }
  }

  /** Reading back what `Show` writes gives the value again, for every `long`. */
  lemma StrToLOfShow(v: int)
    requires LONG_MIN <= v <= LONG_MAX
    ensures StrToL(Show(v)) == v
  {
    var s := Show(v);
    var m := if v < 0 then -v else v;
    assert SkipSpaces(s) == s;
    DigitsValueOfShowNat(m);
    DigitPrefixOfDigits(ShowNat(m));
    if v < 0 {
      assert s[1..] == ShowNat(m);
    }
  }

  function Pow10(k: nat): (p: nat)
    ensures p >= 1
  {
    if k == 0 then 1 else 10 * Pow10(k - 1)
  }

  lemma {:induction false} ShowNatLength(n: nat, k: nat)
    requires 1 <= k && n < Pow10(k)
    ensures |ShowNat(n)| <= k
  {
    if n >= 10 {
      assert k >= 2;
      ShowNatLength(n / 10, k - 1);
    }
  }

  /** The decimal text of a 32-bit value is at most 11 characters long. */
  lemma ShowInt32Length(v: int32)
    ensures |Show(v)| <= 11
  {
    var m: int := if v < 0 then -(v as int) else v;
    assert Pow10(10) == 10_000_000_000;
    ShowNatLength(m, 10);
  }

  /** `strtol` skips a leading blank, which is how the compiler reads the operand of `dN` and `sN`. */
  lemma StrToLSkipsBlank(s: string)
    ensures StrToL([' '] + s) == StrToL(s)
  {
    assert SkipSpaces([' '] + s) == SkipSpaces(s) by {
      assert ([' '] + s)[1..] == s;
    }
  }

  /** Text that does not start with a blank, a sign or a digit reads as 0. */
  lemma StrToLOfNonNumeric(s: string)
    requires s != [] && !IsSpace(s[0]) && !IsDigit(s[0]) && s[0] != '-' && s[0] != '+'
    ensures StrToL(s) == 0
  {
    assert SkipSpaces(s) == s;
    assert DigitPrefix(s) == [];
  }

  /** A single digit reads as its value. */
  lemma StrToLDigit(d: char)
    requires IsDigit(d)
    ensures StrToL([d]) == d as int - '0' as int
  {
    assert SkipSpaces([d]) == [d];
    assert DigitPrefix([d]) == [d] by { assert [d][1..] == []; }
    assert DigitsValue([d]) == d as int - '0' as int by { assert [d][..0] == []; }
  }

  lemma StrToLExamples()
    ensures StrToL("12abc") == 12
    ensures StrToL("abc") == 0
  {
    assert SkipSpaces("12abc") == "12abc";
    assert DigitPrefix("abc") == "";
    assert DigitPrefix("2abc") == "2";
    assert DigitPrefix("12abc") == "12";
    assert DigitsValue("12") == 12 by { assert "12"[..1] == "1"; }
    assert SkipSpaces("abc") == "abc";
  }
}
