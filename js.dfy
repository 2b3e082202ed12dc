/**
 * The part of JavaScript's value semantics that the service's code relies on:
 * truthiness, `Number(...)`, `*`, `-`, `+` (which concatenates as soon as one
 * operand is a string), number-to-string conversion, `Array.prototype.slice`
 * and ASCII `toLowerCase`.
 */
module Js {

  import opened Wrappers

  /** A JavaScript number as it arises here: an integer, or NaN. */
  datatype Number = Int(i: int) | NaN

  /**
   * The values found in a parsed query string (a string, or an array of
   * strings for a repeated key) and those the validators write back
   * (numbers and booleans).
   */
  datatype Value = Bool(b: bool) | Num(n: Number) | Str(s: string) | Arr(items: seq<string>)

  /** `Boolean(v)`: the empty string, 0 and NaN are falsy; every array is truthy. */
  predicate Truthy(v: Value)
  {
    match v
    case Bool(b) => b
    case Num(n) => n.Int? && n.i != 0
    case Str(s) => s != ""
    case Arr(_) => true
  }

  /** Truthiness of an object property that may be missing (undefined is falsy). */
  predicate IsTruthy(v: Option<Value>)
  {
    v.Some? && Truthy(v.value)
  }

  predicate IsDigit(c: char)
  {
    '0' <= c <= '9'
  }

  predicate AllDigits(s: string)
  {
    forall i :: 0 <= i < |s| ==> IsDigit(s[i])
  }

  function DigitValue(c: char): nat
    requires IsDigit(c)
  {
    c as int - '0' as int
  }

  function DigitChar(d: nat): char
    requires d < 10
  {
    ('0' as int + d) as char
  }

  function Pow10(k: nat): nat
  {
    if k == 0 then 1 else 10 * Pow10(k - 1)
  }

  /** The value of a string of decimal digits, read most significant digit first. */
  function DigitsValue(s: string): nat
    requires AllDigits(s)
  {
    if s == [] then 0 else DigitsValue(s[..|s| - 1]) * 10 + DigitValue(s[|s| - 1])
  }

  /** The decimal text of a natural number, without leading zeros. */
  function NatToDecimal(n: nat): (s: string)
    ensures |s| >= 1 && AllDigits(s)
    ensures DigitsValue(s) == n
    ensures s[0] == '0' ==> n == 0
  {
    if n < 10 then
      [DigitChar(n)]
    else
      var t := NatToDecimal(n / 10);
      var s := t + [DigitChar(n % 10)];
      assert s[..|s| - 1] == t;
      s
  }

  /** `String(i)` for an integer. */
  function IntToDecimal(i: int): string
  {
    if i < 0 then "-" + NatToDecimal(-i) else NatToDecimal(i)
  }

  /**
   * `Number(s)` for a string: the empty string is 0, an optional sign followed
   * by decimal digits is that integer, and anything else is NaN.
   */
  function StringToNumber(s: string): Number
  {
    if s == "" then Int(0)
    else if s[0] == '-' && |s| > 1 && AllDigits(s[1..]) then Int(0 - DigitsValue(s[1..]) as int)
    else if s[0] == '+' && |s| > 1 && AllDigits(s[1..]) then Int(DigitsValue(s[1..]))
    else if AllDigits(s) then Int(DigitsValue(s))
    else NaN
  }

  /** `Array.prototype.toString`: the elements joined with commas. */
  function Join(items: seq<string>): string
  {
    if |items| == 0 then ""
    else if |items| == 1 then items[0]
    else items[0] + "," + Join(items[1..])
  }

  /** `String(v)`. */
  function ToStr(v: Value): string
  {
    match v
    case Bool(b) => if b then "true" else "false"
    case Num(n) => if n.Int? then IntToDecimal(n.i) else "NaN"
    case Str(s) => s
    case Arr(items) => Join(items)
  }

  /** `Number(v)`. */
  function ToNumber(v: Value): Number
  {
    match v
    case Bool(b) => Int(if b then 1 else 0)
    case Num(n) => n
    case Str(s) => StringToNumber(s)
    case Arr(items) => StringToNumber(Join(items))
  }

  /** A parameter with a default value: the default replaces an undefined argument only. */
  function Default(arg: Option<Value>, d: Value): Value
  {
    if arg.Some? then arg.value else d
  }

  /** `Number.isInteger(n) && n > 0`. */
  predicate IsPositiveInteger(n: Number)
  {
    n.Int? && n.i > 0
  }

  /** `a * b`. */
  function Times(a: Value, b: Value): Value
  {
    var x, y := ToNumber(a), ToNumber(b);
    Num(if x.Int? && y.Int? then Int(x.i * y.i) else NaN)
  }

  /** `a - b`. */
  function Minus(a: Value, b: Value): Value
  {
    var x, y := ToNumber(a), ToNumber(b);
    Num(if x.Int? && y.Int? then Int(x.i - y.i) else NaN)
  }

  /** `a + b`: string concatenation when either operand is a string or an array. */
  function Plus(a: Value, b: Value): Value
  {
    if a.Str? || a.Arr? || b.Str? || b.Arr? then
      Str(ToStr(a) + ToStr(b))
    else
      var x, y := ToNumber(a), ToNumber(b);
      Num(if x.Int? && y.Int? then Int(x.i + y.i) else NaN)
  }

  /** How `slice` turns an argument into a position: NaN is 0, a negative one counts from the end. */
  function RelativeIndex(n: Number, len: nat): (k: nat)
    ensures k <= len
  {
    match n
    case NaN => 0
    case Int(i) =>
      if i < 0 then (if len + i < 0 then 0 else len + i)
      else if i > len then len
      else i
  }

  /** `s.slice(start, end)`. */
  function Slice<T>(s: seq<T>, start: Value, end: Value): (r: seq<T>)
    ensures |r| <= |s|
  {
    var from, to := RelativeIndex(ToNumber(start), |s|), RelativeIndex(ToNumber(end), |s|);
    if from < to then s[from..to] else []
  }

  function LowerChar(c: char): char
  {
    if 'A' <= c <= 'Z' then (c as int + 32) as char else c
  }

  /** `s.toLowerCase()`, restricted to ASCII letters. */
  function Lower(s: string): (r: string)
    ensures |r| == |s|
  {
    seq(|s|, i requires 0 <= i < |s| => LowerChar(s[i]))
  }

  // ---------------------------------------------------------------------------
  // Number text

  /** Concatenating digit strings multiplies the left value by a power of ten. */
  lemma {:induction false} ConcatDigits(x: string, y: string)
    requires AllDigits(x) && AllDigits(y)
    ensures AllDigits(x + y)
    ensures DigitsValue(x + y) == DigitsValue(x) * Pow10(|y|) + DigitsValue(y)
  {
    assert AllDigits(x + y) by {
      forall i | 0 <= i < |x + y| ensures IsDigit((x + y)[i]) {
        if i < |x| { assert (x + y)[i] == x[i]; } else { assert (x + y)[i] == y[i - |x|]; }
      }
    }
    if y == [] {
      assert x + y == x;
    } else {
      var y' := y[..|y| - 1];
      assert (x + y)[..|x + y| - 1] == x + y';
      assert (x + y)[|x + y| - 1] == y[|y| - 1];
      ConcatDigits(x, y');
      var a, b, c, d := DigitsValue(x), Pow10(|y'|), DigitsValue(y'), DigitValue(y[|y| - 1]);
      assert DigitsValue(x + y) == (a * b + c) * 10 + d;
      assert DigitsValue(y) == c * 10 + d;
      assert Pow10(|y|) == 10 * b;
      ShiftDigit(a, b, c, d);
    }
  }

  lemma ShiftDigit(a: int, b: int, c: int, d: int)
    ensures (a * b + c) * 10 + d == a * (10 * b) + (c * 10 + d)
  {
    assert (a * b) * 10 == a * (10 * b);
  }

  /** Printing an integer and reading it back with `Number` gives the integer. */
  lemma DecimalRoundTrip(i: int)
    ensures StringToNumber(IntToDecimal(i)) == Int(i)
  {
    if i < 0 {
      var s := IntToDecimal(i);
      assert s[1..] == NatToDecimal(-i);
    }
  }

  /** The number whose decimal digits are those of n followed by d. */
  function AppendDigits(n: nat, d: string): nat
    requires AllDigits(d)
  {
    n * Pow10(|d|) + DigitsValue(d)
  }

  /**
   * `start + perPage` when perPage is a digit string: the decimal text of
   * start with perPage's digits appended, so `Number` reads it as
   * start * 10^|d| + perPage.
   */
  lemma ConcatenatedEndIndex(start: nat, d: string)
    requires |d| >= 1 && AllDigits(d)
    ensures ToNumber(Plus(Num(Int(start)), Str(d))) == Int(AppendDigits(start, d))
  {
    var t := NatToDecimal(start);
    assert Plus(Num(Int(start)), Str(d)) == Str(t + d);
    assert AllDigits(t + d) && DigitsValue(t + d) == start * Pow10(|d|) + DigitsValue(d) by {
      ConcatDigits(t, d);
    }
    DigitsAreNumber(t + d);
  }

  lemma DigitsAreNumber(s: string)
    requires |s| >= 1 && AllDigits(s)
    ensures StringToNumber(s) == Int(DigitsValue(s))
  {
    assert IsDigit(s[0]);
  }
}
