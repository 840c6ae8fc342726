// Numbers as text: what the printing and parsing functions of the C library part compute.
module NumberModel {

  type Base = b: nat | 2 <= b <= 36 witness 10

  // Integer division truncates toward zero, and the remainder has the dividend's sign (C11, section 6.5.5).
  function Quotient(a: int, b: nat): int
    requires b > 0
  {
    if a >= 0 then a / b else -((-a) / b)
  }

  function Rest(a: int, b: nat): int
    requires b > 0
  {
    if a >= 0 then a % b else -((-a) % b)
  }

  lemma QuotientAndRest(a: int, b: Base)
    ensures a == b * Quotient(a, b) + Rest(a, b)
    ensures if a >= 0 then 0 <= Rest(a, b) < b else 0 - b < Rest(a, b) <= 0
  {
  }

  const BELOW := "zyxwvutsrqponmlkjihgfedcba987654321"
  const TABLE := BELOW + "0123456789abcdefghijklmnopqrstuvwxyz"

  function Digit(d: nat): char
    requires d < 36
  {
    if d < 10 then '0' + d as char else 'a' + (d - 10) as char
  }

  function DigitValue(c: char): int {
    if c <= '9' then c as int - '0' as int else c as int - 'a' as int + 10
  }

  function Magnitude(a: int): nat {
    if a >= 0 then a else -a
  }

  lemma TableAbove(d: int)
    requires 0 <= d < 36
    ensures TABLE[35 + d] == Digit(d)
  {
  }

  lemma TableBelow(d: int)
    requires 0 <= d < 36
    ensures TABLE[35 - d] == Digit(d)
  {
    if d > 0 {
      assert BELOW[35 - d] as int == Digit(d) as int;
    }
  }

  lemma DivMod(m: nat, b: Base)
    ensures m == b * (m / b) + m % b && m % b < b
    ensures m / b >= 0 && b * (m / b) >= 2 * (m / b)
    ensures m > 0 ==> m / b < m
    ensures m < b <==> m / b == 0
    ensures m < b ==> m % b == m
  {
  }

  // The table is symmetric about its middle, so a negative remainder finds the digit of its magnitude.
  lemma TableSymmetric(r: int)
    requires -36 < r < 36
    ensures 0 <= 35 + r < |TABLE| && TABLE[35 + r] == Digit(Magnitude(r))
  {
    if r < 0 {
      TableBelow(-r);
    } else {
      TableAbove(r);
    }
  }

  // --- Positional notation ---------------------------------------------------------------------------

  // Most significant digit first.
  function Digits(v: nat, b: Base): string
    decreases v
  {
    if v < b then [Digit(v)] else (DivMod(v, b); Digits(v / b, b)) + [Digit(v % b)]
  }

  function Eval(s: string, b: nat): int
    decreases |s|
  {
    if s == "" then 0 else b * Eval(s[..|s| - 1], b) + DigitValue(s[|s| - 1])
  }

  lemma DigitOf(d: nat)
    requires d < 36
    ensures DigitValue(Digit(d)) == d
  {
  }

  lemma EvalStep(s: string, b: nat, high: int, low: int)
    requires s != "" && Eval(s[..|s| - 1], b) == high && DigitValue(s[|s| - 1]) == low
    ensures Eval(s, b) == b * high + low
  {
  }

  lemma {:induction false} DigitsEvaluate(v: nat, b: Base)
    ensures Eval(Digits(v, b), b) == v
    decreases v
  {
    if v < b {
      assert Digits(v, b)[..0] == "";
    } else {
      DivMod(v, b);
      DigitsEvaluate(v / b, b);
      var s := Digits(v, b);
      assert s[..|s| - 1] == Digits(v / b, b) && s[|s| - 1] == Digit(v % b);
      DigitOf(v % b);
      EvalStep(s, b, v / b, v % b);
    }
  }

  predicate IsDigitOf(c: char, b: Base) {
    exists d: nat :: d < b && c == Digit(d)
  }

  // Dividing with truncation takes the magnitude's digits off one by one.
  lemma NextDigit(a: int, b: Base) returns (q: nat, d: nat)
    ensures -36 < Rest(a, b) < 36 && Magnitude(Rest(a, b)) == d && Magnitude(Quotient(a, b)) == q
    ensures q == 0 ==> Digits(Magnitude(a), b) == [Digit(d)]
    ensures q > 0 ==> q < Magnitude(a) && Digits(Magnitude(a), b) == Digits(q, b) + [Digit(d)]
  {
    DivMod(Magnitude(a), b);
    q, d := Magnitude(a) / b, Magnitude(a) % b;
  }

  // Only digits of the base, and no leading zero except in "0".
  lemma {:induction false} DigitsCanonical(v: nat, b: Base)
    ensures Digits(v, b) != ""
    ensures forall i | 0 <= i < |Digits(v, b)| :: IsDigitOf(Digits(v, b)[i], b)
    ensures Digits(v, b)[0] == '0' <==> v == 0
    decreases v
  {
    if v < b {
      assert IsDigitOf(Digits(v, b)[0], b);
    } else {
      DivMod(v, b);
      DigitsCanonical(v / b, b);
      assert IsDigitOf(Digit(v % b), b);
    }
  }

  function Pow2(n: nat): nat {
    if n == 0 then 1 else 2 * Pow2(n - 1)
  }

  // n binary digits are enough in any base, which bounds the buffer the caller must bring.
  lemma {:induction false} DigitsFit(v: nat, b: Base, n: nat)
    requires v < Pow2(n) && n >= 1
    ensures |Digits(v, b)| <= n
    decreases n
  {
    if v >= b {
      DivMod(v, b);
      DigitsFit(v / b, b, n - 1);
    }
  }

  // --- itoa, utoa, lltoa -----------------------------------------------------------------------------

  // The text for a value: empty for a bad base, a sign only in base 10.
  function Text(value: int, base: int): string {
    if base < 2 || base > 36 then ""
    else Signed(value < 0 && base == 10, Digits(Magnitude(value), base))
  }

  function Signed(minus: bool, digits: string): string {
    if minus then "-" + digits else digits
  }

  // --- atoi, atoll -----------------------------------------------------------------------------------

  datatype Width = Int | LongLong

  function Half(w: Width): nat {
    match w
    case Int => 0x8000_0000
    case LongLong => 0x8000_0000_0000_0000
  }

  predicate InRange(n: int, w: Width) {
    0 - Half(w) <= n < Half(w)
  }

  // Two's complement of the width. C leaves signed overflow undefined; the parsers are modelled with
  // this meaning, and ParsingStaysInRange says when it plays no part.
  function Wrap(n: int, w: Width): int {
    (n + Half(w)) % (2 * Half(w)) - Half(w)
  }

  predicate IsSpace(c: char) {
    c == ' ' || '\t' <= c <= '\r'
  }

  predicate IsDigit(c: char) {
    '0' <= c <= '9'
  }

  function AfterSpaces(s: string): string {
    if s != "" && IsSpace(s[0]) then AfterSpaces(s[1..]) else s
  }

  predicate AllDigits(s: string) {
    forall i | 0 <= i < |s| :: IsDigit(s[i])
  }

  predicate HasMinus(s: string) {
    s != "" && s[0] == '-'
  }

  function AfterSign(s: string): string {
    if s != "" && (s[0] == '-' || s[0] == '+') then s[1..] else s
  }

  function LeadingDigits(s: string): string {
    if s != "" && IsDigit(s[0]) then [s[0]] + LeadingDigits(s[1..]) else ""
  }

  // The number a string starts with: spaces, a sign, decimal digits.
  function Number(s: string): int {
    var t := AfterSpaces(s);
    var magnitude := Eval(LeadingDigits(AfterSign(t)), 10);
    if HasMinus(t) then -magnitude else magnitude
  }

  function Parsed(s: string, w: Width): int {
    Wrap(Number(s), w)
  }

  // A number that fits is parsed as it is.
  lemma FittingParsed(s: string)
    ensures -0x8000_0000 <= Number(s) < 0x8000_0000 ==> Parsed(s, Int) == Number(s)
    ensures -0x8000_0000_0000_0000 <= Number(s) < 0x8000_0000_0000_0000 ==> Parsed(s, LongLong) == Number(s)
  {
  }

  lemma WrapIs(x: int, y: int, k: int, w: Width)
    requires x == y + k * (2 * Half(w)) && InRange(y, w)
    ensures Wrap(x, w) == y
  {
  }

  // One step of the accumulation: wrapping at every step is wrapping once.
  lemma WrapStep(n: int, d: int, w: Width)
    ensures Wrap(10 * Wrap(n, w) - d, w) == Wrap(10 * n - d, w)
    ensures Wrap(-Wrap(n, w), w) == Wrap(-n, w)
  {
    var m := 2 * Half(w);
    var k := (n + Half(w)) / m;
    assert n == Wrap(n, w) + k * m;
    var x := 10 * Wrap(n, w) - d;
    var j := (x + Half(w)) / m;
    assert x == Wrap(x, w) + j * m;
    assert 10 * n - d == Wrap(x, w) + (j + 10 * k) * m;
    WrapIs(10 * n - d, Wrap(x, w), j + 10 * k, w);
    var y := -Wrap(n, w);
    var i := (y + Half(w)) / m;
    assert y == Wrap(y, w) + i * m;
    assert -n == Wrap(y, w) + (i - k) * m;
    WrapIs(-n, Wrap(y, w), i - k, w);
  }

  // --- Printing and parsing undo each other ------------------------------------------------------------

  lemma {:induction false} DigitsRead(s: string, tail: string)
    requires forall i | 0 <= i < |s| :: IsDigit(s[i])
    requires tail == "" || !IsDigit(tail[0])
    ensures LeadingDigits(s + tail) == s
  {
    if s == "" {
      assert s + tail == tail;
    } else {
      assert (s + tail)[1..] == s[1..] + tail;
      DigitsRead(s[1..], tail);
    }
  }

  lemma DecimalDigits(m: nat)
    ensures Digits(m, 10) != "" && forall i | 0 <= i < |Digits(m, 10)| :: IsDigit(Digits(m, 10)[i])
  {
  }

  lemma NumberAt(s: string)
    requires s == "" || !IsSpace(s[0])
    ensures var magnitude := Eval(LeadingDigits(AfterSign(s)), 10);
      Number(s) == if HasMinus(s) then -magnitude else magnitude
  {
  }

  lemma NegativeRead(s: string, d: string, tail: string)
    requires forall i | 0 <= i < |d| :: IsDigit(d[i])
    requires tail == "" || !IsDigit(tail[0])
    requires s != "" && s[0] == '-' && s[1..] == d + tail
    ensures Number(s) == -Eval(d, 10)
  {
    NumberAt(s);
    DigitsRead(d, tail);
  }

  lemma PositiveRead(d: string, tail: string)
    requires d != "" && forall i | 0 <= i < |d| :: IsDigit(d[i])
    requires tail == "" || !IsDigit(tail[0])
    ensures Number(d + tail) == Eval(d, 10)
  {
    var s := d + tail;
    assert s[0] == d[0] && IsDigit(d[0]);
    NumberAt(s);
    DigitsRead(d, tail);
  }

  predicate IsBlank(c: char) {
    c == ' ' || c == '\t' || c == '\n' || c == '\r' || c as int == 11 || c as int == 12
  }

  lemma {:induction false} SpacesSkipped(spaces: string, rest: string)
    requires (forall i | 0 <= i < |spaces| :: IsBlank(spaces[i])) && (rest == "" || !IsBlank(rest[0]))
    ensures AfterSpaces(spaces + rest) == rest
    decreases |spaces|
  {
    if spaces == "" {
      assert spaces + rest == rest;
    } else {
      assert (spaces + rest)[1..] == spaces[1..] + rest;
      SpacesSkipped(spaces[1..], rest);
    }
  }

  // A number is read behind any of the six space characters and behind a sign of either kind; without
  // digits after the sign it is 0.
  lemma SpacesAndSignRead(spaces: string, sign: string, d: string, tail: string)
    requires forall i | 0 <= i < |spaces| :: IsBlank(spaces[i])
    requires sign in {"", "+", "-"} && (sign == "" ==> d != "")
    requires AllDigits(d) && (tail == "" || !IsDigit(tail[0]))
    ensures Number(spaces + (sign + (d + tail))) == if sign == "-" then -Eval(d, 10) else Eval(d, 10)
  {
    var t := sign + (d + tail);
    if sign == "" {
      assert t == d + tail && IsDigit(t[0]);
    } else {
      assert t[0] == sign[0] && t[1..] == d + tail;
    }
    SpacesSkipped(spaces, t);
    DigitsRead(d, tail);
  }

  lemma SplitSign(d: string, tail: string)
    ensures var s := Signed(true, d) + tail; s != "" && s[0] == '-' && s[1..] == d + tail
  {
  }

  // Parsing what was printed in base 10 gives the value back, whatever follows the terminator: for
  // every value of the width, the minimum included.
  lemma ParsePrinted(v: int, w: Width, tail: string)
    requires InRange(v, w) && (tail == "" || !IsDigit(tail[0]))
    ensures Parsed(Text(v, 10) + tail, w) == v
  {
    DecimalDigits(Magnitude(v));
    DigitsEvaluate(Magnitude(v), 10);
    var d := Digits(Magnitude(v), 10);
    if v < 0 {
      SplitSign(d, tail);
      NegativeRead(Text(v, 10) + tail, d, tail);
    } else {
      PositiveRead(d, tail);
    }
    WrapIs(v, v, 0, w);
  }

  lemma {:induction false} EvalGrows(s: string, j: nat)
    requires j <= |s| && forall i | 0 <= i < |s| :: IsDigit(s[i])
    ensures 0 <= Eval(s[..j], 10) <= Eval(s, 10)
    ensures j < |s| ==> 10 * Eval(s[..j], 10) <= Eval(s, 10)
    decreases |s|
  {
    var t := if s == "" then s else s[..|s| - 1];
    if j < |s| {
      EvalGrows(t, j);
      assert t[..j] == s[..j];
    } else {
      assert s[..j] == s;
      if s != "" {
        EvalGrows(t, 0);
      }
    }
  }

  // The accumulated value after j digits, and ten times it when another digit follows, are in range.
  predicate FitsAt(digits: string, j: nat, w: Width)
    requires j <= |digits|
  {
    var n := -Eval(digits[..j], 10);
    InRange(n, w) && (j < |digits| ==> InRange(10 * n, w))
  }

  // Every value the parser computes for these digits is in range: those of the loop, and the negation
  // after it unless the number had a minus sign.
  ghost predicate StaysInRange(minus: bool, digits: string, w: Width) {
    && (forall j: nat | j <= |digits| :: FitsAt(digits, j, w))
    && (!minus ==> InRange(Eval(digits, 10), w))
  }

  // Accumulating negatively, no computed value leaves the type exactly when the number read does not.
  lemma ParsingStaysInRange(minus: bool, digits: string, w: Width)
    requires AllDigits(digits)
    ensures StaysInRange(minus, digits, w) <==> InRange(if minus then -Eval(digits, 10) else Eval(digits, 10), w)
  {
    EvalGrows(digits, 0);
    if Eval(digits, 10) <= Half(w) {
      forall j: nat | j <= |digits| ensures FitsAt(digits, j, w) {
        EvalGrows(digits, j);
      }
    } else {
      assert digits[..|digits|] == digits;
      assert !FitsAt(digits, |digits|, w);
    }
  }

  // So parsing the base-10 text of any value of the width computes no value outside it.
  lemma ParsingPrintedStaysInRange(v: int, w: Width)
    requires InRange(v, w)
    ensures StaysInRange(v < 0, Digits(Magnitude(v), 10), w)
  {
    DecimalDigits(Magnitude(v));
    DigitsEvaluate(Magnitude(v), 10);
    ParsingStaysInRange(v < 0, Digits(Magnitude(v), 10), w);
  }

  // --- The sign --------------------------------------------------------------------------------------

  function SignedEval(s: string, b: nat): int {
    if HasMinus(s) then -Eval(s[1..], b) else Eval(s, b)
  }

  lemma DigitIsNoSign(c: char, b: Base)
    requires IsDigitOf(c, b)
    ensures c != '-'
  {
  }

  // A printed number reads back as the value in its base exactly when the value is not negative or the
  // base is 10: elsewhere the sign is dropped.
  lemma PrintedReadsBack(value: int, b: Base)
    ensures SignedEval(Text(value, b), b) == value <==> value >= 0 || b == 10
  {
    var d := Digits(Magnitude(value), b);
    DigitsCanonical(Magnitude(value), b);
    DigitsEvaluate(Magnitude(value), b);
    DigitIsNoSign(d[0], b);
    assert ("-" + d)[1..] == d;
    if value < 0 && b == 10 {
      assert Text(value, b) == "-" + d;
    } else {
      assert Text(value, b) == d;
    }
  }

  // Nothing is printed exactly when the base is none of 2 to 36.
  lemma NothingPrinted(value: int, base: int)
    ensures Text(value, base) == "" <==> base < 2 || base > 36
  {
    if 2 <= base <= 36 {
      DigitsCanonical(Magnitude(value), base);
    }
  }

  lemma DigitCharacters(d: nat)
    requires d < 36
    ensures Digit(d) == "0123456789abcdefghijklmnopqrstuvwxyz"[d]
  {
  }

  // So a negative number and its opposite print alike in hexadecimal.
  lemma SignLost()
    ensures Text(-255, 16) == Text(255, 16) == "ff"
  {
  }
}
