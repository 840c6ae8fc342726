// The number functions of the C library part (libc/src/stdlib): digit loops over a caller's buffer
// with reversal in place, and the parsers' pointer loops.
module Numbers {
  import opened NumberModel

  // The text, its terminator, and the rest of the buffer as it was.
  function Written(was: string, text: string): string
    requires |text| < |was|
  {
    text + ['\0'] + was[|text| + 1..]
  }

  function Backwards(s: string): string {
    seq(|s|, i requires 0 <= i < |s| => s[|s| - 1 - i])
  }

  // Text written one character later reads one character earlier backwards.
  lemma BackwardsMore(s: string, c: char)
    ensures Backwards(s + [c]) == [c] + Backwards(s)
  {
  }

  method DigitChar(r: int) returns (c: char)
    requires -36 < r < 36
    ensures c == Digit(Magnitude(r))
  {
    TableSymmetric(r);
    return TABLE[35 + r];
  }

  // A buffer whose part from `at` on has been written.
  function Partly(was: string, at: nat, written: string): string
    requires at + |written| <= |was|
  {
    was[..at] + written + was[at + |written|..]
  }

  lemma EndsSwapped(was: string, now: string, lo: nat, hi: nat)
    requires lo < hi <= |was| && |now| == |was|
    requires forall k | lo <= k < hi :: now[k] == was[lo + hi - 1 - k]
    requires forall k | 0 <= k < lo || hi <= k < |was| :: now[k] == was[k]
    ensures now == Partly(was, lo, Backwards(was[lo..hi]))
  {
    assert now[lo..hi] == Backwards(was[lo..hi]);
  }

  // The loop that swaps the ends of str[lo..hi] towards the middle.
  method ReverseInPlace(str: array<char>, lo: nat, hi: nat)
    requires lo < hi <= str.Length
    modifies str
    ensures str[..] == Partly(old(str[..]), lo, Backwards(old(str[..])[lo..hi]))
  {
    ghost var was := str[..];
    var low, ptr := lo, hi - 1;
    while low < ptr
      invariant lo <= low <= ptr + 1 <= hi && low - lo == hi - 1 - ptr
      invariant forall k | lo <= k < low || ptr < k < hi :: str[k] == was[lo + hi - 1 - k]
      invariant forall k | 0 <= k < lo || low <= k <= ptr || hi <= k < str.Length :: str[k] == was[k]
    {
      str[low], str[ptr] := str[ptr], str[low];
      low, ptr := low + 1, ptr - 1;
    }
    EndsSwapped(was, str[..], lo, hi);
  }

  // What the digit loop has still to put in front of what it has written.
  ghost predicate Writing(total: string, m: nat, b: Base, written: string) {
    total == Digits(m, b) + Backwards(written)
  }

  lemma LastDigitWritten(total: string, m: nat, b: Base, written: string, c: char)
    requires Writing(total, m, b, written) && Digits(m, b) == [c]
    ensures total == Backwards(written + [c]) && |total| == |written| + 1
  {
    BackwardsMore(written, c);
  }

  lemma DigitWritten(total: string, m: nat, q: nat, b: Base, written: string, c: char)
    requires Writing(total, m, b, written) && Digits(m, b) == Digits(q, b) + [c]
    ensures Writing(total, q, b, written + [c]) && |written| < |total|
  {
    BackwardsMore(written, c);
    Regroup(Digits(q, b), c, Backwards(written));
  }

  lemma Regroup(a: string, c: char, s: string)
    ensures (a + [c]) + s == a + ([c] + s)
  {
  }

  lemma PartlyMore(was: string, at: nat, written: string, c: char)
    requires at + |written| < |was|
    ensures |Partly(was, at, written)| == |was|
    ensures Partly(was, at, written)[at + |written| := c] == Partly(was, at, written + [c])
  {
  }

  // The digits of the magnitude, least significant first.
  method WriteDigits(value: int, str: array<char>, at: nat, b: Base) returns (end: nat, ghost written: string)
    requires at + |Digits(Magnitude(value), b)| < str.Length
    modifies str
    ensures end == at + |Digits(Magnitude(value), b)|
    ensures at + |written| == end && str[..] == Partly(old(str[..]), at, written)
    ensures Backwards(written) == Digits(Magnitude(value), b)
  {
    ghost var total, was := Digits(Magnitude(value), b), str[..];
    written := "";
    var v := value;
    end := at;
    assert Partly(was, at, "") == was;
    while true
      invariant end == at + |written| && |written| <= |total| && str[..] == Partly(was, at, written)
      invariant Writing(total, Magnitude(v), b, written)
      decreases Magnitude(v)
    {
      ghost var m, q, d := Magnitude(v), 0, 0;
      q, d := NextDigit(v, b);
      if q == 0 {
        LastDigitWritten(total, m, b, written, Digit(d));
      } else {
        DigitWritten(total, m, q, b, written, Digit(d));
      }
      PartlyMore(was, at, written, Digit(d));
      var c := DigitChar(Rest(v, b));
      str[end] := c;
      written := written + [c];
      end := end + 1;
      v := Quotient(v, b);
      if v == 0 {
        break;
      }
    }
  }

  // The text from `at` on, terminated.
  function Ended(was: string, at: nat, written: string): string
    requires at + |written| < |was|
  {
    Partly(was, at, written)[at + |written| := '\0']
  }

  lemma EndedAt(was: string, at: nat, written: string)
    requires at + |written| < |was|
    ensures |Ended(was, at, written)| == |was| && Ended(was, at, written)[at..at + |written|] == written
  {
  }

  lemma Assembled(was: string, at: nat, written: string, text: string)
    requires at + |written| < |was| && |text| == |written|
    ensures Partly(Ended(was, at, written), at, text) == was[..at] + text + ['\0'] + was[at + |text| + 1..]
  {
  }

  lemma SignFirst(was: string, digits: string)
    requires 1 + |digits| < |was|
    ensures var w := was[0 := '-'];
      w[..1] + digits + ['\0'] + w[1 + |digits| + 1..] == Written(was, Signed(true, digits))
  {
  }

  lemma NoSign(was: string, digits: string)
    requires |digits| < |was|
    ensures was[..0] + digits + ['\0'] + was[0 + |digits| + 1..] == Written(was, Signed(false, digits))
  {
  }

  // The digits from `at` on, in order and terminated.
  method PrintDigits(value: int, str: array<char>, at: nat, b: Base)
    requires at + |Digits(Magnitude(value), b)| < str.Length
    modifies str
    ensures var d, was := Digits(Magnitude(value), b), old(str[..]);
      str[..] == was[..at] + d + ['\0'] + was[at + |d| + 1..]
  {
    ghost var was, written := str[..], "";
    var end;
    end, written := WriteDigits(value, str, at, b);
    str[end] := '\0';
    EndedAt(was, at, written);
    ReverseInPlace(str, at, end);
    Assembled(was, at, written, Digits(Magnitude(value), b));
  }

  // The body that itoa, lltoa and, for values that are not negative, utoa share.
  method Print(value: int, str: array<char>, base: int)
    requires |Text(value, base)| < str.Length
    modifies str
    ensures str[..] == Written(old(str[..]), Text(value, base))
  {
    ghost var was := str[..];
    if base < 2 || base > 36 {
      str[0] := '\0';
      return;
    }
    var ptr := 0;
    if value < 0 && base == 10 {
      str[0] := '-';
      ptr := 1;
      SignFirst(was, Digits(Magnitude(value), base));
    } else {
      NoSign(was, Digits(Magnitude(value), base));
    }
    PrintDigits(value, str, ptr, base);
  }

  method Itoa(value: int, str: array<char>, base: int)
    requires InRange(value, Int) && |Text(value, base)| < str.Length
    modifies str
    ensures str[..] == Written(old(str[..]), Text(value, base))
    ensures base == 10 ==> Parsed(str[..], Int) == value
  {
    ParsePrinted(value, Int, ['\0'] + str[|Text(value, base)| + 1..]);
    TextThenRest(Text(value, base), str[..]);
    Print(value, str, base);
  }

  method Lltoa(value: int, str: array<char>, base: int)
    requires InRange(value, LongLong) && |Text(value, base)| < str.Length
    modifies str
    ensures str[..] == Written(old(str[..]), Text(value, base))
    ensures base == 10 ==> Parsed(str[..], LongLong) == value
  {
    ParsePrinted(value, LongLong, ['\0'] + str[|Text(value, base)| + 1..]);
    TextThenRest(Text(value, base), str[..]);
    Print(value, str, base);
  }

  method Utoa(value: nat, str: array<char>, base: nat)
    requires value < 0x1_0000_0000 && |Text(value, base)| < str.Length
    modifies str
    ensures str[..] == Written(old(str[..]), Text(value, base))
    ensures 2 <= base <= 36 ==> Eval(str[..|Text(value, base)|], base) == value
  {
    Print(value, str, base);
    if 2 <= base <= 36 {
      DigitsEvaluate(value, base);
      assert str[..|Text(value, base)|] == Text(value, base);
    }
  }

  lemma TextThenRest(text: string, was: string)
    requires |text| < |was|
    ensures Written(was, text) == text + (['\0'] + was[|text| + 1..])
  {
  }

  lemma DigitCounted(done: string, c: char, n: int, w: Width)
    requires IsDigit(c) && n == Wrap(-Eval(done, 10), w)
    ensures Wrap(10 * n - (c as int - '0' as int), w) == Wrap(-Eval(done + [c], 10), w)
  {
    var d := c as int - '0' as int;
    assert (done + [c])[..|done|] == done;
    assert Eval(done + [c], 10) == 10 * Eval(done, 10) + d;
    WrapStep(-Eval(done, 10), d, w);
  }

  // `done` of all the digits have been read, and `n` is their value, negated.
  ghost predicate Reading(all: string, done: string, rest: string, n: int, w: Width) {
    all == done + LeadingDigits(rest) && n == Wrap(-Eval(done, 10), w)
  }

  lemma DigitRead(all: string, done: string, rest: string, n: int, w: Width)
    requires Reading(all, done, rest, n, w) && rest != "" && IsDigit(rest[0])
    ensures Reading(all, done + [rest[0]], rest[1..], Wrap(10 * n - (rest[0] as int - '0' as int), w), w)
  {
    Regroup(done, rest[0], LeadingDigits(rest[1..]));
    DigitCounted(done, rest[0], n, w);
  }

  lemma AllRead(all: string, done: string, rest: string, n: int, w: Width)
    requires Reading(all, done, rest, n, w) && (rest == "" || !IsDigit(rest[0]))
    ensures n == Wrap(-Eval(all, 10), w)
  {
    assert done + "" == done;
  }

  // The digit loop: the value so far is kept negative.
  method ReadDigits(s: array<char>, start: nat, ghost z: nat, ghost all: string, w: Width) returns (n: int)
    requires start <= z < s.Length && s[z] == '\0' && all == LeadingDigits(s[start..])
    ensures n == Wrap(-Eval(all, 10), w)
  {
    ghost var done, rest := "", s[start..];
    var p := start;
    n := 0;
    assert "" + all == all;
    while IsDigit(s[p])
      invariant p <= z && rest == s[p..]
      invariant Reading(all, done, rest, n, w)
      decreases z - p
    {
      DigitRead(all, done, rest, n, w);
      n := Wrap(10 * n - (s[p] as int - '0' as int), w);
      done, rest := done + [s[p]], rest[1..];
      p := p + 1;
    }
    AllRead(all, done, rest, n, w);
  }

  method SkipSpaces(s: array<char>, ghost z: nat) returns (p: nat)
    requires z < s.Length && s[z] == '\0'
    ensures p <= z && s[p..] == AfterSpaces(s[..]) && !IsSpace(s[p])
  {
    p := 0;
    while IsSpace(s[p])
      invariant p <= z && AfterSpaces(s[p..]) == AfterSpaces(s[..])
      decreases z - p
    {
      p := p + 1;
    }
  }

  lemma SignApplied(s: string, t: string, n: int, w: Width)
    requires t == AfterSpaces(s) && n == Wrap(-Eval(LeadingDigits(AfterSign(t)), 10), w)
    ensures Parsed(s, w) == if HasMinus(t) then n else Wrap(-n, w)
  {
    WrapStep(-Eval(LeadingDigits(AfterSign(t)), 10), 0, w);
  }

  // The body atoi and atoll share.
  method Parse(s: array<char>, w: Width) returns (r: int)
    requires '\0' in s[..]
    ensures r == Parsed(s[..], w)
  {
    ghost var z: nat :| z < s.Length && s[z] == '\0';
    var p := SkipSpaces(s, z);
    ghost var t := s[p..];
    var neg := false;
    if s[p] == '-' || s[p] == '+' {
      neg := s[p] == '-';
      p := p + 1;
    }
    assert s[p..] == AfterSign(t);
    var n := ReadDigits(s, p, z, LeadingDigits(AfterSign(t)), w);
    SignApplied(s[..], t, n, w);
    return if neg then n else Wrap(-n, w);
  }

  method Atoi(s: array<char>) returns (r: int)
    requires '\0' in s[..]
    ensures r == Parsed(s[..], Int)
    ensures -0x8000_0000 <= Number(s[..]) < 0x8000_0000 ==> r == Number(s[..])
  {
    FittingParsed(s[..]);
    r := Parse(s, Int);
  }

  method Atoll(s: array<char>) returns (r: int)
    requires '\0' in s[..]
    ensures r == Parsed(s[..], LongLong)
    ensures -0x8000_0000_0000_0000 <= Number(s[..]) < 0x8000_0000_0000_0000 ==> r == Number(s[..])
  {
    FittingParsed(s[..]);
    r := Parse(s, LongLong);
  }
}
