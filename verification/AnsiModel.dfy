// The escape-sequence interpreter's state machine, one character at a time, and the split-and-parse
// reading of a control sequence (ECMA-48, section 5.4) it agrees with.
module AnsiModel {
  import opened NumberModel

  const SIZE := 32 // ANSI_BUFFER_SIZE
  const ESC := 0x1B as char

  datatype Mode = Normal | Bracket | Params

  datatype Context = Context(mode: Mode, buf: string, args: seq<nat>, currentArg: nat, currentIndex: nat)

  // Pass: not part of a sequence. Swallow: part of one. Command: a sequence is complete, with the
  // argument slots and how many of them it filled.
  datatype Effect = Pass | Swallow | Command(letter: char, args: seq<nat>, count: nat)

  datatype Reaction = Reaction(ctx: Context, effect: Effect)

  predicate IsAlpha(c: char) {
    'A' <= c <= 'Z' || 'a' <= c <= 'z'
  }

  // A uint32_t slot takes atoi's int.
  function ToUnsigned(n: int): nat {
    n % 0x1_0000_0000
  }

  // Every reachable context: the counters are zero outside PARAMS, and what is buffered is digits.
  ghost predicate Ok(x: Context) {
    && |x.buf| == SIZE && |x.args| == SIZE && x.currentIndex <= SIZE && x.currentArg <= SIZE
    && (x.mode != Params ==> x.currentArg == 0 && x.currentIndex == 0)
    && forall i | 0 <= i < x.currentIndex :: IsDigit(x.buf[i])
  }

  // The next character does not write behind an array: a field being ended has room for its
  // terminator and a slot for its value.
  predicate InBounds(x: Context, c: char) {
    x.mode == Params && (c == ';' || IsAlpha(c)) ==> x.currentIndex < SIZE && x.currentArg < SIZE
  }

  function WithMode(x: Context, m: Mode): Context {
    Context(m, x.buf, x.args, x.currentArg, x.currentIndex)
  }

  function Reset(x: Context): Context {
    Context(Normal, x.buf, x.args, 0, 0)
  }

  // The field in the buffer is terminated, parsed and stored.
  function EndField(x: Context): Context
    requires x.currentIndex < |x.buf| && x.currentArg < |x.args|
  {
    var buf := x.buf[x.currentIndex := '\0'];
    Context(x.mode, buf, x.args[x.currentArg := ToUnsigned(Parsed(buf, Int))], x.currentArg + 1, x.currentIndex)
  }

  function NextField(x: Context): Context {
    Context(x.mode, x.buf, x.args, x.currentArg, 0)
  }

  function AddDigit(x: Context, c: char): Context
    requires x.currentIndex < |x.buf|
  {
    Context(x.mode, x.buf[x.currentIndex := c], x.args, x.currentArg, x.currentIndex + 1)
  }

  function React(x: Context, c: char): Reaction
    requires |x.buf| == SIZE && |x.args| == SIZE && InBounds(x, c)
  {
    match x.mode
    case Normal => if c == ESC then Reaction(WithMode(x, Bracket), Swallow) else Reaction(x, Pass)
    case Bracket =>
      if c == '[' then Reaction(WithMode(x, Params), Swallow) else Reaction(WithMode(x, Normal), Pass)
    case Params =>
      if c == ';' then Reaction(NextField(EndField(x)), Swallow)
      else if IsDigit(c) then
        if x.currentIndex >= SIZE then Reaction(Reset(x), Swallow) else Reaction(AddDigit(x, c), Swallow)
      else if IsAlpha(c) then
        var y := EndField(x);
        Reaction(Reset(y), Command(c, y.args, y.currentArg))
      else Reaction(x, Swallow)
  }

  lemma ReactOk(x: Context, c: char)
    requires Ok(x) && InBounds(x, c)
    ensures Ok(React(x, c).ctx)
  {
  }

  // --- Runs of characters ------------------------------------------------------------------------------

  ghost predicate Safe(x: Context, s: string)
    requires Ok(x)
    decreases |s|
  {
    s == "" || (InBounds(x, s[0]) && (ReactOk(x, s[0]); Safe(React(x, s[0]).ctx, s[1..])))
  }

  ghost function After(x: Context, s: string): (y: Context)
    requires Ok(x) && Safe(x, s)
    ensures Ok(y)
    decreases |s|
  {
    if s == "" then x else (ReactOk(x, s[0]); After(React(x, s[0]).ctx, s[1..]))
  }

  ghost function Effects(x: Context, s: string): (es: seq<Effect>)
    requires Ok(x) && Safe(x, s)
    ensures |es| == |s|
    decreases |s|
  {
    if s == "" then [] else (ReactOk(x, s[0]); [React(x, s[0]).effect] + Effects(React(x, s[0]).ctx, s[1..]))
  }

  // --- Split and parse ---------------------------------------------------------------------------------

  // The fields of a parameter string: split at semicolons, other characters than digits left out.
  function Fields(body: string): (fs: seq<string>)
    ensures |fs| >= 1
  {
    if body == "" then [""]
    else
      var rest := Fields(body[1..]);
      if body[0] == ';' then [""] + rest
      else if IsDigit(body[0]) then [[body[0]] + rest[0]] + rest[1..]
      else rest
  }

  function Join(ps: seq<string>): string
    requires ps != []
  {
    if |ps| == 1 then ps[0] else ps[0] + [';'] + Join(ps[1..])
  }

  lemma {:induction false} FieldsOfDigits(p: string, rest: string)
    requires AllDigits(p)
    ensures Fields(p + rest) == [p + Fields(rest)[0]] + Fields(rest)[1..]
  {
    if p == "" {
      assert p + rest == rest && p + Fields(rest)[0] == Fields(rest)[0];
    } else {
      assert (p + rest)[1..] == p[1..] + rest;
      FieldsOfDigits(p[1..], rest);
      assert [p[0]] + (p[1..] + Fields(rest)[0]) == p + Fields(rest)[0];
    }
  }

  // Splitting undoes joining.
  lemma {:induction false} FieldsOfJoin(ps: seq<string>)
    requires ps != [] && forall i | 0 <= i < |ps| :: AllDigits(ps[i])
    ensures Fields(Join(ps)) == ps
    decreases |ps|
  {
    if |ps| == 1 {
      FieldsOfDigits(ps[0], "");
      assert ps[0] + "" == ps[0];
    } else {
      FieldsOfJoin(ps[1..]);
      var rest := [';'] + Join(ps[1..]);
      assert rest[1..] == Join(ps[1..]);
      FieldsOfDigits(ps[0], rest);
      assert Join(ps) == ps[0] + rest;
      assert Fields(rest) == [""] + ps[1..];
      assert ps[0] + "" == ps[0];
    }
  }

  // What a field of digits means in a slot.
  function Value(f: string): nat {
    ToUnsigned(Wrap(Eval(f, 10), Int))
  }

  function Filled(args: seq<nat>, at: nat, fields: seq<string>): seq<nat>
    requires at + |fields| <= |args|
    decreases |fields|
  {
    if fields == [] then args else Filled(args[at := Value(fields[0])], at + 1, fields[1..])
  }

  lemma FieldEnded(x: Context)
    requires Ok(x) && x.currentIndex < SIZE && x.currentArg < SIZE
    ensures EndField(x).args == x.args[x.currentArg := Value(x.buf[..x.currentIndex])]
  {
    var buf, i := x.buf[x.currentIndex := '\0'], x.currentIndex;
    assert buf == buf[..i] + buf[i..] && buf[..i] == x.buf[..i] && buf[i..][0] == '\0';
    if i == 0 {
      NumberAt(buf);
    } else {
      PositiveRead(buf[..i], buf[i..]);
    }
  }

  // The fields still to come, the first continuing what is in the buffer.
  ghost function Pending(x: Context, body: string): seq<string>
    requires Ok(x)
  {
    [x.buf[..x.currentIndex] + Fields(body)[0]] + Fields(body)[1..]
  }

  // Room for them: a slot each, and each with its terminator in the buffer.
  ghost predicate Room(x: Context, body: string)
    requires Ok(x)
  {
    x.currentArg + |Pending(x, body)| <= SIZE && forall i | 0 <= i < |Pending(x, body)| :: |Pending(x, body)[i]| < SIZE
  }

  predicate NoLetters(body: string) {
    forall i | 0 <= i < |body| :: !IsAlpha(body[i])
  }

  // Reading one character of the parameters keeps what the slots will hold in the end.
  ghost predicate Onward(x: Context, body: string, y: Context)
    requires Ok(x) && body != ""
  {
    && Ok(y) && y.mode == Params && Room(x, body) && Room(y, body[1..])
    && y.currentArg + |Pending(y, body[1..])| == x.currentArg + |Pending(x, body)|
    && Filled(y.args, y.currentArg, Pending(y, body[1..])) == Filled(x.args, x.currentArg, Pending(x, body))
  }

  lemma FilledFirst(args: seq<nat>, at: nat, f: string, rest: seq<string>)
    requires at + 1 + |rest| <= |args|
    ensures Filled(args, at, [f] + rest) == Filled(args[at := Value(f)], at + 1, rest)
  {
  }

  lemma PendingAtSeparator(x: Context, body: string)
    requires Ok(x) && body != "" && body[0] == ';'
    ensures Pending(x, body) == [x.buf[..x.currentIndex]] + Fields(body[1..])
  {
    assert x.buf[..x.currentIndex] + "" == x.buf[..x.currentIndex];
  }

  lemma PendingAfresh(x: Context, body: string)
    requires Ok(x) && x.currentIndex == 0
    ensures Pending(x, body) == Fields(body)
  {
    assert "" + Fields(body)[0] == Fields(body)[0];
  }

  lemma SeparatorStep(x: Context, body: string)
    requires Ok(x) && x.mode == Params && body != "" && body[0] == ';' && Room(x, body)
    ensures InBounds(x, ';') && React(x, ';').effect == Swallow && Onward(x, body, React(x, ';').ctx)
  {
    var cur, rest, all := x.buf[..x.currentIndex], Fields(body[1..]), Pending(x, body);
    PendingAtSeparator(x, body);
    assert |all[0]| < SIZE;
    FieldEnded(x);
    var y := React(x, ';').ctx;
    assert y.args == x.args[x.currentArg := Value(cur)];
    PendingAfresh(y, body[1..]);
    FilledFirst(x.args, x.currentArg, cur, rest);
    forall i | 0 <= i < |rest| ensures |rest[i]| < SIZE {
      assert rest[i] == all[i + 1];
    }
  }

  lemma DigitStep(x: Context, body: string)
    requires Ok(x) && x.mode == Params && body != "" && IsDigit(body[0]) && Room(x, body)
    ensures React(x, body[0]).effect == Swallow && Onward(x, body, React(x, body[0]).ctx)
  {
    var cur, rest, c := x.buf[..x.currentIndex], Fields(body[1..]), body[0];
    assert |Pending(x, body)[0]| < SIZE;
    var y := React(x, c).ctx;
    assert y.buf[..y.currentIndex] == cur + [c];
    assert (cur + [c]) + rest[0] == cur + ([c] + rest[0]);
    assert Pending(y, body[1..]) == Pending(x, body);
  }

  // One character of the parameters.
  lemma BodyStep(x: Context, body: string)
    requires Ok(x) && x.mode == Params && body != "" && !IsAlpha(body[0]) && Room(x, body)
    ensures InBounds(x, body[0])
    ensures React(x, body[0]).effect == Swallow && Onward(x, body, React(x, body[0]).ctx)
  {
    if body[0] == ';' {
      SeparatorStep(x, body);
    } else if IsDigit(body[0]) {
      DigitStep(x, body);
    }
  }

  // What a parameter string and a letter do from inside the parameters.
  lemma {:induction false} BodyRuns(x: Context, body: string, letter: char)
    requires Ok(x) && x.mode == Params && NoLetters(body) && IsAlpha(letter) && Room(x, body)
    ensures Safe(x, body + [letter])
    ensures var y, es := After(x, body + [letter]), Effects(x, body + [letter]);
      && y.mode == Normal && y.currentArg == 0 && y.currentIndex == 0
      && y.args == Filled(x.args, x.currentArg, Pending(x, body))
      && (forall i | 0 <= i < |body| :: es[i] == Swallow)
      && es[|body|] == Command(letter, y.args, x.currentArg + |Pending(x, body)|)
    decreases |body|
  {
    var s := body + [letter];
    if body == "" {
      var cur := x.buf[..x.currentIndex];
      assert cur + "" == cur && Pending(x, body) == [cur];
      assert |Pending(x, body)[0]| < SIZE;
      FieldEnded(x);
      assert s[1..] == "";
    } else {
      BodyStep(x, body);
      assert s[1..] == body[1..] + [letter];
      BodyRuns(React(x, body[0]).ctx, body[1..], letter);
    }
  }

  lemma {:induction false} FilledAt(args: seq<nat>, at: nat, fields: seq<string>, i: nat)
    requires at + |fields| <= |args| && i < |args|
    ensures |Filled(args, at, fields)| == |args|
    ensures Filled(args, at, fields)[i] == if at <= i < at + |fields| then Value(fields[i - at]) else args[i]
    decreases |fields|
  {
    if fields != [] {
      FilledAt(args[at := Value(fields[0])], at + 1, fields[1..], i);
    }
  }

  // ESC [ body letter.
  function Sequence(body: string, letter: char): string {
    [ESC, '['] + (body + [letter])
  }

  lemma FirstTaken(x: Context, c: char, rest: string)
    requires Ok(x) && InBounds(x, c)
    ensures Ok(React(x, c).ctx)
    ensures Safe(x, [c] + rest) <==> Safe(React(x, c).ctx, rest)
    ensures Safe(x, [c] + rest) ==>
      var y := React(x, c).ctx;
      After(x, [c] + rest) == After(y, rest) && Effects(x, [c] + rest) == [React(x, c).effect] + Effects(y, rest)
  {
  }

  // The whole of s is taken in, its last character hands over the letter with these slots, and the
  // machine is back in NORMAL with its counters at zero.
  ghost predicate Dispatches(x: Context, s: string, letter: char, args: seq<nat>, count: nat)
    requires Ok(x)
  {
    && Safe(x, s) && s != ""
    && After(x, s) == Context(Normal, After(x, s).buf, args, 0, 0)
    && (forall i | 0 <= i < |s| - 1 :: Effects(x, s)[i] == Swallow)
    && Effects(x, s)[|s| - 1] == Command(letter, args, count)
  }

  // A control sequence from NORMAL, with at most 32 fields of at most 31 digits, fills one slot a field.
  lemma SequenceTaken(x: Context, body: string, letter: char)
    requires Ok(x) && x.mode == Normal && NoLetters(body) && IsAlpha(letter)
    requires |Fields(body)| <= SIZE && forall i | 0 <= i < |Fields(body)| :: |Fields(body)[i]| < SIZE
    ensures Dispatches(x, Sequence(body, letter), letter, Filled(x.args, 0, Fields(body)), |Fields(body)|)
  {
    var rest, y := body + [letter], WithMode(x, Bracket);
    var z := WithMode(x, Params);
    PendingAfresh(z, body);
    BodyRuns(z, body, letter);
    FirstTaken(y, '[', rest);
    FirstTaken(x, ESC, ['['] + rest);
    assert Sequence(body, letter) == [ESC] + (['['] + rest);
  }

  lemma {:induction false} JoinHasNoLetters(ps: seq<string>)
    requires ps != [] && forall i | 0 <= i < |ps| :: AllDigits(ps[i])
    ensures NoLetters(Join(ps))
    decreases |ps|
  {
    if |ps| > 1 {
      JoinHasNoLetters(ps[1..]);
    }
  }

  // ESC [ p1 ; ... ; pk letter dispatches exactly the decimal values of the parameters, an empty one
  // meaning 0; the slots after them keep what earlier sequences left there.
  lemma ParserAgrees(x: Context, ps: seq<string>, letter: char) returns (args: seq<nat>)
    requires Ok(x) && x.mode == Normal && IsAlpha(letter) && 1 <= |ps| <= SIZE
    requires forall i | 0 <= i < |ps| :: AllDigits(ps[i]) && |ps[i]| < SIZE && Eval(ps[i], 10) < Half(Int)
    ensures Dispatches(x, Sequence(Join(ps), letter), letter, args, |ps|)
    ensures |args| == SIZE
    ensures forall i | 0 <= i < |ps| :: args[i] == Eval(ps[i], 10)
    ensures forall i | |ps| <= i < SIZE :: args[i] == x.args[i]
  {
    FieldsOfJoin(ps);
    JoinHasNoLetters(ps);
    SequenceTaken(x, Join(ps), letter);
    args := Filled(x.args, 0, ps);
    FilledAt(x.args, 0, ps, 0);
    forall i | 0 <= i < SIZE ensures args[i] == if i < |ps| then Eval(ps[i], 10) else x.args[i] {
      FilledAt(x.args, 0, ps, i);
      if i < |ps| {
        SmallValue(ps[i]);
      }
    }
  }

  lemma SmallValue(p: string)
    requires AllDigits(p) && Eval(p, 10) < Half(Int)
    ensures Value(p) == Eval(p, 10)
  {
    EvalGrows(p, 0);
    WrapIs(Eval(p, 10), Eval(p, 10), 0, Int);
  }

  // --- Where the arrays end ----------------------------------------------------------------------------

  // The fields that get ended: those before the first with 33 digits or more, whose 33rd digit makes the
  // machine give the sequence up.
  function Ended(fields: seq<string>): (k: nat)
    ensures k <= |fields| && (forall i | 0 <= i < k :: |fields[i]| <= SIZE) && (k < |fields| ==> |fields[k]| > SIZE)
  {
    if fields == [] || |fields[0]| > SIZE then 0 else 1 + Ended(fields[1..])
  }

  // Each of them has a slot and, with its terminator, room in the buffer.
  predicate EndedFit(currentArg: nat, fields: seq<string>) {
    currentArg + Ended(fields) <= SIZE && forall i | 0 <= i < Ended(fields) :: |fields[i]| < SIZE
  }

  predicate NoEscape(s: string) {
    forall i | 0 <= i < |s| :: s[i] != ESC
  }

  // Ordinary text never writes to the arrays.
  lemma {:induction false} TextIsSafe(x: Context, s: string)
    requires Ok(x) && x.mode == Normal && NoEscape(s)
    ensures Safe(x, s)
    decreases |s|
  {
    if s != "" {
      TextIsSafe(React(x, s[0]).ctx, s[1..]);
    }
  }

  lemma EndedFirst(fields: seq<string>, currentArg: nat)
    requires fields != [] && |fields[0]| <= SIZE
    ensures EndedFit(currentArg, fields) <==> |fields[0]| < SIZE && EndedFit(currentArg + 1, fields[1..])
  {
    assert Ended(fields) == 1 + Ended(fields[1..]);
    assert forall i | 1 <= i < |fields| :: fields[i] == fields[1..][i - 1];
  }

  // One character that neither overruns nor gives up leaves the same fields to be ended.
  lemma FitStep(x: Context, body: string)
    requires Ok(x) && x.mode == Params && body != "" && !IsAlpha(body[0]) && InBounds(x, body[0])
    requires IsDigit(body[0]) ==> x.currentIndex < SIZE
    ensures var y := React(x, body[0]).ctx;
      && Ok(y) && y.mode == Params
      && (EndedFit(x.currentArg, Pending(x, body)) <==> EndedFit(y.currentArg, Pending(y, body[1..])))
  {
    var y, all := React(x, body[0]).ctx, Pending(x, body);
    if body[0] == ';' {
      PendingAtSeparator(x, body);
      PendingAfresh(y, body[1..]);
      EndedFirst(all, x.currentArg);
      assert all[1..] == Fields(body[1..]);
    } else if IsDigit(body[0]) {
      var cur, rest := x.buf[..x.currentIndex], Fields(body[1..]);
      assert y.buf[..y.currentIndex] == cur + [body[0]];
      assert (cur + [body[0]]) + rest[0] == cur + ([body[0]] + rest[0]);
      assert Pending(y, body[1..]) == all;
    }
  }

  lemma LetterFits(x: Context, letter: char)
    requires Ok(x) && x.mode == Params && IsAlpha(letter)
    ensures Safe(x, [letter]) <==> EndedFit(x.currentArg, Pending(x, ""))
  {
    var cur := x.buf[..x.currentIndex];
    assert cur + "" == cur && Pending(x, "") == [cur];
    EndedFirst([cur], x.currentArg);
    assert [letter][1..] == "";
  }

  // The rest of a control sequence without ESC stays inside the arrays exactly when every field that is
  // ended has at most 31 digits and a slot.
  lemma {:induction false} OverrunExactly(x: Context, body: string, letter: char)
    requires Ok(x) && x.mode == Params && NoLetters(body) && NoEscape(body) && IsAlpha(letter)
    ensures Safe(x, body + [letter]) <==> EndedFit(x.currentArg, Pending(x, body))
    decreases |body|
  {
    var s := body + [letter];
    if body == "" {
      LetterFits(x, letter);
      assert s == [letter];
    } else {
      assert s[1..] == body[1..] + [letter];
      if IsDigit(body[0]) && x.currentIndex >= SIZE {
        TextIsSafe(Reset(x), s[1..]);
      } else if body[0] == ';' && !InBounds(x, ';') {
        PendingAtSeparator(x, body);
        EndedFirst(Pending(x, body), x.currentArg);
      } else {
        FitStep(x, body);
        OverrunExactly(React(x, body[0]).ctx, body[1..], letter);
      }
    }
  }

  // The same for a whole sequence, from ordinary text.
  lemma SequenceOverrunsExactly(x: Context, body: string, letter: char)
    requires Ok(x) && x.mode == Normal && NoLetters(body) && NoEscape(body) && IsAlpha(letter)
    ensures Safe(x, Sequence(body, letter)) <==> EndedFit(0, Fields(body))
  {
    var rest, y := body + [letter], WithMode(x, Bracket);
    PendingAfresh(WithMode(x, Params), body);
    OverrunExactly(WithMode(x, Params), body, letter);
    FirstTaken(y, '[', rest);
    FirstTaken(x, ESC, ['['] + rest);
    assert Sequence(body, letter) == [ESC] + (['['] + rest);
  }

  lemma DigitsAreNoLetters(p: string)
    requires AllDigits(p)
    ensures NoLetters(p) && NoEscape(p)
  {
  }

  // One parameter overruns the buffer when it has exactly 32 digits: with 33 the sequence is given up.
  lemma OneFieldOverruns(x: Context, p: string, letter: char)
    requires Ok(x) && x.mode == Normal && IsAlpha(letter) && AllDigits(p)
    ensures Safe(x, Sequence(p, letter)) <==> |p| != SIZE
  {
    DigitsAreNoLetters(p);
    SequenceOverrunsExactly(x, p, letter);
    FieldsOfJoin([p]);
    if |p| <= SIZE {
      EndedFirst([p], 0);
    }
  }

  lemma {:induction false} AllEnded(fields: seq<string>)
    requires forall i | 0 <= i < |fields| :: |fields[i]| < SIZE
    ensures Ended(fields) == |fields|
    decreases |fields|
  {
    if fields != [] {
      AllEnded(fields[1..]);
    }
  }

  lemma {:induction false} JoinHasNoEscape(ps: seq<string>)
    requires ps != [] && forall i | 0 <= i < |ps| :: AllDigits(ps[i])
    ensures NoEscape(Join(ps))
    decreases |ps|
  {
    if |ps| > 1 {
      JoinHasNoEscape(ps[1..]);
    }
  }

  // Short parameters overrun the slots when there are more than 32 of them.
  lemma ManyFieldsOverrun(x: Context, ps: seq<string>, letter: char)
    requires Ok(x) && x.mode == Normal && IsAlpha(letter) && ps != []
    requires forall i | 0 <= i < |ps| :: AllDigits(ps[i]) && |ps[i]| < SIZE
    ensures Safe(x, Sequence(Join(ps), letter)) <==> |ps| <= SIZE
  {
    JoinHasNoLetters(ps);
    JoinHasNoEscape(ps);
    SequenceOverrunsExactly(x, Join(ps), letter);
    FieldsOfJoin(ps);
    AllEnded(ps);
  }

  // The shortest inputs that overrun: ESC [ with 32 digits and m, and with 33 empty parameters and m.
  lemma OverrunsAt(x: Context)
    requires Ok(x) && x.mode == Normal
    ensures !Safe(x, Sequence(seq(32, _ => '1'), 'm'))
    ensures !Safe(x, Sequence(Join(seq(33, _ => "")), 'm'))
  {
    OneFieldOverruns(x, seq(32, _ => '1'), 'm');
    ManyFieldsOverrun(x, seq(33, _ => ""), 'm');
  }

  // Reading s from x comes down to reading its end `rest` from y.
  ghost predicate Leads(x: Context, s: string, y: Context, rest: string)
    requires Ok(x) && Ok(y)
  {
    (Safe(x, s) <==> Safe(y, rest)) && (Safe(x, s) ==> After(x, s) == After(y, rest))
  }

  lemma {:induction false} DigitsBuffered(x: Context, p: string, rest: string) returns (y: Context)
    requires Ok(x) && x.mode == Params && AllDigits(p) && x.currentIndex + |p| <= SIZE
    ensures Ok(y) && y.mode == Params && y.currentIndex == x.currentIndex + |p|
    ensures y.args == x.args && y.currentArg == x.currentArg && Leads(x, p + rest, y, rest)
    decreases |p|
  {
    if p == "" {
      assert p + rest == rest;
      y := x;
    } else {
      assert p + rest == [p[0]] + (p[1..] + rest);
      FirstTaken(x, p[0], p[1..] + rest);
      y := DigitsBuffered(React(x, p[0]).ctx, p[1..], rest);
    }
  }

  // The 33rd digit of a parameter ends the sequence without a command: what follows it is read as text.
  lemma SequenceGivenUp(x: Context, p: string, rest: string) returns (y: Context)
    requires Ok(x) && x.mode == Normal && AllDigits(p) && |p| == 33
    ensures Ok(y) && y.mode == Normal && y.currentArg == 0 && y.currentIndex == 0 && y.args == x.args
    ensures Leads(x, [ESC, '['] + (p + rest), y, rest)
  {
    var d := p[32];
    var full := DigitsBuffered(WithMode(x, Params), p[..32], [d] + rest);
    y := Reset(full);
    assert p + rest == p[..32] + ([d] + rest);
    FirstTaken(full, d, rest);
    FirstTaken(WithMode(x, Bracket), '[', p + rest);
    FirstTaken(x, ESC, ['['] + (p + rest));
    assert [ESC, '['] + (p + rest) == [ESC] + (['['] + (p + rest));
  }
}
