// The process number that every switch writes at the bottom right of the screen
// (kernel/src/sys/proc.c, lines 191-194).
module StatusLine {
  import opened NumberModel
  import opened AnsiModel
  import opened TermModel
  import opened ScreenModel
  import opened ControlModel

  // ESC [ s, ESC [ 2 4 ; 7 8 H, ESC [ K, the number in base 10, ESC [ u.
  function Status(pid: nat): string {
    Sequence("", 's') + (Sequence("24;78", 'H') + (Sequence("", 'K') + (Text(pid, 10) + Sequence("", 'u'))))
  }

  // Between sequences, with the cursor on the screen and short of the edge.
  ghost predicate Ready(t: Term) {
    Sound(t) && t.ctx.mode == Normal && t.row < HEIGHT && t.column < WIDTH
  }

  // A sequence and its terminal afterwards.
  lemma SentOn(t: Term, ps: seq<string>, letter: char, body: string) returns (w: Term)
    requires Ready(t) && Sendable(t, ps) && IsAlpha(letter) && Join(ps) == body
    ensures Writable(t, Sequence(body, letter)) && w == Write(t, Sequence(body, letter)) == Sent(t, ps, letter)
    ensures Sound(w) && w.ctx.mode == Normal && Before(t, ps) == t
  {
    SentWritable(t, ps, letter);
    w := Sent(t, ps, letter);
    var u, args := SentObeys(t, ps, letter);
    BeforeExact(t, ps);
  }

  // The place noted, the cursor at row 24 and column 78, and the last two cells blank.
  ghost predicate Headed(t: Term, w: Term) {
    && Ready(w) && Sound(t) && w.row == 24 && w.column == 78 && w.color == t.color
    && w.savedRow == t.row && w.savedCol == t.column
    && forall y: nat, x: nat | y < 25 && x < 80 ::
         CellOf(w, y, x) == if y == 24 && x >= 78 then Cell(' ', t.color) else CellOf(t, y, x)
  }

  function Heading(): string {
    Sequence("", 's') + (Sequence("24;78", 'H') + Sequence("", 'K'))
  }

  lemma ParametersRead()
    ensures Decimal("") == 0 && Decimal("24") == 24 && Decimal("78") == 78 && Join(["24", "78"]) == "24;78"
  {
    assert "24"[..1] == "2" && "78"[..1] == "7";
    assert Eval("2", 10) == 2 && Eval("7", 10) == 7;
  }

  lemma HeadingWritten(t: Term) returns (w: Term)
    requires Ready(t)
    ensures Writable(t, Heading()) && w == Write(t, Heading()) && Headed(t, w)
  {
    ParametersRead();
    var t1 := SentOn(t, [""], 's', "");
    CursorSaved(t, [""]);
    var t2 := SentOn(t1, ["24", "78"], 'H', "24;78");
    CursorPlaced(t1, ["24", "78"], 'H');
    w := SentOn(t2, [""], 'K', "");
    LineErased(t2, [""]);
    WriteTwice(t1, Sequence("24;78", 'H'), Sequence("", 'K'));
    WriteTwice(t, Sequence("", 's'), Sequence("24;78", 'H') + Sequence("", 'K'));
  }

  // --- The digits --------------------------------------------------------------------------------------

  // The cursor after the line break due before a character, if one is.
  function Due(t: Term): Term
    requires |t.cells| == CELLS && t.row < HEIGHT
  {
    if t.column < WIDTH then t else Scrolled(At(t, t.row + 1, 0))
  }

  lemma CharPrinted(t: Term, c: char)
    requires Sound(t) && t.ctx.mode == Normal && t.row < HEIGHT && IsPrint(c)
    ensures InBounds(t.ctx, c) && PutChar(t, c) == PutNext(Due(t), c)
  {
    assert Placed(t, c) == Due(t);
    assert WithContext(Due(t), t.ctx) == Due(t);
  }

  lemma OneWritten(t: Term, c: char)
    requires Sound(t) && t.ctx.mode == Normal && t.row < HEIGHT && IsPrint(c)
    ensures Writable(t, [c]) && Write(t, [c]) == PutNext(Due(t), c)
  {
    CharPrinted(t, c);
    CharWritten(t, c);
  }

  // The number's digits after the heading: one leaves the cursor on the screen, two take it to the edge,
  // and the third breaks the line and with it scrolls the screen.
  lemma DigitsWritten(t: Term, d: string) returns (w: Term)
    requires Ready(t) && t.row == 24 && t.column == 78 && 1 <= |d| <= 3 && forall i | 0 <= i < |d| :: IsPrint(d[i])
    ensures Writable(t, d) && w == Write(t, d) && Sound(w) && w.ctx.mode == Normal
    ensures var one := PutAt(t, d[0], 78, 24);
      w == if |d| == 1 then At(one, 24, 79)
        else
          var two := PutAt(one, d[1], 79, 24);
          if |d| == 2 then At(two, 24, 80) else At(PutAt(Scroll(At(two, 25, 0)), d[2], 0, 24), 24, 1)
  {
    OneWritten(t, d[0]);
    w := Write(t, [d[0]]);
    if |d| == 1 {
      assert d == [d[0]];
    } else {
      var one := w;
      OneWritten(one, d[1]);
      w := Write(one, [d[1]]);
      WriteTwice(t, [d[0]], [d[1]]);
      if |d| == 2 {
        assert d == [d[0]] + [d[1]];
      } else {
        OneWritten(w, d[2]);
        WriteTwice(t, [d[0]] + [d[1]], [d[2]]);
        w := Write(w, [d[2]]);
        assert d == ([d[0]] + [d[1]]) + [d[2]];
      }
    }
  }

  // --- The whole ---------------------------------------------------------------------------------------

  // The cells with the number written, scrolled if it reaches the edge.
  function NumberCells(w: Term, d: string): (cells: seq<Cell>)
    requires |w.cells| == CELLS && d != ""
    ensures |cells| == CELLS
  {
    var one := PutAt(w, d[0], 78, 24);
    if |d| == 1 then one.cells
    else
      var scrolled := Scroll(At(PutAt(one, d[1], 79, 24), 25, 0));
      if |d| == 2 then scrolled.cells else PutAt(scrolled, d[2], 0, 24).cells
  }

  lemma NumberCellAt(t: Term, w: Term, d: string, y: nat, x: nat)
    requires Headed(t, w) && 1 <= |d| <= 3 && y < 25 && x < 80
    ensures NumberCells(w, d)[80 * y + x] == After(t, d, y, x)
  {
    if y < 24 {
      assert CellOf(w, y + 1, x) == if y + 1 == 24 && x >= 78 then Cell(' ', t.color) else CellOf(t, y + 1, x);
    }
    assert CellOf(w, y, x) == if y == 24 && x >= 78 then Cell(' ', t.color) else CellOf(t, y, x);
  }

  // What the number and the sequence after it make of a terminal w with the heading written: the cursor
  // is back where it was noted, and the line break due before the sequence has been made.
  lemma NumberWritten(w: Term, d: string) returns (v: Term)
    requires Ready(w) && w.row == 24 && w.column == 78 && 1 <= |d| <= 3 && forall i | 0 <= i < |d| :: IsPrint(d[i])
    ensures Writable(w, d + Sequence("", 'u')) && v == Write(w, d + Sequence("", 'u'))
    ensures v.ctx.mode == Normal && v.row == w.savedRow && v.column == w.savedCol && v.color == w.color
    ensures v.cells == NumberCells(w, d)
  {
    var u := DigitsWritten(w, d);
    assert Sendable(u, [""]) by {
      ParametersRead();
    }
    SentWritable(u, [""], 'u');
    v := Sent(u, [""], 'u');
    var ignored, args := SentObeys(u, [""], 'u');
    CursorSaved(u, [""]);
    BeforeExact(u, [""]);
    WriteTwice(w, d, Sequence("", 'u'));
  }

  // A number below 10 is all that changes on the screen, with the blank behind it, and the cursor is back
  // at its place. From 10 on, writing the number reaches the edge, so the screen is scrolled at every
  // switch: each row but the last shows what the row below it did, or the number, while the cursor is put
  // back to the row it was in.
  lemma StatusExact(t: Term, pid: nat)
    requires Ready(t) && pid < 1000
    ensures Writable(t, Status(pid))
    ensures var w, d := Write(t, Status(pid)), Text(pid, 10);
      && 1 <= |d| <= 3 && (|d| == 1 <==> pid < 10)
      && w.ctx.mode == Normal && w.row == t.row && w.column == t.column && w.color == t.color
      && forall y: nat, x: nat | y < 25 && x < 80 ::
           CellOf(w, y, x) == After(t, d, y, x)
  {
    NumberLength(pid);
    var d := Text(pid, 10);
    var h := HeadingWritten(t);
    var w := NumberWritten(h, d);
    WriteTwice(t, Heading(), d + Sequence("", 'u'));
    HeadingFirst(d + Sequence("", 'u'));
    forall y: nat, x: nat | y < 25 && x < 80 ensures CellOf(w, y, x) == After(t, d, y, x) {
      NumberCellAt(t, h, d, y, x);
    }
  }

  // What a place of the screen shows once the number's digits are written.
  function After(t: Term, d: string, y: nat, x: nat): Cell
    requires |t.cells| == CELLS && y < 25 && x < 80 && 1 <= |d| <= 3
  {
    if |d| == 1 then Below(t, d, y, x)
    else if y < 24 then Below(t, d, y + 1, x)
    else if |d| == 3 && x == 0 then Cell(d[2], t.color)
    else Cell(' ', t.color)
  }

  // The same before any scrolling.
  function Below(t: Term, d: string, y: nat, x: nat): Cell
    requires |t.cells| == CELLS && y < 25 && x < 80 && d != ""
  {
    if y < 24 || x < 78 then CellOf(t, y, x)
    else if x == 78 then Cell(d[0], t.color)
    else if |d| > 1 then Cell(d[1], t.color)
    else Cell(' ', t.color)
  }

  lemma HeadingFirst(rest: string)
    ensures Heading() + rest == Sequence("", 's') + (Sequence("24;78", 'H') + (Sequence("", 'K') + rest))
  {
  }

  lemma NumberLength(pid: nat)
    requires pid < 1000
    ensures var d := Text(pid, 10);
      1 <= |d| <= 3 && (|d| == 1 <==> pid < 10) && forall i | 0 <= i < |d| :: IsPrint(d[i])
  {
    DecimalDigits(pid);
    if pid >= 10 {
      assert Digits(pid, 10) == Digits(pid / 10, 10) + [Digit(pid % 10)];
      if pid >= 100 {
        assert Digits(pid / 10, 10) == Digits(pid / 100, 10) + [Digit(pid / 10 % 10)];
      }
    }
  }
}
