// What each control sequence does to the terminal when its characters are written, by rows, columns,
// cells and colour (ECMA-48, section 8.3).
module ControlModel {
  import opened NumberModel
  import opened AnsiModel
  import opened TermModel
  import opened ScreenModel

  // The number a parameter stands for, 0 for an empty one.
  function Decimal(p: string): nat
    requires AllDigits(p)
  {
    EvalGrows(p, |p|);
    assert p[..|p|] == p;
    Eval(p, 10)
  }

  // The parameters as numbers.
  function Decimals(ps: seq<string>): (ns: seq<nat>)
    requires forall i | 0 <= i < |ps| :: AllDigits(ps[i])
    ensures |ns| == |ps| && forall i | 0 <= i < |ps| :: ns[i] == Decimal(ps[i])
  {
    if ps == [] then [] else [Decimal(ps[0])] + Decimals(ps[1..])
  }

  // Between sequences, with parameters that fit the interpreter's arrays and its integers.
  ghost predicate Sendable(t: Term, ps: seq<string>) {
    && Sound(t) && t.ctx.mode == Normal && 1 <= |ps| <= SIZE
    && forall i | 0 <= i < |ps| :: AllDigits(ps[i]) && |ps[i]| < SIZE && Decimal(ps[i]) < 0x8000_0000
  }

  // The terminal after ESC [ p1 ; ... ; pk letter.
  ghost function Sent(t: Term, ps: seq<string>, letter: char): Term
    requires Sendable(t, ps) && IsAlpha(letter)
  {
    SentWritable(t, ps, letter);
    Write(t, Sequence(Join(ps), letter))
  }

  lemma SentWritable(t: Term, ps: seq<string>, letter: char)
    requires Sendable(t, ps) && IsAlpha(letter)
    ensures Writable(t, Sequence(Join(ps), letter))
  {
    var args := SequenceObeyed(t, ps, letter);
  }

  // The terminal that the command finds: the line breaks due before any characters have been made.
  function Before(t: Term, ps: seq<string>): (u: Term)
    requires |t.cells| == CELLS && ps != []
    ensures |u.cells| == CELLS
  {
    Settled(t, |Join(ps)| + 3)
  }

  // On the screen and short of the edge none are; at the edge, it is one.
  lemma {:induction false} BeforeExact(t: Term, ps: seq<string>)
    requires |t.cells| == CELLS && ps != [] && t.row < HEIGHT
    ensures t.column < WIDTH ==> Before(t, ps) == t
    ensures t.column >= WIDTH ==> Before(t, ps) == Scrolled(At(t, t.row + 1, 0))
  {
    var n := |Join(ps)| + 3;
    if t.column < WIDTH {
      SettledOnScreen(t, n);
    } else {
      SettledOnScreen(Scrolled(At(t, t.row + 1, 0)), n - 1);
    }
  }

  // Parameter k: as written, else what an earlier sequence left in its slot.
  function Param(t: Term, ps: seq<string>, k: nat): nat
    requires |t.ctx.args| == SIZE && k < SIZE && forall i | 0 <= i < |ps| :: AllDigits(ps[i])
  {
    if k < |ps| then Decimal(ps[k]) else t.ctx.args[k]
  }

  lemma SentObeys(t: Term, ps: seq<string>, letter: char) returns (u: Term, args: seq<nat>)
    requires Sendable(t, ps) && IsAlpha(letter)
    ensures u == WithContext(Before(t, ps), u.ctx) && |u.cells| == CELLS && u.ctx.mode == Normal
    ensures |args| == SIZE && forall k | 0 <= k < SIZE :: args[k] == Param(t, ps, k)
    ensures Sent(t, ps, letter) == Obey(u, letter, args, |ps|)
  {
    args := SequenceObeyed(t, ps, letter);
    var s := Sequence(Join(ps), letter);
    assert |s| == |Join(ps)| + 3;
    u := WithContext(Before(t, ps), After(t.ctx, s));
  }

  // w is u but for the cursor and the interpreter's context.
  ghost predicate MovedTo(u: Term, w: Term, row: nat, column: nat) {
    && w.row == row && w.column == column
    && w.cells == u.cells && w.color == u.color && w.address == u.address
    && w.savedRow == u.savedRow && w.savedCol == u.savedCol
  }

  // A, B, C and D move the cursor up, down, right and left by the parameter, modulo 2^32.
  lemma CursorMoved(t: Term, ps: seq<string>, letter: char)
    requires Sendable(t, ps) && letter in "ABCD"
    ensures var u, w, n := Before(t, ps), Sent(t, ps, letter), Decimal(ps[0]);
      && (letter == 'A' ==> MovedTo(u, w, (u.row - n) % 0x1_0000_0000, u.column))
      && (letter == 'B' ==> MovedTo(u, w, (u.row + n) % 0x1_0000_0000, u.column))
      && (letter == 'C' ==> MovedTo(u, w, u.row, (u.column + n) % 0x1_0000_0000))
      && (letter == 'D' ==> MovedTo(u, w, u.row, (u.column - n) % 0x1_0000_0000))
  {
    var u, args := SentObeys(t, ps, letter);
    assert args[0] == Param(t, ps, 0);
  }

  // H and f put the cursor at the row and the column given, which is left over with one parameter.
  lemma CursorPlaced(t: Term, ps: seq<string>, letter: char)
    requires Sendable(t, ps) && letter in "Hf"
    ensures MovedTo(Before(t, ps), Sent(t, ps, letter), Decimal(ps[0]),
      if |ps| >= 2 then Decimal(ps[1]) else t.ctx.args[1])
  {
    var u, args := SentObeys(t, ps, letter);
    assert args[0] == Param(t, ps, 0) && args[1] == Param(t, ps, 1);
  }

  // With one parameter, H moves to a column that an earlier sequence left in the second slot.
  lemma ColumnLeftOver(t: Term, row: string)
    requires AllDigits(row) && Sendable(t, [row])
    ensures var s := Sequence(row, 'H');
      Writable(t, s) && Write(t, s).row == Decimal(row) && Write(t, s).column == t.ctx.args[1]
  {
    assert Join([row]) == row;
    SentWritable(t, [row], 'H');
    CursorPlaced(t, [row], 'H');
  }

  // s notes the cursor's place, and u goes back to the place noted.
  lemma CursorSaved(t: Term, ps: seq<string>)
    requires Sendable(t, ps)
    ensures var u, w := Before(t, ps), Sent(t, ps, 's');
      && w.savedRow == u.row && w.savedCol == u.column && w.row == u.row && w.column == u.column
      && w.cells == u.cells && w.color == u.color && w.address == u.address
    ensures var u, w := Before(t, ps), Sent(t, ps, 'u'); MovedTo(u, w, u.savedRow, u.savedCol)
  {
    var u, args := SentObeys(t, ps, 's');
    u, args := SentObeys(t, ps, 'u');
  }

  // K blanks the cursor's row from the cursor on, in the writing colour, and nothing else.
  lemma LineErased(t: Term, ps: seq<string>)
    requires Sendable(t, ps)
    ensures var u, w := Before(t, ps), Sent(t, ps, 'K');
      && (forall y: nat, x: nat | y < HEIGHT && x < WIDTH ::
           CellOf(w, y, x) == if y == u.row && x >= u.column then Cell(' ', u.color) else CellOf(u, y, x))
      && MovedTo(WithCells(u, w.cells), w, u.row, u.column)
  {
    var u, args := SentObeys(t, ps, 'K');
    ErasedExactly(u, u.column);
    var w := Sent(t, ps, 'K');
    forall y: nat, x: nat | y < HEIGHT && x < WIDTH
      ensures CellOf(w, y, x) == if y == u.row && x >= u.column then Cell(' ', u.color) else CellOf(u, y, x)
    {
      var i := WIDTH * y + x;
      assert i / WIDTH == y && i % WIDTH == x;
    }
  }

  // J with 2 blanks every cell in the old colour, and leaves the cursor at the top left, white on black
  // and the memory's physical address; with another parameter it does nothing.
  lemma ScreenCleared(t: Term, ps: seq<string>)
    requires Sendable(t, ps)
    ensures var u, w := Before(t, ps), Sent(t, ps, 'J');
      if Decimal(ps[0]) == 2 then
        && (forall y: nat, x: nat | y < HEIGHT && x < WIDTH :: CellOf(w, y, x) == Cell(' ', u.color))
        && w.row == 0 && w.column == 0 && w.color == 15 && w.address == 0xB_8000
        && w.savedRow == u.savedRow && w.savedCol == u.savedCol
      else MovedTo(u, w, u.row, u.column)
  {
    var u, args := SentObeys(t, ps, 'J');
    assert args[0] == Param(t, ps, 0);
  }

  lemma ColorSent(t: Term, ps: seq<string>)
    requires Sendable(t, ps)
    ensures var u, w := Before(t, ps), Sent(t, ps, 'm');
      w.color == Graphics(u.color, Decimals(ps)) && MovedTo(WithColor(u, w.color), w, u.row, u.column)
  {
    var u, args := SentObeys(t, ps, 'm');
    assert args[..|ps|] == Decimals(ps);
  }

  // m renders the parameters as a list of codes, and changes the colour only.
  lemma ColorSet(t: Term, ps: seq<string>)
    requires Sendable(t, ps)
    ensures Rendered(Before(t, ps).color, Decimals(ps), Sent(t, ps, 'm').color)
    ensures var u, w := Before(t, ps), Sent(t, ps, 'm'); MovedTo(WithColor(u, w.color), w, u.row, u.column)
  {
    ColorSent(t, ps);
    GraphicsExact(Before(t, ps).color, Decimals(ps), Sent(t, ps, 'm').color);
  }

  // No other letter does anything.
  lemma OthersIgnored(t: Term, ps: seq<string>, letter: char)
    requires Sendable(t, ps) && IsAlpha(letter) && letter !in "ABCDHfsuKJm"
    ensures var u := Before(t, ps); MovedTo(u, Sent(t, ps, letter), u.row, u.column)
  {
    var u, args := SentObeys(t, ps, letter);
  }

  // The page-fault handler's ESC [ 3 7 ; 4 4 m: white on blue, whatever the colour was.
  lemma WhiteOnBlue(t: Term)
    requires Sendable(t, ["37", "44"])
    ensures Sent(t, ["37", "44"], 'm').color == 0x1F
  {
    ColorSent(t, ["37", "44"]);
    assert Decimals(["37", "44"]) == [37, 44] by {
      assert "37"[..1] == "3" && "44"[..1] == "4";
      assert Eval("3", 10) == 3 && Eval("4", 10) == 4;
    }
    var c := Before(t, ["37", "44"]).color;
    assert Graphics(c, [37, 44]) == Graphics(Rendition(c, 37), [44]);
    assert Graphics(Rendition(c, 37), [44]) == Rendition(Rendition(c, 37), 44);
  }

  lemma {:induction false} WriteTwice(t: Term, a: string, b: string)
    requires Sound(t) && Writable(t, a) && Writable(Write(t, a), b)
    ensures Writable(t, a + b) && Write(t, a + b) == Write(Write(t, a), b)
    decreases |a|
  {
    if a == "" {
      assert a + b == b;
    } else {
      PutCharSound(t, a[0]);
      assert (a + b)[1..] == a[1..] + b;
      WriteTwice(PutChar(t, a[0]), a[1..], b);
    }
  }

  lemma CharWritten(t: Term, c: char)
    requires Sound(t) && InBounds(t.ctx, c)
    ensures Writable(t, [c]) && Write(t, [c]) == PutChar(t, c)
  {
    PutCharSound(t, c);
    var u := PutChar(t, c);
    assert Writable(u, "") && Write(u, "") == u;
    assert [c][1..] == "";
  }

  lemma EscapeTaken(t: Term)
    requires Sound(t) && t.ctx.mode == Normal && t.row < HEIGHT && t.column < WIDTH
    ensures PutChar(t, ESC) == WithContext(t, WithMode(t.ctx, Bracket))
  {
    assert Placed(t, ESC) == t;
  }

  lemma OtherPrinted(t: Term, c: char)
    requires Sound(t) && t.ctx.mode == Bracket && IsPrint(c) && c != '[' && t.row < HEIGHT && t.column < WIDTH
    ensures var w := PutChar(t, c);
      && w.cells == t.cells[WIDTH * t.row + t.column := Cell(c, t.color)]
      && w.row == t.row && w.column == t.column + 1 && w.color == t.color && w.ctx == WithMode(t.ctx, Normal)
  {
    assert Placed(t, c) == t;
    assert PutChar(t, c) == PutNext(WithContext(t, WithMode(t.ctx, Normal)), c);
  }

  // ESC before anything but [ is dropped: the character after it is written as usual.
  lemma EscapeDropped(t: Term, c: char)
    requires Sound(t) && t.ctx.mode == Normal && IsPrint(c) && c != '['
    requires t.row < HEIGHT && t.column < WIDTH
    ensures Writable(t, [ESC, c])
    ensures var w := Write(t, [ESC, c]);
      && w.cells == t.cells[WIDTH * t.row + t.column := Cell(c, t.color)]
      && w.row == t.row && w.column == t.column + 1 && w.color == t.color && w.ctx == t.ctx
  {
    EscapeTaken(t);
    var u := PutChar(t, ESC);
    CharWritten(t, ESC);
    OtherPrinted(u, c);
    CharWritten(u, c);
    WriteTwice(t, [ESC], [c]);
    assert [ESC] + [c] == [ESC, c];
  }
}
