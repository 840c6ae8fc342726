// What the screen shows, as an unbounded page of lines that only grows: text is laid out once, and the
// 25 rows of the terminal, scrolled in place, are the page's last ones.
module ScreenModel {
  import opened NumberModel
  import opened AnsiModel
  import opened TermModel

  // The lines so far, each at most 80 cells; text goes to the end of the last.
  datatype Page = Page(lines: seq<seq<Cell>>)

  ghost predicate Laid(p: Page) {
    p.lines != [] && forall i | 0 <= i < |p.lines| :: |p.lines[i]| <= WIDTH
  }

  function Last(p: Page): seq<Cell>
    requires p.lines != []
  {
    p.lines[|p.lines| - 1]
  }

  function NewLine(p: Page): Page {
    Page(p.lines + [[]])
  }

  // A full line takes no more.
  function Append(p: Page, c: Cell): Page
    requires p.lines != []
  {
    if |Last(p)| >= WIDTH then p else Page(p.lines[|p.lines| - 1 := Last(p) + [c]])
  }

  function Blanks(p: Page, n: nat, color: Color): (q: Page)
    requires p.lines != []
    ensures |q.lines| == |p.lines|
  {
    if n == 0 then p else Append(Blanks(p, n - 1, color), Blank(color))
  }

  // Line breaks: a newline, a tab that reaches the edge, or any character when the line is full.
  function Broken(p: Page, c: char, color: Color): (q: Page)
    requires p.lines != []
    ensures q.lines != []
  {
    if c == '\n' || c == '\r' then NewLine(p)
    else if c == '\t' then
      if |Last(p)| + 4 >= WIDTH then NewLine(Blanks(p, 4, color)) else Blanks(p, 4, color)
    else if |Last(p)| >= WIDTH then NewLine(p)
    else p
  }

  function Typed(p: Page, c: char, color: Color): (q: Page)
    requires p.lines != []
    ensures q.lines != []
  {
    if ' ' <= c <= '~' then Append(Broken(p, c, color), Cell(c, color)) else Broken(p, c, color)
  }

  function Layout(p: Page, s: string, color: Color): Page
    requires p.lines != []
    decreases |s|
  {
    if s == "" then p else Layout(Typed(p, s[0], color), s[1..], color)
  }

  // --- The screen is the end of the page -----------------------------------------------------------------

  // The first page line on the screen.
  function Top(p: Page): nat {
    if |p.lines| > HEIGHT then |p.lines| - HEIGHT else 0
  }

  // A cell of the page: behind the end of a line it is blank, in the colour the screen was cleared with
  // for the first 25 lines, in the writing colour for those scrolled in.
  function CellAt(p: Page, line: nat, x: nat, first: Color, color: Color): Cell {
    if line < |p.lines| && x < |p.lines[line]| then p.lines[line][x]
    else Blank(if line < HEIGHT then first else color)
  }

  ghost predicate Shows(t: Term, p: Page, first: Color) {
    && Sound(t) && Laid(p) && t.row == |p.lines| - 1 - Top(p)
    && forall y: nat, x: nat | y < HEIGHT && x < WIDTH ::
      CellOf(t, y, x) == CellAt(p, Top(p) + y, x, first, t.color)
  }

  ghost predicate Refines(t: Term, p: Page, first: Color) {
    Shows(t, p, first) && t.column == |Last(p)| && t.ctx.mode == Normal
  }

  // The cell at a place of the screen.
  function CellOf(t: Term, y: nat, x: nat): Cell
    requires |t.cells| == CELLS && y < 25 && x < 80
  {
    t.cells[80 * y + x]
  }

  lemma LineAdded(t: Term, p: Page, first: Color)
    requires Shows(t, p, first)
    ensures Shows(Scrolled(At(t, t.row + 1, 0)), NewLine(p), first)
  {
    var u, q := Scrolled(At(t, t.row + 1, 0)), NewLine(p);
    forall y: nat, x: nat | y < HEIGHT && x < WIDTH
      ensures CellOf(u, y, x) == CellAt(q, Top(q) + y, x, first, t.color)
    {
      if t.row + 1 < HEIGHT {
        assert CellOf(u, y, x) == CellOf(t, y, x);
      } else if y + 1 < HEIGHT {
        assert CellOf(u, y, x) == CellOf(t, y + 1, x);
      }
    }
  }

  lemma CellAppended(t: Term, p: Page, c: char, first: Color)
    requires Shows(t, p, first) && |Last(p)| <= t.column <= WIDTH + 3
    requires t.column < WIDTH ==> t.column == |Last(p)|
    requires t.column >= WIDTH ==> |Last(p)| == WIDTH
    ensures Shows(PutNext(t, c), Append(p, Cell(c, t.color)), first)
    ensures PutNext(t, c).column == t.column + 1
  {
    var u, q := PutNext(t, c), Append(p, Cell(c, t.color));
    forall y: nat, x: nat | y < HEIGHT && x < WIDTH
      ensures CellOf(u, y, x) == CellAt(q, Top(q) + y, x, first, t.color)
    {
      assert CellOf(t, y, x) == CellAt(p, Top(p) + y, x, first, t.color);
      assert y != t.row || x != t.column ==> CellOf(u, y, x) == CellOf(t, y, x);
    }
  }

  lemma {:induction false} TabShown(t: Term, p: Page, n: nat, first: Color)
    requires Refines(t, p, first) && n <= 4
    ensures var u, q := Tab(t, n), Blanks(p, n, t.color);
      && Shows(u, q, first) && u.column == |Last(p)| + n && u.ctx == t.ctx && u.color == t.color
      && |Last(q)| == if |Last(p)| + n <= WIDTH then |Last(p)| + n else WIDTH
    decreases n
  {
    if n > 0 {
      TabShown(t, p, n - 1, first);
      CellAppended(Tab(t, n - 1), Blanks(p, n - 1, t.color), ' ', first);
    }
  }

  lemma NewlineShown(t: Term, p: Page, first: Color)
    requires Shows(t, p, first) && t.ctx.mode == Normal
    ensures Refines(Scrolled(At(t, Word32(t.row + 1), 0)), NewLine(p), first)
    ensures Scrolled(At(t, Word32(t.row + 1), 0)).color == t.color
  {
    LineAdded(t, p, first);
  }

  lemma TabPlaced(t: Term, p: Page, first: Color)
    requires Refines(t, p, first)
    ensures Refines(Placed(t, '\t'), Broken(p, '\t', t.color), first)
  {
    var u, q := Tab(t, 4), Blanks(p, 4, t.color);
    TabShown(t, p, 4, first);
    if u.column >= WIDTH {
      NewlineShown(u, q, first);
    } else {
      assert Scrolled(Wrapped(u)) == u;
    }
  }

  // Moving the cursor before a character: the breaks of the page, scrolling included.
  lemma PlacedShown(t: Term, p: Page, c: char, first: Color)
    requires Refines(t, p, first)
    ensures Refines(Placed(t, c), Broken(p, c, t.color), first)
    ensures IsPrint(c) ==> |Last(Broken(p, c, t.color))| < WIDTH
  {
    if c == '\t' {
      TabPlaced(t, p, first);
    } else if c == '\n' || c == '\r' || t.column >= WIDTH {
      NewlineShown(t, p, first);
    }
  }

  lemma CharShown(t: Term, p: Page, c: char, first: Color)
    requires Refines(t, p, first) && c != ESC
    ensures InBounds(t.ctx, c)
    ensures Refines(PutChar(t, c), Typed(p, c, t.color), first) && PutChar(t, c).color == t.color
  {
    PlacedShown(t, p, c, first);
    var u := Placed(t, c);
    assert WithContext(u, u.ctx) == u;
    if IsPrint(c) {
      CellAppended(u, Broken(p, c, t.color), c, first);
    }
  }

  predicate EscFree(s: string) {
    forall i | 0 <= i < |s| :: s[i] != ESC
  }

  lemma {:induction false} TextShown(t: Term, p: Page, s: string, first: Color)
    requires Refines(t, p, first) && EscFree(s)
    ensures Writable(t, s)
    ensures Refines(Write(t, s), Layout(p, s, t.color), first) && Write(t, s).color == t.color
    decreases |s|
  {
    if s != "" {
      CharShown(t, p, s[0], first);
      PutCharSound(t, s[0]);
      TextShown(PutChar(t, s[0]), Typed(p, s[0], t.color), s[1..], first);
    }
  }

  // After clearing the screen, any text without ESC leaves it showing exactly the last 25 lines of the
  // page the text is laid out on, with the cursor at the end of the last line.
  lemma ScreenShowsPageEnd(before: Term, s: string)
    requires Sound(before) && before.ctx.mode == Normal && EscFree(s)
    ensures Writable(Initial(before), s)
    ensures var t, p := Write(Initial(before), s), Layout(Page([[]]), s, WHITE);
      && Laid(p) && t.row == |p.lines| - 1 - Top(p) < 25 && t.column == |Last(p)| <= 80
      && forall y: nat, x: nat | y < 25 && x < 80 ::
           CellOf(t, y, x) == CellAt(p, Top(p) + y, x, before.color, WHITE)
  {
    var t := Initial(before);
    assert Refines(t, Page([[]]), before.color);
    TextShown(t, Page([[]]), s, before.color);
  }

  // Lines that are complete never change: what was typed before is only scrolled away.
  lemma {:induction false} LinesStay(p: Page, s: string, color: Color, i: nat)
    requires p.lines != [] && i < |p.lines| - 1
    ensures i < |Layout(p, s, color).lines| - 1 && Layout(p, s, color).lines[i] == p.lines[i]
    decreases |s|
  {
    if s != "" {
      BlanksStay(p, 4, color, i);
      LinesStay(Typed(p, s[0], color), s[1..], color, i);
    }
  }

  lemma {:induction false} BlanksStay(p: Page, n: nat, color: Color, i: nat)
    requires p.lines != [] && i < |p.lines| - 1
    ensures Blanks(p, n, color).lines[i] == p.lines[i]
    decreases n
  {
    if n > 0 {
      BlanksStay(p, n - 1, color, i);
    }
  }

  // --- Control sequences on the screen -------------------------------------------------------------------

  predicate NoBreaks(s: string) {
    forall i | 0 <= i < |s| :: s[i] != '\n' && s[i] != '\r' && s[i] != '\t'
  }

  // The cursor moves that come before each of n characters that break no line: a full line is broken,
  // and while the cursor stands below the screen, the screen scrolls.
  function Settled(t: Term, n: nat): (u: Term)
    requires |t.cells| == CELLS
    ensures |u.cells| == CELLS
    decreases n
  {
    if n == 0 then t else Settled(Placed(t, ESC), n - 1)
  }

  // On the screen and short of the edge there are none.
  lemma {:induction false} SettledOnScreen(t: Term, n: nat)
    requires |t.cells| == CELLS && t.row < HEIGHT && t.column < WIDTH
    ensures Settled(t, n) == t
    decreases n
  {
    if n > 0 {
      SettledOnScreen(t, n - 1);
    }
  }

  lemma {:induction false} SettledIgnoresContext(t: Term, n: nat, x: Context)
    requires |t.cells| == CELLS
    ensures Settled(WithContext(t, x), n) == WithContext(Settled(t, n), x)
    decreases n
  {
    if n > 0 {
      assert Placed(WithContext(t, x), ESC) == WithContext(Placed(t, ESC), x);
      SettledIgnoresContext(Placed(t, ESC), n - 1, x);
    }
  }

  // Characters that are taken into a sequence write nothing, until its command.
  lemma {:induction false} SwallowedThenObeyed(t: Term, s: string)
    requires Sound(t) && s != "" && NoBreaks(s) && Safe(t.ctx, s)
    requires forall i | 0 <= i < |s| - 1 :: Effects(t.ctx, s)[i] == Swallow
    requires Effects(t.ctx, s)[|s| - 1].Command?
    ensures Writable(t, s)
    ensures var e := Effects(t.ctx, s)[|s| - 1];
      && |e.args| == SIZE && e.count <= SIZE
      && Write(t, s) == Obey(WithContext(Settled(t, |s|), After(t.ctx, s)), e.letter, e.args, e.count)
    decreases |s|
  {
    var r, u := React(t.ctx, s[0]), Placed(t, ESC);
    PutCharSound(t, s[0]);
    assert Placed(t, s[0]) == u;
    assert Effects(t.ctx, s)[0] == r.effect;
    if |s| == 1 {
      assert Settled(t, 1) == u;
    } else {
      assert forall i | 0 <= i < |s| - 1 :: Effects(r.ctx, s[1..])[i] == Effects(t.ctx, s)[i + 1];
      SwallowedThenObeyed(WithContext(u, r.ctx), s[1..]);
      SettledIgnoresContext(u, |s| - 1, r.ctx);
    }
  }

  lemma {:induction false} JoinHasNoBreaks(ps: seq<string>)
    requires ps != [] && forall i | 0 <= i < |ps| :: AllDigits(ps[i])
    ensures NoBreaks(Join(ps))
    decreases |ps|
  {
    if |ps| > 1 {
      JoinHasNoBreaks(ps[1..]);
    }
  }

  // A control sequence written to the terminal does its command, once, with the values of its
  // parameters, and but for the moves that come before any characters nothing else.
  lemma SequenceObeyed(t: Term, ps: seq<string>, letter: char) returns (args: seq<nat>)
    requires Sound(t) && t.ctx.mode == Normal && IsAlpha(letter) && 1 <= |ps| <= SIZE
    requires forall i | 0 <= i < |ps| :: AllDigits(ps[i]) && |ps[i]| < SIZE && Eval(ps[i], 10) < Half(Int)
    ensures |args| == SIZE && forall i | 0 <= i < |ps| :: args[i] == Eval(ps[i], 10)
    ensures forall i | |ps| <= i < SIZE :: args[i] == t.ctx.args[i]
    ensures var s := Sequence(Join(ps), letter);
      && Writable(t, s) && Safe(t.ctx, s) && After(t.ctx, s).mode == Normal
      && Write(t, s) == Obey(WithContext(Settled(t, |s|), After(t.ctx, s)), letter, args, |ps|)
  {
    args := ParserAgrees(t.ctx, ps, letter);
    JoinHasNoBreaks(ps);
    SwallowedThenObeyed(t, Sequence(Join(ps), letter));
  }
}
