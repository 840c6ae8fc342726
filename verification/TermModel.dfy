// The VGA text terminal as operations on a value: cells, cursor, colour and the escape interpreter.
module TermModel {
  import opened AnsiModel

  const WIDTH := 80
  const HEIGHT := 25
  const CELLS := 2000

  const VGA_MEMORY := 0xB_8000

  const BLACK := 0
  const BLUE := 1
  const GREEN := 2
  const CYAN := 3
  const RED := 4
  const MAGENTA := 5
  const BROWN := 6
  const LIGHT_GREY := 7
  const YELLOW := 14
  const WHITE := 15

  type Color = c: nat | c < 256 // blink, three bits of background, four of foreground

  datatype Cell = Cell(c: char, color: Color)

  // The cells are those of the VGA memory; `address` is where the terminal takes that memory to be.
  datatype Term =
    Term(cells: seq<Cell>, row: nat, column: nat, color: Color, ctx: Context, savedRow: nat, savedCol: nat, address: nat)

  ghost predicate Sound(t: Term) {
    |t.cells| == CELLS && AnsiModel.Ok(t.ctx)
  }

  // uint32_t arithmetic.
  function Word32(n: int): nat {
    n % 0x1_0000_0000
  }

  predicate IsPrint(c: char) {
    ' ' <= c <= '~'
  }

  function At(t: Term, row: nat, column: nat): Term {
    Term(t.cells, row, column, t.color, t.ctx, t.savedRow, t.savedCol, t.address)
  }

  function WithCells(t: Term, cells: seq<Cell>): Term {
    Term(cells, t.row, t.column, t.color, t.ctx, t.savedRow, t.savedCol, t.address)
  }

  function WithColor(t: Term, color: Color): Term {
    Term(t.cells, t.row, t.column, color, t.ctx, t.savedRow, t.savedCol, t.address)
  }

  function WithContext(t: Term, ctx: Context): Term {
    Term(t.cells, t.row, t.column, t.color, ctx, t.savedRow, t.savedCol, t.address)
  }

  function Saved(t: Term): Term {
    Term(t.cells, t.row, t.column, t.color, t.ctx, t.row, t.column, t.address)
  }

  // Nothing is written outside the screen.
  function PutAt(t: Term, c: char, x: nat, y: nat): Term
    requires |t.cells| == CELLS
  {
    if y >= HEIGHT || x >= WIDTH then t else WithCells(t, t.cells[WIDTH * y + x := Cell(c, t.color)])
  }

  function Blank(color: Color): Cell {
    Cell(' ', color)
  }

  function WithAddress(t: Term, address: nat): Term {
    Term(t.cells, t.row, t.column, t.color, t.ctx, t.savedRow, t.savedCol, address)
  }

  // Everything cleared in the colour of before; then white on black, top left, and the memory taken to
  // be at its physical address.
  function Initial(t: Term): Term {
    WithAddress(At(WithColor(WithCells(t, seq(CELLS, _ => Blank(t.color))), WHITE), 0, 0), VGA_MEMORY)
  }

  // One row up, the last one cleared.
  function Scroll(t: Term): Term
    requires |t.cells| == CELLS && t.row > 0
  {
    At(WithCells(t, t.cells[WIDTH..] + seq(WIDTH, _ => Blank(t.color))), t.row - 1, t.column)
  }

  // A character at the cursor, which moves on.
  function PutNext(t: Term, c: char): Term
    requires |t.cells| == CELLS
  {
    At(PutAt(t, c, t.column, t.row), t.row, Word32(t.column + 1))
  }

  function Tab(t: Term, n: nat): (u: Term)
    requires |t.cells| == CELLS
    ensures |u.cells| == CELLS
  {
    if n == 0 then t else PutNext(Tab(t, n - 1), ' ')
  }

  function Moved(t: Term, c: char): Term
    requires |t.cells| == CELLS
  {
    if c == '\n' || c == '\r' then At(t, Word32(t.row + 1), 0)
    else if c == '\t' then Tab(t, 4)
    else t
  }

  function Wrapped(t: Term): Term {
    if t.column >= WIDTH then At(t, Word32(t.row + 1), 0) else t
  }

  function Scrolled(t: Term): Term
    requires |t.cells| == CELLS
  {
    if t.row >= HEIGHT then Scroll(t) else t
  }

  // Where the cursor is when the character itself is looked at.
  function Placed(t: Term, c: char): (u: Term)
    requires |t.cells| == CELLS
    ensures |u.cells| == CELLS && u.ctx == t.ctx && u.color == t.color
  {
    TabKeeps(t, 4);
    Scrolled(Wrapped(Moved(t, c)))
  }

  lemma {:induction false} TabKeeps(t: Term, n: nat)
    requires |t.cells| == CELLS
    ensures Tab(t, n) == Term(Tab(t, n).cells, t.row, Tab(t, n).column, t.color, t.ctx, t.savedRow, t.savedCol, t.address)
  {
    if n > 0 {
      TabKeeps(t, n - 1);
    }
  }

  function PutChar(t: Term, c: char): Term
    requires Sound(t) && InBounds(t.ctx, c)
  {
    var u := Placed(t, c);
    var r := React(u.ctx, c);
    var v := Act(WithContext(u, r.ctx), r.effect);
    if r.effect != Pass || !IsPrint(c) then v else PutNext(v, c)
  }

  // --- Commands ----------------------------------------------------------------------------------------

  function Act(t: Term, e: Effect): (u: Term)
    requires |t.cells| == CELLS && (e.Command? ==> |e.args| == SIZE && e.count <= SIZE)
    ensures |u.cells| == CELLS && u.ctx == t.ctx && (!e.Command? ==> u == t)
  {
    match e
    case Pass => t
    case Swallow => t
    case Command(letter, args, count) => Obey(t, letter, args, count)
  }

  function Obey(t: Term, letter: char, args: seq<nat>, count: nat): (u: Term)
    requires |t.cells| == CELLS && |args| == SIZE && count <= SIZE
    ensures |u.cells| == CELLS && u.ctx == t.ctx
  {
    match letter
    case 's' => Saved(t)
    case 'u' => At(t, t.savedRow, t.savedCol)
    case 'K' => EraseLine(t, t.column)
    case 'H' => At(t, args[0], args[1])
    case 'f' => At(t, args[0], args[1])
    case 'A' => At(t, Word32(t.row - args[0]), t.column)
    case 'B' => At(t, Word32(t.row + args[0]), t.column)
    case 'C' => At(t, t.row, Word32(t.column + args[0]))
    case 'D' => At(t, t.row, Word32(t.column - args[0]))
    case 'J' => if args[0] == 2 then Initial(t) else t
    case 'm' => WithColor(t, Graphics(t.color, args[..count]))
    case _ => t
  }

  // From column x to the end of the cursor's row.
  function EraseLine(t: Term, x: nat): (u: Term)
    requires |t.cells| == CELLS
    ensures |u.cells| == CELLS && u == WithCells(t, u.cells)
    decreases WIDTH - x
  {
    if x >= WIDTH then t else EraseLine(PutAt(t, ' ', x, t.row), x + 1)
  }

  lemma {:induction false} EraseIgnoresContext(t: Term, x: nat, ctx: Context)
    requires |t.cells| == CELLS
    ensures EraseLine(WithContext(t, ctx), x) == WithContext(EraseLine(t, x), ctx)
    decreases WIDTH - x
  {
    if x < WIDTH {
      EraseIgnoresContext(PutAt(t, ' ', x, t.row), x + 1, ctx);
    }
  }

  // A command neither looks at the interpreter nor changes it.
  lemma ObeyIgnoresContext(t: Term, ctx: Context, letter: char, args: seq<nat>, count: nat)
    requires |t.cells| == CELLS && |args| == SIZE && count <= SIZE
    ensures Obey(WithContext(t, ctx), letter, args, count) == WithContext(Obey(t, letter, args, count), ctx)
  {
    EraseIgnoresContext(t, t.column, ctx);
  }

  function Graphics(color: Color, codes: seq<nat>): Color
    decreases |codes|
  {
    if codes == [] then color else Graphics(Rendition(color, codes[0]), codes[1..])
  }

  function Foreground(color: Color, fg: nat): Color
    requires fg < 16
  {
    fg + color / 16 * 16
  }

  function Background(color: Color, bg: nat): Color
    requires bg < 16
  {
    color % 16 + bg * 16
  }

  function Rendition(color: Color, code: nat): Color {
    match code
    case 0 => color % 128
    case 5 => color % 128 + 128
    case 30 => Foreground(color, BLACK)
    case 31 => Foreground(color, RED)
    case 32 => Foreground(color, GREEN)
    case 33 => Foreground(color, YELLOW)
    case 34 => Foreground(color, BLUE)
    case 35 => Foreground(color, MAGENTA)
    case 36 => Foreground(color, CYAN)
    case 37 => Foreground(color, WHITE)
    case 40 => Background(color, BLACK)
    case 41 => Background(color, RED)
    case 42 => Background(color, GREEN)
    case 43 => Background(color, BROWN)
    case 44 => Background(color, BLUE)
    case 45 => Background(color, MAGENTA)
    case 46 => Background(color, CYAN)
    case 47 => Background(color, LIGHT_GREY)
    case _ => color
  }

  predicate IsForeground(code: nat) {
    30 <= code <= 37
  }

  predicate IsBackground(code: nat) {
    40 <= code <= 47
  }

  // VGA keeps red in bit 2, green in bit 1 and blue in bit 0; the ANSI colours count red, green and blue
  // as 1, 2 and 4.
  function VgaBits(ansi: nat): nat {
    4 * (ansi % 2) + 2 * (ansi / 2 % 2) + ansi / 4 % 2
  }

  // Yellow and white, the foregrounds with red and green, are the bright ones.
  function VgaForeground(code: nat): nat
    requires IsForeground(code)
  {
    VgaBits(code - 30) + if code == 33 || code == 37 then 8 else 0
  }

  // The three parts of a colour: bits 0 to 3, bits 4 to 6 and bit 7.
  function FgOf(color: Color): nat {
    color % 16
  }

  function BgOf(color: Color): nat {
    color / 16 % 8
  }

  predicate Blinks(color: Color) {
    color / 128 == 1
  }

  predicate DecidesBlinking(code: nat) {
    code == 0 || code == 5 || IsBackground(code)
  }

  lemma PartsSet(color: Color, n: nat)
    requires n < 16
    ensures FgOf(Foreground(color, n)) == n
    ensures BgOf(Foreground(color, n)) == BgOf(color) && (Blinks(Foreground(color, n)) <==> Blinks(color))
    ensures FgOf(Background(color, n)) == FgOf(color)
    ensures n < 8 ==> BgOf(Background(color, n)) == n && !Blinks(Background(color, n))
  {
  }

  lemma BlinkSet(color: Color)
    ensures FgOf(color % 128) == FgOf(color) && BgOf(color % 128) == BgOf(color) && !Blinks(color % 128)
    ensures var r := color % 128 + 128; FgOf(r) == FgOf(color) && BgOf(r) == BgOf(color) && Blinks(r)
  {
  }

  lemma VgaColors(n: nat)
    requires n < 8
    ensures VgaBits(n) == [BLACK, RED, GREEN, BROWN, BLUE, MAGENTA, CYAN, LIGHT_GREY][n]
  {
    assert n == 0 || n == 1 || n == 2 || n == 3 || n == 4 || n == 5 || n == 6 || n == 7;
  }

  lemma RenditionIs(color: Color, code: nat)
    ensures Rendition(color, code) ==
      if IsForeground(code) then Foreground(color, VgaForeground(code))
      else if IsBackground(code) then Background(color, VgaBits(code - 40))
      else if code == 0 then color % 128
      else if code == 5 then color % 128 + 128
      else color
  {
    if IsForeground(code) {
      VgaColors(code - 30);
    } else if IsBackground(code) {
      VgaColors(code - 40);
    }
  }

  // Codes from 30 set the foreground; codes from 40 set the background, which is never bright, and stop
  // blinking, whose bit is the background's highest; 0 and 5 stop and start blinking. What a code does
  // not decide is kept.
  lemma RenditionExact(color: Color, code: nat)
    ensures FgOf(Rendition(color, code)) == if IsForeground(code) then VgaForeground(code) else FgOf(color)
    ensures BgOf(Rendition(color, code)) == if IsBackground(code) then VgaBits(code - 40) else BgOf(color)
    ensures Blinks(Rendition(color, code)) <==> if DecidesBlinking(code) then code == 5 else Blinks(color)
  {
    RenditionIs(color, code);
    if IsForeground(code) {
      PartsSet(color, VgaForeground(code));
    } else if IsBackground(code) {
      PartsSet(color, VgaBits(code - 40));
    } else {
      BlinkSet(color);
    }
  }

  // The three parts are all there is to a colour.
  lemma PartsDetermine(color: Color, other: Color)
    requires FgOf(color) == FgOf(other) && BgOf(color) == BgOf(other) && (Blinks(color) <==> Blinks(other))
    ensures color == other
  {
  }

  // The eight codes of each kind give eight different colours.
  lemma RenditionsDiffer(color: Color, code: nat, other: nat)
    requires code != other
    ensures IsForeground(code) && IsForeground(other) ==> Rendition(color, code) % 16 != Rendition(color, other) % 16
    ensures IsBackground(code) && IsBackground(other) ==> Rendition(color, code) / 16 != Rendition(color, other) / 16
  {
    if IsForeground(code) && IsForeground(other) {
      var fg, also := Rendition(color, code) - color / 16 * 16, Rendition(color, other) - color / 16 * 16;
      assert 0 <= fg < 16 && 0 <= also < 16 && fg != also;
    }
  }

  // The last code of the list that `decides` is the one at i; i is the list's length when there is none.
  ghost predicate LastAt(codes: seq<nat>, decides: nat -> bool, i: nat) {
    && i <= |codes| && (i < |codes| ==> decides(codes[i]))
    && forall j | 0 <= j < |codes| && (i < j || i == |codes|) :: !decides(codes[j])
  }

  lemma LastFromSecond(codes: seq<nat>, decides: nat -> bool, i: nat)
    requires codes != [] && LastAt(codes, decides, i)
    ensures i > 0 ==> LastAt(codes[1..], decides, i - 1)
    ensures i == 0 ==> LastAt(codes[1..], decides, |codes| - 1)
  {
    assert forall j | 0 <= j < |codes| - 1 :: codes[1..][j] == codes[j + 1];
  }

  lemma {:induction false} ForegroundLeft(color: Color, codes: seq<nat>, i: nat)
    requires LastAt(codes, IsForeground, i)
    ensures FgOf(Graphics(color, codes)) == if i < |codes| then VgaForeground(codes[i]) else FgOf(color)
    decreases |codes|
  {
    if codes != [] {
      RenditionExact(color, codes[0]);
      LastFromSecond(codes, IsForeground, i);
      ForegroundLeft(Rendition(color, codes[0]), codes[1..], if i > 0 then i - 1 else |codes| - 1);
    }
  }

  lemma {:induction false} BackgroundLeft(color: Color, codes: seq<nat>, i: nat)
    requires LastAt(codes, IsBackground, i)
    ensures BgOf(Graphics(color, codes)) == if i < |codes| then VgaBits(codes[i] - 40) else BgOf(color)
    decreases |codes|
  {
    if codes != [] {
      RenditionExact(color, codes[0]);
      LastFromSecond(codes, IsBackground, i);
      BackgroundLeft(Rendition(color, codes[0]), codes[1..], if i > 0 then i - 1 else |codes| - 1);
    }
  }

  lemma {:induction false} BlinkingLeft(color: Color, codes: seq<nat>, i: nat)
    requires LastAt(codes, DecidesBlinking, i)
    ensures Blinks(Graphics(color, codes)) <==> if i < |codes| then codes[i] == 5 else Blinks(color)
    decreases |codes|
  {
    if codes != [] {
      RenditionExact(color, codes[0]);
      LastFromSecond(codes, DecidesBlinking, i);
      BlinkingLeft(Rendition(color, codes[0]), codes[1..], if i > 0 then i - 1 else |codes| - 1);
    }
  }

  // `after` has the foreground of the last foreground code of the list and the background of the last
  // background code, and blinks if the last code that decides it is 5; a part without such a code is as
  // in `before`.
  ghost predicate Rendered(before: Color, codes: seq<nat>, after: Color) {
    && (forall i: nat | LastAt(codes, IsForeground, i) ::
         FgOf(after) == if i < |codes| then VgaForeground(codes[i]) else FgOf(before))
    && (forall i: nat | LastAt(codes, IsBackground, i) ::
         BgOf(after) == if i < |codes| then VgaBits(codes[i] - 40) else BgOf(before))
    && (forall i: nat | LastAt(codes, DecidesBlinking, i) ::
         (Blinks(after) <==> if i < |codes| then codes[i] == 5 else Blinks(before)))
  }

  // A list of codes does that, and nothing but that: no other colour meets it.
  lemma GraphicsExact(color: Color, codes: seq<nat>, after: Color)
    ensures Rendered(color, codes, after) <==> after == Graphics(color, codes)
  {
    var fg := LastExists(codes, IsForeground);
    var bg := LastExists(codes, IsBackground);
    var blink := LastExists(codes, DecidesBlinking);
    forall i: nat | LastAt(codes, IsForeground, i)
      ensures FgOf(Graphics(color, codes)) == if i < |codes| then VgaForeground(codes[i]) else FgOf(color)
    {
      ForegroundLeft(color, codes, i);
    }
    forall i: nat | LastAt(codes, IsBackground, i)
      ensures BgOf(Graphics(color, codes)) == if i < |codes| then VgaBits(codes[i] - 40) else BgOf(color)
    {
      BackgroundLeft(color, codes, i);
    }
    forall i: nat | LastAt(codes, DecidesBlinking, i)
      ensures Blinks(Graphics(color, codes)) <==> if i < |codes| then codes[i] == 5 else Blinks(color)
    {
      BlinkingLeft(color, codes, i);
    }
    if Rendered(color, codes, after) {
      PartsDetermine(after, Graphics(color, codes));
    }
  }

  // The places exist.
  lemma {:induction false} LastExists(codes: seq<nat>, decides: nat -> bool) returns (i: nat)
    ensures LastAt(codes, decides, i)
    decreases |codes|
  {
    if codes == [] {
      i := 0;
    } else {
      var n := |codes| - 1;
      if decides(codes[n]) {
        i := n;
      } else {
        var k := LastExists(codes[..n], decides);
        i := if k < n then k else |codes|;
      }
    }
  }

  // The cursor's row is blanked from the column on, in the writing colour, and nothing else is touched.
  lemma {:induction false} ErasedExactly(t: Term, x: nat)
    requires |t.cells| == CELLS
    ensures forall i | 0 <= i < CELLS ::
      EraseLine(t, x).cells[i] == if i / WIDTH == t.row && i % WIDTH >= x then Blank(t.color) else t.cells[i]
    decreases WIDTH - x
  {
    if x < WIDTH {
      ErasedExactly(PutAt(t, ' ', x, t.row), x + 1);
    }
  }

  // u undoes any cursor movement since s, and opposite movements by the same amount cancel, although
  // the cursor is allowed off the screen and wraps at 32 bits in between.
  lemma MovementsUndone(t: Term, args: seq<nat>, count: nat, row: nat, column: nat)
    requires |t.cells| == CELLS && |args| == SIZE && count <= SIZE
    requires t.row < 0x1_0000_0000 && t.column < 0x1_0000_0000
    ensures var moved := At(Obey(t, 's', args, count), row, column);
      Obey(moved, 'u', args, count) == Saved(t)
    ensures Obey(Obey(t, 'A', args, count), 'B', args, count) == t
    ensures Obey(Obey(t, 'B', args, count), 'A', args, count) == t
    ensures Obey(Obey(t, 'C', args, count), 'D', args, count) == t
    ensures Obey(Obey(t, 'D', args, count), 'C', args, count) == t
  {
    Cancel(t.row, args[0]);
    Cancel(t.column, args[0]);
  }

  lemma Cancel(n: nat, k: nat)
    requires n < 0x1_0000_0000
    ensures Word32(Word32(n - k) + k) == n && Word32(Word32(n + k) - k) == n
  {
  }

  lemma PutCharSound(t: Term, c: char)
    requires Sound(t) && InBounds(t.ctx, c)
    ensures Sound(PutChar(t, c))
  {
    ReactOk(t.ctx, c);
  }

  ghost predicate Writable(t: Term, s: string)
    requires Sound(t)
    decreases |s|
  {
    s == "" || (InBounds(t.ctx, s[0]) && (PutCharSound(t, s[0]); Writable(PutChar(t, s[0]), s[1..])))
  }

  ghost function Write(t: Term, s: string): (u: Term)
    requires Sound(t) && Writable(t, s)
    ensures Sound(u)
    decreases |s|
  {
    if s == "" then t else (PutCharSound(t, s[0]); Write(PutChar(t, s[0]), s[1..]))
  }
}
