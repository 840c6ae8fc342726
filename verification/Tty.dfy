// The terminal (kernel/src/cpu/devices/tty.c) and its escape interpreter
// (kernel/src/cpu/misc/ansi_interpreter.c): a buffer scrolled in place, proved against TermModel.
module Tty {
  import opened NumberModel
  import opened AnsiModel
  import opened TermModel
  import Numbers

  class AnsiContext {
    var mode: Mode
    const buf: array<char>
    const args: array<nat>
    var currentArg: nat
    var currentIndex: nat
    var savedRow: nat
    var savedCol: nat

    // The statically allocated context starts zeroed.
    constructor ()
      ensures Ok(View()) && mode == Normal && fresh(buf) && fresh(args)
    {
      mode := Normal;
      buf := new char[SIZE](_ => '\0');
      args := new nat[SIZE](_ => 0);
      currentArg := 0;
      currentIndex := 0;
      savedRow := 0;
      savedCol := 0;
    }

    ghost function View(): Context
      reads this, buf, args
    {
      Context(mode, buf[..], args[..], currentArg, currentIndex)
    }

    // The field is terminated, parsed and stored.
    method EndField()
      requires Ok(View()) && currentIndex < SIZE && currentArg < SIZE
      modifies buf, args, this`currentArg
      ensures View() == AnsiModel.EndField(old(View()))
    {
      buf[currentIndex] := '\0';
      assert buf[..][currentIndex] == '\0';
      var n := Numbers.Atoi(buf);
      args[currentArg] := ToUnsigned(n);
      currentArg := currentArg + 1;
    }
  }

  class Terminal {
    const buffer: array<Cell>
    var row: nat
    var column: nat
    var color: Color
    var address: nat // term_buffer
    const ctx: AnsiContext

    constructor (buffer: array<Cell>)
      requires buffer.Length == CELLS
      ensures this.buffer == buffer && Valid() && View().ctx.mode == Normal && color == 0
      ensures fresh(ctx) && fresh(ctx.buf) && fresh(ctx.args)
    {
      this.buffer := buffer;
      row := 0;
      column := 0;
      color := 0;
      address := 0;
      ctx := new AnsiContext();
    }

    ghost function View(): Term
      reads this, buffer, ctx, ctx.buf, ctx.args
    {
      Term(buffer[..], row, column, color, ctx.View(), ctx.savedRow, ctx.savedCol, address)
    }

    ghost predicate Valid()
      reads this, buffer, ctx, ctx.buf, ctx.args
    {
      Sound(View())
    }

    // term_init.
    method Init()
      requires buffer.Length == CELLS
      modifies this`row, this`column, this`color, this`address, buffer
      ensures View() == Initial(old(View()))
    {
      var entry := Blank(color);
      address := VGA_MEMORY;
      color := WHITE;
      row := 0;
      column := 0;
      for x := 0 to WIDTH
        invariant row == 0 && column == 0 && color == WHITE && address == VGA_MEMORY
        invariant forall i | 0 <= i < CELLS :: i % WIDTH < x ==> buffer[i] == entry
      {
        for y := 0 to HEIGHT
          invariant row == 0 && column == 0 && color == WHITE && address == VGA_MEMORY
          invariant forall i | 0 <= i < CELLS ::
            i % WIDTH < x || (i % WIDTH == x && i / WIDTH < y) ==> buffer[i] == entry
        {
          buffer[y * WIDTH + x] := entry;
        }
      }
      assert buffer[..] == seq(CELLS, _ => entry);
    }

    // term_set_buffer.
    method SetBuffer(buffer: nat)
      modifies this`address
      ensures View() == WithAddress(old(View()), buffer)
    {
      address := buffer;
    }

    method PutCharAt(c: char, x: nat, y: nat)
      requires buffer.Length == CELLS
      modifies buffer
      ensures View() == PutAt(old(View()), c, x, y)
    {
      if y >= HEIGHT || x >= WIDTH {
        return;
      }
      buffer[y * WIDTH + x] := Cell(c, color);
    }

    // Every cell takes the one below it, in place; the last row is cleared.
    method ScrollDown()
      requires buffer.Length == CELLS && row > 0
      modifies this`row, buffer
      ensures View() == Scroll(old(View()))
    {
      ghost var was := buffer[..];
      for y := 0 to HEIGHT
        invariant row == old(row)
        invariant forall i | 0 <= i < CELLS :: buffer[i] == Shifted(was, WIDTH * y, i)
      {
        for x := 0 to WIDTH
          invariant row == old(row)
          invariant forall i | 0 <= i < CELLS :: buffer[i] == Shifted(was, WIDTH * y + x, i)
        {
          if y < HEIGHT - 1 {
            buffer[y * WIDTH + x] := buffer[(y + 1) * WIDTH + x];
          } else {
            buffer[y * WIDTH + x] := Blank(color);
          }
        }
      }
      row := row - 1;
      ghost var blank := Blank(color);
      assert buffer[..] == was[WIDTH..] + seq(WIDTH, _ => blank);
    }

    // Cell i when the first `done` cells have been moved.
    ghost function Shifted(was: seq<Cell>, done: nat, i: nat): Cell
      requires |was| == CELLS && i < CELLS
      reads this`color
    {
      if i >= done then was[i] else if i + WIDTH < CELLS then was[i + WIDTH] else Blank(color)
    }

    method PutNext(c: char)
      requires buffer.Length == CELLS
      modifies this`column, buffer
      ensures View() == TermModel.PutNext(old(View()), c)
    {
      PutCharAt(c, column, row);
      column := Word32(column + 1);
    }

    // The K command.
    method EraseLine()
      requires buffer.Length == CELLS
      modifies buffer
      ensures View() == TermModel.EraseLine(old(View()), column)
    {
      ghost var goal := TermModel.EraseLine(View(), column);
      var x := column;
      while x < WIDTH
        invariant TermModel.EraseLine(View(), x) == goal
      {
        PutCharAt(' ', x, row);
        x := x + 1;
      }
    }

    // The m command: one argument after the other changes the colour.
    method ChangeGraphics(count: nat)
      requires count <= ctx.args.Length
      modifies this`color
      ensures View() == WithColor(old(View()), Graphics(old(color), ctx.args[..count]))
      ensures Rendered(old(color), ctx.args[..count], color)
    {
      ghost var goal := Graphics(color, ctx.args[..count]);
      for i := 0 to count
        invariant Graphics(color, ctx.args[i..count]) == goal
      {
        assert ctx.args[i..count][1..] == ctx.args[i + 1..count];
        color := Rendition(color, ctx.args[i]);
      }
      GraphicsExact(old(color), ctx.args[..count], color);
    }

    // What a complete sequence does.
    method Obey(letter: char)
      requires buffer.Length == CELLS && ctx.args.Length == SIZE && ctx.currentArg <= SIZE
      modifies this`row, this`column, this`color, this`address, buffer, ctx`savedRow, ctx`savedCol
      ensures View() == TermModel.Obey(old(View()), letter, ctx.args[..], ctx.currentArg)
    {
      match letter {
        case 's' => ctx.savedRow, ctx.savedCol := row, column;
        case 'u' => row, column := ctx.savedRow, ctx.savedCol;
        case 'K' => EraseLine();
        case 'H' => row, column := ctx.args[0], ctx.args[1];
        case 'f' => row, column := ctx.args[0], ctx.args[1];
        case 'A' => row := Word32(row - ctx.args[0]);
        case 'B' => row := Word32(row + ctx.args[0]);
        case 'C' => column := Word32(column + ctx.args[0]);
        case 'D' => column := Word32(column - ctx.args[0]);
        case 'J' =>
          if ctx.args[0] == 2 {
            Init();
          }
        case 'm' =>
          assert ctx.args[..][..ctx.currentArg] == ctx.args[..ctx.currentArg];
          ChangeGraphics(ctx.currentArg);
        case _ =>
      }
    }

    // ansi_interpret_char.
    method InterpretChar(c: char) returns (inSequence: bool)
      requires Valid() && InBounds(View().ctx, c)
      modifies this`row, this`column, this`color, this`address, buffer, ctx, ctx.buf, ctx.args
      ensures var t := old(View()); var r := React(t.ctx, c);
        View() == Act(WithContext(t, r.ctx), r.effect) && inSequence == (r.effect != Pass)
    {
      match ctx.mode {
        case Normal =>
          if c != ESC {
            return false;
          }
          ctx.mode := Bracket;
        case Bracket =>
          if c != '[' {
            ctx.mode := Normal;
            return false;
          }
          ctx.mode := Params;
        case Params => InterpretParameter(c);
      }
      return true;
    }

    method InterpretParameter(c: char)
      requires Valid() && ctx.mode == Params && InBounds(View().ctx, c)
      modifies this`row, this`column, this`color, this`address, buffer, ctx, ctx.buf, ctx.args
      ensures var t := old(View()); var r := React(t.ctx, c);
        View() == Act(WithContext(t, r.ctx), r.effect)
    {
      if c == ';' {
        ctx.EndField();
        ctx.currentIndex := 0;
      } else if IsDigit(c) {
        if ctx.currentIndex >= SIZE {
          ctx.currentArg, ctx.currentIndex, ctx.mode := 0, 0, Normal;
        } else {
          ctx.buf[ctx.currentIndex] := c;
          ctx.currentIndex := ctx.currentIndex + 1;
        }
      } else if IsAlpha(c) {
        FinishSequence(c);
      }
    }

    method FinishSequence(c: char)
      requires Valid() && ctx.mode == Params && IsAlpha(c) && InBounds(View().ctx, c)
      modifies this`row, this`column, this`color, this`address, buffer, ctx, ctx.buf, ctx.args
      ensures var t := old(View()); var y := AnsiModel.EndField(t.ctx);
        View() == TermModel.Obey(WithContext(t, Reset(y)), c, y.args, y.currentArg)
    {
      ghost var t := View();
      ctx.EndField();
      ghost var y := ctx.View();
      Obey(c);
      ctx.currentArg, ctx.currentIndex, ctx.mode := 0, 0, Normal;
      ObeyIgnoresContext(WithContext(t, y), Reset(y), c, y.args, y.currentArg);
    }

    // term_putchar.
    method PutChar(c: char)
      requires Valid() && InBounds(View().ctx, c)
      modifies this`row, this`column, this`color, this`address, buffer, ctx, ctx.buf, ctx.args
      ensures Valid() && View() == TermModel.PutChar(old(View()), c)
    {
      ghost var t := View();
      PutCharSound(t, c);
      Place(c);
      var inSequence := InterpretChar(c);
      if inSequence || !IsPrint(c) {
        return;
      }
      PutNext(c);
    }

    // The cursor moves of term_putchar, before the character itself is looked at.
    method Place(c: char)
      requires Valid()
      modifies this`row, this`column, buffer
      ensures View() == Placed(old(View()), c)
    {
      if c == '\n' || c == '\r' {
        row := Word32(row + 1);
        column := 0;
      } else if c == '\t' {
        ghost var t := View();
        for i := 0 to 4
          invariant View() == Tab(t, i)
        {
          PutNext(' ');
        }
      }
      if column >= WIDTH {
        row := Word32(row + 1);
        column := 0;
      }
      if row >= HEIGHT {
        ScrollDown();
      }
    }

    // term_write.
    method WriteText(data: string)
      requires Valid() && Writable(View(), data)
      modifies this`row, this`column, this`color, this`address, buffer, ctx, ctx.buf, ctx.args
      ensures Valid() && View() == Write(old(View()), data)
    {
      ghost var goal := Write(View(), data);
      for i := 0 to |data|
        invariant Valid() && Writable(View(), data[i..]) && Write(View(), data[i..]) == goal
      {
        assert data[i..][1..] == data[i + 1..];
        PutChar(data[i]);
      }
    }
  }
}
