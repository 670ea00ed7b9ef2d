/** The VGA text buffer and its cursor (kernel/vga.c:14-68). */
module Screens {
  import opened Bytes
  import opened CString
  import opened ScreenModel

  // Rows of the buffer one place up, with a blank row behind them.
  lemma WindowScrolls(t: Terminal, cells: seq<Cell>)
    requires TerminalOk(t) && Line(t) >= HEIGHT - 1
    requires cells == Window(t)[WIDTH..] + BlankRow()
    ensures cells == Window(NextLine(t))
  {
    var u := NextLine(t);
    forall i | 0 <= i < WIDTH * HEIGHT
      ensures cells[i] == CellAt(u, i / WIDTH, i % WIDTH)
    {
      if i < WIDTH * (HEIGHT - 1) {
        assert cells[i] == Window(t)[i + WIDTH];
        assert (i + WIDTH) / WIDTH == i / WIDTH + 1 && (i + WIDTH) % WIDTH == i % WIDTH;
      }
    }
  }

  // Below the last row of the window there is nothing to scroll yet.
  lemma WindowGrows(t: Terminal)
    requires TerminalOk(t) && Line(t) < HEIGHT - 1
    ensures Window(NextLine(t)) == Window(t)
  {
    var u := NextLine(t);
    forall i | 0 <= i < WIDTH * HEIGHT
      ensures Window(u)[i] == Window(t)[i]
    {
      assert u.rows[Line(u)] == BlankRow();
    }
  }

  // One cell of the cursor's row.
  lemma WindowDrawn(t: Terminal, x: nat, cell: Cell)
    requires TerminalOk(t) && x < WIDTH
    ensures var at := (Line(t) - Top(t)) * WIDTH + x;
            at < WIDTH * HEIGHT && TerminalOk(Draw(t, x, cell)) && Window(Draw(t, x, cell)) == Window(t)[at := cell]
  {
    var at := (Line(t) - Top(t)) * WIDTH + x;
    var u := Draw(t, x, cell);
    forall i | 0 <= i < WIDTH * HEIGHT
      ensures Window(u)[i] == if i == at then cell else Window(t)[i]
    {
      assert i == i / WIDTH * WIDTH + i % WIDTH;
      assert at / WIDTH == Line(t) - Top(t) && at % WIDTH == x;
    }
  }

  lemma WindowStays(t: Terminal, x: nat)
    requires TerminalOk(t) && x < WIDTH
    ensures TerminalOk(t.(x := x)) && Window(t.(x := x)) == Window(t)
  {
  }

  class Screen {
    const video: array<Cell>
    var cursorX: nat
    var cursorY: nat

    // The screen shows the end of a terminal.
    ghost predicate Shows(t: Terminal)
      reads this, video
    {
      && TerminalOk(t) && video.Length == WIDTH * HEIGHT
      && video[..] == Window(t) && cursorX == t.x && cursorY == Line(t) - Top(t) < HEIGHT
    }

    constructor ()
      ensures fresh(video) && Shows(EMPTY)
    {
      video := new Cell[WIDTH * HEIGHT](i => BLANK);
      cursorX, cursorY := 0, 0;
      new;
      assert video[..] == Window(EMPTY);
    }

    // clear_screen (kernel/vga.c:23-30).
    method Clear()
      requires video.Length == WIDTH * HEIGHT
      modifies this, video
      ensures Shows(EMPTY) && cursorX == 0 && cursorY == 0 && forall i :: 0 <= i < 2000 ==> video[i] == 0x0F20
    {
      var i := 0;
      while i < WIDTH * HEIGHT
        invariant i <= WIDTH * HEIGHT && forall k :: 0 <= k < i ==> video[k] == BLANK
      {
        video[i] := BLANK;
        i := i + 1;
      }
      cursorX, cursorY := 0, 0;
      assert video[..] == Window(EMPTY);
    }

    // scroll_up (kernel/vga.c:14-21).
    method ScrollUp()
      requires video.Length == WIDTH * HEIGHT
      modifies `cursorY, video
      ensures video[..] == old(video[..])[WIDTH..] + BlankRow() && cursorY == HEIGHT - 1
    {
      ghost var was := video[..];
      var i := 0;
      while i < WIDTH * (HEIGHT - 1)
        invariant i <= WIDTH * (HEIGHT - 1)
        invariant forall k :: 0 <= k < i ==> video[k] == was[k + WIDTH]
        invariant forall k :: i <= k < video.Length ==> video[k] == was[k]
      {
        video[i] := video[i + WIDTH];
        i := i + 1;
      }
      i := 0;
      while i < WIDTH
        invariant i <= WIDTH
        invariant forall k :: 0 <= k < WIDTH * (HEIGHT - 1) ==> video[k] == was[k + WIDTH]
        invariant forall k :: WIDTH * (HEIGHT - 1) <= k < WIDTH * (HEIGHT - 1) + i ==> video[k] == BLANK
      {
        video[WIDTH * (HEIGHT - 1) + i] := BLANK;
        i := i + 1;
      }
      cursorY := HEIGHT - 1;
      assert video[..] == was[WIDTH..] + BlankRow();
    }

    // putchar (kernel/vga.c:39-63): one character on the terminal.
    method Putchar(c: Byte, attr: Attr, ghost t: Terminal)
      requires Shows(t)
      modifies this, video
      ensures Shows(Type(t, c, attr))
    {
      hide Window, TerminalOk, Draw;
      RowWide(t);
      ghost var u := t;
      if c == '\n' {
        cursorX := 0;
        cursorY := cursorY + 1;
      } else if c == '\r' {
        cursorX := 0;
      } else if c == '\t' {
        cursorX := (cursorX + 8) / 8 * 8;
      } else if c == 8 as char {
        if cursorX > 0 {
          cursorX := cursorX - 1;
          WindowDrawn(t, cursorX, CellOf(' ', attr));
          video[cursorY * WIDTH + cursorX] := CellOf(' ', attr);
          u := Draw(t, cursorX, CellOf(' ', attr));
        }
      } else if Visible(c) {
        WindowDrawn(t, cursorX, CellOf(c, attr));
        video[cursorY * WIDTH + cursorX] := CellOf(c, attr);
        u := Draw(t, cursorX, CellOf(c, attr));
        cursorX := cursorX + 1;
      }
      if cursorX >= WIDTH {
        cursorX := 0;
        cursorY := cursorY + 1;
      }
      if cursorY == Line(u) - Top(u) {
        WindowStays(u, cursorX);
      } else {
        NextLineOk(u);
        if cursorY < HEIGHT {
          WindowGrows(u);
        }
      }
      if cursorY >= HEIGHT {
        ScrollUp();
        WindowScrolls(u, video[..]);
      }
    }

    // vga_write (kernel/vga.c:65-68).
    method Write(s: Bytes, attr: Attr, ghost t: Terminal)
      requires Shows(t) && NulFree(s)
      modifies this, video
      ensures Shows(TypeAll(t, s, attr))
    {
      hide Window, Type;
      ghost var u := t;
      var i := 0;
      assert s[0..] == s;
      while i < |s|
        invariant i <= |s| && Shows(u) && TypeAll(u, s[i..], attr) == TypeAll(t, s, attr)
      {
        Putchar(s[i], attr, u);
        u := Type(u, s[i], attr);
        assert s[i..][1..] == s[i + 1..];
        i := i + 1;
      }
    }
  }

  lemma NextLineOk(t: Terminal)
    requires TerminalOk(t)
    ensures TerminalOk(NextLine(t))
  {
  }

  lemma RowWide(t: Terminal)
    requires TerminalOk(t)
    ensures t.rows != [] && |t.rows[Line(t)]| == WIDTH && t.x < WIDTH
  {
  }
}
