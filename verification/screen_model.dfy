/** The text screen as the last rows of an unbounded terminal (kernel/vga.c). */
module ScreenModel {
  import opened Bytes

  const WIDTH := 80
  const HEIGHT := 25
  const DEFAULT_ATTR := 0x0F

  type Attr = U8
  type Cell = U16

  // A character in its colour, as one cell.
  function CellOf(c: Byte, attr: Attr): Cell { attr * 0x100 + c as nat }

  const BLANK: Cell := CellOf(' ', DEFAULT_ATTR)

  // Every row written since the screen was cleared, the last one holding the cursor.
  datatype Terminal = Terminal(rows: seq<seq<Cell>>, x: nat)

  ghost function BlankRow(): (r: seq<Cell>) { seq(WIDTH, i => BLANK) }

  ghost const EMPTY := Terminal([BlankRow()], 0)

  ghost predicate TerminalOk(t: Terminal) {
    t.rows != [] && t.x < WIDTH && forall i :: 0 <= i < |t.rows| ==> |t.rows[i]| == WIDTH
  }

  ghost function Line(t: Terminal): nat
    requires t.rows != []
  {
    |t.rows| - 1
  }

  ghost function NextLine(t: Terminal): Terminal { Terminal(t.rows + [BlankRow()], 0) }

  ghost function MoveTo(t: Terminal, x: nat): Terminal { if x >= WIDTH then NextLine(t) else t.(x := x) }

  ghost function Draw(t: Terminal, x: nat, cell: Cell): (r: Terminal)
    requires t.rows != [] && |t.rows[Line(t)]| == WIDTH && x < WIDTH
    ensures |r.rows| == |t.rows| && r.x == t.x && |r.rows[Line(t)]| == WIDTH
  {
    t.(rows := t.rows[Line(t) := Put<Cell>(t.rows[Line(t)], x, cell)])
  }

  predicate Visible(c: Byte) { ' ' <= c <= 127 as char }

  // What a character does; char is signed, so characters from 128 on do nothing.
  ghost function Type(t: Terminal, c: Byte, attr: Attr): Terminal
    requires TerminalOk(t)
  {
    if c == '\n' then NextLine(t)
    else if c == '\r' then t.(x := 0)
    else if c == '\t' then MoveTo(t, (t.x + 8) / 8 * 8)
    else if c == 8 as char then
      if t.x > 0 then Draw(t, t.x - 1, CellOf(' ', attr)).(x := t.x - 1) else t
    else if Visible(c) then MoveTo(Draw(t, t.x, CellOf(c, attr)), t.x + 1)
    else t
  }

  lemma TypeOk(t: Terminal, c: Byte, attr: Attr)
    requires TerminalOk(t)
    ensures TerminalOk(Type(t, c, attr))
  {
  }

  ghost function TypeAll(t: Terminal, s: Bytes, attr: Attr): (r: Terminal)
    requires TerminalOk(t)
    ensures TerminalOk(r)
    decreases s
  {
    if s == [] then t
    else
      TypeOk(t, s[0], attr);
      TypeAll(Type(t, s[0], attr), s[1..], attr)
  }

  lemma {:induction false} TypeAllJoin(t: Terminal, s: Bytes, u: Bytes, attr: Attr)
    requires TerminalOk(t)
    ensures TypeAll(t, s + u, attr) == TypeAll(TypeAll(t, s, attr), u, attr)
    decreases |s|
  {
    hide Type, TerminalOk;
    if s == [] {
      assert s + u == u;
    } else {
      TypeOk(t, s[0], attr);
      assert (s + u)[1..] == s[1..] + u;
      TypeAllJoin(Type(t, s[0], attr), s[1..], u, attr);
    }
  }

  // ------------------------------------------------------------------ what a terminal remembers

  ghost predicate Prefix(a: seq<seq<Cell>>, b: seq<seq<Cell>>) { |a| <= |b| && b[..|a|] == a }

  // Rows above the cursor are never touched again.
  lemma {:induction false} RowsStay(t: Terminal, s: Bytes, attr: Attr)
    requires TerminalOk(t)
    ensures Prefix(t.rows[..Line(t)], TypeAll(t, s, attr).rows[..Line(TypeAll(t, s, attr))])
    decreases |s|
  {
    if s != [] {
      TypeOk(t, s[0], attr);
      var u := Type(t, s[0], attr);
      assert u.rows[..Line(t)] == t.rows[..Line(t)];
      RowsStay(u, s[1..], attr);
      var w := TypeAll(u, s[1..], attr);
      assert w.rows[..Line(w)][..Line(u)][..Line(t)] == w.rows[..Line(w)][..Line(t)];
    }
  }

  // A line of text in a row of blanks.
  ghost function Padded(line: Bytes, attr: Attr): (r: seq<Cell>)
    ensures |r| == WIDTH
  {
    seq(WIDTH, i requires 0 <= i < WIDTH => if i < |line| then CellOf(line[i], attr) else BLANK)
  }

  ghost predicate PlainLine(line: Bytes) { |line| < WIDTH && forall i :: 0 <= i < |line| ==> Visible(line[i]) }

  ghost function Text(lines: seq<Bytes>): Bytes
    requires lines != []
  {
    if |lines| == 1 then lines[0] else lines[0] + ['\n'] + Text(lines[1..])
  }

  // Typing the rest of a line into the row it was begun in.
  lemma {:induction false} LineTyped(above: seq<seq<Cell>>, line: Bytes, k: nat, attr: Attr)
    requires PlainLine(line) && k <= |line| && (forall i :: 0 <= i < |above| ==> |above[i]| == WIDTH)
    ensures TypeAll(Terminal(above + [Padded(line[..k], attr)], k), line[k..], attr)
            == Terminal(above + [Padded(line, attr)], |line|)
    decreases |line| - k
  {
    var t := Terminal(above + [Padded(line[..k], attr)], k);
    if k == |line| {
      assert line[..k] == line;
    } else {
      assert Visible(line[k]) && line[k..][0] == line[k] && line[k..][1..] == line[k + 1..];
      assert Put<Cell>(Padded(line[..k], attr), k, CellOf(line[k], attr)) == Padded(line[..k + 1], attr);
      assert t.rows[|above| := Padded(line[..k + 1], attr)] == above + [Padded(line[..k + 1], attr)];
      LineTyped(above, line, k + 1, attr);
    }
  }

  // Lines of plain text stand one under the other.
  lemma {:induction false} LinesShown(above: seq<seq<Cell>>, lines: seq<Bytes>, attr: Attr)
    requires lines != [] && (forall i :: 0 <= i < |lines| ==> PlainLine(lines[i]))
    requires forall i :: 0 <= i < |above| ==> |above[i]| == WIDTH
    ensures var t := TypeAll(Terminal(above + [BlankRow()], 0), Text(lines), attr);
            && |t.rows| == |above| + |lines| && t.x == |lines[|lines| - 1]|
            && t.rows[..|above|] == above
            && forall i :: 0 <= i < |lines| ==> t.rows[|above| + i] == Padded(lines[i], attr)
    decreases |lines|
  {
    hide TypeAll, Type, Padded, PlainLine;
    var line := lines[0];
    var start := Terminal(above + [BlankRow()], 0);
    BlankIsPadded(attr);
    assert PlainLine(line);
    LineTyped(above, line, 0, attr);
    assert line[..0] == [] && line[0..] == line;
    if |lines| > 1 {
      var more := above + [Padded(line, attr)];
      assert PlainLine(lines[0]);
      LineEnd(more, line, attr);
      TypeAllJoin(start, line, ['\n'] + Text(lines[1..]), attr);
      TypeAllJoin(Terminal(more, |line|), ['\n'], Text(lines[1..]), attr);
      assert Text(lines) == line + (['\n'] + Text(lines[1..]));
      LinesShown(more, lines[1..], attr);
      var t := TypeAll(start, Text(lines), attr);
      assert t == TypeAll(Terminal(more + [BlankRow()], 0), Text(lines[1..]), attr);
      assert t.rows[..|above|] == t.rows[..|more|][..|above|];
      forall i | 0 <= i < |lines|
        ensures t.rows[|above| + i] == Padded(lines[i], attr)
      {
        if i == 0 {
          assert t.rows[|above|] == t.rows[..|more|][|above|];
        } else {
          assert lines[i] == lines[1..][i - 1];
        }
      }
    }
  }

  lemma BlankIsPadded(attr: Attr)
    ensures Padded([], attr) == BlankRow()
  {
  }

  lemma LineEnd(rows: seq<seq<Cell>>, line: Bytes, attr: Attr)
    requires rows != [] && (forall i :: 0 <= i < |rows| ==> |rows[i]| == WIDTH) && PlainLine(line)
    ensures TypeAll(Terminal(rows, |line|), ['\n'], attr) == Terminal(rows + [BlankRow()], 0)
  {
    assert ['\n'][1..] == [];
  }

  // ------------------------------------------------------------------ the window

  ghost function Top(t: Terminal): nat
    requires t.rows != []
  {
    if Line(t) < HEIGHT then 0 else Line(t) - HEIGHT + 1
  }

  // The cells on the screen: the last rows, blanks below the cursor's.
  ghost function Window(t: Terminal): (cells: seq<Cell>)
    requires TerminalOk(t)
    ensures |cells| == WIDTH * HEIGHT
  {
    seq(WIDTH * HEIGHT, i requires 0 <= i < WIDTH * HEIGHT => CellAt(t, i / WIDTH, i % WIDTH))
  }

  ghost function CellAt(t: Terminal, y: nat, x: nat): Cell
    requires TerminalOk(t) && x < WIDTH
  {
    if Top(t) + y <= Line(t) then t.rows[Top(t) + y][x] else BLANK
  }

  // Nothing is shown below the cursor's row, and the cursor's row is the last one written.
  lemma BelowIsBlank(t: Terminal, i: nat)
    requires TerminalOk(t) && i < WIDTH * HEIGHT && i / WIDTH > Line(t) - Top(t)
    ensures Line(t) - Top(t) < HEIGHT && Window(t)[i] == BLANK
  {
  }

  // ------------------------------------------------------------------ character by character

  // The low byte of a cell is its character, the high byte its colour; a blank is a white space on black.
  lemma CellBytes(c: Byte, attr: Attr)
    ensures CellOf(c, attr) % 0x100 == c as int && CellOf(c, attr) / 0x100 == attr
    ensures BLANK == 0x0F20
  {
  }

  // What one character does to rows and cursor.
  ghost predicate Typed(t: Terminal, u: Terminal, c: Byte, attr: Attr)
    requires TerminalOk(t) && TerminalOk(u)
  {
    var y := |t.rows| - 1;
    var below := t.rows + [seq(80, i => 0x0F20)];
    if c == 10 as char then u.rows == below && u.x == 0
    else if c == 13 as char then u.rows == t.rows && u.x == 0
    else if c == 9 as char then
      if t.x < 72 then u.rows == t.rows && u.x % 8 == 0 && t.x < u.x <= t.x + 8
      else u.rows == below && u.x == 0
    else if c == 8 as char then
      if t.x == 0 then u == t
      else u.x == t.x - 1 && u.rows == t.rows[y := Put<Cell>(t.rows[y], t.x - 1, attr * 0x100 + 32)]
    else if 32 as char <= c <= 127 as char then
      var drawn := t.rows[y := Put<Cell>(t.rows[y], t.x, attr * 0x100 + c as int)];
      if t.x == 79 then u.rows == drawn + [seq(80, i => 0x0F20)] && u.x == 0 else u.rows == drawn && u.x == t.x + 1
    else u == t
  }

  lemma TypeDone(t: Terminal, c: Byte, attr: Attr)
    requires TerminalOk(t)
    ensures TerminalOk(Type(t, c, attr)) && Typed(t, Type(t, c, attr), c, attr)
  {
    TypeOk(t, c, attr);
    assert BlankRow() == seq(80, i => 0x0F20);
  }

  // Text of any length wraps at column 80: character i stands (x + i) / 80 rows below the cursor, in column (x + i) % 80.
  lemma {:induction false} LongTextWraps(t: Terminal, s: Bytes, attr: Attr)
    requires TerminalOk(t) && forall i :: 0 <= i < |s| ==> Visible(s[i])
    ensures var u := TypeAll(t, s, attr);
            && |u.rows| == |t.rows| + (t.x + |s|) / 80 && u.x == (t.x + |s|) % 80
            && u.rows[..|t.rows| - 1] == t.rows[..|t.rows| - 1]
            && u.rows[|t.rows| - 1][..t.x] == t.rows[|t.rows| - 1][..t.x]
            && forall i :: 0 <= i < |s| ==> CellShown(u, |t.rows| - 1, t.x + i, attr * 0x100 + s[i] as int)
    decreases |s|
  {
    hide Type, TypeAll, Typed;
    TypeNothing(t, attr);
    if s != [] {
      TypeDone(t, s[0], attr);
      var v := Type(t, s[0], attr);
      StepRight(t, v, s[0], attr);
      LongTextWraps(v, s[1..], attr);
      TypeFirst(t, s, attr);
      var u := TypeAll(v, s[1..], attr);
      FirstShown(t, v, u, s[0], attr);
      forall i | 0 <= i < |s|
        ensures CellShown(u, |t.rows| - 1, t.x + i, attr * 0x100 + s[i] as int)
      {
        if i > 0 {
          assert s[i] == s[1..][i - 1];
          RowShift(t.x, i);
        }
      }
    }
  }

  // n columns behind the start of row y.
  ghost predicate CellShown(t: Terminal, y: nat, n: nat, cell: int)
    requires TerminalOk(t)
  {
    y + n / 80 < |t.rows| && t.rows[y + n / 80][n % 80] == cell
  }

  lemma TypeNothing(t: Terminal, attr: Attr)
    requires TerminalOk(t)
    ensures TypeAll(t, [], attr) == t
  {
  }

  lemma TypeFirst(t: Terminal, s: Bytes, attr: Attr)
    requires TerminalOk(t) && s != []
    ensures TerminalOk(Type(t, s[0], attr)) && TypeAll(t, s, attr) == TypeAll(Type(t, s[0], attr), s[1..], attr)
  {
    TypeOk(t, s[0], attr);
  }

  lemma StepRight(t: Terminal, v: Terminal, c: Byte, attr: Attr)
    requires TerminalOk(t) && TerminalOk(v) && Visible(c) && Typed(t, v, c, attr)
    ensures |v.rows| == |t.rows| + (t.x + 1) / 80 && v.x == (t.x + 1) % 80
  {
  }

  lemma FirstShown(t: Terminal, v: Terminal, u: Terminal, c: Byte, attr: Attr)
    requires TerminalOk(t) && TerminalOk(v) && TerminalOk(u) && Visible(c) && Typed(t, v, c, attr) && |u.rows| >= |v.rows|
    requires u.rows[..|v.rows| - 1] == v.rows[..|v.rows| - 1]
    requires u.rows[|v.rows| - 1][..v.x] == v.rows[|v.rows| - 1][..v.x]
    ensures u.rows[..|t.rows| - 1] == t.rows[..|t.rows| - 1]
    ensures u.rows[|t.rows| - 1][..t.x] == t.rows[|t.rows| - 1][..t.x]
    ensures CellShown(u, |t.rows| - 1, t.x, attr * 0x100 + c as int)
  {
    var y := |t.rows| - 1;
    if t.x == 79 {
      assert u.rows[y] == u.rows[..|v.rows| - 1][y] == v.rows[y];
      assert u.rows[..y] == u.rows[..|v.rows| - 1][..y];
    } else {
      assert u.rows[y][..v.x][t.x] == v.rows[y][t.x];
      assert u.rows[y][..t.x] == u.rows[y][..v.x][..t.x] == v.rows[y][..t.x];
    }
  }

  lemma RowShift(x: nat, i: nat)
    requires x < 80 && i > 0
    ensures x == 79 ==> (x + i) / 80 == (i - 1) / 80 + 1 && (x + i) % 80 == (i - 1) % 80
  {
  }

  // A backspace behind a character drawn before the last column leaves a blank in its place, in the colour of the backspace.
  lemma BackspaceErases(t: Terminal, c: Byte, attr: Attr, erased: Attr)
    requires TerminalOk(t) && Visible(c) && t.x < 79
    ensures TerminalOk(Type(t, c, attr))
    ensures var y, u := |t.rows| - 1, Type(Type(t, c, attr), 8 as char, erased);
            u.x == t.x && u.rows == t.rows[y := Put<Cell>(t.rows[y], t.x, erased * 0x100 + 32)]
  {
    TypeDone(t, c, attr);
    var v, y := Type(t, c, attr), |t.rows| - 1;
    TypeDone(v, 8 as char, erased);
    assert v.rows[y] == Put<Cell>(t.rows[y], t.x, attr * 0x100 + c as int);
    assert Put<Cell>(v.rows[y], t.x, erased * 0x100 + 32) == Put<Cell>(t.rows[y], t.x, erased * 0x100 + 32);
  }

  // The screen shows the last 25 rows, or all there are with blanks below them.
  lemma WindowMeans(t: Terminal, y: nat, x: nat)
    requires TerminalOk(t) && y < 25 && x < 80
    ensures var n := |t.rows|;
            Window(t)[80 * y + x] ==
            if n >= 25 then t.rows[n - 25 + y][x] else if y < n then t.rows[y][x] else 0x0F20
  {
    assert (80 * y + x) / 80 == y && (80 * y + x) % 80 == x;
  }
}
