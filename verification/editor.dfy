/** The kittywrite key loop over its line array (kernel/kittywrite.c:67-77, 169-324). */
module KittyWrite {
  import opened Bytes
  import opened CString
  import opened EditorModel
  import opened EditorRows
  import Laws = EditorLaws
  import KeyLaws

  const EDIT_ROWS := 22

  // ------------------------------------------------------------------ rows as lines

  // The first n rows as C strings.
  ghost function Texts(rs: seq<Bytes>, n: nat): (ls: seq<Bytes>)
    requires n <= |rs|
    ensures |ls| == n && forall i :: 0 <= i < n ==> ls[i] == CStr(rs[i])
  {
    seq(n, i requires 0 <= i < n => CStr(rs[i]))
  }

  lemma TextsSet(rs: seq<Bytes>, n: nat, l: nat, row: Bytes, text: Bytes)
    requires l < n <= |rs| && CStr(row) == text
    ensures Texts(rs[l := row], n) == Texts(rs, n)[l := text]
  {
  }

  lemma InsertedRow(r: Bytes, x: Bytes, c: nat, ch: Byte)
    requires CStr(r) == x && |x| + 1 < |r| && c <= |x| && ch != NUL
    ensures CStr(Put<Byte>(Patched(r, c + 1, r, c, |x| - c + 1), c, ch)) == x[..c] + [ch] + x[c..]
  {
    var t, y := Put<Byte>(Patched(r, c + 1, r, c, |x| - c + 1), c, ch), x[..c] + [ch] + x[c..];
    assert x == r[..|x|] && r[|x|] == NUL && NulFree(x);
    assert t[..c] == x[..c] && t[c] == ch && t[c + 1..c + 1 + |x| - c] == r[c..|x|] == x[c..];
    assert t[..|y|] == y && t[|y|] == NUL && NulFree(y);
    CStrIs(t, y);
  }

  lemma RemovedRow(r: Bytes, x: Bytes, c: nat)
    requires CStr(r) == x && c < |x| < |r|
    ensures CStr(Patched(r, c, r, c + 1, |x| - c)) == x[..c] + x[c + 1..]
  {
    var t, y := Patched(r, c, r, c + 1, |x| - c), x[..c] + x[c + 1..];
    assert x == r[..|x|] && x[c + 1..] == r[c + 1..|x|];
    assert t == y + ([r[|x|]] + r[|x|..]);
    CStrIs(t, y);
  }

  lemma JoinedRow(r: Bytes, y: Bytes, s: Bytes, x: Bytes)
    requires CStr(r) == y && CStr(s) == x && |y| + |x| < |r| && |x| < |s|
    ensures CStr(Patched(r, |y|, s, 0, |x| + 1)) == y + x
  {
    CStrIs(Patched(r, |y|, s, 0, |x| + 1), y + x);
  }

  lemma TailRow(r: Bytes, s: Bytes, x: Bytes, c: nat)
    requires CStr(s) == x && |x| < |s| && c <= |x| && |s| == |r|
    ensures CStr(Patched(r, 0, s, c, |x| - c + 1)) == x[c..]
  {
    var t := Patched(r, 0, s, c, |x| - c + 1);
    assert t[..|x| - c] == x[c..] && t[|x| - c] == s[|x|];
    CStrIs(t, x[c..]);
  }

  lemma HeadRow(s: Bytes, x: Bytes, c: nat)
    requires CStr(s) == x && c <= |x| < |s|
    ensures CStr(Put<Byte>(s, c, NUL)) == x[..c]
  {
    var t := Put<Byte>(s, c, NUL);
    assert t[..c] == x[..c] && t[c] == NUL;
    CStrIs(t, x[..c]);
  }

  lemma MergedRows(rs: seq<Bytes>, n: nat, l: nat, row: Bytes)
    requires l + 1 < n <= |rs| && CStr(row) == CStr(rs[l]) + CStr(rs[l + 1])
    ensures var up := rs[l := row];
            Texts(Patched(up, l + 1, up, l + 2, n - 2 - l), n - 1) == MergeAt(Texts(rs, n), l)
  {
  }

  lemma SplitRows(rs: seq<Bytes>, n: nat, l: nat, c: nat, down: seq<Bytes>, tail: Bytes, head: Bytes)
    requires l < n < |rs| && c <= |CStr(rs[l])| && down == Patched(rs, l + 2, rs, l + 1, n - l - 1)
    requires CStr(tail) == CStr(rs[l])[c..] && CStr(head) == CStr(rs[l])[..c]
    ensures Texts(down[l + 1 := tail][l := head], n + 1) == SplitAt(Texts(rs, n), l, c)
  {
  }

  lemma RowsAbove<T>(rs: seq<T>, at: nat, src: nat, n: nat, l: nat)
    requires l < at && at + n <= |rs| && src + n <= |rs|
    ensures Patched(rs, at, rs, src, n)[l] == rs[l]
  {
  }

  // ------------------------------------------------------------------ the editor

  // kw_ensure_visible: the scroll position that keeps a row inside the window (kernel/kittywrite.c:67-77).
  ghost function ScrollTo(scroll: nat, line: nat): (s: nat)
    ensures s <= line < s + EDIT_ROWS
    ensures scroll <= line < scroll + EDIT_ROWS ==> s == scroll
  {
    if line < scroll then line else if line >= scroll + EDIT_ROWS then line - EDIT_ROWS + 1 else scroll
  }

  // The window moves no further than it must.
  lemma LeastMove(scroll: nat, line: nat, other: nat)
    requires other <= line < other + 22
    ensures ScrollTo(scroll, line) <= line < ScrollTo(scroll, line) + 22
    ensures Distance(scroll, ScrollTo(scroll, line)) <= Distance(scroll, other)
    ensures Distance(scroll, ScrollTo(scroll, line)) == Distance(scroll, other) ==> other == ScrollTo(scroll, line)
  {
  }

  function Distance(a: nat, b: nat): nat { if a <= b then b - a else a - b }

  class Editor {
    const rows: array2<Byte>
    var numLines: nat
    var curLine: nat
    var curCol: nat
    var scroll: nat
    var modified: bool

    ghost predicate Shaped()
      reads this, rows
    {
      rows.Length0 == MAX_LINES && rows.Length1 == SCREEN_WIDTH && numLines <= MAX_LINES
    }

    // The lines on the page and the cursor.
    ghost function Shown(): Page
      reads this, rows
      requires Shaped()
    {
      Page(Texts(Rows(rows), numLines), curLine, curCol)
    }

    ghost predicate Valid()
      reads this, rows
    {
      Shaped() && PageOk(Shown()) && scroll <= curLine < scroll + EDIT_ROWS
    }

    // What a key has done: the page, the window and the modified flag.
    twostate predicate Pressed(key: int)
      requires old(Valid())
      reads this, rows
    {
      && Valid()
      && Shown() == PressPage(old(Shown()), key)
      && scroll == ScrollTo(old(scroll), curLine)
      && modified == (old(modified) || Shown().lines != old(Shown()).lines)
    }

    constructor ()
      ensures Valid() && fresh(rows) && Shown() == Page([[]], 0, 0) && scroll == 0 && !modified
    {
      rows := new Byte[MAX_LINES, SCREEN_WIDTH]((i, j) => NUL);
      numLines, curLine, curCol, scroll, modified := 1, 0, 0, 0, false;
      new;
      assert Rows(rows)[0][0] == NUL;
      assert Texts(Rows(rows), 1) == [[]];
    }

    // The row of a valid editor holds its line and has room for the NUL.
    lemma RowHolds(i: nat)
      requires Valid() && i < numLines
      ensures Terminated(Rows(rows)[i]) && |CStr(Rows(rows)[i])| <= MAX_COL && |Rows(rows)[i]| == SCREEN_WIDTH
      ensures Shown().lines[i] == CStr(Rows(rows)[i])
    {
      assert LineOk(Shown().lines[i]);
    }

    method LineLength(i: nat) returns (len: nat)
      requires Valid() && i < numLines
      ensures len == |Shown().lines[i]|
    {
      RowHolds(i);
      len := RowLength(rows, i);
    }

    method ClearModified()
      requires Valid()
      modifies `modified
      ensures Valid() && Shown() == old(Shown()) && !modified
    {
      modified := false;
    }

    method EnsureVisible()
      modifies `scroll
      ensures scroll == ScrollTo(old(scroll), curLine)
      ensures forall s: nat :: s <= curLine < s + 22 ==> Distance(old(scroll), scroll) <= Distance(old(scroll), s)
    {
      if curLine < scroll {
        scroll := curLine;
      } else if curLine >= scroll + EDIT_ROWS {
        scroll := curLine - EDIT_ROWS + 1;
      }
    }

    method MoveLeft()
      requires Valid()
      modifies this
      ensures Pressed(KEY_LEFT)
    {
      hide Rows, Texts, PageOk;
      PageCursor(Shown());
      Laws.PressKeepsPage(Shown(), KEY_LEFT);
      if curCol > 0 {
        curCol := curCol - 1;
      } else if curLine > 0 {
        var len := LineLength(curLine - 1);
        curLine := curLine - 1;
        curCol := len;
        EnsureVisible();
      }
    }

    method MoveRight()
      requires Valid()
      modifies this
      ensures Pressed(KEY_RIGHT)
    {
      hide Rows, Texts, PageOk;
      PageCursor(Shown());
      Laws.PressKeepsPage(Shown(), KEY_RIGHT);
      var len := LineLength(curLine);
      if curCol < len {
        curCol := curCol + 1;
      } else if curLine < numLines - 1 {
        curLine := curLine + 1;
        curCol := 0;
        EnsureVisible();
      }
    }

    method MoveUp()
      requires Valid()
      modifies this
      ensures Pressed(KEY_UP)
    {
      hide Rows, Texts, PageOk;
      PageCursor(Shown());
      Laws.PressKeepsPage(Shown(), KEY_UP);
      if curLine > 0 {
        var len := LineLength(curLine - 1);
        curLine := curLine - 1;
        if curCol > len { curCol := len; }
        EnsureVisible();
      }
    }

    method MoveDown()
      requires Valid()
      modifies this
      ensures Pressed(KEY_DOWN)
    {
      hide Rows, Texts, PageOk;
      PageCursor(Shown());
      Laws.PressKeepsPage(Shown(), KEY_DOWN);
      if curLine < numLines - 1 {
        var len := LineLength(curLine + 1);
        curLine := curLine + 1;
        if curCol > len { curCol := len; }
        EnsureVisible();
      }
    }

    method MoveHome()
      requires Valid()
      modifies this
      ensures Pressed(KEY_HOME)
    {
      hide Rows, Texts, PageOk;
      PageCursor(Shown());
      Laws.PressKeepsPage(Shown(), KEY_HOME);
      curCol := 0;
    }

    method MoveEnd()
      requires Valid()
      modifies this
      ensures Pressed(KEY_END)
    {
      hide Rows, Texts, PageOk;
      PageCursor(Shown());
      Laws.PressKeepsPage(Shown(), KEY_END);
      var len := LineLength(curLine);
      curCol := len;
    }

    // Moves the rows below down and puts the rest of the cursor's line in the row that becomes free.
    method SplitRow()
      requires Valid() && numLines < MAX_LINES
      modifies rows
      ensures Texts(Rows(rows), numLines + 1) == SplitAt(old(Shown()).lines, curLine, curCol)
    {
      hide Rows, Patched, Texts, SplitAt, PageOk, CStr, Put;
      PageCursor(Shown());
      ghost var rs, x := Rows(rows), Shown().lines[curLine];
      RowHolds(curLine);
      ShiftDown(rows, curLine + 1, numLines);
      ghost var down := Rows(rows);
      RowsAbove(rs, curLine + 2, curLine + 1, numLines - curLine - 1, curLine);
      RowStrcpy(rows, curLine + 1, curLine, curCol);
      RowPut(rows, curLine, curCol, NUL);
      TailRow(down[curLine + 1], rs[curLine], x, curCol);
      HeadRow(rs[curLine], x, curCol);
      SplitRows(rs, numLines, curLine, curCol, down, Rows(rows)[curLine + 1], Rows(rows)[curLine]);
    }

    method SplitLine(key: int)
      requires Valid() && key in {KEY_NEWLINE, KEY_RETURN}
      modifies this, rows
      ensures Pressed(key)
    {
      hide Rows, Texts, SplitAt, PageOk;
      ghost var p := Shown();
      PageCursor(p);
      if numLines >= MAX_LINES { return; }
      Laws.PressKeepsPage(p, key);
      Laws.SplitLength(p.lines, p.l, p.c);
      SplitRow();
      numLines := numLines + 1;
      curLine := curLine + 1;
      curCol := 0;
      modified := true;
      EnsureVisible();
    }

    // Joins row l + 1 to row l; the rows below move up.
    method MergeRows(l: nat)
      requires Valid() && l + 1 < numLines && |Shown().lines[l]| + |Shown().lines[l + 1]| < MAX_COL
      modifies this`numLines, rows
      ensures Shaped() && Shown().lines == MergeAt(old(Shown()).lines, l) && numLines == old(numLines) - 1
    {
      hide Rows, Patched, Texts, MergeAt, PageOk, CStr, Put;
      ghost var p, rs := Shown(), Rows(rows);
      RowHolds(l);
      RowHolds(l + 1);
      var above := RowLength(rows, l);
      var below := RowLength(rows, l + 1);
      RowCopy(rows, l, above, l + 1, 0, below + 1);
      JoinedRow(rs[l], p.lines[l], rs[l + 1], p.lines[l + 1]);
      MergedRows(rs, numLines, l, Rows(rows)[l]);
      ShiftUp(rows, l + 1, numLines - 1);
      Laws.MergeLength(p.lines, l);
      numLines := numLines - 1;
    }

    // Moves the rest of the line over the character at column c.
    method DropAt(c: nat)
      requires Valid() && c < |Shown().lines[curLine]|
      modifies rows
      ensures Shaped()
      ensures var ls, x := old(Shown()).lines, old(Shown()).lines[curLine];
              Shown().lines == ls[curLine := x[..c] + x[c + 1..]]
    {
      hide Rows, Patched, Texts, PageOk, CStr, Put;
      PageCursor(Shown());
      ghost var rs, x := Rows(rows), Shown().lines[curLine];
      RowHolds(curLine);
      var len := RowLength(rows, curLine);
      RowMove(rows, curLine, c, c + 1, len - c);
      RemovedRow(rs[curLine], x, c);
      TextsSet(rs, numLines, curLine, Rows(rows)[curLine], x[..c] + x[c + 1..]);
    }

    method Backspace()
      requires Valid()
      modifies this, rows
      ensures Pressed(KEY_BACKSPACE)
    {
      hide Rows, Texts, MergeAt, PageOk;
      ghost var p := Shown();
      Laws.PressKeepsPage(p, KEY_BACKSPACE);
      PageCursor(p);
      if curCol > 0 {
        DropAt(curCol - 1);
        Shorter(p.lines[p.l], p.c - 1);
        curCol := curCol - 1;
        modified := true;
      } else if curLine > 0 {
        var above := LineLength(curLine - 1);
        var below := LineLength(curLine);
        if above + below < MAX_COL {
          MergeRows(curLine - 1);
          Laws.MergeLength(p.lines, p.l - 1);
          curLine := curLine - 1;
          curCol := above;
          modified := true;
          EnsureVisible();
        }
      }
    }

    method DeleteKey()
      requires Valid()
      modifies this, rows
      ensures Pressed(KEY_DELETE)
    {
      hide Rows, Texts, MergeAt, PageOk;
      ghost var p := Shown();
      Laws.PressKeepsPage(p, KEY_DELETE);
      PageCursor(p);
      var len := LineLength(curLine);
      if curCol < len {
        DropAt(curCol);
        Shorter(p.lines[p.l], p.c);
        modified := true;
      } else if curLine < numLines - 1 {
        var below := LineLength(curLine + 1);
        if len + below < MAX_COL {
          MergeRows(curLine);
          Laws.MergeLength(p.lines, p.l);
          modified := true;
        }
      }
    }

    method TypeChar(key: int)
      requires Valid() && Printable(key)
      modifies this, rows
      ensures Pressed(key)
    {
      hide Rows, Patched, Texts, PageOk, CStr, Put;
      ghost var p, rs := Shown(), Rows(rows);
      Laws.PressKeepsPage(p, key);
      PageCursor(p);
      RowHolds(curLine);
      var len := RowLength(rows, curLine);
      if len < MAX_COL - 1 {
        ghost var x := p.lines[p.l];
        RowMove(rows, curLine, curCol + 1, curCol, len - curCol + 1);
        RowPut(rows, curLine, curCol, key as char);
        InsertedRow(rs[curLine], x, p.c, key as char);
        TextsSet(rs, numLines, curLine, Rows(rows)[curLine], x[..p.c] + [key as char] + x[p.c..]);
        Longer(p.lines, p.l, p.c, key as char);
        curCol := curCol + 1;
        modified := true;
        assert Shown().lines == p.lines[p.l := x[..p.c] + [key as char] + x[p.c..]];
      }
    }

    // One turn of the key loop: it refines the flat text with one offset.
    method HandleKey(key: int)
      requires Valid()
      modifies this, rows
      ensures Pressed(key)
      ensures FlatOf(Shown()) == Press(old(FlatOf(Shown())), key)
      ensures KeyLaws.KeyDid(old(Shown()), Shown(), key)
    {
      hide KeyLaws.KeyDid;
      Laws.PressRefines(Shown(), key);
      KeyLaws.KeyDone(Shown(), key);
      if key == KEY_LEFT {
        MoveLeft();
      } else if key == KEY_RIGHT {
        MoveRight();
      } else if key == KEY_UP {
        MoveUp();
      } else if key == KEY_DOWN {
        MoveDown();
      } else if key == KEY_HOME {
        MoveHome();
      } else if key == KEY_END {
        MoveEnd();
      } else if key == KEY_NEWLINE || key == KEY_RETURN {
        SplitLine(key);
      } else if key == KEY_BACKSPACE {
        Backspace();
      } else if key == KEY_DELETE {
        DeleteKey();
      } else if Printable(key) {
        TypeChar(key);
      }
    }
  }

  lemma PageCursor(p: Page)
    requires PageOk(p)
    ensures p.l < |p.lines| && p.c <= |p.lines[p.l]| && |p.lines| <= MAX_LINES
  {
  }

  lemma Longer(ls: seq<Bytes>, l: nat, c: nat, ch: Byte)
    requires l < |ls| && c <= |ls[l]|
    ensures ls[l := ls[l][..c] + [ch] + ls[l][c..]] != ls
  {
    assert |ls[l][..c] + [ch] + ls[l][c..]| == |ls[l]| + 1;
  }

  lemma Shorter(x: Bytes, c: nat)
    requires c < |x|
    ensures |x[..c] + x[c + 1..]| == |x| - 1
  {
  }
}
