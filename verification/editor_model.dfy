/** The kittywrite buffer as a list of lines, and as a flat text with one cursor offset (kernel/kittywrite.c). */
module EditorModel {
  import opened Bytes
  import opened CString

  const NEWLINE: Byte := '\n'
  const MAX_LINES := 200
  const SCREEN_WIDTH := 80
  const MAX_COL := SCREEN_WIDTH - 1
  const KEY_BACKSPACE := 8
  const KEY_NEWLINE := 10
  const KEY_RETURN := 13
  const KEY_LEFT := -30
  const KEY_RIGHT := -31
  const KEY_UP := -32
  const KEY_DOWN := -33
  const KEY_DELETE := -34
  const KEY_HOME := -35
  const KEY_END := -36

  // ------------------------------------------------------------------ flat text

  datatype Flat = Flat(text: Bytes, off: nat)

  ghost function LineStart(text: Bytes, off: nat): (k: nat)
    requires off <= |text|
    ensures k <= off
  {
    LastIndex(text[..off], NEWLINE) + 1
  }

  ghost function LineEnd(text: Bytes, off: nat): (k: nat)
    requires off <= |text|
    ensures off <= k <= |text|
  {
    off + FirstIndex(text[off..], NEWLINE)
  }

  ghost function Newlines(text: Bytes): nat {
    if text == [] then 0 else (if text[0] == NEWLINE then 1 else 0) + Newlines(text[1..])
  }

  ghost function Insert(f: Flat, c: Byte): (r: Flat)
    requires f.off <= |f.text|
    ensures |r.text| == |f.text| + 1 && r.off == f.off + 1
  {
    Flat(f.text[..f.off] + [c] + f.text[f.off..], f.off + 1)
  }

  // Removes the character at the offset.
  ghost function Remove(f: Flat): (r: Flat)
    requires f.off < |f.text|
    ensures |r.text| == |f.text| - 1 && r.off == f.off
  {
    Flat(f.text[..f.off] + f.text[f.off + 1..], f.off)
  }

  predicate Printable(key: int) { 32 <= key <= 126 }

  // Up and down keep the column where the other line is long enough.
  ghost function Up(f: Flat): (r: Flat)
    requires f.off <= |f.text|
    ensures r.text == f.text && r.off <= |r.text|
  {
    var start := LineStart(f.text, f.off);
    if start == 0 then f
    else
      var above := LineStart(f.text, start - 1);
      f.(off := above + Min(f.off - start, start - 1 - above))
  }

  ghost function Down(f: Flat): (r: Flat)
    requires f.off <= |f.text|
    ensures r.text == f.text && r.off <= |r.text|
  {
    var start, end := LineStart(f.text, f.off), LineEnd(f.text, f.off);
    if end == |f.text| then f
    else f.(off := end + 1 + Min(f.off - start, LineEnd(f.text, end + 1) - (end + 1)))
  }

  // Backspace and Delete remove a newline only when the joined line stays under 79 characters.
  ghost function RubOut(f: Flat): (r: Flat)
    requires f.off <= |f.text|
    ensures r.off <= |r.text|
  {
    var start, end := LineStart(f.text, f.off), LineEnd(f.text, f.off);
    if f.off == 0 then f
    else if f.off > start then Remove(f.(off := f.off - 1))
    else if f.off - 1 - LineStart(f.text, f.off - 1) + (end - f.off) < MAX_COL then Remove(f.(off := f.off - 1))
    else f
  }

  ghost function RubAhead(f: Flat): (r: Flat)
    requires f.off <= |f.text|
    ensures r.off <= |r.text|
  {
    var start, end := LineStart(f.text, f.off), LineEnd(f.text, f.off);
    if f.off == |f.text| then f
    else if f.off < end then Remove(f)
    else if end - start + (LineEnd(f.text, f.off + 1) - (f.off + 1)) < MAX_COL then Remove(f)
    else f
  }

  // What each key does to the text; a key that a size limit blocks does nothing.
  ghost function Press(f: Flat, key: int): (r: Flat)
    requires f.off <= |f.text|
    ensures r.off <= |r.text|
  {
    var start, end := LineStart(f.text, f.off), LineEnd(f.text, f.off);
    if key == KEY_LEFT then if f.off > 0 then f.(off := f.off - 1) else f
    else if key == KEY_RIGHT then if f.off < |f.text| then f.(off := f.off + 1) else f
    else if key == KEY_HOME then f.(off := start)
    else if key == KEY_END then f.(off := end)
    else if key == KEY_UP then Up(f)
    else if key == KEY_DOWN then Down(f)
    else if key == KEY_NEWLINE || key == KEY_RETURN then
      if Newlines(f.text) + 1 >= MAX_LINES then f else Insert(f, NEWLINE)
    else if key == KEY_BACKSPACE then RubOut(f)
    else if key == KEY_DELETE then RubAhead(f)
    else if Printable(key) then if end - start < MAX_COL - 1 then Insert(f, key as char) else f
    else f
  }

  // ------------------------------------------------------------------ list of lines

  // Lines and a cursor in row l before column c.
  datatype Page = Page(lines: seq<Bytes>, l: nat, c: nat)

  ghost predicate LineOk(line: Bytes) { NEWLINE !in line && NulFree(line) && |line| <= MAX_COL }

  ghost predicate LinesOk(ls: seq<Bytes>) {
    forall i :: 0 <= i < |ls| ==> LineOk(ls[i])
  }

  ghost predicate PageOk(p: Page) {
    1 <= |p.lines| <= MAX_LINES && p.l < |p.lines| && p.c <= |p.lines[p.l]| && LinesOk(p.lines)
  }

  ghost function MergeAt(lines: seq<Bytes>, l: nat): seq<Bytes>
    requires l + 1 < |lines|
  {
    lines[..l] + [lines[l] + lines[l + 1]] + lines[l + 2..]
  }

  ghost function SplitAt(lines: seq<Bytes>, l: nat, c: nat): seq<Bytes>
    requires l < |lines| && c <= |lines[l]|
  {
    lines[..l] + [lines[l][..c], lines[l][c..]] + lines[l + 1..]
  }

  ghost function PressPage(p: Page, key: int): Page
    requires PageOk(p)
  {
    var Page(ls, l, c) := p;
    var cur := ls[l];
    if key == KEY_LEFT then
      if c > 0 then p.(c := c - 1) else if l > 0 then p.(l := l - 1, c := |ls[l - 1]|) else p
    else if key == KEY_RIGHT then
      if c < |cur| then p.(c := c + 1) else if l < |ls| - 1 then p.(l := l + 1, c := 0) else p
    else if key == KEY_HOME then p.(c := 0)
    else if key == KEY_END then p.(c := |cur|)
    else if key == KEY_UP then if l > 0 then p.(l := l - 1, c := Min(c, |ls[l - 1]|)) else p
    else if key == KEY_DOWN then if l < |ls| - 1 then p.(l := l + 1, c := Min(c, |ls[l + 1]|)) else p
    else if key == KEY_NEWLINE || key == KEY_RETURN then
      if |ls| >= MAX_LINES then p else Page(SplitAt(ls, l, c), l + 1, 0)
    else if key == KEY_BACKSPACE then
      if c > 0 then Page(ls[l := cur[..c - 1] + cur[c..]], l, c - 1)
      else if l > 0 && |ls[l - 1]| + |cur| < MAX_COL then Page(MergeAt(ls, l - 1), l - 1, |ls[l - 1]|)
      else p
    else if key == KEY_DELETE then
      if c < |cur| then p.(lines := ls[l := cur[..c] + cur[c + 1..]])
      else if l < |ls| - 1 && |cur| + |ls[l + 1]| < MAX_COL then p.(lines := MergeAt(ls, l))
      else p
    else if Printable(key) then
      if |cur| < MAX_COL - 1 then Page(ls[l := cur[..c] + [key as char] + cur[c..]], l, c + 1) else p
    else p
  }

  // ------------------------------------------------------------------ joining lines

  // Each line followed by a newline, and each line after one.
  function Lead(ls: seq<Bytes>): Bytes {
    if ls == [] then [] else ls[0] + [NEWLINE] + Lead(ls[1..])
  }

  function Trail(ls: seq<Bytes>): Bytes {
    if ls == [] then [] else [NEWLINE] + ls[0] + Trail(ls[1..])
  }

  function Join(ls: seq<Bytes>): Bytes
    requires ls != []
  {
    ls[0] + Trail(ls[1..])
  }

  ghost function FlatOf(p: Page): (f: Flat)
    requires p.l < |p.lines| && p.c <= |p.lines[p.l]|
    ensures f.off <= |f.text|
  {
    JoinAround(p.lines, p.l);
    Flat(Join(p.lines), |Lead(p.lines[..p.l])| + p.c)
  }

  lemma {:induction false} LeadSnoc(ls: seq<Bytes>, x: Bytes)
    ensures Lead(ls + [x]) == Lead(ls) + (x + [NEWLINE])
  {
    if ls == [] {
      assert ls + [x] == [x];
      assert [x][1..] == [];
    } else {
      assert (ls + [x])[1..] == ls[1..] + [x];
      LeadSnoc(ls[1..], x);
    }
  }

  // The text around line l.
  lemma {:induction false} JoinAround(ls: seq<Bytes>, l: nat)
    requires l < |ls|
    ensures Join(ls) == Lead(ls[..l]) + ls[l] + Trail(ls[l + 1..])
    decreases l
  {
    if l == 0 {
      assert ls[..0] == [];
    } else {
      var t := ls[1..];
      JoinAround(t, l - 1);
      assert ls[..l][1..] == t[..l - 1] && t[l..] == ls[l + 1..];
      assert ls[..l][0] == ls[0];
      assert Trail(t) == [NEWLINE] + Join(t);
    }
  }

  lemma LeadEnds(ls: seq<Bytes>)
    ensures ls != [] ==> Lead(ls) != [] && Lead(ls)[|Lead(ls)| - 1] == NEWLINE
  {
    if ls != [] {
      var init, last := ls[..|ls| - 1], ls[|ls| - 1];
      assert ls == init + [last];
      LeadSnoc(init, last);
    }
  }

  lemma {:induction false} NewlinesJoin(a: Bytes, b: Bytes)
    ensures Newlines(a + b) == Newlines(a) + Newlines(b)
  {
    if a == [] {
      assert a + b == b;
    } else {
      assert (a + b)[1..] == a[1..] + b;
      NewlinesJoin(a[1..], b);
    }
  }

  lemma {:induction false} NoNewlines(a: Bytes)
    requires NEWLINE !in a
    ensures Newlines(a) == 0
  {
    if a != [] {
      assert a[0] in a;
      NoNewlines(a[1..]);
    }
  }

  lemma {:induction false} TrailNewlines(ls: seq<Bytes>)
    requires forall i :: 0 <= i < |ls| ==> NEWLINE !in ls[i]
    ensures Newlines(Trail(ls)) == |ls|
  {
    if ls != [] {
      NoNewlines(ls[0]);
      NewlinesJoin([NEWLINE] + ls[0], Trail(ls[1..]));
      NewlinesJoin([NEWLINE], ls[0]);
      assert [NEWLINE][1..] == [];
      TrailNewlines(ls[1..]);
    }
  }

  lemma LinesAndNewlines(ls: seq<Bytes>)
    requires ls != [] && forall i :: 0 <= i < |ls| ==> NEWLINE !in ls[i]
    ensures Newlines(Join(ls)) == |ls| - 1
  {
    NoNewlines(ls[0]);
    NewlinesJoin(ls[0], Trail(ls[1..]));
    TrailNewlines(ls[1..]);
  }

  // ------------------------------------------------------------------ where lines start and end in the text

  lemma {:induction false} LastIndexJoin(a: Bytes, x: Bytes)
    requires NEWLINE !in x && (a == [] || a[|a| - 1] == NEWLINE)
    ensures LastIndex(a + x, NEWLINE) == |a| - 1
    decreases |x|
  {
    if x == [] {
      assert a + x == a;
    } else {
      assert (a + x)[..|a + x| - 1] == a + x[..|x| - 1];
      assert (a + x)[|a + x| - 1] == x[|x| - 1];
      LastIndexJoin(a, x[..|x| - 1]);
    }
  }

  // In a text a + x + b where x is a whole line, the line bounds around any offset inside it.
  lemma Bounds(a: Bytes, x: Bytes, b: Bytes, c: nat)
    requires NEWLINE !in x && c <= |x| && (a == [] || a[|a| - 1] == NEWLINE) && (b == [] || b[0] == NEWLINE)
    ensures LineStart(a + x + b, |a| + c) == |a| && LineEnd(a + x + b, |a| + c) == |a| + |x|
  {
    var text := a + x + b;
    assert text[..|a| + c] == a + x[..c];
    LastIndexJoin(a, x[..c]);
    assert text[|a| + c..] == x[c..] + b;
    FirstIndexJoin(x[c..], b, NEWLINE);
  }

  lemma PageBounds(p: Page)
    requires PageOk(p)
    ensures var f := FlatOf(p);
            && LineStart(f.text, f.off) == f.off - p.c
            && LineEnd(f.text, f.off) == f.off - p.c + |p.lines[p.l]|
            && (f.off - p.c == 0 <==> p.l == 0)
            && (f.off - p.c + |p.lines[p.l]| == |f.text| <==> p.l == |p.lines| - 1)
  {
    hide Join, Lead, LineStart, LineEnd;
    var a, x, b := Lead(p.lines[..p.l]), p.lines[p.l], Trail(p.lines[p.l + 1..]);
    JoinAround(p.lines, p.l);
    LeadEnds(p.lines[..p.l]);
    LeadNothing();
    assert LineOk(x);
    Bounds(a, x, b, p.c);
  }

  lemma LeadNothing()
    ensures Lead([]) == []
  {
  }

  // The offset of the next row is one past the end of this one.
  lemma NextRow(ls: seq<Bytes>, l: nat)
    requires l < |ls|
    ensures |Lead(ls[..l + 1])| == |Lead(ls[..l])| + |ls[l]| + 1
  {
    assert ls[..l + 1] == ls[..l] + [ls[l]];
    LeadSnoc(ls[..l], ls[l]);
  }
}
