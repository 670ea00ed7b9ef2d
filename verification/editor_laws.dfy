/** Every key of the editor is one edit of a flat text, and which keys undo which. */
module EditorLaws {
  import opened Bytes
  import opened CString
  import opened EditorModel

  // ------------------------------------------------------------------ list edits are text edits

  // Replacing line l replaces the stretch of text between its neighbours.
  lemma LineReplaced(ls: seq<Bytes>, l: nat, x: Bytes)
    requires l < |ls|
    ensures Join(ls[l := x]) == Lead(ls[..l]) + x + Trail(ls[l + 1..])
    ensures Lead(ls[l := x][..l]) == Lead(ls[..l])
  {
    JoinAround(ls[l := x], l);
    assert ls[l := x][..l] == ls[..l] && ls[l := x][l + 1..] == ls[l + 1..];
  }

  // Joining line l with the next one drops the newline between them.
  lemma LinesMerged(ls: seq<Bytes>, l: nat)
    requires l + 1 < |ls|
    ensures Join(ls) == Lead(ls[..l]) + ls[l] + ([NEWLINE] + ls[l + 1] + Trail(ls[l + 2..]))
    ensures Join(MergeAt(ls, l)) == Lead(ls[..l]) + (ls[l] + ls[l + 1]) + Trail(ls[l + 2..])
    ensures MergeAt(ls, l)[..l] == ls[..l]
  {
    JoinAround(ls, l);
    assert ls[l + 1..][1..] == ls[l + 2..];
    var ms := MergeAt(ls, l);
    JoinAround(ms, l);
    assert ms[..l] == ls[..l] && ms[l + 1..] == ls[l + 2..];
  }

  // Splitting line l at column c puts a newline there.
  lemma LineSplit(ls: seq<Bytes>, l: nat, c: nat)
    requires l < |ls| && c <= |ls[l]|
    ensures Join(SplitAt(ls, l, c)) == Lead(ls[..l]) + ls[l][..c] + ([NEWLINE] + ls[l][c..] + Trail(ls[l + 1..]))
    ensures |Lead(SplitAt(ls, l, c)[..l + 1])| == |Lead(ls[..l])| + c + 1
  {
    var ms := SplitAt(ls, l, c);
    JoinAround(ms, l);
    assert ms[..l] == ls[..l] && ms[l + 1..] == [ls[l][c..]] + ls[l + 1..];
    assert ms[l + 1..][1..] == ls[l + 1..];
    NextRow(ms, l);
  }

  lemma InsertInside(a: Bytes, x: Bytes, b: Bytes, c: nat, ch: Byte)
    requires c <= |x|
    ensures Insert(Flat(a + x + b, |a| + c), ch) == Flat(a + (x[..c] + [ch] + x[c..]) + b, |a| + c + 1)
  {
    TextCutAt(a, x, b, c);
    Regroup(a, x[..c], [ch], x[c..], b);
  }

  lemma TextCutAt(a: Bytes, x: Bytes, b: Bytes, c: nat)
    requires c <= |x|
    ensures (a + x + b)[..|a| + c] == a + x[..c] && (a + x + b)[|a| + c..] == x[c..] + b
  {
  }

  lemma Regroup(a: Bytes, p: Bytes, q: Bytes, r: Bytes, b: Bytes)
    ensures a + p + q + (r + b) == a + (p + q + r) + b
  {
  }

  lemma RemoveInside(a: Bytes, x: Bytes, b: Bytes, c: nat)
    requires c < |x|
    ensures Remove(Flat(a + x + b, |a| + c)) == Flat(a + (x[..c] + x[c + 1..]) + b, |a| + c)
  {
    var text := a + x + b;
    assert text[..|a| + c] == a + x[..c] && text[|a| + c + 1..] == x[c + 1..] + b;
    assert a + x[..c] + (x[c + 1..] + b) == a + (x[..c] + x[c + 1..]) + b;
  }

  lemma RemoveNewline(a: Bytes, x: Bytes, y: Bytes, b: Bytes)
    ensures Remove(Flat(a + x + ([NEWLINE] + y + b), |a| + |x|)) == Flat(a + (x + y) + b, |a| + |x|)
  {
    var text := a + x + ([NEWLINE] + y + b);
    assert text[..|a| + |x|] == a + x && text[|a| + |x| + 1..] == y + b;
    assert a + x + (y + b) == a + (x + y) + b;
  }

  lemma InsertNewline(a: Bytes, x: Bytes, b: Bytes, c: nat)
    requires c <= |x|
    ensures Insert(Flat(a + x + b, |a| + c), NEWLINE).text == a + x[..c] + ([NEWLINE] + x[c..] + b)
  {
    var text := a + x + b;
    assert text[..|a| + c] == a + x[..c] && text[|a| + c..] == x[c..] + b;
    assert a + x[..c] + [NEWLINE] + (x[c..] + b) == a + x[..c] + ([NEWLINE] + x[c..] + b);
  }

  // ------------------------------------------------------------------ key by key

  lemma CursorRefines(p: Page, key: int)
    requires PageOk(p) && key in {KEY_LEFT, KEY_RIGHT, KEY_HOME, KEY_END}
    ensures FlatOf(PressPage(p, key)) == Press(FlatOf(p), key)
  {
    hide Join;
    PageBounds(p);
    if p.l > 0 {
      NextRow(p.lines, p.l - 1);
    }
    if p.l + 1 < |p.lines| {
      NextRow(p.lines, p.l);
    }
  }

  lemma VerticalRefines(p: Page, key: int)
    requires PageOk(p) && key in {KEY_UP, KEY_DOWN}
    ensures FlatOf(PressPage(p, key)) == Press(FlatOf(p), key)
  {
    hide Join, Lead, LineStart, LineEnd;
    PageBounds(p);
    if key == KEY_UP && p.l > 0 {
      NextRow(p.lines, p.l - 1);
      PageBounds(p.(l := p.l - 1, c := |p.lines[p.l - 1]|));
    }
    if key == KEY_DOWN && p.l + 1 < |p.lines| {
      NextRow(p.lines, p.l);
      PageBounds(p.(l := p.l + 1, c := 0));
    }
  }

  lemma EnterRefines(p: Page, key: int)
    requires PageOk(p) && key in {KEY_NEWLINE, KEY_RETURN}
    ensures FlatOf(PressPage(p, key)) == Press(FlatOf(p), key)
  {
    hide Join, Lead, Trail, LineStart, LineEnd, SplitAt, Insert;
    PageBounds(p);
    assert forall i :: 0 <= i < |p.lines| ==> LineOk(p.lines[i]);
    LinesAndNewlines(p.lines);
    JoinAround(p.lines, p.l);
    LineSplit(p.lines, p.l, p.c);
    InsertNewline(Lead(p.lines[..p.l]), p.lines[p.l], Trail(p.lines[p.l + 1..]), p.c);
    SplitLength(p.lines, p.l, p.c);
  }

  lemma SplitLength(ls: seq<Bytes>, l: nat, c: nat)
    requires l < |ls| && c <= |ls[l]|
    ensures |SplitAt(ls, l, c)| == |ls| + 1
  {
  }

  lemma TypeRefines(p: Page, key: int)
    requires PageOk(p) && Printable(key)
    ensures FlatOf(PressPage(p, key)) == Press(FlatOf(p), key)
  {
    hide Join, Lead, Trail, LineStart, LineEnd, Insert;
    PageBounds(p);
    JoinAround(p.lines, p.l);
    var x := p.lines[p.l];
    LineReplaced(p.lines, p.l, x[..p.c] + [key as char] + x[p.c..]);
    InsertInside(Lead(p.lines[..p.l]), x, Trail(p.lines[p.l + 1..]), p.c, key as char);
  }

  lemma BackspaceRefines(p: Page)
    requires PageOk(p)
    ensures FlatOf(PressPage(p, KEY_BACKSPACE)) == Press(FlatOf(p), KEY_BACKSPACE)
  {
    hide Join, Lead, Trail, LineStart, LineEnd, Remove, MergeAt;
    PageBounds(p);
    JoinAround(p.lines, p.l);
    var x := p.lines[p.l];
    if p.c > 0 {
      LineReplaced(p.lines, p.l, x[..p.c - 1] + x[p.c..]);
      RemoveInside(Lead(p.lines[..p.l]), x, Trail(p.lines[p.l + 1..]), p.c - 1);
    } else if p.l > 0 {
      var l := p.l - 1;
      NextRow(p.lines, l);
      PageBounds(p.(l := l, c := |p.lines[l]|));
      LinesMerged(p.lines, l);
      RemoveNewline(Lead(p.lines[..l]), p.lines[l], x, Trail(p.lines[l + 2..]));
      MergeLength(p.lines, l);
    }
  }

  lemma MergeLength(ls: seq<Bytes>, l: nat)
    requires l + 1 < |ls|
    ensures |MergeAt(ls, l)| == |ls| - 1
  {
  }

  lemma DeleteRefines(p: Page)
    requires PageOk(p)
    ensures FlatOf(PressPage(p, KEY_DELETE)) == Press(FlatOf(p), KEY_DELETE)
  {
    hide Join, Lead, Trail, LineStart, LineEnd, Remove, MergeAt;
    PageBounds(p);
    JoinAround(p.lines, p.l);
    var x := p.lines[p.l];
    if p.c < |x| {
      LineReplaced(p.lines, p.l, x[..p.c] + x[p.c + 1..]);
      RemoveInside(Lead(p.lines[..p.l]), x, Trail(p.lines[p.l + 1..]), p.c);
    } else if p.l + 1 < |p.lines| {
      NextRow(p.lines, p.l);
      PageBounds(p.(l := p.l + 1, c := 0));
      LinesMerged(p.lines, p.l);
      RemoveNewline(Lead(p.lines[..p.l]), x, p.lines[p.l + 1], Trail(p.lines[p.l + 2..]));
      MergeLength(p.lines, p.l);
    }
  }

  // The editor refines a flat text with one offset.
  lemma PressRefines(p: Page, key: int)
    requires PageOk(p)
    ensures FlatOf(PressPage(p, key)) == Press(FlatOf(p), key)
  {
    if key in {KEY_LEFT, KEY_RIGHT, KEY_HOME, KEY_END} {
      CursorRefines(p, key);
    } else if key in {KEY_UP, KEY_DOWN} {
      VerticalRefines(p, key);
    } else if key in {KEY_NEWLINE, KEY_RETURN} {
      EnterRefines(p, key);
    } else if key == KEY_BACKSPACE {
      BackspaceRefines(p);
    } else if key == KEY_DELETE {
      DeleteRefines(p);
    } else if Printable(key) {
      TypeRefines(p, key);
    } else {
      PageBounds(p);
    }
  }

  lemma EditedLine(x: Bytes, c: nat, ch: Byte)
    requires LineOk(x) && c <= |x|
    ensures |x| < MAX_COL && ch != NEWLINE && ch != NUL ==> LineOk(x[..c] + [ch] + x[c..])
    ensures c < |x| ==> LineOk(x[..c] + x[c + 1..])
  {
  }

  lemma SplitKeepsLines(ls: seq<Bytes>, l: nat, c: nat)
    requires l < |ls| && c <= |ls[l]| && LinesOk(ls)
    ensures LinesOk(SplitAt(ls, l, c)) && SplitAt(ls, l, c)[l + 1] == ls[l][c..]
  {
    assert LineOk(ls[l]);
    assert LineOk(ls[l][..c]) && LineOk(ls[l][c..]);
  }

  lemma MergeKeepsLines(ls: seq<Bytes>, l: nat)
    requires l + 1 < |ls| && LinesOk(ls) && |ls[l]| + |ls[l + 1]| < MAX_COL
    ensures LinesOk(MergeAt(ls, l)) && MergeAt(ls, l)[l] == ls[l] + ls[l + 1]
  {
    assert LineOk(ls[l]) && LineOk(ls[l + 1]);
    assert LineOk(ls[l] + ls[l + 1]);
  }

  // Lines stay short, the cursor stays on the page.
  lemma PressKeepsPage(p: Page, key: int)
    requires PageOk(p)
    ensures PageOk(PressPage(p, key))
  {
    hide LineOk, SplitAt, MergeAt;
    var ls, l, c := p.lines, p.l, p.c;
    assert LineOk(ls[l]);
    if key == KEY_NEWLINE || key == KEY_RETURN {
      SplitLength(ls, l, c);
      SplitKeepsLines(ls, l, c);
    } else if key == KEY_BACKSPACE {
      if c > 0 {
        EditedLine(ls[l], c - 1, ' ');
      } else if l > 0 && |ls[l - 1]| + |ls[l]| < MAX_COL {
        MergeLength(ls, l - 1);
        MergeKeepsLines(ls, l - 1);
      }
    } else if key == KEY_DELETE {
      if c < |ls[l]| {
        EditedLine(ls[l], c, ' ');
      } else if l + 1 < |ls| && |ls[l]| + |ls[l + 1]| < MAX_COL {
        MergeLength(ls, l);
        MergeKeepsLines(ls, l);
      }
    } else if Printable(key) {
      EditedLine(ls[l], c, key as char);
    }
  }

  // ------------------------------------------------------------------ whole sessions

  ghost function Typed(f: Flat, keys: seq<int>): Flat
    requires f.off <= |f.text|
    decreases keys
  {
    if keys == [] then f else Typed(Press(f, keys[0]), keys[1..])
  }

  ghost function TypedOnPage(p: Page, keys: seq<int>): Page
    requires PageOk(p)
    decreases keys
  {
    if keys == [] then p
    else
      PressKeepsPage(p, keys[0]);
      TypedOnPage(PressPage(p, keys[0]), keys[1..])
  }

  // Any run of keys keeps the page in shape and does to the text what the flat model says.
  lemma {:induction false} RunRefines(p: Page, keys: seq<int>)
    requires PageOk(p)
    ensures PageOk(TypedOnPage(p, keys))
    ensures FlatOf(TypedOnPage(p, keys)) == Typed(FlatOf(p), keys)
    decreases keys
  {
    hide PageOk, FlatOf, Press, PressPage;
    if keys != [] {
      PressKeepsPage(p, keys[0]);
      PressRefines(p, keys[0]);
      RunRefines(PressPage(p, keys[0]), keys[1..]);
    }
  }

  lemma StartAfter(a: Bytes, ch: Byte)
    ensures LastIndex(a + [ch], NEWLINE) == if ch == NEWLINE then |a| else LastIndex(a, NEWLINE)
  {
    assert (a + [ch])[..|a|] == a;
  }

  // The line bounds just after a character is inserted.
  lemma BoundsAfterInsert(f: Flat, ch: Byte)
    requires f.off <= |f.text|
    ensures var g := Insert(f, ch);
            && LineEnd(g.text, g.off) == LineEnd(f.text, f.off) + 1
            && LineStart(g.text, g.off) == (if ch == NEWLINE then g.off else LineStart(f.text, f.off))
            && LineStart(g.text, f.off) == LineStart(f.text, f.off)
            && Remove(g.(off := f.off)) == f
  {
    var g := Insert(f, ch);
    var a, b := f.text[..f.off], f.text[f.off..];
    assert g.text == a + [ch] + b;
    assert g.text[..g.off] == a + [ch] && g.text[g.off..] == b && g.text[..f.off] == a;
    StartAfter(a, ch);
    assert f.text == a + b;
  }

  // Backspace undoes a typed character.
  lemma TypeThenBackspace(f: Flat, key: int)
    requires f.off <= |f.text| && Printable(key) && Press(f, key) != f
    ensures Press(Press(f, key), KEY_BACKSPACE) == f
  {
    hide LineStart, LineEnd, Insert, Remove;
    BoundsAfterInsert(f, key as char);
  }

  // Backspace undoes Enter exactly when the split line was shorter than 79 characters; a loaded line may have 79.
  lemma EnterThenBackspace(f: Flat)
    requires f.off <= |f.text| && Newlines(f.text) + 1 < MAX_LINES
    ensures Press(Press(f, KEY_NEWLINE), KEY_BACKSPACE) == f
      <==> LineEnd(f.text, f.off) - LineStart(f.text, f.off) < MAX_COL
  {
    hide LineStart, LineEnd, Insert, Remove;
    BoundsAfterInsert(f, NEWLINE);
  }
}
