/** What every key does to the text and the cursor, in plain numbers (kernel/kittywrite.c:169-324). */
module KeyLaws {
  import opened Bytes
  import opened EditorModel
  import opened EditorLaws

  // The text of a page and the place of the cursor in it.
  ghost function TextOf(p: Page): Bytes
    requires p.lines != []
  {
    Join(p.lines)
  }

  ghost function PlaceOf(p: Page): nat
    requires p.l < |p.lines|
  {
    |Lead(p.lines[..p.l])| + p.c
  }

  // The cursor goes to another line, in its column or at the end of a shorter line.
  ghost predicate AtLine(p: Page, u: Page, l: nat)
    requires l < |p.lines|
  {
    u.lines == p.lines && u.l == l && u.c == if p.c <= |p.lines[l]| then p.c else |p.lines[l]|
  }

  // The character at place k went, and the cursor is there.
  ghost predicate LostAt(p: Page, u: Page, k: nat)
    requires PageOk(p) && PageOk(u)
  {
    k < |TextOf(p)| && TextOf(u) == TextOf(p)[..k] + TextOf(p)[k + 1..] && PlaceOf(u) == k
  }

  ghost predicate GotAt(p: Page, u: Page, c: Byte)
    requires PageOk(p) && PageOk(u)
  {
    && PlaceOf(p) <= |TextOf(p)| && PlaceOf(u) == PlaceOf(p) + 1
    && TextOf(u) == TextOf(p)[..PlaceOf(p)] + [c] + TextOf(p)[PlaceOf(p)..]
  }

  ghost predicate KeyDid(p: Page, u: Page, key: int)
    requires PageOk(p) && PageOk(u)
  {
    var line, last := p.lines[p.l], |p.lines| - 1;
    if key == -30 then u.lines == p.lines && PlaceOf(u) == if PlaceOf(p) == 0 then 0 else PlaceOf(p) - 1
    else if key == -31 then u.lines == p.lines && PlaceOf(u) == if PlaceOf(p) == |TextOf(p)| then PlaceOf(p) else PlaceOf(p) + 1
    else if key == -32 then if p.l == 0 then u == p else AtLine(p, u, p.l - 1)
    else if key == -33 then if p.l == last then u == p else AtLine(p, u, p.l + 1)
    else if key == -35 then u.lines == p.lines && u.l == p.l && u.c == 0
    else if key == -36 then u.lines == p.lines && u.l == p.l && u.c == |line|
    else if key == 10 || key == 13 then if |p.lines| == 200 then u == p else GotAt(p, u, 10 as char)
    else if key == 8 then
      if p.c > 0 || (p.l > 0 && |p.lines[p.l - 1]| + |line| < 79) then PlaceOf(p) > 0 && LostAt(p, u, PlaceOf(p) - 1) else u == p
    else if key == -34 then
      if p.c < |line| || (p.l < last && |line| + |p.lines[p.l + 1]| < 79) then LostAt(p, u, PlaceOf(p)) else u == p
    else if 32 <= key <= 126 then if |line| < 78 then GotAt(p, u, key as char) else u == p
    else u == p
  }

  lemma CursorKey(p: Page, key: int)
    requires PageOk(p) && key in {-30, -31, -32, -33, -35, -36}
    ensures PageOk(PressPage(p, key)) && KeyDid(p, PressPage(p, key), key)
  {
    hide Join, Lead, LineStart, LineEnd;
    PressKeepsPage(p, key);
    PressRefines(p, key);
    PageBounds(p);
    JoinAround(p.lines, p.l);
  }

  lemma EnterKey(p: Page, key: int)
    requires PageOk(p) && (key == 10 || key == 13)
    ensures PageOk(PressPage(p, key)) && KeyDid(p, PressPage(p, key), key)
  {
    hide Join, Lead, LineStart, LineEnd, SplitAt, Newlines;
    PressKeepsPage(p, key);
    PressRefines(p, key);
    PageBounds(p);
    assert forall i :: 0 <= i < |p.lines| ==> LineOk(p.lines[i]);
    LinesAndNewlines(p.lines);
  }

  lemma BackspaceKey(p: Page)
    requires PageOk(p)
    ensures PageOk(PressPage(p, 8)) && KeyDid(p, PressPage(p, 8), 8)
  {
    hide Join, Lead, LineStart, LineEnd, MergeAt, Newlines;
    PressKeepsPage(p, 8);
    PressRefines(p, 8);
    PageBounds(p);
    if p.c == 0 && p.l > 0 {
      NextRow(p.lines, p.l - 1);
      PageBounds(p.(l := p.l - 1, c := |p.lines[p.l - 1]|));
    }
  }

  lemma DeleteKey(p: Page)
    requires PageOk(p)
    ensures PageOk(PressPage(p, -34)) && KeyDid(p, PressPage(p, -34), -34)
  {
    hide Join, Lead, LineStart, LineEnd, MergeAt, Newlines;
    PressKeepsPage(p, -34);
    PressRefines(p, -34);
    PageBounds(p);
    if p.c == |p.lines[p.l]| && p.l + 1 < |p.lines| {
      NextRow(p.lines, p.l);
      PageBounds(p.(l := p.l + 1, c := 0));
    }
  }

  lemma LetterKey(p: Page, key: int)
    requires PageOk(p) && 32 <= key <= 126
    ensures PageOk(PressPage(p, key)) && KeyDid(p, PressPage(p, key), key)
  {
    hide Join, Lead, LineStart, LineEnd, Newlines;
    PressKeepsPage(p, key);
    PressRefines(p, key);
    PageBounds(p);
  }

  lemma NoKey(p: Page, key: int)
    requires PageOk(p) && !(32 <= key <= 126) && key !in {-30, -31, -32, -33, -34, -35, -36, 8, 10, 13}
    ensures PageOk(PressPage(p, key)) && KeyDid(p, PressPage(p, key), key)
  {
  }

  // One key, whatever it is.
  lemma KeyDone(p: Page, key: int)
    requires PageOk(p)
    ensures PageOk(PressPage(p, key)) && KeyDid(p, PressPage(p, key), key)
  {
    hide KeyDid, PressPage, PageOk;
    if key in {-30, -31, -32, -33, -35, -36} {
      CursorKey(p, key);
    } else if key == 10 || key == 13 {
      EnterKey(p, key);
    } else if key == 8 {
      BackspaceKey(p);
    } else if key == -34 {
      DeleteKey(p);
    } else if 32 <= key <= 126 {
      LetterKey(p, key);
    } else {
      NoKey(p, key);
    }
  }
}
