/** Pages the editor reaches and does not give back: too long to save, or with a line of 79 characters (kernel/kittywrite.c). */
module LongPages {
  import opened Bytes
  import opened CString
  import opened InodeTable
  import opened DirentBlock
  import opened StoreModel
  import opened Paths
  import opened Sessions
  import opened SessionLaws
  import opened RootLaws
  import opened EditorModel
  import opened EditorLaws
  import opened EditorFiles

  const LETTER := 'x' as int
  const FILE_NAME: Bytes := ['f']
  const BLANK := Page([[]], 0, 0)

  function Xs(n: nat): Bytes { seq(n, i => 'x') }

  lemma {:induction false} TypedMore(p: Page, keys: seq<int>, more: seq<int>)
    requires PageOk(p)
    ensures PageOk(TypedOnPage(p, keys)) && TypedOnPage(p, keys + more) == TypedOnPage(TypedOnPage(p, keys), more)
    decreases keys
  {
    hide PageOk, PressPage;
    if keys == [] {
      assert keys + more == more;
    } else {
      PressKeepsPage(p, keys[0]);
      assert (keys + more)[1..] == keys[1..] + more;
      TypedMore(PressPage(p, keys[0]), keys[1..], more);
    }
  }

  lemma TypedOne(p: Page, key: int)
    requires PageOk(p)
    ensures TypedOnPage(p, [key]) == PressPage(p, key)
  {
    PressKeepsPage(p, key);
    assert [key][1..] == [];
  }

  // ------------------------------------------------------------------ a page typed full

  ghost function Letters(n: nat): seq<int> { seq(n, i => LETTER) }

  // k full lines and n letters, the cursor behind them.
  ghost function FilledPage(k: nat, n: nat): Page { Page(seq(k, i => Xs(MAX_COL - 1)) + [Xs(n)], k, n) }

  lemma FilledOk(k: nat, n: nat)
    requires k < MAX_LINES && n < MAX_COL
    ensures PageOk(FilledPage(k, n))
  {
    forall i | 0 <= i <= k
      ensures LineOk(FilledPage(k, n).lines[i])
    {
    }
  }

  lemma LetterTyped(k: nat, n: nat)
    requires k < MAX_LINES && n < MAX_COL - 1
    ensures PageOk(FilledPage(k, n)) && PressPage(FilledPage(k, n), LETTER) == FilledPage(k, n + 1)
  {
    hide PageOk;
    FilledOk(k, n);
    var p := FilledPage(k, n);
    assert Xs(n)[..n] + ['x'] + Xs(n)[n..] == Xs(n + 1);
    assert p.lines[k] == Xs(n) && p.lines[k := Xs(n + 1)] == FilledPage(k, n + 1).lines;
  }

  lemma EnterTyped(k: nat)
    requires k + 1 < MAX_LINES
    ensures PageOk(FilledPage(k, MAX_COL - 1))
    ensures PressPage(FilledPage(k, MAX_COL - 1), KEY_NEWLINE) == FilledPage(k + 1, 0)
  {
    hide PageOk;
    FilledOk(k, MAX_COL - 1);
    var full := Xs(MAX_COL - 1);
    var p := FilledPage(k, MAX_COL - 1);
    assert p.lines[k] == full && full[..MAX_COL - 1] == full && full[MAX_COL - 1..] == Xs(0);
    assert SplitAt(p.lines, k, MAX_COL - 1) == FilledPage(k + 1, 0).lines;
  }

  lemma {:induction false} LineTyped(k: nat, n: nat)
    requires k < MAX_LINES && n < MAX_COL
    ensures PageOk(FilledPage(k, 0)) && TypedOnPage(FilledPage(k, 0), Letters(n)) == FilledPage(k, n)
  {
    hide PageOk, PressPage, FilledPage, TypedOnPage;
    FilledOk(k, 0);
    if n == 0 {
      NothingTyped(FilledPage(k, 0));
      assert Letters(0) == [];
    } else {
      LineTyped(k, n - 1);
      TypedMore(FilledPage(k, 0), Letters(n - 1), [LETTER]);
      assert Letters(n - 1) + [LETTER] == Letters(n);
      LetterTyped(k, n - 1);
      TypedOne(FilledPage(k, n - 1), LETTER);
    }
  }

  lemma NothingTyped(p: Page)
    requires PageOk(p)
    ensures TypedOnPage(p, []) == p
  {
  }

  // The keys that fill k lines.
  ghost function Filling(k: nat): seq<int> {
    if k == 0 then [] else Filling(k - 1) + (Letters(MAX_COL - 1) + [KEY_NEWLINE])
  }

  lemma {:induction false} FilledByKeys(k: nat)
    requires k < MAX_LINES
    ensures PageOk(BLANK) && TypedOnPage(BLANK, Filling(k)) == FilledPage(k, 0)
  {
    hide PageOk, PressPage, FilledPage, TypedOnPage, Letters;
    BlankIs();
    if k == 0 {
      NothingTyped(BLANK);
    } else {
      FilledByKeys(k - 1);
      var line := Letters(MAX_COL - 1);
      TypedMore(BLANK, Filling(k - 1), line + [KEY_NEWLINE]);
      LineTyped(k - 1, MAX_COL - 1);
      TypedMore(FilledPage(k - 1, 0), line, [KEY_NEWLINE]);
      EnterTyped(k - 1);
      TypedOne(FilledPage(k - 1, MAX_COL - 1), KEY_NEWLINE);
    }
  }

  lemma BlankIs()
    ensures PageOk(BLANK) && FilledPage(0, 0) == BLANK
  {
    FilledOk(0, 0);
    assert FilledPage(0, 0).lines == [[]];
  }

  lemma {:induction false} LeadLength(ls: seq<Bytes>, w: nat)
    requires forall i :: 0 <= i < |ls| ==> |ls[i]| == w
    ensures |Lead(ls)| == |ls| * (w + 1)
  {
    if ls != [] {
      LeadLength(ls[1..], w);
    }
  }

  // A file of one letter can be made in a session just mounted.
  lemma NewFileReady()
    ensures WriteReady(MountedSession(), FILE_NAME) && ParentHasRoom(MountedSession(), FILE_NAME)
  {
    hide TreeOk, Resolve, Walkable, ParentPath, BaseName;
    MountedOk();
    EmptyTreeOk();
    NameResolves(EmptyTree(), ROOT, FILE_NAME);
    assert Lookup(EmptyTree(), ROOT, FILE_NAME) == NO_ENTRY;
    FileNameParts();
  }

  lemma FileNameParts()
    ensures ParentPath(FILE_NAME) == [] && BaseName(FILE_NAME) == FILE_NAME && NulFree(FILE_NAME)
  {
  }

  // A page typed from blank, saved in a session just mounted and loaded again, comes back as other lines.
  lemma TypedPageIsCut()
    ensures var ls := TypedOnPage(BLANK, Filling(MAX_LINES - 1)).lines;
            && PageOk(BLANK) && WriteReady(MountedSession(), FILE_NAME)
            && var u := WritePath(MountedSession(), FILE_NAME, Lead(ls));
            && ReadReady(u, FILE_NAME) && FileLines(u, FILE_NAME) != ls
  {
    hide SessionOk, WriteReady, ReadReady, WritePath, ParentHasRoom, FileLines, TypedOnPage, Lead, Filling;
    var k := MAX_LINES - 1;
    FilledByKeys(k);
    FilledOk(k, 0);
    NewFileReady();
    var ls := FilledPage(k, 0).lines;
    LeadSnoc(ls[..k], []);
    LeadLength(ls[..k], MAX_COL - 1);
    assert ls == ls[..k] + [[]];
    SaveThenLoad(MountedSession(), FILE_NAME, ls);
  }

  // ------------------------------------------------------------------ a loaded line of 79 characters

  // A file of one line of 79 characters loads as that line; Enter there and Backspace behind it leave two lines.
  lemma LoadedLineStaysSplit()
    ensures WriteReady(MountedSession(), FILE_NAME)
    ensures var u := WritePath(MountedSession(), FILE_NAME, Lead([Xs(MAX_COL)]));
            && ReadReady(u, FILE_NAME)
            && var p := Page(FileLines(u, FILE_NAME), 0, 0);
            && PageOk(p) && p.lines == [Xs(MAX_COL)]
            && TypedOnPage(p, [KEY_NEWLINE, KEY_BACKSPACE]) == Page([[], Xs(MAX_COL)], 1, 0)
  {
    hide SessionOk, WriteReady, ReadReady, WritePath, ParentHasRoom, FileLines, TypedOnPage, Xs;
    var x := Xs(MAX_COL);
    NewFileReady();
    LongLineOk();
    LeadLength([x], MAX_COL);
    SaveThenLoad(MountedSession(), FILE_NAME, [x]);
    var p, q := Page([x], 0, 0), Page([[], x], 1, 0);
    assert SplitAt([x], 0, 0) == [[], x];
    TypedMore(p, [KEY_NEWLINE], [KEY_BACKSPACE]);
    TypedOne(p, KEY_NEWLINE);
    PressKeepsPage(p, KEY_NEWLINE);
    TypedOne(q, KEY_BACKSPACE);
    assert [KEY_NEWLINE] + [KEY_BACKSPACE] == [KEY_NEWLINE, KEY_BACKSPACE];
  }

  lemma LongLineOk()
    ensures |Xs(MAX_COL)| == MAX_COL && LineOk(Xs(MAX_COL)) && LinesOk([Xs(MAX_COL)])
  {
  }
}
