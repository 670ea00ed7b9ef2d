/** Loading a file into the editor and saving it again (kernel/kittywrite.c:79-119, 137-154). */
module EditorFiles {
  import opened Bytes
  import opened CString
  import opened DirentBlock
  import opened StoreModel
  import opened Paths
  import opened Sessions
  import opened SessionLaws
  import opened EditorModel
  import opened EditorRows
  import opened KittyWrite
  import opened TextFiles
  import FileSystem
  import Layout

  const RAW_SIZE := MAX_LINES * SCREEN_WIDTH

  // ------------------------------------------------------------------ text to lines

  function Fit(line: Bytes): Bytes { Upto(line, MAX_COL) }

  // The lines the load loop makes of a text, at most n of them.
  function Loaded(text: Bytes, n: nat): (ls: seq<Bytes>)
    decreases n
  {
    if n == 0 || text == [] then []
    else
      var k := FirstIndex(text, NEWLINE);
      [Fit(text[..k])] + (if k == |text| then [] else Loaded(text[k + 1..], n - 1))
  }

  function LoadLines(text: Bytes): seq<Bytes> {
    if text == [] then [[]] else Loaded(text, MAX_LINES)
  }

  lemma FitOk(text: Bytes)
    requires NulFree(text)
    ensures LineOk(Fit(text[..FirstIndex(text, NEWLINE)]))
  {
  }

  lemma LineThenLines(x: Bytes, ls: seq<Bytes>)
    requires LineOk(x) && LinesOk(ls)
    ensures LinesOk([x] + ls)
  {
  }

  lemma {:induction false} LoadedOk(text: Bytes, n: nat)
    requires NulFree(text)
    ensures |Loaded(text, n)| <= n && LinesOk(Loaded(text, n)) && (n > 0 && text != [] ==> Loaded(text, n) != [])
    decreases n
  {
    hide Loaded, Fit, FirstIndex, LinesOk, LineOk;
    LoadedNothing([], n);
    LoadedNothing(text, 0);
    NoLinesOk();
    if n > 0 && text != [] {
      var k := FirstIndex(text, NEWLINE);
      FitOk(text);
      LoadedStep(text, n, k, Fit(text[..k]));
      if k < |text| {
        LoadedOk(text[k + 1..], n - 1);
        LineThenLines(Fit(text[..k]), Loaded(text[k + 1..], n - 1));
      } else {
        LineThenLines(Fit(text[..k]), []);
      }
    }
  }

  lemma NoLinesOk()
    ensures LinesOk([])
  {
  }

  lemma LoadedStep(text: Bytes, n: nat, k: nat, line: Bytes)
    requires text != [] && n > 0 && k == FirstIndex(text, NEWLINE) && line == Fit(text[..k])
    ensures Loaded(text, n) == [line] + (if k == |text| then [] else Loaded(text[k + 1..], n - 1))
  {
    hide Fit, FirstIndex;
  }

  lemma LoadedNothing(text: Bytes, n: nat)
    requires text == [] || n == 0
    ensures Loaded(text, n) == []
  {
  }

  lemma FirstLine(line: Bytes, rest: Bytes)
    requires NEWLINE !in line
    ensures var text := line + ([NEWLINE] + rest);
            && text != [] && FirstIndex(text, NEWLINE) == |line| < |text|
            && text[..|line|] == line && text[|line| + 1..] == rest
  {
    FirstIndexJoin(line, [NEWLINE] + rest, NEWLINE);
  }

  lemma LastLine(line: Bytes, n: nat)
    requires NEWLINE !in line && n > 0
    ensures Loaded(line, n) == if line == [] then [] else [Fit(line)]
  {
    assert line + [] == line && line[..|line|] == line;
    FirstIndexJoin(line, [], NEWLINE);
  }

  // Lines of any number and length, the last one perhaps without a newline: the first n load, each cut to 79 characters.
  lemma {:induction false} LoadOfLines(ls: seq<Bytes>, rest: Bytes, n: nat)
    requires NEWLINE !in rest && forall i :: 0 <= i < |ls| ==> NEWLINE !in ls[i]
    ensures var all := if rest == [] then ls else ls + [rest];
            && |Loaded(Lead(ls) + rest, n)| == Min(|all|, n)
            && forall i :: 0 <= i < Min(|all|, n) ==> Loaded(Lead(ls) + rest, n)[i] == if |all[i]| <= 79 then all[i] else all[i][..79]
    decreases n
  {
    hide Loaded;
    if n == 0 {
      LoadedNothing(Lead(ls) + rest, 0);
    } else if ls == [] {
      LastLine(rest, n);
      assert Lead(ls) + rest == rest;
    } else {
      var tail := Lead(ls[1..]) + rest;
      FirstLine(ls[0], tail);
      assert Lead(ls) + rest == ls[0] + ([NEWLINE] + tail);
      LoadedStep(Lead(ls) + rest, n, |ls[0]|, Fit(ls[0]));
      LoadOfLines(ls[1..], rest, n - 1);
    }
  }

  lemma LinesFit(ls: seq<Bytes>, rest: Bytes)
    requires LinesOk(ls) && LineOk(rest) && |ls| + 1 <= MAX_LINES + (if rest == [] then 1 else 0)
    ensures Loaded(Lead(ls) + rest, MAX_LINES) == if rest == [] then ls else ls + [rest]
  {
    assert forall i :: 0 <= i < |ls| ==> LineOk(ls[i]);
    LoadOfLines(ls, rest, MAX_LINES);
  }

  // What was loaded is no longer than the text, but for one newline.
  lemma {:induction false} LoadedLength(text: Bytes, n: nat)
    ensures |Lead(Loaded(text, n))| <= |text| + 1
    decreases n
  {
    if n > 0 && text != [] {
      var k := FirstIndex(text, NEWLINE);
      var ls := Loaded(text, n);
      if k == |text| {
        assert ls[1..] == [];
      } else {
        assert ls[1..] == Loaded(text[k + 1..], n - 1);
        LoadedLength(text[k + 1..], n - 1);
      }
    }
  }

  lemma LeadNulFree(ls: seq<Bytes>)
    requires LinesOk(ls)
    ensures NulFree(Lead(ls))
  {
    if ls != [] {
      assert LineOk(ls[0]);
      LeadNulFree(ls[1..]);
    }
  }

  lemma AllLoads(ls: seq<Bytes>)
    requires 1 <= |ls| <= MAX_LINES && LinesOk(ls)
    ensures Loaded(Lead(ls), MAX_LINES) == ls
  {
    assert Lead(ls) + [] == Lead(ls);
    assert LineOk([]);
    LinesFit(ls, []);
  }

  lemma AllButOneLoads(ls: seq<Bytes>)
    requires 1 <= |ls| <= MAX_LINES && LinesOk(ls)
    ensures |Lead(ls)| > 0 && (Loaded(Lead(ls)[..|Lead(ls)| - 1], MAX_LINES) == ls <==> ls[|ls| - 1] != [])
  {
    hide Loaded, Lead, LineOk;
    var init, last := ls[..|ls| - 1], ls[|ls| - 1];
    assert ls == init + [last] && LineOk(last);
    LeadSnoc(init, last);
    assert Lead(ls)[..|Lead(ls)| - 1] == Lead(init) + last;
    LinesFit(init, last);
  }

  // The first w characters of saved lines load as the lines themselves exactly when only a final newline is missing.
  lemma CutLoads(ls: seq<Bytes>, w: nat)
    requires 1 <= |ls| <= MAX_LINES && LinesOk(ls) && 0 < w <= |Lead(ls)|
    ensures LoadLines(Lead(ls)[..w]) == ls
      <==> w == |Lead(ls)| || (w + 1 == |Lead(ls)| && ls[|ls| - 1] != [])
  {
    hide Loaded, Lead, LinesOk;
    AllLoads(ls);
    AllButOneLoads(ls);
    assert Lead(ls)[..|Lead(ls)|] == Lead(ls);
    LoadedLength(Lead(ls)[..w], MAX_LINES);
  }

  // ------------------------------------------------------------------ files

  // The lines the editor shows for a path.
  ghost function FileLines(s: Session, path: Bytes): seq<Bytes>
    requires ReadReady(s, path)
  {
    if Resolve(s.tree, s.dir, path) == NO_ENTRY then [[]] else LoadLines(FileText(s, path, RAW_SIZE))
  }

  // Saving and loading gives the same lines exactly when the file holds them all, give or take the last newline.
  lemma SaveThenLoad(s: Session, path: Bytes, ls: seq<Bytes>)
    requires SessionOk(s) && WriteReady(s, path)
    requires Resolve(s.tree, s.dir, path) != NO_ENTRY || ParentHasRoom(s, path)
    requires 1 <= |ls| <= MAX_LINES && LinesOk(ls)
    ensures var u, size := WritePath(s, path, Lead(ls)), |Lead(ls)|;
            ReadReady(u, path)
            && (FileLines(u, path) == ls <==> size <= MAX_FILE || (size == MAX_FILE + 1 && ls[|ls| - 1] != []))
  {
    hide SessionOk, WriteReady, ReadReady, WritePath, Resolve, ParentHasRoom, Target, Padded, Slice;
    var data := Lead(ls);
    var w := Stored(|data|);
    WriteThenRead(s, path, data, RAW_SIZE - 1);
    WriteSucceeds(s, path, data);
    LeadNulFree(ls);
    ReadBack(data[..w], RAW_SIZE - 1);
    CutLoads(ls, w);
  }

  // ------------------------------------------------------------------ the loops

  // memcpy of a line into its row, and its NUL.
  method StoreLine(a: array2<Byte>, row: nat, raw: array<Byte>, p: nat, len: nat)
    requires row < a.Length0 && len < a.Length1 && p + len <= raw.Length && NulFree(raw[p..p + len])
    modifies a
    ensures Rows(a) == old(Rows(a))[row := Rows(a)[row]] && CStr(Rows(a)[row]) == raw[p..p + len]
  {
    hide Rows;
    ghost var was := Rows(a);
    var i := 0;
    while i < len
      invariant 0 <= i <= len
      invariant Rows(a) == was[row := Rows(a)[row]] && Rows(a)[row][..i] == raw[p..p + i]
    {
      RowPut(a, row, i, raw[p + i]);
      i := i + 1;
    }
    RowPut(a, row, len, NUL);
    CStrIs(Rows(a)[row], raw[p..p + len]);
  }

  lemma TextsNext(rs: seq<Bytes>, n: nat, row: Bytes)
    requires n < |rs|
    ensures Texts(rs[n := row], n + 1) == Texts(rs, n) + [CStr(row)]
  {
  }

  // Where the loop stands: p is inside the text, and the text ends where the NUL is.
  lemma LineInside(raw: Bytes, p: nat, k: nat, len: nat)
    requires Terminated(raw) && p <= k <= |CStr(raw)|
    requires len == if k - p >= SCREEN_WIDTH then SCREEN_WIDTH - 1 else k - p
    ensures p + len <= |raw| && NulFree(raw[p..p + len]) && raw[p..p + len] == Fit(CStr(raw)[p..][..k - p])
  {
    hide CStr;
    var text := CStr(raw);
    assert raw[..|text|] == text;
    assert raw[p..p + len] == raw[..|text|][p..p + len];
    assert text[p..][..k - p] == text[p..k];
    assert text[p..k][..len] == text[p..p + len];
  }

  lemma AtEnd(raw: Bytes, p: nat)
    requires Terminated(raw) && p <= |CStr(raw)|
    ensures |CStr(raw)| < |raw| && (raw[p] == NUL <==> CStr(raw)[p..] == [])
    ensures p < |CStr(raw)| ==> raw[p] == CStr(raw)[p]
    ensures Terminated(raw[p..]) && CStr(raw[p..]) == CStr(raw)[p..]
  {
    assert raw[0..] == raw;
    TextAt(raw, 0, p);
  }

  // One turn of the load loop: the line at p, cut to its row; k is where the line ends (kernel/kittywrite.c:95-101).
  method LoadRow(a: array2<Byte>, raw: array<Byte>, p: nat, n: nat) returns (k: nat)
    requires a.Length0 == MAX_LINES && a.Length1 == SCREEN_WIDTH && n < MAX_LINES
    requires Terminated(raw[..]) && p < |CStr(raw[..])|
    modifies a
    ensures p <= k <= |CStr(raw[..])| < raw.Length && k - p == FirstIndex(CStr(raw[..])[p..], NEWLINE)
    ensures raw[k] == NEWLINE <==> k < |CStr(raw[..])|
    ensures Texts(Rows(a), n + 1) == old(Texts(Rows(a), n)) + [Fit(CStr(raw[..])[p..][..k - p])]
  {
    hide Rows, Texts, CStr, Fit, Terminated, FirstIndex, NulFree;
    AtEnd(raw[..], p);
    assert raw[..][p..] == raw[p..];
    k := Strchr(raw, p, NEWLINE);
    AtEnd(raw[..], k);
    LineStops(CStr(raw[..]), p, k);
    var len := if k - p >= SCREEN_WIDTH then SCREEN_WIDTH - 1 else k - p;
    LineInside(raw[..], p, k, len);
    ghost var before := Rows(a);
    StoreLine(a, n, raw, p, len);
    TextsNext(before, n, Rows(a)[n]);
  }

  lemma LineStops(text: Bytes, p: nat, k: nat)
    requires p <= |text| && p <= k && k - p == FirstIndex(text[p..], NEWLINE)
    ensures k <= |text| && (k < |text| ==> text[k] == NEWLINE)
  {
    hide FirstIndex;
  }

  // The loop of kw_load over a NUL-terminated text (kernel/kittywrite.c:94-106).
  method LoadRows(a: array2<Byte>, raw: array<Byte>) returns (n: nat)
    requires a.Length0 == MAX_LINES && a.Length1 == SCREEN_WIDTH && Terminated(raw[..])
    modifies a
    ensures n <= MAX_LINES && Texts(Rows(a), n) == Loaded(CStr(raw[..]), MAX_LINES)
  {
    hide Rows, Texts, Loaded, CStr, Fit, Terminated, FirstIndex, NulFree;
    ghost var text := CStr(raw[..]);
    ghost var rest := text;
    assert text[0..] == text;
    n := 0;
    var p := 0;
    AtEnd(raw[..], p);
    while raw[p] != NUL && n < MAX_LINES
      invariant p <= |text| < raw.Length && n <= MAX_LINES && rest == text[p..] && (raw[p] == NUL <==> rest == [])
      invariant Texts(Rows(a), n) + Loaded(rest, MAX_LINES - n) == Loaded(text, MAX_LINES)
      decreases MAX_LINES - n
    {
      var k := LoadRow(a, raw, p, n);
      LoadedStep(rest, MAX_LINES - n, k - p, Fit(rest[..k - p]));
      n := n + 1;
      if raw[k] != NEWLINE {
        rest := [];
        break;
      }
      p := k + 1;
      rest := text[p..];
      AtEnd(raw[..], p);
    }
    LoadedNothing(rest, MAX_LINES - n);
  }

  // strlen and memcpy of a row into the save buffer (kernel/kittywrite.c:113-115).
  method AppendRow(a: array2<Byte>, row: nat, raw: array<Byte>, pos: nat) returns (next: nat)
    requires row < a.Length0 && Terminated(Rows(a)[row]) && pos + |CStr(Rows(a)[row])| <= raw.Length
    modifies raw
    ensures next == pos + |CStr(Rows(a)[row])| && raw[..next] == old(raw[..pos]) + CStr(Rows(a)[row])
  {
    hide Rows;
    ghost var line := CStr(Rows(a)[row]);
    var len := RowLength(a, row);
    var i := 0;
    while i < len
      invariant 0 <= i <= len
      invariant raw[..pos + i] == old(raw[..pos]) + line[..i]
    {
      raw[pos + i] := RowGet(a, row, i);
      assert line[..i + 1] == line[..i] + [line[i]];
      i := i + 1;
    }
    next := pos + len;
  }

  lemma LeadPrefix(ls: seq<Bytes>, i: nat)
    requires i < |ls|
    ensures Lead(ls[..i + 1]) == Lead(ls[..i]) + ls[i] + [NEWLINE]
  {
    assert ls[..i + 1] == ls[..i] + [ls[i]];
    LeadSnoc(ls[..i], ls[i]);
  }

  // kw_save up to the write: every line followed by a newline (kernel/kittywrite.c:110-117).
  method Serialize(e: Editor, raw: array<Byte>) returns (pos: nat)
    requires e.Valid() && raw.Length == MAX_LINES * (SCREEN_WIDTH + 1)
    modifies raw
    ensures pos <= raw.Length && raw[..pos] == Lead(e.Shown().lines)
    ensures e.Valid() && e.Shown() == old(e.Shown())
  {
    hide Rows, Texts, PageOk, Lead, CStr;
    ghost var ls := e.Shown().lines;
    assert Lead(ls[..0]) == [] by { LeadNothing(); assert ls[..0] == []; }
    pos := 0;
    var i := 0;
    while i < e.numLines
      invariant 0 <= i <= e.numLines && pos <= i * SCREEN_WIDTH
      invariant raw[..pos] == Lead(ls[..i])
    {
      e.RowHolds(i);
      pos := AppendRow(e.rows, i, raw, pos);
      raw[pos] := NEWLINE;
      LeadPrefix(ls, i);
      pos := pos + 1;
      i := i + 1;
    }
    assert ls[..i] == ls;
  }

  // kw_save.
  method Save(e: Editor, fs: FileSystem.Fs, filename: Bytes) returns (rc: int)
    requires e.Valid() && fs.Valid() && WriteReady(fs.S(), filename)
    modifies fs.store
    ensures fs.Valid() && fs.S() == WritePath(old(fs.S()), filename, Lead(e.Shown().lines))
    ensures rc == WriteResult(old(fs.S()), filename, Lead(e.Shown().lines))
    ensures e.Valid() && e.Shown() == old(e.Shown())
  {
    hide PageOk, Lead, WriteReady, WritePath, WriteResult, Texts, Rows, Layout.Inv, Layout.Abs, SessionOk;
    var raw := new Byte[MAX_LINES * (SCREEN_WIDTH + 1)];
    var pos := Serialize(e, raw);
    rc := fs.Write(filename, raw[..pos]);
  }

  // Ctrl+S: the modified mark goes when anything was written, even if the file was cut (kernel/kittywrite.c:137-154).
  method SaveKey(e: Editor, fs: FileSystem.Fs, filename: Bytes) returns (rc: int)
    requires e.Valid() && fs.Valid() && WriteReady(fs.S(), filename)
    modifies fs.store, e`modified
    ensures e.Valid() && e.Shown() == old(e.Shown()) && e.modified == (old(e.modified) && rc <= 0)
    ensures fs.Valid() && fs.S() == WritePath(old(fs.S()), filename, Lead(e.Shown().lines))
    ensures rc == WriteResult(old(fs.S()), filename, Lead(e.Shown().lines))
  {
    hide PageOk, Lead, WriteReady, WritePath, WriteResult, Texts, Rows, Layout.Inv, Layout.Abs, SessionOk;
    rc := Save(e, fs, filename);
    if rc > 0 {
      e.ClearModified();
    }
  }

  lemma EmptyPage(rs: seq<Bytes>)
    requires rs != [] && rs[0] != [] && rs[0][0] == NUL
    ensures Texts(rs, 1) == [[]] && PageOk(Page([[]], 0, 0))
  {
    CStrIs(rs[0], []);
    assert LineOk([]);
  }

  // What a file's bytes show.
  lemma FilePage(data: Bytes)
    ensures PageOk(Page(LoadLines(CStr(data)), 0, 0))
    ensures data == [] ==> LoadLines(CStr(data)) == [[]]
    ensures var ls := Loaded(CStr(data), MAX_LINES); LoadLines(CStr(data)) == if ls == [] then [[]] else ls
  {
    LoadedOk(CStr(data), MAX_LINES);
    assert LineOk([]);
  }

  // One empty line.
  method Blank(e: Editor)
    requires e.Shaped()
    modifies e, e.rows
    ensures e.Valid() && e.Shown() == Page([[]], 0, 0) && e.scroll == 0 && !e.modified
  {
    hide PageOk, Texts, Rows;
    e.numLines, e.curLine, e.curCol, e.scroll, e.modified := 1, 0, 0, 0, false;
    RowPut(e.rows, 0, 0, NUL);
    EmptyPage(Rows(e.rows));
  }

  // The second half of kw_load, from a NUL-terminated text.
  method LoadText(e: Editor, raw: array<Byte>)
    requires e.Valid() && Terminated(raw[..]) && e.curLine == e.curCol == e.scroll == 0 && !e.modified
    modifies e, e.rows
    ensures e.Valid() && e.Shown() == Page(LoadLines(CStr(raw[..])), 0, 0) && e.scroll == 0 && !e.modified
  {
    hide PageOk, Texts, Rows, LoadLines, Loaded, CStr, Terminated;
    FilePage(raw[..]);
    var n := LoadRows(e.rows, raw);
    e.numLines := n;
    if n == 0 {
      Blank(e);
    }
  }

  // kw_load.
  method Load(e: Editor, fs: FileSystem.Fs, filename: Bytes)
    requires e.Shaped() && fs.Valid() && ReadReady(fs.S(), filename)
    modifies e, e.rows
    ensures e.Valid() && e.scroll == 0 && !e.modified
    ensures fs.Valid() && fs.S() == old(fs.S()) && e.Shown() == Page(FileLines(fs.S(), filename), 0, 0)
  {
    hide PageOk, Texts, Rows, ReadReady, LoadLines, Resolve, ReadPath, CStr, Terminated, Layout.Inv, Layout.Abs, SessionOk;
    FileSystem.ReadTarget(fs.S(), filename);
    Blank(e);
    var inodeNum := fs.ResolveInode(filename);
    if inodeNum >= 0 {
      var raw := new Byte[RAW_SIZE];
      var sz := ReadText(fs, filename, raw);
      FilePage(ReadPath(fs.S(), filename, RAW_SIZE - 1));
      if sz > 0 {
        LoadText(e, raw);
      }
    }
  }
}
