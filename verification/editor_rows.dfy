/** The editor's line array: rows of 80 characters, each a C string (kernel/kittywrite.c:9). */
module EditorRows {
  import opened Bytes
  import opened CString

  // All rows of the array.
  ghost function Rows(a: array2<Byte>): (rs: seq<Bytes>)
    reads a
    ensures |rs| == a.Length0 && forall i :: 0 <= i < |rs| ==> |rs[i]| == a.Length1
  {
    seq(a.Length0, i requires 0 <= i < a.Length0 reads a =>
      seq(a.Length1, j requires 0 <= j < a.Length1 reads a => a[i, j]))
  }

  // s with n elements of t, from src on, stored at at.
  ghost function Patched<T>(s: seq<T>, at: nat, t: seq<T>, src: nat, n: nat): (r: seq<T>)
    requires at + n <= |s| && src + n <= |t|
    ensures |r| == |s|
  {
    s[..at] + t[src..src + n] + s[at + n..]
  }

  function RowGet(a: array2<Byte>, row: nat, col: nat): (c: Byte)
    requires row < a.Length0 && col < a.Length1
    reads a
    ensures c == Rows(a)[row][col]
  {
    a[row, col]
  }

  method RowPut(a: array2<Byte>, row: nat, col: nat, c: Byte)
    requires row < a.Length0 && col < a.Length1
    modifies a
    ensures Rows(a) == old(Rows(a))[row := Put<Byte>(old(Rows(a))[row], col, c)]
  {
    a[row, col] := c;
    assert forall i :: 0 <= i < a.Length0 ==> Rows(a)[i] == old(Rows(a))[row := Put<Byte>(old(Rows(a))[row], col, c)][i];
  }

  // strlen of a row (kernel/string.c:4-8).
  method RowLength(a: array2<Byte>, row: nat) returns (len: nat)
    requires row < a.Length0 && Terminated(Rows(a)[row])
    ensures len == |CStr(Rows(a)[row])|
  {
    hide Rows;
    ghost var s := Rows(a)[row];
    len := 0;
    while RowGet(a, row, len) != NUL
      invariant len <= |CStr(s)| < a.Length1 && NulFree(s[..len])
      decreases a.Length1 - len
    {
      assert s[..len + 1] == s[..len] + [s[len]];
      len := len + 1;
    }
    CStrIs(s, s[..len]);
  }

  // ------------------------------------------------------------------ moving bytes

  lemma NothingPatched<T>(s: seq<T>, at: nat, t: seq<T>, src: nat)
    requires at <= |s| && src <= |t|
    ensures Patched(s, at, t, src, 0) == s
  {
  }

  // One more byte at the end of a copy; row `to` itself may be the source when moving towards the front.
  lemma PatchOne(was: seq<Bytes>, to: nat, at: nat, from: nat, src: nat, i: nat)
    requires to < |was| && from < |was| && at + i < |was[to]| && src + i < |was[from]| && (to == from ==> at < src)
    ensures var now := was[to := Patched(was[to], at, was[from], src, i)];
            now[to := Put<Byte>(now[to], at + i, now[from][src + i])] == was[to := Patched(was[to], at, was[from], src, i + 1)]
  {
    assert Patched(was[to], at, was[from], src, i)[at + i := was[from][src + i]]
      == Patched(was[to], at, was[from], src, i + 1);
  }

  // One more byte at the front, when moving towards the end.
  lemma PatchOneBack(was: seq<Bytes>, row: nat, at: nat, src: nat, i: nat, n: nat)
    requires row < |was| && src <= at && i < n && at + n <= |was[row]|
    ensures var now := was[row := Patched(was[row], at + i + 1, was[row], src + i + 1, n - i - 1)];
            now[row := Put<Byte>(now[row], at + i, now[row][src + i])] == was[row := Patched(was[row], at + i, was[row], src + i, n - i)]
  {
    var s := was[row];
    assert Patched(s, at + i + 1, s, src + i + 1, n - i - 1)[at + i := s[src + i]] == Patched(s, at + i, s, src + i, n - i);
  }

  // memmove inside a row (kernel/string.c:102-112): from the front when moving towards the front, else from the end.
  method RowMove(a: array2<Byte>, row: nat, dst: nat, src: nat, n: nat)
    requires row < a.Length0 && dst + n <= a.Length1 && src + n <= a.Length1
    modifies a
    ensures var rs := old(Rows(a)); Rows(a) == rs[row := Patched(rs[row], dst, rs[row], src, n)]
  {
    hide Rows, Patched;
    ghost var was := Rows(a);
    if dst < src {
      NothingPatched(was[row], dst, was[row], src);
      var i := 0;
      while i < n
        invariant 0 <= i <= n
        invariant Rows(a) == was[row := Patched(was[row], dst, was[row], src, i)]
      {
        PatchOne(was, row, dst, row, src, i);
        RowPut(a, row, dst + i, RowGet(a, row, src + i));
        i := i + 1;
      }
    } else {
      NothingPatched(was[row], dst + n, was[row], src + n);
      var i := n;
      while i > 0
        invariant 0 <= i <= n
        invariant Rows(a) == was[row := Patched(was[row], dst + i, was[row], src + i, n - i)]
      {
        i := i - 1;
        PatchOneBack(was, row, dst, src, i, n);
        RowPut(a, row, dst + i, RowGet(a, row, src + i));
      }
    }
  }

  // memcpy from one row into another (kernel/string.c:95-100).
  method RowCopy(a: array2<Byte>, to: nat, at: nat, from: nat, src: nat, n: nat)
    requires to < a.Length0 && from < a.Length0 && to != from && at + n <= a.Length1 && src + n <= a.Length1
    modifies a
    ensures var rs := old(Rows(a)); Rows(a) == rs[to := Patched(rs[to], at, rs[from], src, n)]
  {
    hide Rows, Patched;
    ghost var was := Rows(a);
    NothingPatched(was[to], at, was[from], src);
    var i := 0;
    while i < n
      invariant 0 <= i <= n
      invariant Rows(a) == was[to := Patched(was[to], at, was[from], src, i)]
    {
      PatchOne(was, to, at, from, src, i);
      RowPut(a, to, at + i, RowGet(a, from, src + i));
      i := i + 1;
    }
  }

  // strcpy of the rest of a row, its NUL included, to the start of another (kernel/string.c:10-14).
  method RowStrcpy(a: array2<Byte>, to: nat, from: nat, src: nat)
    requires to < a.Length0 && from < a.Length0 && to != from
    requires Terminated(Rows(a)[from]) && src <= |CStr(Rows(a)[from])|
    modifies a
    ensures var rs := old(Rows(a));
            Rows(a) == rs[to := Patched(rs[to], 0, rs[from], src, |CStr(rs[from])| - src + 1)]
  {
    hide Rows, Patched;
    ghost var was := Rows(a);
    ghost var t := was[from];
    NothingPatched(was[to], 0, t, src);
    var d := 0;
    while RowGet(a, from, src + d) != NUL
      invariant 0 <= d <= |CStr(t)| - src
      invariant Rows(a) == was[to := Patched(was[to], 0, t, src, d)]
      decreases |t| - d
    {
      PatchOne(was, to, 0, from, src, d);
      RowPut(a, to, d, RowGet(a, from, src + d));
      d := d + 1;
    }
    StopsAtEnd(t, src + d);
    PatchOne(was, to, 0, from, src, d);
    RowPut(a, to, d, NUL);
  }

  lemma StopsAtEnd(t: Bytes, k: nat)
    requires Terminated(t) && k <= |CStr(t)| && t[k] == NUL
    ensures k == |CStr(t)|
  {
    CStrIs(t, t[..k]);
  }

  // ------------------------------------------------------------------ moving rows

  lemma ShiftOneDown<T>(was: seq<T>, top: nat, bottom: nat, i: nat)
    requires top < i <= bottom < |was|
    ensures var now := Patched(was, i + 1, was, i, bottom - i);
            now[i := now[i - 1]] == Patched(was, i, was, i - 1, bottom - i + 1)
  {
  }

  lemma ShiftOneUp<T>(was: seq<T>, top: nat, i: nat)
    requires top <= i && i + 1 < |was|
    ensures var now := Patched(was, top, was, top + 1, i - top);
            now[i := now[i + 1]] == Patched(was, top, was, top + 1, i - top + 1)
  {
  }

  lemma WholeRow<T>(s: seq<T>, t: seq<T>)
    requires |s| == |t|
    ensures Patched(s, 0, t, 0, |t|) == t
  {
  }

  // The rows below top move one place down, over row bottom (kernel/kittywrite.c:231-232).
  method ShiftDown(a: array2<Byte>, top: nat, bottom: nat)
    requires top <= bottom < a.Length0
    modifies a
    ensures Rows(a) == Patched(old(Rows(a)), top + 1, old(Rows(a)), top, bottom - top)
  {
    hide Rows, Patched;
    ghost var was := Rows(a);
    NothingPatched(was, bottom + 1, was, bottom);
    var i := bottom;
    while i > top
      invariant top <= i <= bottom
      invariant Rows(a) == Patched(was, i + 1, was, i, bottom - i)
    {
      ShiftOneDown(was, top, bottom, i);
      WholeRow(Rows(a)[i], Rows(a)[i - 1]);
      RowCopy(a, i, 0, i - 1, 0, a.Length1);
      i := i - 1;
    }
  }

  // The rows below top move one place up, over row top (kernel/kittywrite.c:270-271, 300-301).
  method ShiftUp(a: array2<Byte>, top: nat, bottom: nat)
    requires top <= bottom < a.Length0
    modifies a
    ensures Rows(a) == Patched(old(Rows(a)), top, old(Rows(a)), top + 1, bottom - top)
  {
    hide Rows, Patched;
    ghost var was := Rows(a);
    NothingPatched(was, top, was, top + 1);
    var i := top;
    while i < bottom
      invariant top <= i <= bottom
      invariant Rows(a) == Patched(was, top, was, top + 1, i - top)
    {
      ShiftOneUp(was, top, i);
      WholeRow(Rows(a)[i], Rows(a)[i + 1]);
      RowCopy(a, i, 0, i + 1, 0, a.Length1);
      i := i + 1;
    }
  }
}
