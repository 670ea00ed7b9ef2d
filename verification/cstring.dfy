/** NUL-terminated strings in byte buffers, and the kernel's own string routines on them (kernel/string.c). */
module CString {
  import opened Bytes

  const NUL: Byte := '\0'

  ghost predicate NulFree(s: Bytes) { NUL !in s }

  // The C string that starts at the beginning of a buffer: everything before the first NUL.
  function CStr(s: Bytes): (r: Bytes)
    ensures |r| <= |s| && r == s[..|r|] && NUL !in r
    ensures |r| < |s| ==> s[|r|] == NUL
  {
    if s == [] || s[0] == NUL then [] else [s[0]] + CStr(s[1..])
  }

  ghost predicate Terminated(s: Bytes) { |CStr(s)| < |s| }

  lemma {:induction false} CStrIs(s: Bytes, r: Bytes)
    requires |r| < |s| && r == s[..|r|] && NulFree(r) && s[|r|] == NUL
    ensures CStr(s) == r && Terminated(s)
  {
    if r != [] {
      assert s[0] == r[0] && s[1..][..|r| - 1] == r[1..];
      CStrIs(s[1..], r[1..]);
    }
  }

  // strncpy as the kernel has it: a source shorter than n leaves n + 1 bytes written (kernel/string.c:16-21).
  method Strncpy(dst: array<Byte>, src: Bytes, n: nat)
    requires NulFree(src) && (if |src| < n then n + 1 else n) <= dst.Length
    modifies dst
    ensures |src| < n ==> dst[..] == src + Zeros(n + 1 - |src|) + old(dst[n + 1..])
    ensures |src| >= n ==> dst[..] == src[..n] + old(dst[n..])
  {
    var d := 0;
    var left := n;
    while left > 0 && d < |src|
      invariant d <= |src| && left == n - d && d <= n
      invariant forall k :: 0 <= k < d ==> dst[k] == src[k]
      invariant forall k :: d <= k < dst.Length ==> dst[k] == old(dst[k])
    {
      dst[d] := src[d];
      d := d + 1;
      left := left - 1;
    }
    if left > 0 {
      dst[d] := NUL;
      d := d + 1;
      while left > 0
        invariant 0 <= left <= n && d == n + 1 - left && |src| < d
        invariant forall k :: 0 <= k < |src| ==> dst[k] == src[k]
        invariant forall k :: |src| <= k < d ==> dst[k] == NUL
        invariant forall k :: d <= k < dst.Length ==> dst[k] == old(dst[k])
      {
        dst[d] := NUL;
        d := d + 1;
        left := left - 1;
      }
    }
  }

  // strcpy of a C string into a buffer (kernel/string.c:10-14).
  method Strcpy(dst: array<Byte>, at: nat, src: Bytes)
    requires NulFree(src) && at + |src| < dst.Length
    modifies dst
    ensures dst[..] == old(dst[..at]) + src + [NUL] + old(dst[at + |src| + 1..])
  {
    CopyInto(dst, at, src + [NUL]);
  }

  // The last occurrence of a character, -1 when there is none.
  ghost function LastIndex(s: Bytes, c: Byte): (r: int)
    ensures -1 <= r < |s|
    ensures r >= 0 ==> s[r] == c && c !in s[r + 1..]
    ensures r < 0 ==> c !in s
  {
    if s == [] then -1
    else if s[|s| - 1] == c then |s| - 1
    else LastIndex(s[..|s| - 1], c)
  }

  // strrchr (kernel/string.c:38-45), as an index.
  method Strrchr(s: Bytes, c: Byte) returns (last: int)
    ensures last == LastIndex(s, c)
  {
    hide LastIndex;
    last := -1;
    var i := 0;
    LastIndexOfNothing(c);
    assert s[..0] == [];
    while i < |s|
      invariant 0 <= i <= |s|
      invariant last == LastIndex(s[..i], c)
    {
      LastIndexNext(s, i, c);
      if s[i] == c {
        last := i;
      }
      i := i + 1;
    }
    assert s[..i] == s;
  }

  lemma LastIndexOfNothing(c: Byte)
    ensures LastIndex([], c) == -1
  {
  }

  lemma LastIndexNext(s: Bytes, i: nat, c: Byte)
    requires i < |s|
    ensures LastIndex(s[..i + 1], c) == if s[i] == c then i else LastIndex(s[..i], c)
  {
    assert s[..i + 1][..i] == s[..i];
  }

  // Position of the first occurrence of c, the length when there is none.
  function FirstIndex(s: Bytes, c: Byte): (k: nat)
    ensures k <= |s| && c !in s[..k] && (k < |s| ==> s[k] == c)
  {
    if s == [] || s[0] == c then 0 else 1 + FirstIndex(s[1..], c)
  }

  lemma {:induction false} FirstIndexJoin(x: Bytes, b: Bytes, c: Byte)
    requires c !in x && (b == [] || b[0] == c)
    ensures FirstIndex(x + b, c) == |x|
  {
    if x == [] {
      assert x + b == b;
    } else {
      assert x[0] in x && (x + b)[1..] == x[1..] + b;
      FirstIndexJoin(x[1..], b, c);
    }
  }

  lemma TextAt(b: Bytes, p: nat, q: nat)
    requires p <= q <= |b| && Terminated(b[p..]) && q <= p + |CStr(b[p..])|
    ensures q < |b| && Terminated(b[q..]) && CStr(b[q..]) == CStr(b[p..])[q - p..]
    ensures b[q] == NUL <==> q == p + |CStr(b[p..])|
    ensures q < p + |CStr(b[p..])| ==> b[q] == CStr(b[p..])[q - p]
  {
    var s := CStr(b[p..]);
    assert b[p..][q - p..] == b[q..];
    assert s[q - p..] == b[q..][..|s| - (q - p)];
    CStrIs(b[q..], s[q - p..]);
    if q < p + |s| {
      assert s[q - p] in s;
    }
  }

  // A string that ends before the changes is unchanged.
  lemma TextKept(b: Bytes, c: Bytes, p: nat, x: nat)
    requires |b| == |c| && p <= x <= |b| && b[..x] == c[..x] && Terminated(b[p..]) && p + |CStr(b[p..])| < x
    ensures Terminated(c[p..]) && CStr(c[p..]) == CStr(b[p..])
  {
    var s := CStr(b[p..]);
    assert c[p..][..|s|] == c[..x][p..p + |s|] == b[..x][p..p + |s|] == s;
    assert c[p..][|s|] == c[..x][p + |s|] == b[..x][p + |s|] == b[p..][|s|];
    CStrIs(c[p..], s);
  }

  // Cutting the text at q.
  lemma TextCut(b: Bytes, c: Bytes, p: nat, q: nat)
    requires p <= q < |b| && |b| == |c| && c == b[..q] + [NUL] + b[q + 1..]
    requires Terminated(b[p..]) && q < p + |CStr(b[p..])|
    ensures Terminated(c[p..]) && CStr(c[p..]) == CStr(b[p..])[..q - p]
    ensures q + 1 < |c| && Terminated(c[q + 1..]) && CStr(c[q + 1..]) == CStr(b[p..])[q + 1 - p..]
  {
    hide CStr;
    var s := CStr(b[p..]);
    assert c[p..][..q - p] == b[p..][..q - p] == s[..q - p];
    CStrIs(c[p..], s[..q - p]);
    TextAt(b, p, q + 1);
    assert c[q + 1..] == b[q + 1..];
  }

  // strchr from position p (kernel/string.c:30-36); the position of the NUL stands for a NULL result.
  method Strchr(raw: array<Byte>, p: nat, c: Byte) returns (k: nat)
    requires c != NUL && p <= raw.Length && Terminated(raw[p..])
    ensures p <= k <= p + |CStr(raw[p..])| && k == p + FirstIndex(CStr(raw[p..]), c)
  {
    hide CStr, Terminated;
    ghost var text := CStr(raw[p..]);
    k := p;
    assert raw[p..] == raw[..][p..];
    TextAt(raw[..], p, k);
    while raw[k] != c && raw[k] != NUL
      invariant p <= k <= p + |text| && k < raw.Length && c !in text[..k - p]
      invariant raw[k] == NUL <==> k == p + |text|
      invariant k < p + |text| ==> raw[k] == text[k - p]
      decreases p + |text| - k
    {
      assert text[..k + 1 - p] == text[..k - p] + [text[k - p]];
      k := k + 1;
      TextAt(raw[..], p, k);
    }
    assert text == text[..k - p] + text[k - p..];
    FirstIndexJoin(text[..k - p], text[k - p..], c);
  }

  lemma {:induction false} CStrPadded(d: Bytes, rest: Bytes)
    requires NulFree(d) && (rest == [] || rest[0] == NUL)
    ensures CStr(d + rest) == d
  {
    if rest == [] {
      assert d + rest == d;
      NothingCut(d);
    } else {
      CStrIs(d + rest, d);
    }
  }

  lemma {:induction false} NothingCut(d: Bytes)
    requires NulFree(d)
    ensures CStr(d) == d
  {
    if d != [] {
      assert d[0] in d;
      NothingCut(d[1..]);
    }
  }

  lemma {:induction false} TerminatedRead(raw: Bytes, data: Bytes)
    requires |data| < |raw| && raw[..|data|] == data && raw[|data|] == NUL
    ensures Terminated(raw) && CStr(raw) == CStr(data)
  {
    var r := CStr(data);
    assert r == raw[..|r|];
    CStrIs(raw, r);
  }

  // What a field of n characters and a NUL keeps of a string.
  function Upto(s: Bytes, n: nat): Bytes { if |s| <= n then s else s[..n] }

  // strncpy into a field of size characters whose last one stays NUL.
  method StoreField(src: Bytes, size: nat) returns (f: Bytes)
    requires NulFree(src) && size > 0
    ensures f == Upto(src, size - 1)
  {
    var field := new Byte[size](i => NUL);
    Strncpy(field, src, size - 1);
    f := CStr(field[..]);
    if |src| < size - 1 {
      CStrIs(field[..], src);
    } else {
      CStrIs(field[..], src[..size - 1]);
    }
  }

  // strncpy and an explicit NUL, as the callers with a buffer of their own do it.
  method CopyField(dst: array<Byte>, src: Bytes, size: nat)
    requires NulFree(src) && 0 < size <= dst.Length
    modifies dst
    ensures Terminated(dst[..]) && CStr(dst[..]) == Upto(src, size - 1)
  {
    Strncpy(dst, src, size - 1);
    dst[size - 1] := NUL;
    CStrIs(dst[..], Upto(src, size - 1));
  }
}
