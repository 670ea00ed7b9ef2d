/** strtok over a buffer it cuts up (kernel/string.c:144-170). */
module Tokens {
  import opened Bytes
  import opened CString

  const NULL := -1

  // ------------------------------------------------------------------ tokens of a text

  // Leading delimiters, and leading characters that are none.
  function SkipRun(s: Bytes, delim: Bytes): (k: nat)
    ensures k <= |s| && (forall i :: 0 <= i < k ==> s[i] in delim) && (k < |s| ==> s[k] !in delim)
  {
    if s == [] || s[0] !in delim then 0 else 1 + SkipRun(s[1..], delim)
  }

  function WordRun(s: Bytes, delim: Bytes): (k: nat)
    ensures k <= |s| && (forall i :: 0 <= i < k ==> s[i] !in delim) && (k < |s| ==> s[k] in delim)
  {
    if s == [] || s[0] in delim then 0 else 1 + WordRun(s[1..], delim)
  }

  function TokensOf(s: Bytes, delim: Bytes): (ts: seq<Bytes>)
    decreases |s|
  {
    var k := SkipRun(s, delim);
    if k == |s| then []
    else
      var m := WordRun(s[k..], delim);
      Before(s[k..k + m], TokensOf(s[k + m..], delim))
  }

  function Before(word: Bytes, more: seq<Bytes>): seq<Bytes> { [word] + more }

  // What lies around the tokens: one gap before each and one behind the last.
  ghost function GapsOf(s: Bytes, delim: Bytes): (gs: seq<Bytes>)
    ensures gs != []
    decreases |s|
  {
    var k := SkipRun(s, delim);
    if k == |s| then [s]
    else
      var m := WordRun(s[k..], delim);
      Before(s[..k], GapsOf(s[k + m..], delim))
  }

  ghost function Weave(gaps: seq<Bytes>, ts: seq<Bytes>): Bytes
    requires |gaps| == |ts| + 1
  {
    if ts == [] then gaps[0] else gaps[0] + ts[0] + Weave(gaps[1..], ts[1..])
  }

  ghost predicate AllIn(s: Bytes, delim: Bytes) { forall c :: c in s ==> c in delim }
  ghost predicate NoneIn(s: Bytes, delim: Bytes) { forall c :: c in s ==> c !in delim }

  // Words of non-delimiters kept apart by delimiters: the words are then maximal.
  ghost predicate Separated(gaps: seq<Bytes>, ts: seq<Bytes>, delim: Bytes) {
    && |gaps| == |ts| + 1
    && (forall i :: 0 <= i < |gaps| ==> AllIn(gaps[i], delim))
    && (forall i :: 0 < i < |ts| ==> gaps[i] != [])
    && (forall i :: 0 <= i < |ts| ==> ts[i] != [] && NoneIn(ts[i], delim))
  }

  lemma {:induction false} SkipRunIs(g: Bytes, rest: Bytes, delim: Bytes)
    requires AllIn(g, delim) && (rest == [] || rest[0] !in delim)
    ensures SkipRun(g + rest, delim) == |g|
  {
    if g == [] {
      assert g + rest == rest;
    } else {
      assert g[0] in g && (g + rest)[1..] == g[1..] + rest;
      SkipRunIs(g[1..], rest, delim);
    }
  }

  lemma {:induction false} WordRunIs(w: Bytes, rest: Bytes, delim: Bytes)
    requires NoneIn(w, delim) && (rest == [] || rest[0] in delim)
    ensures WordRun(w + rest, delim) == |w|
  {
    if w == [] {
      assert w + rest == rest;
    } else {
      assert w[0] in w && (w + rest)[1..] == w[1..] + rest;
      WordRunIs(w[1..], rest, delim);
    }
  }

  lemma OneToken(g: Bytes, w: Bytes, rest: Bytes, delim: Bytes)
    requires AllIn(g, delim) && NoneIn(w, delim) && w != [] && (rest == [] || rest[0] in delim)
    ensures TokensOf(g + w + rest, delim) == [w] + TokensOf(rest, delim)
  {
    var s := g + w + rest;
    assert w[0] in w;
    SkipRunIs(g, w + rest, delim);
    assert s == g + (w + rest) && s[|g|..] == w + rest;
    WordRunIs(w, rest, delim);
    assert s[|g|..|g| + |w|] == w && s[|g| + |w|..] == rest;
  }

  // Separated words are the tokens of the text they make up.
  lemma {:induction false} TokensAreWords(gaps: seq<Bytes>, ts: seq<Bytes>, delim: Bytes)
    requires Separated(gaps, ts, delim)
    ensures TokensOf(Weave(gaps, ts), delim) == ts
    decreases |ts|
  {
    hide TokensOf;
    if ts == [] {
      SkipRunIs(gaps[0], [], delim);
      assert gaps[0] + [] == gaps[0];
      NoTokens(gaps[0], delim);
    } else {
      var rest := Weave(gaps[1..], ts[1..]);
      TokensAreWords(gaps[1..], ts[1..], delim);
      assert rest != [] ==> rest[0] in gaps[1];
      OneToken(gaps[0], ts[0], rest, delim);
    }
  }

  lemma NoTokens(s: Bytes, delim: Bytes)
    ensures SkipRun(s, delim) == |s| <==> TokensOf(s, delim) == []
  {
  }

  lemma FirstWord(s: Bytes, delim: Bytes)
    requires SkipRun(s, delim) < |s|
    ensures var k := SkipRun(s, delim); 0 < WordRun(s[k..], delim) <= |s| - k
  {
    hide SkipRun, WordRun;
    var k := SkipRun(s, delim);
    assert s[k..][0] == s[k];
    WordStep(s[k..], delim);
  }

  lemma FirstToken(s: Bytes, delim: Bytes)
    ensures var k := SkipRun(s, delim);
            if k == |s| then TokensOf(s, delim) == []
            else
              var m := WordRun(s[k..], delim);
              && m > 0 && k + m <= |s| && TokensOf(s, delim) == [s[k..k + m]] + TokensOf(s[k + m..], delim)
  {
    hide SkipRun, WordRun, TokensOf;
    TokensUnfold(s, delim);
    if SkipRun(s, delim) < |s| {
      FirstWord(s, delim);
    }
  }

  lemma TokensUnfold(s: Bytes, delim: Bytes)
    ensures var k := SkipRun(s, delim);
            TokensOf(s, delim) == if k == |s| then [] else Before(s[k..k + WordRun(s[k..], delim)],
                                                                  TokensOf(s[k + WordRun(s[k..], delim)..], delim))
  {
    hide Before, SkipRun, WordRun;
  }

  lemma GapsUnfold(s: Bytes, delim: Bytes)
    ensures var k := SkipRun(s, delim);
            GapsOf(s, delim) == if k == |s| then [s] else Before(s[..k], GapsOf(s[k + WordRun(s[k..], delim)..], delim))
  {
    hide Before, SkipRun, WordRun;
    if SkipRun(s, delim) < |s| {
      FirstWord(s, delim);
    }
  }

  lemma FirstGap(s: Bytes, delim: Bytes)
    ensures var k := SkipRun(s, delim);
            if k == |s| then GapsOf(s, delim) == [s]
            else
              var m := WordRun(s[k..], delim);
              && m > 0 && k + m <= |s| && GapsOf(s, delim) == [s[..k]] + GapsOf(s[k + m..], delim)
  {
    hide SkipRun, WordRun, GapsOf;
    GapsUnfold(s, delim);
    if SkipRun(s, delim) < |s| {
      FirstWord(s, delim);
    }
  }

  lemma WordParts(s: Bytes, delim: Bytes)
    requires SkipRun(s, delim) < |s|
    ensures var k := SkipRun(s, delim);
            var m := WordRun(s[k..], delim);
            && AllIn(s[..k], delim) && NoneIn(s[k..k + m], delim)
            && (s[k + m..] != [] ==> s[k + m..][0] in delim)
            && s == s[..k] + s[k..k + m] + s[k + m..]
  {
    hide SkipRun, WordRun;
    var k := SkipRun(s, delim);
    var m := WordRun(s[k..], delim);
    assert s[k..k + m] == s[k..][..m];
    assert s[k + m..] == s[k..][m..];
  }

  lemma SeparatedMore(g: Bytes, w: Bytes, gaps: seq<Bytes>, ts: seq<Bytes>, delim: Bytes)
    requires AllIn(g, delim) && NoneIn(w, delim) && w != [] && Separated(gaps, ts, delim) && (ts != [] ==> gaps[0] != [])
    ensures Separated([g] + gaps, [w] + ts, delim)
    ensures Weave([g] + gaps, [w] + ts) == g + w + Weave(gaps, ts)
  {
    assert ([g] + gaps)[1..] == gaps && ([w] + ts)[1..] == ts;
  }

  // Every text is its gaps and its tokens; so the tokens are exactly its maximal words, in order.
  lemma {:induction false} TextIsWoven(s: Bytes, delim: Bytes)
    ensures Separated(GapsOf(s, delim), TokensOf(s, delim), delim)
    ensures Weave(GapsOf(s, delim), TokensOf(s, delim)) == s
    ensures s != [] && s[0] in delim ==> GapsOf(s, delim)[0] != []
    decreases |s|
  {
    hide TokensOf, GapsOf, SkipRun, WordRun, Weave, Separated;
    FirstToken(s, delim);
    FirstGap(s, delim);
    SkipStep(s, delim);
    var k := SkipRun(s, delim);
    if k == |s| {
      NothingWoven(s, delim);
    } else {
      var m := WordRun(s[k..], delim);
      var rest := s[k + m..];
      WordParts(s, delim);
      TextIsWoven(rest, delim);
      EmptyTokens(delim);
      SeparatedMore(s[..k], s[k..k + m], GapsOf(rest, delim), TokensOf(rest, delim), delim);
    }
  }

  lemma EmptyTokens(delim: Bytes)
    ensures TokensOf([], delim) == [] && GapsOf([], delim) == [[]]
  {
  }

  lemma NothingWoven(s: Bytes, delim: Bytes)
    requires SkipRun(s, delim) == |s|
    ensures Separated([s], [], delim) && Weave([s], []) == s
  {
  }

  lemma SkipStep(s: Bytes, delim: Bytes)
    ensures SkipRun(s, delim) == if s == [] || s[0] !in delim then 0 else 1 + SkipRun(s[1..], delim)
  {
  }

  lemma WordStep(s: Bytes, delim: Bytes)
    ensures WordRun(s, delim) == if s == [] || s[0] in delim then 0 else 1 + WordRun(s[1..], delim)
  {
  }

  // A delimiter in front changes nothing.
  lemma SkipOne(s: Bytes, delim: Bytes)
    requires s != [] && s[0] in delim
    ensures TokensOf(s, delim) == TokensOf(s[1..], delim)
  {
    hide TokensOf, GapsOf;
    TextIsWoven(s[1..], delim);
    var gaps, ts := GapsOf(s[1..], delim), TokensOf(s[1..], delim);
    var wider := [[s[0]] + gaps[0]] + gaps[1..];
    assert wider[1..] == gaps[1..];
    assert Weave(wider, ts) == [s[0]] + Weave(gaps, ts);
    assert s == [s[0]] + s[1..];
    TokensAreWords(wider, ts, delim);
  }

  // ------------------------------------------------------------------ strtok

  // The search for a character among the delimiters.
  method Among(c: Byte, delim: Bytes) returns (found: bool)
    ensures found <==> c in delim
  {
    found := false;
    var d := 0;
    while d < |delim|
      invariant 0 <= d <= |delim| && !found && c !in delim[..d]
    {
      if c == delim[d] {
        found := true;
        break;
      }
      d := d + 1;
    }
  }

  // What one call does to the buffer b and the saved position, for the text at p.
  ghost predicate TokenTaken(b: Bytes, c: Bytes, p: nat, save: int, start: int, delim: Bytes) {
    && |b| == |c| && p <= |b|
    && var s := CStr(b[p..]);
       var ts := TokensOf(s, delim);
       if ts == [] then start == NULL && save == NULL && c == b
       else
         var end := start + |ts[0]|;
         && p <= start && end <= p + |s| && end < |b|
         && Terminated(c[start..]) && CStr(c[start..]) == ts[0]
         && c[..end] == b[..end] && c[end + 1..] == b[end + 1..]
         && (save == NULL || (save == end + 1 <= p + |s| <= |c| && Terminated(c[save..])))
         && TokensOf(if save == NULL then [] else CStr(c[save..]), delim) == ts[1..]
  }

  class Tokenizer {
    const buf: array<Byte>
    var save: int

    ghost predicate Valid()
      reads this, buf
    {
      save == NULL || (0 <= save <= buf.Length && Terminated(buf[save..]))
    }

    constructor (buffer: array<Byte>)
      ensures buf == buffer && save == NULL && Valid()
    {
      buf := buffer;
      save := NULL;
    }

    method SkipDelimiters(p: nat, delim: Bytes) returns (q: nat)
      requires p <= buf.Length && Terminated(buf[p..])
      ensures q == p + SkipRun(CStr(buf[p..]), delim) <= p + |CStr(buf[p..])|
    {
      hide SkipRun, CStr, Terminated;
      ghost var s := CStr(buf[p..]);
      q := p;
      TextAt(buf[..], p, q);
      assert s[0..] == s;
      while buf[q] != NUL
        invariant p <= q <= p + |s| && q < buf.Length && (buf[q] == NUL <==> q == p + |s|)
        invariant q < p + |s| ==> buf[q] == s[q - p]
        invariant SkipRun(s, delim) == q - p + SkipRun(s[q - p..], delim)
        decreases p + |s| - q
      {
        var found := Among(buf[q], delim);
        SkipStep(s[q - p..], delim);
        if !found { return; }
        assert s[q - p..][1..] == s[q + 1 - p..];
        q := q + 1;
        TextAt(buf[..], p, q);
      }
      SkipStep(s[q - p..], delim);
    }

    method SkipWord(p: nat, delim: Bytes) returns (q: nat, found: bool)
      requires p <= buf.Length && Terminated(buf[p..])
      ensures q == p + WordRun(CStr(buf[p..]), delim) <= p + |CStr(buf[p..])|
      ensures found <==> q < p + |CStr(buf[p..])|
    {
      hide WordRun, CStr, Terminated;
      ghost var s := CStr(buf[p..]);
      q := p;
      found := false;
      TextAt(buf[..], p, q);
      assert s[0..] == s;
      while buf[q] != NUL
        invariant p <= q <= p + |s| && q < buf.Length && (buf[q] == NUL <==> q == p + |s|) && !found
        invariant q < p + |s| ==> buf[q] == s[q - p]
        invariant WordRun(s, delim) == q - p + WordRun(s[q - p..], delim)
        decreases p + |s| - q
      {
        found := Among(buf[q], delim);
        WordStep(s[q - p..], delim);
        if found { return; }
        assert s[q - p..][1..] == s[q + 1 - p..];
        q := q + 1;
        TextAt(buf[..], p, q);
      }
      WordStep(s[q - p..], delim);
    }

    // The word at q, where no delimiter stands; its end is cut off.
    method TakeWord(q: nat, delim: Bytes) returns (r: nat)
      requires Valid() && q <= buf.Length && Terminated(buf[q..])
      modifies this, buf
      ensures var s := old(CStr(buf[q..]));
              && r == q + WordRun(s, delim) <= q + |s| < buf.Length
              && Valid() && Terminated(buf[q..]) && CStr(buf[q..]) == s[..r - q]
              && (if r == q + |s| then save == NULL && buf[..] == old(buf[..])
                  else save == r + 1 && CStr(buf[save..]) == s[r + 1 - q..]
                       && buf[..r] == old(buf[..r]) && buf[r + 1..] == old(buf[r + 1..]))
    {
      hide WordRun, CStr;
      ghost var b := buf[..];
      assert b[q..] == buf[q..];
      TextAt(b, q, q);
      var found: bool;
      r, found := SkipWord(q, delim);
      if found {
        buf[r] := NUL;
        save := r + 1;
        TextCut(b, buf[..], q, r);
        assert buf[..][q..] == buf[q..] && buf[..][r + 1..] == buf[r + 1..];
      } else {
        save := NULL;
        assert CStr(buf[q..])[..r - q] == CStr(buf[q..]);
      }
    }

    // str is a position in the buffer, or NULL to go on where the last call stopped.
    method Strtok(str: int, delim: Bytes) returns (start: int)
      requires Valid() && (str == NULL || (0 <= str <= buf.Length && Terminated(buf[str..])))
      modifies this, buf
      ensures Valid()
      ensures var p := if str == NULL then old(save) else str;
              if p == NULL then start == NULL && save == NULL && buf[..] == old(buf[..])
              else TokenTaken(old(buf[..]), buf[..], p, save, start, delim)
    {
      hide TokensOf, GapsOf, SkipRun, WordRun, CStr, TokenTaken, Terminated;
      var p := if str == NULL then save else str;
      if p == NULL {
        save := NULL;
        return NULL;
      }
      ghost var b := buf[..];
      ghost var s := CStr(b[p..]);
      assert b[p..] == buf[p..];
      TextAt(b, p, p);
      NoToken(b, p, delim);
      if buf[p] == NUL {
        EmptyTokens(delim);
        save := NULL;
        return NULL;
      }
      var q := SkipDelimiters(p, delim);
      TextAt(b, p, q);
      FirstToken(s, delim);
      if buf[q] == NUL {
        save := NULL;
        return NULL;
      }
      assert b[q..] == buf[q..];
      var r := TakeWord(q, delim);
      start := q;
      TookWord(b, buf[..], p, q, r, save, delim);
    }
  }

  lemma NoToken(b: Bytes, p: nat, delim: Bytes)
    requires p <= |b|
    ensures TokensOf(CStr(b[p..]), delim) == [] ==> TokenTaken(b, b, p, NULL, NULL, delim)
  {
  }

  lemma TookWord(b: Bytes, c: Bytes, p: nat, q: nat, r: nat, save: int, delim: Bytes)
    requires p <= q < r <= |b| == |c| && Terminated(b[p..])
    requires var s := CStr(b[p..]);
             && q == p + SkipRun(s, delim) < p + |s| && r == q + WordRun(s[q - p..], delim) <= p + |s| < |b|
             && Terminated(c[q..]) && CStr(c[q..]) == s[q - p..r - p]
             && (if r == p + |s| then save == NULL && c == b
                 else save == r + 1 && Terminated(c[save..]) && CStr(c[save..]) == s[r + 1 - p..]
                      && c[..r] == b[..r] && c[r + 1..] == b[r + 1..])
    ensures TokenTaken(b, c, p, save, q, delim)
  {
    hide TokensOf, GapsOf, SkipRun, WordRun, CStr;
    var s := CStr(b[p..]);
    FirstToken(s, delim);
    WordParts(s, delim);
    if r < p + |s| {
      SkipOne(s[r - p..], delim);
      assert s[r - p..][1..] == s[r + 1 - p..];
    } else {
      EmptyTokens(delim);
    }
  }

  // ------------------------------------------------------------------ several calls in a row

  // Position p of the list points at word i.
  ghost predicate Points(b: Bytes, at: seq<int>, ts: seq<Bytes>, i: nat)
    requires i < |at| && i < |ts|
  {
    0 <= at[i] <= |b| && Terminated(b[at[i]..]) && CStr(b[at[i]..]) == ts[i]
  }

  // The first n positions point at the first n words, all of which end before x.
  ghost predicate Filled(b: Bytes, at: seq<int>, ts: seq<Bytes>, n: nat, x: nat) {
    && n <= |at| && n <= |ts|
    && forall i :: 0 <= i < n ==> Points(b, at, ts, i) && at[i] + |ts[i]| < x
  }

  // n words were taken and the next is in hand, or none is left.
  ghost predicate InHand(b: Bytes, ts: seq<Bytes>, n: nat, token: int, save: int, x: nat, delim: Bytes) {
    && n <= |ts| && x <= |b|
    && if token == NULL then n == |ts| && save == NULL
       else
         && n < |ts| && 0 <= token <= |b| && Terminated(b[token..]) && CStr(b[token..]) == ts[n]
         && token + |ts[n]| < x
         && (save == NULL || (x <= save <= |b| && Terminated(b[save..])))
         && TokensOf(if save == NULL then [] else CStr(b[save..]), delim) == ts[n + 1..]
  }

  // The end of the word in hand.
  ghost function WordEnd(b: Bytes, token: int, x: nat): nat
    requires token <= |b|
  {
    if token < 0 then x else token + |CStr(b[token..])| + 1
  }

  lemma FirstInHand(b: Bytes, c: Bytes, p: nat, save: int, token: int, delim: Bytes)
    requires p <= |b| && TokenTaken(b, c, p, save, token, delim)
    ensures token <= |c| && InHand(c, TokensOf(CStr(b[p..]), delim), 0, token, save, WordEnd(c, token, 0), delim)
  {
    hide TokensOf;
  }

  // Taking the next word leaves the words taken before alone.
  lemma NextInHand(b: Bytes, c: Bytes, at: seq<int>, ts: seq<Bytes>, n: nat, token: int, save: int, save': int, next: int,
                   x: nat, delim: Bytes)
    requires n < |at| && Filled(b, at, ts, n, x) && InHand(b, ts, n, token, save, x, delim) && token != NULL
    requires if save == NULL then next == NULL && save' == NULL && c == b
             else TokenTaken(b, c, save, save', next, delim)
    ensures next <= |c|
    ensures var y := WordEnd(c, next, x);
            InHand(c, ts, n + 1, next, save', y, delim) && Filled(c, at[n := token], ts, n + 1, y)
  {
    hide TokensOf, CStr, Points, Filled, InHand, TokenTaken, WordEnd;
    HandMoves(b, c, ts, n, token, save, save', next, x, delim);
    HandPoints(b, at, ts, n, token, save, x, delim);
    WordsKept(b, c, at[n := token], ts, n + 1, x, WordEnd(c, next, x));
  }

  lemma HandPoints(b: Bytes, at: seq<int>, ts: seq<Bytes>, n: nat, token: int, save: int, x: nat, delim: Bytes)
    requires n < |at| && Filled(b, at, ts, n, x) && InHand(b, ts, n, token, save, x, delim) && token != NULL
    ensures Filled(b, at[n := token], ts, n + 1, x)
  {
    hide TokensOf, CStr, Points, Filled;
    WordInHandPoints(b, at, ts, n, token, x);
  }

  // The hand moves on to the next word, or is empty; nothing before x changes.
  lemma HandMoves(b: Bytes, c: Bytes, ts: seq<Bytes>, n: nat, token: int, save: int, save': int, next: int, x: nat, delim: Bytes)
    requires InHand(b, ts, n, token, save, x, delim) && token != NULL
    requires if save == NULL then next == NULL && save' == NULL && c == b
             else TokenTaken(b, c, save, save', next, delim)
    ensures next <= |c| == |b| && x <= |b| && b[..x] == c[..x] && x <= WordEnd(c, next, x)
    ensures InHand(c, ts, n + 1, next, save', WordEnd(c, next, x), delim)
  {
    hide TokensOf, CStr;
    EmptyTokens(delim);
    if next != NULL {
      assert ts[n + 1..][0] == ts[n + 1] && ts[n + 1..][1..] == ts[n + 2..];
      assert c[..x] == c[..next + |CStr(c[next..])|][..x] == b[..x];
    }
  }

  // The word in hand joins those before it.
  lemma WordInHandPoints(b: Bytes, at: seq<int>, ts: seq<Bytes>, n: nat, token: int, x: nat)
    requires n < |at| && n < |ts| && Filled(b, at, ts, n, x)
    requires 0 <= token <= |b| && Terminated(b[token..]) && CStr(b[token..]) == ts[n] && token + |ts[n]| < x
    ensures Filled(b, at[n := token], ts, n + 1, x)
  {
    hide CStr, Terminated;
    forall i | 0 <= i < n + 1
      ensures Points(b, at[n := token], ts, i) && at[n := token][i] + |ts[i]| < x
    {
      if i < n {
        PointsSame(b, at, at[n := token], ts, i);
      }
    }
  }

  // Words that end before x stay when nothing before x changes.
  lemma WordsKept(b: Bytes, c: Bytes, at: seq<int>, ts: seq<Bytes>, n: nat, x: nat, y: nat)
    requires |b| == |c| && x <= y && x <= |b| && b[..x] == c[..x] && Filled(b, at, ts, n, x)
    ensures Filled(c, at, ts, n, y)
  {
    hide CStr, Terminated;
    forall i | 0 <= i < n
      ensures Points(c, at, ts, i) && at[i] + |ts[i]| < y
    {
      TextKept(b, c, at[i], x);
    }
  }

  lemma PointsSame(b: Bytes, at: seq<int>, at': seq<int>, ts: seq<Bytes>, i: nat)
    requires i < |at| && i < |at'| && at[i] == at'[i] && i < |ts| && Points(b, at, ts, i)
    ensures Points(b, at', ts, i)
  {
  }

  // The string in c that starts inside the text still ends where the text ended.
  lemma StillEnds(b: Bytes, c: Bytes, end: nat, stop: nat, lim: nat)
    requires |b| == |c| && end <= stop <= lim < |b| && c[..end] == b[..end] && c[end + 1..] == b[end + 1..]
    requires c[end] == NUL && b[stop] == NUL
    ensures c[stop] == NUL && c[lim..] == b[lim..]
  {
    assert forall k :: end < k < |b| ==> c[k] == c[end + 1..][k - end - 1] == b[end + 1..][k - end - 1] == b[k];
  }

  lemma EndsBy(c: Bytes, save: nat, stop: nat)
    requires save <= stop < |c| && c[stop] == NUL
    ensures save + |CStr(c[save..])| <= stop
  {
    hide CStr;
    assert c[save..][stop - save] == NUL;
  }

  // A call changes nothing from the end of its text on, and goes on inside it.
  lemma TokenInside(b: Bytes, c: Bytes, p: nat, save: int, start: int, delim: Bytes, lim: nat)
    requires TokenTaken(b, c, p, save, start, delim) && Terminated(b[p..]) && p + |CStr(b[p..])| <= lim < |b|
    ensures c[lim..] == b[lim..]
    ensures save != NULL ==> 0 <= save <= |c| && Terminated(c[save..]) && save + |CStr(c[save..])| <= lim
  {
    hide TokensOf, CStr;
    var s := CStr(b[p..]);
    var stop := p + |s|;
    TextAt(b, p, stop);
    if start != NULL {
      var end := start + |CStr(c[start..])|;
      TextAt(c, start, end);
      StillEnds(b, c, end, stop, lim);
      if save != NULL {
        EndsBy(c, save, stop);
      }
    }
  }

  // Where the i-th position points, if there is such a word.
  ghost predicate WordAt(b: Bytes, at: seq<int>, ts: seq<Bytes>, i: nat)
    requires i < |at|
  {
    if i < |ts| then Points(b, at, ts, i) else at[i] == NULL
  }

  lemma FilledSame(b: Bytes, at: seq<int>, at': seq<int>, ts: seq<Bytes>, n: nat, x: nat)
    requires Filled(b, at, ts, n, x) && n <= |at'| && forall i :: 0 <= i < n ==> at[i] == at'[i]
    ensures Filled(b, at', ts, n, x)
  {
    forall i | 0 <= i < n
      ensures Points(b, at', ts, i) && at'[i] + |ts[i]| < x
    {
      PointsSame(b, at, at', ts, i);
    }
  }

  // i calls have filled i places; the last one returned token.
  ghost predicate Taking(b: Bytes, at: seq<int>, ts: seq<Bytes>, i: nat, token: int, save: int, x: nat, delim: Bytes) {
    var n := if token == NULL then |ts| else i - 1;
    && 1 <= i <= |at| && at[i - 1] == token && (token == NULL ==> |ts| < i)
    && n >= 0 && InHand(b, ts, n, token, save, x, delim) && Filled(b, at, ts, n, x)
    && forall j :: |ts| <= j < i ==> at[j] == NULL
  }

  lemma FirstTaken(b: Bytes, c: Bytes, p: nat, at: seq<int>, save: int, token: int, delim: Bytes)
    requires p <= |b| && TokenTaken(b, c, p, save, token, delim) && at != [] && at[0] == token
    ensures token <= |c| && Taking(c, at, TokensOf(CStr(b[p..]), delim), 1, token, save, WordEnd(c, token, 0), delim)
  {
    hide TokensOf, CStr, Points;
    FirstInHand(b, c, p, save, token, delim);
  }

  lemma NextTaken(b: Bytes, c: Bytes, at: seq<int>, ts: seq<Bytes>, i: nat, token: int, save: int, save': int, next: int,
                  x: nat, delim: Bytes) returns (y: nat)
    requires Taking(b, at, ts, i, token, save, x, delim) && i < |at|
    requires if save == NULL then next == NULL && save' == NULL && c == b
             else TokenTaken(b, c, save, save', next, delim)
    ensures Taking(c, at[i := next], ts, i + 1, next, save', y, delim)
  {
    hide TokensOf, CStr, TokenTaken, Points, WordEnd;
    if token != NULL {
      NextInHand(b, c, at, ts, i - 1, token, save, save', next, x, delim);
      assert at[i - 1 := token] == at;
      y := WordEnd(c, next, x);
      FilledSame(c, at, at[i := next], ts, i, y);
    } else {
      y := x;
      FilledSame(c, at, at[i := next], ts, |ts|, x);
    }
  }

  lemma AllTaken(b: Bytes, at: seq<int>, ts: seq<Bytes>, token: int, save: int, x: nat, delim: Bytes)
    requires Taking(b, at, ts, |at|, token, save, x, delim)
    ensures forall i :: 0 <= i < |at| ==> WordAt(b, at, ts, i)
  {
    hide TokensOf, CStr;
  }

  // As many calls as the list has places, on the text at str.
  method TakeWords(t: Tokenizer, str: nat, delim: Bytes, at: array<int>)
    requires t.Valid() && str <= t.buf.Length && Terminated(t.buf[str..]) && at.Length > 0
    modifies t, t.buf, at
    ensures t.Valid()
    ensures var s := old(CStr(t.buf[str..]));
            && str + |s| <= t.buf.Length
            && t.buf[str + |s|..] == old(t.buf[..])[str + |s|..]
            && forall i :: 0 <= i < at.Length ==> WordAt(t.buf[..], at[..], TokensOf(s, delim), i)
  {
    hide TokensOf, CStr, TokenTaken, Points, WordEnd, Taking;
    ghost var b0 := t.buf[..];
    ghost var s := CStr(b0[str..]);
    ghost var ts, lim := TokensOf(s, delim), str + |s|;
    assert t.buf[str..] == b0[str..];
    TextAt(b0, str, lim);
    var token := t.Strtok(str, delim);
    at[0] := token;
    FirstTaken(b0, t.buf[..], str, at[..], t.save, token, delim);
    TokenInside(b0, t.buf[..], str, t.save, token, delim, lim);
    ghost var x: nat := WordEnd(t.buf[..], token, 0);
    var i := 1;
    while i < at.Length
      invariant 1 <= i <= at.Length && t.Valid() && Taking(t.buf[..], at[..], ts, i, token, t.save, x, delim)
      invariant t.buf[lim..] == b0[lim..] && (t.save != NULL ==> t.save + |CStr(t.buf[..][t.save..])| <= lim)
    {
      ghost var b, was, save, taken := t.buf[..], at[..], t.save, token;
      token := t.Strtok(NULL, delim);
      if save != NULL {
        assert t.buf[..][lim..] == t.buf[lim..];
        TokenInside(b, t.buf[..], save, t.save, token, delim, lim);
      }
      x := NextTaken(b, t.buf[..], was, ts, i, taken, save, t.save, token, x, delim);
      at[i] := token;
      assert at[..] == was[i := token];
      i := i + 1;
    }
    AllTaken(t.buf[..], at[..], ts, token, t.save, x, delim);
  }
}
