/** Paths that lost their end: the components stay exactly when only slashes went (kernel/fs.c:17-26, 245-258). */
module PathCuts {
  import opened Bytes
  import opened Paths

  ghost predicate AllSlashes(path: Bytes) { forall i :: 0 <= i < |path| ==> path[i] == SLASH }

  lemma {:induction false} OnlySlashes(path: Bytes)
    requires AllSlashes(path)
    ensures Components(path) == []
  {
    if path != [] {
      OnlySlashes(path[1..]);
      SlashesIgnored([], path[1..]);
      assert path == [SLASH] + path[1..];
    }
  }

  // A stretch without slashes is cut into pieces of 63 characters; with the law of joined paths this is what components are.
  lemma ComponentsOfStretch(name: Bytes)
    requires '/' !in name
    ensures Components(name) == if name == [] then [] else if |name| <= 63 then [name] else [name[..63]] + Components(name[63..])
  {
    if |name| <= 63 {
      ComponentsOfName(name);
    } else {
      RunOfStretch(name, 63);
      assert name[63] in name;
    }
  }

  lemma {:induction false} RunOfStretch(name: Bytes, n: nat)
    requires '/' !in name && n <= |name|
    ensures Run(name, n) == n
  {
    if n > 0 {
      assert name[0] in name;
      RunOfStretch(name[1..], n - 1);
    }
  }

  // The characters of a path that are no slashes, and those of its components.
  ghost function NonSlashes(path: Bytes): nat {
    if path == [] then 0 else (if path[0] == SLASH then 0 else 1) + NonSlashes(path[1..])
  }

  ghost function Letters(cs: seq<Bytes>): nat {
    if cs == [] then 0 else |cs[0]| + Letters(cs[1..])
  }

  lemma {:induction false} NonSlashesJoin(p: Bytes, q: Bytes)
    ensures NonSlashes(p + q) == NonSlashes(p) + NonSlashes(q)
  {
    if p == [] {
      assert p + q == q;
    } else {
      assert (p + q)[1..] == p[1..] + q;
      NonSlashesJoin(p[1..], q);
    }
  }

  lemma {:induction false} NonSlashesOfName(name: Bytes)
    requires SLASH !in name
    ensures NonSlashes(name) == |name|
  {
    if name != [] {
      assert name[0] in name;
      NonSlashesOfName(name[1..]);
    }
  }

  lemma {:induction false} NoneButSlashes(path: Bytes)
    ensures NonSlashes(path) == 0 <==> AllSlashes(path)
  {
    if path != [] {
      NoneButSlashes(path[1..]);
      assert AllSlashes(path) ==> AllSlashes(path[1..]);
      if path[0] == SLASH && AllSlashes(path[1..]) {
        assert forall i :: 0 <= i < |path| ==> path[i] == if i == 0 then SLASH else path[1..][i - 1];
      }
    }
  }

  // Components keep every character that is no slash.
  lemma {:induction false} LettersOfPath(path: Bytes)
    ensures Letters(Components(path)) == NonSlashes(path)
    decreases |path|
  {
    hide Components, Run;
    ComponentsStep(path);
    if path != [] {
      var r := Run(path, COMPONENT_MAX);
      LettersOfPath(AfterRun(path));
      assert path == path[..r] + path[r..];
      NonSlashesJoin(path[..r], path[r..]);
      NonSlashesOfName(path[..r]);
      SlashDropped(path[r..]);
      LettersCons(path[..r], Components(AfterRun(path)));
    }
  }

  lemma SlashDropped(path: Bytes)
    ensures NonSlashes(DropSlash(path)) == NonSlashes(path)
  {
  }

  lemma LettersCons(c: Bytes, cs: seq<Bytes>)
    ensures Letters((if |c| == 0 then [] else [c]) + cs) == |c| + Letters(cs)
  {
    if |c| == 0 {
      assert [] + cs == cs;
    } else {
      assert ([c] + cs)[1..] == cs;
    }
  }

  lemma SlashesAfter(front: Bytes, rest: Bytes)
    requires AllSlashes(rest)
    ensures Components(front + rest) == Components(front)
  {
    hide Components;
    if rest == [] {
      assert front + rest == front;
    } else {
      assert AllSlashes(rest[1..]);
      ComponentsJoin(front, rest[1..]);
      OnlySlashes(rest[1..]);
      assert Components(front) + [] == Components(front);
      assert front + rest == front + [SLASH] + rest[1..];
    }
  }

  // A path cut anywhere has the same components exactly when only slashes were cut off.
  lemma CutKeepsComponents(path: Bytes, k: nat)
    requires k <= |path|
    ensures Components(path[..k]) == Components(path) <==> AllSlashes(path[k..])
  {
    hide Components, NonSlashes, Letters, AllSlashes;
    var front, rest := path[..k], path[k..];
    assert path == front + rest;
    NonSlashesJoin(front, rest);
    LettersOfPath(front);
    LettersOfPath(path);
    NoneButSlashes(rest);
    if AllSlashes(rest) {
      SlashesAfter(front, rest);
    }
  }
}
