/** What a path means: its components and the walk they describe (kernel/fs.c:9-41). */
module Paths {
  import opened Bytes
  import opened InodeTable
  import opened DirentBlock
  import opened StoreModel
  import opened CString

  const SLASH: Byte := '/'
  const COMPONENT_MAX := 63
  const PATH_MAX := 127

  // Number of leading characters the component buffer takes: up to a slash, and never more than n.
  function Run(path: Bytes, n: nat): (r: nat)
    ensures r <= |path| && r <= n && SLASH !in path[..r]
    ensures r < n && r < |path| ==> path[r] == SLASH
  {
    if n == 0 || path == [] || path[0] == SLASH then 0 else 1 + Run(path[1..], n - 1)
  }

  function DropSlash(path: Bytes): Bytes {
    if path != [] && path[0] == SLASH then path[1..] else path
  }

  function AfterRun(path: Bytes): (rest: Bytes)
    ensures path != [] ==> |rest| < |path|
  {
    DropSlash(path[Run(path, COMPONENT_MAX)..])
  }

  // The components fs_resolve_inode looks up; one longer than 63 characters is cut into several.
  function Components(path: Bytes): seq<Bytes>
    decreases |path|
  {
    if path == [] then []
    else
      var r := Run(path, COMPONENT_MAX);
      (if r == 0 then [] else [path[..r]]) + Components(AfterRun(path))
  }

  ghost function Walk(t: Tree, n: nat, cs: seq<Bytes>): (r: int)
    ensures r >= NO_ENTRY
    decreases |cs|
  {
    if cs == [] then n
    else
      var m := Lookup(t, n, cs[0]);
      if m == NO_ENTRY then NO_ENTRY else Walk(t, m, cs[1..])
  }

  // Every name on the way is looked up in a directory.
  ghost predicate DirWalk(t: Tree, n: nat, cs: seq<Bytes>)
    decreases |cs|
  {
    cs == [] || (IsDir(t, n) && (Lookup(t, n, cs[0]) == NO_ENTRY || DirWalk(t, Lookup(t, n, cs[0]), cs[1..])))
  }

  ghost function Start(cwd: nat, path: Bytes): nat {
    if path != [] && path[0] == SLASH then ROOT else cwd
  }

  ghost function Resolve(t: Tree, cwd: nat, path: Bytes): (r: int)
    ensures r >= NO_ENTRY
  {
    if path == [] then NO_ENTRY else Walk(t, Start(cwd, path), Components(path))
  }

  ghost predicate Walkable(t: Tree, cwd: nat, path: Bytes) {
    DirWalk(t, Start(cwd, path), Components(path))
  }

  // ------------------------------------------------------------------ components of joined paths

  lemma {:induction false} RunStops(p: Bytes, q: Bytes, n: nat)
    ensures Run(p + [SLASH] + q, n) == Run(p, n)
  {
    if n != 0 && p != [] && p[0] != SLASH {
      assert (p + [SLASH] + q)[1..] == p[1..] + [SLASH] + q;
      RunStops(p[1..], q, n - 1);
    }
  }

  lemma CutJoin(p: Bytes, q: Bytes, r: nat)
    requires r <= |p|
    ensures (p + [SLASH] + q)[..r] == p[..r] && (p + [SLASH] + q)[r..] == p[r..] + [SLASH] + q
  {
  }

  lemma DropSlashJoin(p: Bytes, q: Bytes)
    ensures DropSlash(p + [SLASH] + q) == if p == [] then q else DropSlash(p) + [SLASH] + q
  {
    if p == [] {
      assert p + [SLASH] + q == [SLASH] + q;
    } else {
      CutJoin(p, q, 1);
    }
  }

  lemma ComponentsStep(path: Bytes)
    ensures path != [] ==>
              var r := Run(path, COMPONENT_MAX);
              Components(path) == (if r == 0 then [] else [path[..r]]) + Components(AfterRun(path))
    ensures path == [] ==> Components(path) == []
  {
  }

  // Splitting at a slash splits the components.
  lemma {:induction false} ComponentsJoin(p: Bytes, q: Bytes)
    ensures Components(p + [SLASH] + q) == Components(p) + Components(q)
    decreases |p|
  {
    hide Run, Components, DropSlash;
    var whole, r := p + [SLASH] + q, Run(p, COMPONENT_MAX);
    RunStops(p, q, COMPONENT_MAX);
    CutJoin(p, q, r);
    DropSlashJoin(p[r..], q);
    ComponentsStep(whole);
    ComponentsStep(p);
    if p == [] || p[r..] == [] {
      assert AfterRun(whole) == q;
      ComponentsStep([]);
      NothingDropped();
    } else {
      ComponentsJoin(AfterRun(p), q);
    }
  }

  lemma {:induction false} RunWhole(name: Bytes, n: nat)
    requires SLASH !in name && |name| <= n
    ensures Run(name, n) == |name|
  {
    if name != [] {
      assert name[0] in name;
      RunWhole(name[1..], n - 1);
    }
  }

  lemma ComponentsOfName(name: Bytes)
    requires SLASH !in name && |name| <= COMPONENT_MAX
    ensures Components(name) == if name == [] then [] else [name]
  {
    RunWhole(name, COMPONENT_MAX);
    if name != [] {
      assert AfterRun(name) == [] && Components(AfterRun(name)) == [];
      assert name[..|name|] == name;
    }
  }

  lemma NothingDropped()
    ensures DropSlash([]) == []
  {
  }

  // Slashes in front, and doubled slashes anywhere, change nothing.
  lemma SlashesIgnored(p: Bytes, q: Bytes)
    ensures Components([SLASH] + q) == Components(q)
    ensures Components(p + [SLASH, SLASH] + q) == Components(p + [SLASH] + q)
  {
    hide Components;
    assert [SLASH] + q == [] + [SLASH] + q;
    ComponentsStep([]);
    ComponentsJoin([], q);
    ComponentsJoin(p, [SLASH] + q);
    ComponentsJoin(p, q);
    assert p + [SLASH, SLASH] + q == p + [SLASH] + ([SLASH] + q);
  }

  // ------------------------------------------------------------------ walks

  lemma {:induction false} WalkJoin(t: Tree, n: nat, cs: seq<Bytes>, ds: seq<Bytes>)
    ensures Walk(t, n, cs + ds) == if Walk(t, n, cs) == NO_ENTRY then NO_ENTRY else Walk(t, Walk(t, n, cs), ds)
    ensures DirWalk(t, n, cs + ds) <==>
            DirWalk(t, n, cs) && (Walk(t, n, cs) == NO_ENTRY || DirWalk(t, Walk(t, n, cs), ds))
    decreases |cs|
  {
    if cs == [] {
      assert cs + ds == ds;
    } else {
      assert (cs + ds)[1..] == cs[1..] + ds;
      if Lookup(t, n, cs[0]) != NO_ENTRY {
        WalkJoin(t, Lookup(t, n, cs[0]), cs[1..], ds);
      }
    }
  }

  lemma WalkOne(t: Tree, n: nat, name: Bytes)
    ensures Walk(t, n, [name]) == Lookup(t, n, name)
    ensures DirWalk(t, n, [name]) <==> IsDir(t, n)
  {
    assert [name][1..] == [];
  }

  // Resolving p/q is resolving q from where p leads.
  lemma ResolveJoin(t: Tree, cwd: nat, p: Bytes, q: Bytes)
    requires p != []
    ensures var m := Resolve(t, cwd, p);
            && Resolve(t, cwd, p + [SLASH] + q) == (if m == NO_ENTRY then NO_ENTRY else Walk(t, m, Components(q)))
            && (m != NO_ENTRY && q != [] && q[0] != SLASH ==> Resolve(t, cwd, p + [SLASH] + q) == Resolve(t, m, q))
    ensures Walkable(t, cwd, p + [SLASH] + q) <==>
            Walkable(t, cwd, p) &&
            (Resolve(t, cwd, p) == NO_ENTRY || DirWalk(t, Resolve(t, cwd, p), Components(q)))
  {
    ComponentsJoin(p, q);
    WalkJoin(t, Start(cwd, p), Components(p), Components(q));
    assert Start(cwd, p + [SLASH] + q) == Start(cwd, p);
  }

  // ------------------------------------------------------------------ parent and basename

  // What fs_get_parent finds: the parent's inode, and the last component of the path cut to 127 characters.
  ghost function Cut(path: Bytes): Bytes { Upto(path, PATH_MAX) }

  ghost function ParentPath(path: Bytes): Bytes {
    var last := LastIndex(Cut(path), SLASH);
    if last < 0 then [] else if last == 0 then [SLASH] else Cut(path)[..last]
  }

  ghost function BaseName(path: Bytes): (base: Bytes)
    ensures SLASH !in base
  {
    Cut(path)[LastIndex(Cut(path), SLASH) + 1..]
  }

  ghost function ParentOf(t: Tree, cwd: nat, path: Bytes): (r: int)
    ensures r >= NO_ENTRY
  {
    if path == [] then NO_ENTRY
    else if ParentPath(path) == [] then cwd
    else Resolve(t, cwd, ParentPath(path))
  }

  lemma RootResolves(t: Tree, cwd: nat)
    ensures Resolve(t, cwd, [SLASH]) == ROOT && Walkable(t, cwd, [SLASH])
  {
    assert Components([SLASH]) == [] + Components([]);
  }

  // Looking the basename up in the parent is resolving the whole path.
  lemma ParentAgrees(t: Tree, cwd: nat, path: Bytes)
    requires path != [] && |path| <= PATH_MAX && |BaseName(path)| <= COMPONENT_MAX
    ensures var parent, base := ParentOf(t, cwd, path), BaseName(path);
            && Resolve(t, cwd, path) ==
               (if parent == NO_ENTRY then NO_ENTRY else if base == [] then parent else Lookup(t, parent, base))
            && (Walkable(t, cwd, path) <==>
                (ParentPath(path) == [] || Walkable(t, cwd, ParentPath(path))) &&
                (parent == NO_ENTRY || base == [] || IsDir(t, parent)))
  {
    hide Components, Run, Resolve, Walkable, LastIndex, DirWalk;
    var last := LastIndex(path, SLASH);
    var base := path[last + 1..];
    assert Cut(path) == path && BaseName(path) == base;
    if last < 0 {
      assert base == path;
      NameResolves(t, cwd, base);
    } else if last == 0 {
      assert path == [SLASH] + base;
      RootResolves(t, cwd);
      RootNameResolves(t, cwd, base);
    } else {
      assert path == path[..last] + [SLASH] + base;
      BelowAgrees(t, cwd, path[..last], base);
    }
  }

  lemma BelowAgrees(t: Tree, cwd: nat, up: Bytes, base: Bytes)
    requires up != [] && SLASH !in base && |base| <= COMPONENT_MAX
    ensures var path, parent := up + [SLASH] + base, Resolve(t, cwd, up);
            && Resolve(t, cwd, path) ==
               (if parent == NO_ENTRY then NO_ENTRY else if base == [] then parent else Lookup(t, parent, base))
            && (Walkable(t, cwd, path) <==> Walkable(t, cwd, up) && (parent == NO_ENTRY || base == [] || IsDir(t, parent)))
  {
    hide Components, Run;
    ComponentsOfName(base);
    ResolveJoin(t, cwd, up, base);
    if Resolve(t, cwd, up) != NO_ENTRY {
      WalkOne(t, Resolve(t, cwd, up), base);
    }
  }

  lemma NameResolves(t: Tree, cwd: nat, name: Bytes)
    requires name != [] && SLASH !in name && |name| <= COMPONENT_MAX
    ensures Resolve(t, cwd, name) == Lookup(t, cwd, name)
    ensures Walkable(t, cwd, name) <==> IsDir(t, cwd)
  {
    hide Components, Run;
    assert name[0] in name;
    ComponentsOfName(name);
    WalkOne(t, cwd, name);
  }

  lemma RootNameResolves(t: Tree, cwd: nat, name: Bytes)
    requires SLASH !in name && |name| <= COMPONENT_MAX
    ensures Resolve(t, cwd, [SLASH] + name) == if name == [] then ROOT else Lookup(t, ROOT, name)
    ensures Walkable(t, cwd, [SLASH] + name) <==> name == [] || IsDir(t, ROOT)
  {
    hide Components, Run;
    SlashesIgnored([], name);
    ComponentsOfName(name);
    WalkOne(t, ROOT, name);
  }

  // ------------------------------------------------------------------ what later operations keep

  // Every directory of t is one of u, with its entries still in front.
  ghost predicate Extends(t: Tree, u: Tree) {
    forall n :: IsDir(t, n) ==> IsDir(u, n) && t.nodes[n].body.entries <= u.nodes[n].body.entries
  }

  lemma LookupStable(t: Tree, u: Tree, n: nat, name: Bytes)
    requires Extends(t, u) && Lookup(t, n, name) != NO_ENTRY
    ensures Lookup(u, n, name) == Lookup(t, n, name)
  {
    var es, fs := t.nodes[n].body.entries, u.nodes[n].body.entries;
    assert fs == es + fs[|es|..];
    FirstMatchStable(es, fs[|es|..], name);
  }

  lemma {:induction false} WalkStable(t: Tree, u: Tree, n: nat, cs: seq<Bytes>)
    requires Extends(t, u) && DirWalk(t, n, cs) && Walk(t, n, cs) != NO_ENTRY
    ensures DirWalk(u, n, cs) && Walk(u, n, cs) == Walk(t, n, cs)
    decreases |cs|
  {
    if cs != [] {
      LookupStable(t, u, n, cs[0]);
      WalkStable(t, u, Lookup(t, n, cs[0]), cs[1..]);
    }
  }

  lemma ExtendsTrans(t: Tree, u: Tree, v: Tree)
    requires Extends(t, u) && Extends(u, v)
    ensures Extends(t, v)
  {
    forall n | IsDir(t, n)
      ensures IsDir(v, n) && t.nodes[n].body.entries <= v.nodes[n].body.entries
    {
      assert IsDir(u, n);
    }
  }

  lemma {:induction false} WalkInTree(t: Tree, n: nat, cs: seq<Bytes>)
    requires TreeOk(t) && n in t.nodes && DirWalk(t, n, cs) && Walk(t, n, cs) != NO_ENTRY
    ensures Walk(t, n, cs) in t.nodes && n <= Walk(t, n, cs) && (cs != [] ==> n < Walk(t, n, cs))
    decreases |cs|
  {
    if cs != [] {
      LookupOk(t, n, cs[0]);
      WalkInTree(t, Lookup(t, n, cs[0]), cs[1..]);
    }
  }
}
