/** Every inode is entered under one name at most, so walks from the root are unique (kernel/ext2.c:137-204, 280-335). */
module OneName {
  import opened Bytes
  import opened InodeTable
  import opened DirentBlock
  import opened StoreModel
  import opened Paths
  import opened Sessions
  import opened SessionLaws
  import opened RootLaws
  import DirectoryLaws
  import NodeLaws

  // ------------------------------------------------------------------ entries of the whole tree

  ghost predicate HasEntry(t: Tree, d: nat, i: nat) { IsDir(t, d) && i < |t.nodes[d].body.entries| }

  ghost function EntryAt(t: Tree, d: nat, i: nat): Entry
    requires HasEntry(t, d, i)
  {
    t.nodes[d].body.entries[i]
  }

  // No two entries, of one directory or of two, lead to the same inode.
  ghost predicate NamedOnce(t: Tree) {
    forall d, i, f, j :: HasEntry(t, d, i) && HasEntry(t, f, j) && EntryAt(t, d, i).ino == EntryAt(t, f, j).ino ==> d == f && i == j
  }

  // Every entry of u is one of t.
  ghost predicate EntriesFrom(u: Tree, t: Tree) {
    forall d, i :: HasEntry(u, d, i) ==> exists j :: HasEntry(t, d, j) && EntryAt(t, d, j) == EntryAt(u, d, i)
  }

  lemma EntryNumbers(t: Tree, d: nat, i: nat)
    requires TreeOk(t) && HasEntry(t, d, i)
    ensures ROOT <= d < EntryAt(t, d, i).ino && EntryAt(t, d, i).ino as nat in t.nodes && EntryAt(t, d, i).ino < t.nextInode
  {
    assert NodeOk(t, d, t.nodes[d]) && Allocated(t.nextInode, d);
    var e := EntryAt(t, d, i);
    assert e in t.nodes[d].body.entries;
    assert EntryOk(t, d, e);
    assert Allocated(t.nextInode, e.ino);
  }

  // ------------------------------------------------------------------ every request keeps names unique

  // One more entry, for an inode no entry leads to.
  lemma EntryAppended(t: Tree, u: Tree, dir: nat, e: Entry)
    requires NamedOnce(t) && forall d, i :: HasEntry(t, d, i) ==> EntryAt(t, d, i).ino != e.ino
    requires forall d, i :: HasEntry(u, d, i) ==>
               if HasEntry(t, d, i) then EntryAt(u, d, i) == EntryAt(t, d, i)
               else d == dir && IsDir(t, d) && i == |t.nodes[d].body.entries| && EntryAt(u, d, i) == e
    ensures NamedOnce(u)
  {
    forall d, i, f, j | HasEntry(u, d, i) && HasEntry(u, f, j) && EntryAt(u, d, i).ino == EntryAt(u, f, j).ino
      ensures d == f && i == j
    {
    }
  }

  // A new node is given its one name by the directory it is made in.
  lemma NewEntryNamed(t: Tree, u: Tree, parent: nat, e: Entry)
    requires TreeOk(t) && NamedOnce(t) && IsDir(t, parent) && e.ino == t.nextInode <= MAX_INODE
    requires t.nodes[parent].attr.size <= MAX_FILE
    requires t.nextInode in u.nodes && u.nodes == t.nodes[t.nextInode := u.nodes[t.nextInode]]
    requires u.nodes[t.nextInode].body.Dir? ==> u.nodes[t.nextInode].body.entries == []
    ensures IsDir(u, parent) && u.nodes[parent] == t.nodes[parent] && NamedOnce(AddEntry(u, parent, e))
  {
    hide TreeOk, NamedOnce;
    DirectoryLaws.NotNew(t, parent);
    var v := AddEntry(u, parent, e);
    forall d, i | HasEntry(t, d, i)
      ensures EntryAt(t, d, i).ino != e.ino
    {
      EntryNumbers(t, d, i);
    }
    forall d, i | HasEntry(v, d, i)
      ensures if HasEntry(t, d, i) then EntryAt(v, d, i) == EntryAt(t, d, i)
              else d == parent && IsDir(t, d) && i == |t.nodes[d].body.entries| && EntryAt(v, d, i) == e
    {
      if d in t.nodes {
        DirectoryLaws.NotNew(t, d);
      }
    }
    EntryAppended(t, v, parent, e);
  }

  lemma MkdirNamed(t: Tree, parent: nat, name: Bytes)
    requires Mutable(t, parent) && NamedOnce(t)
    ensures NamedOnce(Mkdir(t, parent, name))
  {
    hide TreeOk, NamedOnce, AddEntry;
    DirectoryLaws.NotNew(t, parent);
    NewEntryNamed(t, WithNewDir(t), parent, Entry(name, t.nextInode, TYPE_DIR));
  }

  lemma CreateNamed(t: Tree, parent: nat, name: Bytes)
    requires Mutable(t, parent) && NamedOnce(t)
    ensures NamedOnce(Create(t, parent, name, FILE_MODE))
  {
    hide TreeOk, NamedOnce, AddEntry;
    DirectoryLaws.NotNew(t, parent);
    NewEntryNamed(t, NewNode(t, FreshFile(FILE_MODE)), parent, Entry(name, t.nextInode, TYPE_FILE));
  }

  // Fewer entries stay unique when none is doubled.
  lemma WriteNamed(t: Tree, n: nat, data: Bytes)
    requires IsFile(t, n) && NamedOnce(t)
    ensures NamedOnce(Write(t, n, data))
  {
    var u := Write(t, n, data);
    forall d, i | HasEntry(u, d, i)
      ensures HasEntry(t, d, i) && EntryAt(u, d, i) == EntryAt(t, d, i)
    {
    }
    forall d, i, f, j | HasEntry(u, d, i) && HasEntry(u, f, j) && EntryAt(u, d, i).ino == EntryAt(u, f, j).ino
      ensures d == f && i == j
    {
    }
  }

  // The entries after an unlink are those before it, but for the one that went and those of its directory.
  lemma UnlinkedEntries(t: Tree, dir: nat, name: Bytes, k: nat, d: nat, i: nat) returns (j: nat)
    requires TreeOk(t) && IsDir(t, dir) && Lookup(t, dir, name) != NO_ENTRY && k < |t.nodes[dir].body.entries|
    requires RemoveFirst(t.nodes[dir].body.entries, name) == t.nodes[dir].body.entries[..k] + t.nodes[dir].body.entries[k + 1..]
    requires HasEntry(Unlink(t, dir, name), d, i)
    ensures j == (if d == dir && i >= k then i + 1 else i) && HasEntry(t, d, j)
    ensures EntryAt(t, d, j) == EntryAt(Unlink(t, dir, name), d, i) && !(d == dir && j == k)
  {
    hide TreeOk;
    LookupOk(t, dir, name);
    j := if d == dir && i >= k then i + 1 else i;
  }

  lemma UnlinkNamed(t: Tree, dir: nat, name: Bytes)
    requires TreeOk(t) && IsDir(t, dir) && NamedOnce(t)
    ensures NamedOnce(Unlink(t, dir, name)) && EntriesFrom(Unlink(t, dir, name), t)
    ensures Lookup(t, dir, name) != NO_ENTRY ==>
              forall d, i :: HasEntry(Unlink(t, dir, name), d, i) ==> EntryAt(Unlink(t, dir, name), d, i).ino != Lookup(t, dir, name)
  {
    hide TreeOk, Unlink, Lookup;
    if Lookup(t, dir, name) == NO_ENTRY {
      NothingGone(t, dir, name);
    } else {
      var u := Unlink(t, dir, name);
      var k := RemovedAt(t, dir, name);
      forall d, i | HasEntry(u, d, i)
        ensures exists j :: HasEntry(t, d, j) && EntryAt(t, d, j) == EntryAt(u, d, i)
        ensures EntryAt(u, d, i).ino != Lookup(t, dir, name)
      {
        var j := UnlinkedEntries(t, dir, name, k, d, i);
        assert HasEntry(t, dir, k);
      }
      forall d, i, f, j | HasEntry(u, d, i) && HasEntry(u, f, j) && EntryAt(u, d, i).ino == EntryAt(u, f, j).ino
        ensures d == f && i == j
      {
        var i' := UnlinkedEntries(t, dir, name, k, d, i);
        var j' := UnlinkedEntries(t, dir, name, k, f, j);
      }
    }
  }

  lemma RemovedAt(t: Tree, dir: nat, name: Bytes) returns (k: nat)
    requires IsDir(t, dir) && Lookup(t, dir, name) != NO_ENTRY
    ensures HasEntry(t, dir, k) && EntryAt(t, dir, k).name == name && EntryAt(t, dir, k).ino == Lookup(t, dir, name)
    ensures RemoveFirst(t.nodes[dir].body.entries, name) == t.nodes[dir].body.entries[..k] + t.nodes[dir].body.entries[k + 1..]
  {
    k := NodeLaws.PlaceOfFirst(t.nodes[dir].body.entries, name);
  }

  lemma NothingGone(t: Tree, dir: nat, name: Bytes)
    requires TreeOk(t) && IsDir(t, dir) && Lookup(t, dir, name) == NO_ENTRY
    ensures Unlink(t, dir, name) == t && EntriesFrom(t, t)
  {
  }

  lemma OpenedNamed(s: Session, p: Bytes)
    requires SessionOk(s) && WriteReady(s, p) && NamedOnce(s.tree)
    ensures NamedOnce(Opened(s, p).tree)
  {
    hide TreeOk, Walkable, Resolve, ParentOf, BaseName, Extends, Create, NamedOnce;
    if Resolve(s.tree, s.dir, p) != NO_ENTRY {
      OpenedExisting(s, p);
    } else if HasParent(s, p) {
      OpenedNew(s, p);
      CreateNamed(s.tree, ParentOf(s.tree, s.dir, p), BaseName(p));
    } else {
      OpenedNowhere(s, p);
    }
  }

  lemma ServeNamed(s: Session, r: Request)
    requires SessionOk(s) && Ready(s, r) && NamedOnce(s.tree)
    ensures NamedOnce(Serve(s, r).tree)
  {
    hide TreeOk, ParentOf, BaseName, Mkdir, Create, Unlink, Write, NamedOnce, Walkable, Resolve;
    match r
    case AskMkdir(p) =>
      if HasParent(s, p) {
        MkdirNamed(s.tree, ParentOf(s.tree, s.dir, p), BaseName(p));
      }
    case AskCreate(p) =>
      if HasParent(s, p) {
        CreateNamed(s.tree, ParentOf(s.tree, s.dir, p), BaseName(p));
      }
    case AskWrite(p, d) =>
      OpenedNamed(s, p);
      var o, n := Opened(s, p).tree, Target(s, p);
      if n != NO_ENTRY && IsFile(o, n) {
        WriteNamed(o, n, d);
      }
    case AskDelete(p) =>
      if HasParent(s, p) {
        UnlinkNamed(s.tree, ParentOf(s.tree, s.dir, p), BaseName(p));
      }
    case AskChdir(p) =>
  }

  // Over any run no inode gets a second name.
  lemma {:induction false} RunNamed(s: Session, rs: seq<Request>)
    requires SessionOk(s) && ReadyRun(s, rs) && NamedOnce(s.tree)
    ensures NamedOnce(ServeRun(s, rs).tree)
    decreases |rs|
  {
    hide SessionOk, Ready, Serve, NamedOnce;
    if rs != [] {
      ServeOk(s, rs[0]);
      ServeNamed(s, rs[0]);
      RunNamed(Serve(s, rs[0]), rs[1..]);
    }
  }

  lemma MountedNamed()
    ensures NamedOnce(MountedSession().tree)
  {
  }

  // ------------------------------------------------------------------ walks from the root

  lemma {:induction false} WalkSnoc(t: Tree, n: nat, cs: seq<Bytes>, c: Bytes)
    ensures var m := Walk(t, n, cs);
            Walk(t, n, cs + [c]) == if m == NO_ENTRY then NO_ENTRY else Lookup(t, m, c)
    ensures var m := Walk(t, n, cs);
            m != NO_ENTRY && Lookup(t, m, c) != NO_ENTRY ==> Visited(t, n, cs + [c]) == Visited(t, n, cs) + {Lookup(t, m, c)}
    decreases |cs|
  {
    if cs == [] {
      assert cs + [c] == [c] && [c][1..] == [];
    } else {
      assert (cs + [c])[1..] == cs[1..] + [c];
      if Lookup(t, n, cs[0]) != NO_ENTRY {
        WalkSnoc(t, Lookup(t, n, cs[0]), cs[1..], c);
      }
    }
  }

  // What a lookup finds is an entry of that name.
  lemma FoundEntry(t: Tree, d: nat, c: Bytes) returns (i: nat)
    requires Lookup(t, d, c) != NO_ENTRY
    ensures HasEntry(t, d, i) && EntryAt(t, d, i).name == c && EntryAt(t, d, i).ino == Lookup(t, d, c)
  {
    i := NodeLaws.PlaceOfFirst(t.nodes[d].body.entries, c);
  }

  // Two last steps to the same inode, one in t and one in a tree whose entries are from t, are the same step.
  lemma SameStep(t: Tree, u: Tree, d: nat, c: Bytes, f: nat, b: Bytes)
    requires NamedOnce(t) && EntriesFrom(u, t)
    requires Lookup(t, d, c) != NO_ENTRY && Lookup(t, d, c) == Lookup(u, f, b)
    ensures d == f && c == b
  {
    hide Lookup, NamedOnce;
    var i := FoundEntry(t, d, c);
    var j := FoundEntry(u, f, b);
    var k :| HasEntry(t, f, k) && EntryAt(t, f, k) == EntryAt(u, f, j);
    OneEntry(t, d, i, f, k);
  }

  lemma OneEntry(t: Tree, d: nat, i: nat, f: nat, j: nat)
    requires NamedOnce(t) && HasEntry(t, d, i) && HasEntry(t, f, j) && EntryAt(t, d, i).ino == EntryAt(t, f, j).ino
    ensures d == f && i == j
  {
  }

  // Walks from the root that end at the same inode take the same names through the same inodes.
  lemma {:induction false} WalksAgree(t: Tree, u: Tree, cs: seq<Bytes>, ds: seq<Bytes>)
    requires TreeOk(t) && TreeOk(u) && NamedOnce(t) && EntriesFrom(u, t)
    requires Walk(t, ROOT, cs) != NO_ENTRY && Walk(t, ROOT, cs) == Walk(u, ROOT, ds)
    ensures cs == ds && Visited(t, ROOT, cs) == Visited(u, ROOT, ds)
    decreases |cs|
  {
    hide TreeOk, NamedOnce, EntriesFrom, Lookup, Walk, Visited;
    if cs == [] {
      NothingWalked(t, ROOT);
      NothingWalked(u, ROOT);
      if ds != [] {
        LastStep(u, ds);
      }
    } else {
      LastStep(t, cs);
      var a, c := cs[..|cs| - 1], cs[|cs| - 1];
      assert cs == a + [c];
      if ds == [] {
        NothingWalked(u, ROOT);
        assert false;
      }
      LastStep(u, ds);
      var b, e := ds[..|ds| - 1], ds[|ds| - 1];
      assert ds == b + [e];
      WalkSnoc(t, ROOT, a, c);
      WalkSnoc(u, ROOT, b, e);
      SameStep(t, u, Walk(t, ROOT, a), c, Walk(u, ROOT, b), e);
      WalksAgree(t, u, a, b);
    }
  }

  lemma NothingWalked(t: Tree, n: nat)
    ensures Walk(t, n, []) == n && Visited(t, n, []) == {}
  {
  }

  // A walk of some names that arrives comes from a directory and ends above the root.
  lemma LastStep(t: Tree, cs: seq<Bytes>)
    requires TreeOk(t) && cs != [] && Walk(t, ROOT, cs) != NO_ENTRY
    ensures var m := Walk(t, ROOT, cs[..|cs| - 1]);
            m >= ROOT && Walk(t, ROOT, cs) == Lookup(t, m, cs[|cs| - 1]) && Walk(t, ROOT, cs) > ROOT
  {
    hide TreeOk, Lookup, Walk, Visited;
    var a, c := cs[..|cs| - 1], cs[|cs| - 1];
    assert cs == a + [c];
    WalkSnoc(t, ROOT, a, c);
    StepUp(t, Walk(t, ROOT, a), c);
  }

  lemma StepUp(t: Tree, d: nat, c: Bytes)
    requires TreeOk(t) && Lookup(t, d, c) != NO_ENTRY
    ensures ROOT <= d < Lookup(t, d, c)
  {
    hide TreeOk;
    LookupOk(t, d, c);
    ParentAtLeastRoot(t, d);
  }

  // So a path from the root is the only one to its inode.
  lemma UniqueWalk(t: Tree, cs: seq<Bytes>, ds: seq<Bytes>)
    requires TreeOk(t) && NamedOnce(t) && Walk(t, ROOT, cs) != NO_ENTRY
    ensures Walk(t, ROOT, cs) == Walk(t, ROOT, ds) <==> cs == ds
  {
    hide TreeOk, NamedOnce;
    if Walk(t, ROOT, cs) == Walk(t, ROOT, ds) {
      WalksAgree(t, t, cs, ds);
    }
  }

  // What a walk visits has an entry.
  lemma {:induction false} VisitedNamed(t: Tree, n: nat, cs: seq<Bytes>, x: int)
    requires x in Visited(t, n, cs)
    ensures exists d, i :: HasEntry(t, d, i) && EntryAt(t, d, i).ino == x
    decreases |cs|
  {
    var m := Lookup(t, n, cs[0]);
    if x == m {
      var i := FoundEntry(t, n, cs[0]);
    } else {
      VisitedNamed(t, m, cs[1..], x);
    }
  }
}
