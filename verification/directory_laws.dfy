/** A directory as an ordered first-match list: what adding and unlinking do to every lookup (kernel/ext2.c:137-175, 255-335). */
module DirectoryLaws {
  import opened Bytes
  import opened InodeTable
  import opened DirentBlock
  import opened StoreModel

  // A successful addition of a fresh name makes that name findable and changes no other lookup anywhere.
  lemma AddFinds(t: Tree, dir: nat, e: Entry, n: nat, name: Bytes)
    requires TreeOk(t) && HasRoom(t, dir) && Lookup(t, dir, e.name) == NO_ENTRY && t.nodes[dir].attr.size <= MAX_FILE
    ensures var u := AddEntry(t, dir, e);
            Lookup(u, n, name) == if n == dir && name == e.name then e.ino else Lookup(t, n, name)
  {
    if n == dir {
      var es := t.nodes[dir].body.entries;
      FirstMatchStable(es, [e], name);
      assert [e][1..] == [];
      if name == e.name {
        FirstMatchFound(es, name);
      }
    }
  }

  // Adding a name that is there already hides the new entry: the first match stays.
  lemma AddShadowed(t: Tree, dir: nat, e: Entry, n: nat, name: Bytes)
    requires TreeOk(t) && HasRoom(t, dir) && Lookup(t, dir, e.name) != NO_ENTRY && t.nodes[dir].attr.size <= MAX_FILE
    ensures Lookup(AddEntry(t, dir, e), n, name) == Lookup(t, n, name)
  {
    if n == dir {
      FirstMatchStable(t.nodes[dir].body.entries, [e], name);
      assert [e][1..] == [];
    }
  }

  // A full directory takes nothing.
  lemma AddToFull(t: Tree, dir: nat, e: Entry)
    requires TreeOk(t) && IsDir(t, dir) && t.nodes[dir].attr.size <= MAX_FILE
    ensures AddEntry(t, dir, e) == t <==> !HasRoom(t, dir)
  {
    if HasRoom(t, dir) {
      var u := AddEntry(t, dir, e);
      assert u.nodes[dir].body.full == t.nodes[dir].body.full + 1;
    }
  }

  lemma {:induction false} RemoveLast(es: seq<Entry>, e: Entry)
    requires NoMatch(es, e.name)
    ensures RemoveFirst(es + [e], e.name) == es
  {
    FirstMatchSkips(es, [e], e.name);
    assert [e][1..] == [] && es + [] == es;
  }

  // Unlinking a name just added to a directory gives its entries back, but not the slot it took.
  lemma UnlinkUndoesAdd(t: Tree, dir: nat, e: Entry)
    requires TreeOk(t) && HasRoom(t, dir) && Lookup(t, dir, e.name) == NO_ENTRY && EntryOk(t, dir, e)
    requires t.nodes[dir].attr.size <= MAX_FILE && t.nextBlock < DISK_BLOCKS
    ensures var u := AddEntry(t, dir, e);
            && TreeOk(u) && IsDir(Unlink(u, dir, e.name), dir)
            && Unlink(u, dir, e.name).nodes[dir].body.entries == t.nodes[dir].body.entries
            && Unlink(u, dir, e.name).nodes[dir].body.full == t.nodes[dir].body.full + 1
  {
    hide TreeOk;
    var u := AddEntry(t, dir, e);
    AddEntryOk(t, dir, e);
    AddFinds(t, dir, e, dir, e.name);
    FirstMatchFound(t.nodes[dir].body.entries, e.name);
    RemoveLast(t.nodes[dir].body.entries, e);
  }

  // ------------------------------------------------------------------ new nodes and their names

  // An entry for the inode just made is found exactly when there was room for it and no older entry of that name.
  lemma NewEntryNames(t: Tree, u: Tree, parent: nat, e: Entry)
    requires TreeOk(t) && IsDir(t, parent) && e.ino == t.nextInode <= MAX_INODE && t.nodes[parent].attr.size <= MAX_FILE
    requires t.nextInode in u.nodes && u.nodes == t.nodes[t.nextInode := u.nodes[t.nextInode]]
    ensures IsDir(u, parent) && u.nodes[parent] == t.nodes[parent]
    ensures Lookup(AddEntry(u, parent, e), parent, e.name) == t.nextInode
      <==> HasRoom(t, parent) && Lookup(t, parent, e.name) == NO_ENTRY
    ensures t.nextInode in AddEntry(u, parent, e).nodes && AddEntry(u, parent, e).nodes[t.nextInode] == u.nodes[t.nextInode]
  {
    hide TreeOk;
    NotNew(t, parent);
    var es := t.nodes[parent].body.entries;
    FirstMatchStable(es, [e], e.name);
    assert [e][1..] == [];
    if Lookup(t, parent, e.name) != NO_ENTRY {
      LookupOk(t, parent, e.name);
      NotNew(t, Lookup(t, parent, e.name));
    }
  }

  lemma NotNew(t: Tree, n: nat)
    requires TreeOk(t) && n in t.nodes
    ensures n != t.nextInode && (IsDir(t, n) ==> t.nodes[n].attr.size <= MAX_FILE)
  {
    assert Allocated(t.nextInode, n) && NodeOk(t, n, t.nodes[n]);
  }

  // ext2_mkdir makes a directory in every case; its name leads there exactly when it got its entry first.
  lemma MkdirNames(t: Tree, parent: nat, name: Bytes)
    requires Mutable(t, parent)
    ensures var u := Mkdir(t, parent, name);
            && IsDir(u, t.nextInode)
            && (Lookup(u, parent, name) == t.nextInode <==> HasRoom(t, parent) && Lookup(t, parent, name) == NO_ENTRY)
  {
    hide TreeOk, AddEntry, Lookup;
    NotNew(t, parent);
    NewEntryNames(t, WithNewDir(t), parent, Entry(name, t.nextInode, TYPE_DIR));
  }

  // So does ext2_create_file with a file.
  lemma CreateNames(t: Tree, parent: nat, name: Bytes, mode: U16)
    requires Mutable(t, parent)
    ensures var u := Create(t, parent, name, mode);
            && IsFile(u, t.nextInode)
            && (Lookup(u, parent, name) == t.nextInode <==> HasRoom(t, parent) && Lookup(t, parent, name) == NO_ENTRY)
  {
    hide TreeOk, AddEntry, Lookup;
    NotNew(t, parent);
    NewEntryNames(t, NewNode(t, FreshFile(mode)), parent, Entry(name, t.nextInode, TYPE_FILE));
  }

  // A new directory changes no lookup but that of its own name in its parent.
  lemma MkdirElsewhere(t: Tree, parent: nat, name: Bytes, n: nat, other: Bytes)
    requires Mutable(t, parent) && n in t.nodes && !(n == parent && other == name)
    ensures Lookup(Mkdir(t, parent, name), n, other) == Lookup(t, n, other)
  {
    hide TreeOk;
    NotNew(t, parent);
    NotNew(t, n);
    var e := Entry(name, t.nextInode, TYPE_DIR);
    if n == parent {
      FirstMatchStable(t.nodes[n].body.entries, [e], other);
      assert [e][1..] == [];
    }
  }
}
