/** What fs_create_home does to the tree (kernel/fs.c:287-297). */
module HomeLaws {
  import opened Bytes
  import opened InodeTable
  import opened DirentBlock
  import opened StoreModel
  import opened CString
  import opened Paths
  import opened Sessions
  import opened SessionLaws
  import DirectoryLaws
  import NodeLaws

  lemma HomeIsAName()
    ensures ValidName(HOME_NAME) && NulFree(HOME_NAME) && |HOME_NAME| == 4
  {
  }

  lemma HomeWalk(s: Session)
    requires SessionOk(s)
    ensures Walkable(s.tree, s.dir, HOME_NAME)
  {
    hide Resolve;
    HomeIsAName();
    NameResolves(s.tree, s.dir, HOME_NAME);
  }

  lemma WithHomeOk(s: Session)
    requires SessionOk(s) && (HomeMissing(s) ==> Mutable(s.tree, ROOT))
    ensures SessionOk(WithHome(s)) && Extends(s.tree, WithHome(s).tree) && IsDir(WithHome(s).tree, ROOT)
    ensures WithHome(s).cwd == s.cwd && WithHome(s).dir == s.dir
  {
    hide TreeOk;
    RootIsDir(s.tree);
    HomeIsAName();
    if HomeMissing(s) {
      MkdirKeeps(s.tree, ROOT, HOME_NAME);
    }
    ExtendedDir(s.tree, WithHome(s).tree, ROOT);
    ExtendedDir(s.tree, WithHome(s).tree, s.dir);
  }

  // Making a home keeps the session well-formed and every path that led somewhere leading there.
  lemma HomeServed(s: Session, name: Bytes)
    requires SessionOk(s) && HomeReady(s, name)
    ensures SessionOk(HomePath(s, name)) && Extends(s.tree, HomePath(s, name).tree)
    ensures HomePath(s, name).cwd == s.cwd && HomePath(s, name).dir == s.dir
  {
    hide TreeOk, Extends;
    NothingExtends(s.tree);
    if name != ROOT_NAME {
      WithHomeOk(s);
      var u := WithHome(s);
      var h := Lookup(u.tree, ROOT, HOME_NAME);
      if h != NO_ENTRY {
        MkdirKeeps(u.tree, h, name);
        ExtendsTrans(s.tree, u.tree, HomePath(s, name).tree);
        ExtendedDir(u.tree, HomePath(s, name).tree, s.dir);
      }
    }
  }

  // No directory has number 0.
  lemma HomeNumber(s: Session, name: Bytes)
    requires SessionOk(s) && HomeReady(s, name) && name != ROOT_NAME && !HomeFails(s, name)
    ensures Lookup(WithHome(s).tree, ROOT, HOME_NAME) >= ROOT
  {
    var t := WithHome(s).tree;
    assert Allocated(t.nextInode, Lookup(t, ROOT, HOME_NAME));
  }

  lemma NothingExtends(t: Tree)
    ensures Extends(t, t)
  {
  }

  // A home is found under the root exactly when "home" has room for it and no such entry yet.
  lemma HomeFound(s: Session, name: Bytes)
    requires SessionOk(s) && HomeReady(s, name) && name != ROOT_NAME && !HomeFails(s, name)
    ensures var u, h := WithHome(s).tree, Lookup(WithHome(s).tree, ROOT, HOME_NAME);
            && IsDir(HomePath(s, name).tree, u.nextInode)
            && (Lookup(HomePath(s, name).tree, h, name) == u.nextInode <==> HasRoom(u, h) && Lookup(u, h, name) == NO_ENTRY)
  {
    hide TreeOk;
    var u := WithHome(s).tree;
    DirectoryLaws.MkdirNames(u, Lookup(u, ROOT, HOME_NAME), name);
  }

  // The root gives up one of its twelve slots exactly when the working directory, not the root, has no "home".
  lemma HomeSlot(s: Session)
    requires SessionOk(s) && Mutable(s.tree, ROOT)
    ensures IsDir(s.tree, ROOT) && IsDir(WithHome(s).tree, ROOT)
    ensures Used(WithHome(s).tree, ROOT) == Used(s.tree, ROOT) + 1
      <==> Lookup(s.tree, s.dir, HOME_NAME) == NO_ENTRY && HasRoom(s.tree, ROOT)
  {
    hide TreeOk;
    HomeIsAName();
    NameResolves(s.tree, s.dir, HOME_NAME);
    if HomeMissing(s) {
      MkdirUsed(s.tree, ROOT, HOME_NAME, ROOT);
    }
  }

  // The fallback of user_add: without "home" in the root, making the home by its path does nothing either.
  lemma FallbackIdle(s: Session, name: Bytes)
    requires SessionOk(s) && Lookup(s.tree, ROOT, HOME_NAME) == NO_ENTRY && SLASH !in name && NulFree(name) && |name| <= 57
    ensures var path := [SLASH] + HOME_NAME + [SLASH] + name;
            NewReady(s, path, 0) && MkdirPath(s, path) == s
  {
    hide Resolve, Walkable, LastIndex;
    var path := [SLASH] + HOME_NAME + [SLASH] + name;
    LastSlash([SLASH] + HOME_NAME, name);
    assert Cut(path) == path;
    assert path[5 + 1..] == name && path[..5] == [SLASH] + HOME_NAME;
    HomeIsAName();
    RootNameResolves(s.tree, s.dir, HOME_NAME);
    RootIsDir(s.tree);
  }

  // That path is cut to 63 characters; when no home was made, making a directory there changes nothing.
  lemma FallbackAfter(s: Session, name: Bytes)
    requires SessionOk(s) && HomeReady(s, name)
    ensures HomeFails(s, name) ==>
              var u, path := HomePath(s, name), Upto(HOME + name, FALLBACK_SIZE - 1);
              SessionOk(u) && NewReady(u, path, 0) && MkdirPath(u, path) == u
  {
    hide TreeOk, NewReady, MkdirPath;
    HomeServed(s, name);
    if HomeFails(s, name) {
      WithHomeOk(s);
      var short := Upto(name, 57);
      assert Upto(HOME + name, FALLBACK_SIZE - 1) == [SLASH] + HOME_NAME + [SLASH] + short;
      FallbackIdle(WithHome(s), short);
    }
  }

  lemma {:induction false} LastSlash(front: Bytes, name: Bytes)
    requires SLASH !in name
    ensures LastIndex(front + [SLASH] + name, SLASH) == |front|
    decreases |name|
  {
    var text := front + [SLASH] + name;
    if name == [] {
      assert text[|text| - 1] == SLASH;
    } else {
      assert text[..|text| - 1] == front + [SLASH] + name[..|name| - 1];
      assert text[|text| - 1] == name[|name| - 1];
      LastSlash(front, name[..|name| - 1]);
    }
  }

  // What fs_create_home does, step by step: nothing for root; else "home" is made in the root, inode 2, when the working
  // directory has none, and the home in the "home" of the root, if that was found.
  ghost predicate Homed(s: Session, u: Session, name: Bytes, rc: int) {
    if name == ['r', 'o', 'o', 't'] then rc == 0 && u == s
    else
      && u.cwd == s.cwd && u.dir == s.dir
      && exists mid: Tree :: HomeThere(s, mid) && HomeIn(mid, u.tree, name, rc)
  }

  ghost predicate HomeThere(s: Session, mid: Tree) {
    if Resolve(s.tree, s.dir, ['h', 'o', 'm', 'e']) < 0
    then NodeLaws.NodeMade(s.tree, mid, 2, ['h', 'o', 'm', 'e'], NodeLaws.NewDirectory(), 2, 1) else mid == s.tree
  }

  ghost predicate HomeIn(mid: Tree, t: Tree, name: Bytes, rc: int) {
    var h := Lookup(mid, 2, ['h', 'o', 'm', 'e']);
    if h < 0 then rc == -1 && t == mid
    else rc == mid.nextInode && NodeLaws.NodeMade(mid, t, h, name, NodeLaws.NewDirectory(), 2, 1)
  }

  lemma HomeDone(s: Session, name: Bytes)
    requires SessionOk(s) && HomeReady(s, name)
    ensures Homed(s, HomePath(s, name), name,
                  if name == ROOT_NAME then 0 else if HomeFails(s, name) then -1 else WithHome(s).tree.nextInode)
  {
    hide TreeOk, Resolve, Lookup, Mkdir, NodeLaws.NodeMade;
    if name != ROOT_NAME {
      var mid := WithHome(s).tree;
      HomeIsAName();
      if HomeMissing(s) {
        NodeLaws.MkdirMakes(s.tree, ROOT, HOME_NAME);
      }
      var h := Lookup(mid, ROOT, HOME_NAME);
      if h != NO_ENTRY {
        NodeLaws.MkdirMakes(mid, h, name);
      }
      assert HomeThere(s, mid);
      assert HomeIn(mid, HomePath(s, name).tree, name, if HomeFails(s, name) then -1 else mid.nextInode);
    }
  }
}
