/** Where ".." goes, and how it undoes a step down (kernel/fs.c:219-258). */
module UpLaws {
  import opened Bytes
  import opened InodeTable
  import opened DirentBlock
  import opened StoreModel
  import opened CString
  import opened Paths
  import opened Sessions
  import opened SessionLaws
  import PathCuts
  import NodeLaws

  // k is the place of the last slash.
  ghost predicate LastSlashAt(text: Bytes, k: nat) { k < |text| && text[k] == '/' && '/' !in text[k + 1..] }

  // One step up: the text loses its last slash and what follows it, "/" being left of a text with one slash in front;
  // the components lose those behind that slash, and the inode is where the others lead from the root.
  ghost predicate GoneUp(s: Session, u: Session) {
    exists k: nat :: LastSlashAt(s.cwd, k) && u.tree == s.tree && u.cwd == (if k == 0 then ['/'] else s.cwd[..k])
                && Components(s.cwd) == Components(u.cwd) + Components(s.cwd[k + 1..])
                && u.dir == Walk(s.tree, 2, Components(u.cwd))
  }

  // What fs_chdir does: on failure nothing; "/" is the root, ".." a step up, any other argument where it resolves to.
  // The text is then the argument, cut to 127 characters, behind a slash if it has none and the session was at "/";
  // elsewhere it is joined to the old text if both and a slash make less than 127 characters, and else the old one.
  ghost predicate Went(s: Session, u: Session, dir: Bytes, rc: int) {
    && u.tree == s.tree && (rc == 0 || rc == -1) && (rc == -1 ==> u == s)
    && (dir == ['/'] ==> rc == 0 && u.cwd == ['/'] && u.dir == 2)
    && (dir == ['.', '.'] ==> rc == 0 && (SessionOk(s) && Coherent(s) ==> GoneUp(s, u)))
    && (Plain(dir) ==> (rc == 0 <==> LeadsToDirBit(s, dir)))
    && (Plain(dir) && rc == 0 ==> u.dir == Resolve(s.tree, s.dir, dir) && TextAfter(s.cwd, dir, u.cwd))
    && (dir == [] ==> rc == -1)
  }

  ghost predicate LeadsToDirBit(s: Session, dir: Bytes) {
    var n := Resolve(s.tree, s.dir, dir);
    n >= 0 && n in s.tree.nodes && s.tree.nodes[n].attr.mode / 0x4000 % 2 == 1
  }

  ghost predicate TextAfter(cwd: Bytes, dir: Bytes, text: Bytes)
    requires dir != []
  {
    if dir[0] == '/' || cwd == ['/'] then
      var whole := if dir[0] == '/' then dir else ['/'] + dir;
      text == if |whole| <= 127 then whole else whole[..127]
    else text == if |cwd| + 1 + |dir| < 127 then cwd + ['/'] + dir else cwd
  }

  lemma ChdirDone(s: Session, dir: Bytes)
    requires SessionOk(s) && ChdirReady(s, dir)
    ensures Went(s, Chdir(s, dir), dir, if ChdirSucceeds(s, dir) then 0 else -1)
  {
    hide GoneUp, SessionOk, Coherent, Resolve, Walkable, Lookup;
    if dir == DOTDOT {
      if SessionOk(s) && Coherent(s) {
        UpGoes(s);
      }
    } else if Plain(dir) {
      ChdirTargetIs(s, dir);
    }
  }

  lemma SlashPlace(text: Bytes)
    requires text != [] && text[0] == SLASH
    ensures LastIndex(text, SLASH) >= 0 && LastSlashAt(text, LastIndex(text, SLASH))
    ensures forall k: nat :: LastSlashAt(text, k) ==> k == LastIndex(text, SLASH)
  {
    var last := LastIndex(text, SLASH);
    assert LastSlashAt(text, last);
  }

  lemma SplitAtSlash(text: Bytes, k: nat)
    requires LastSlashAt(text, k)
    ensures Components(text) == Components(if k == 0 then ['/'] else text[..k]) + Components(text[k + 1..])
  {
    hide Components;
    assert text == text[..k] + [SLASH] + text[k + 1..];
    ComponentsJoin(text[..k], text[k + 1..]);
    if k == 0 {
      ComponentsStep([]);
      SlashesIgnored([], []);
      assert [SLASH] + [] == ['/'] && text[..0] == [];
    }
  }

  lemma UpGoes(s: Session)
    requires SessionOk(s) && Coherent(s)
    ensures GoneUp(s, Chdir(s, DOTDOT))
  {
    hide Components, LastIndex, TreeOk;
    SlashPlace(s.cwd);
    var last, u := LastIndex(s.cwd, SLASH), Chdir(s, DOTDOT);
    SplitAtSlash(s.cwd, last);
    UpCoherent(s);
    if last > 0 {
      UpResolves(s, s.cwd[..last], s.cwd[last + 1..]);
    }
  }

  // The text above leads somewhere, as the whole text does.
  lemma UpResolves(s: Session, up: Bytes, rest: Bytes)
    requires Coherent(s) && up != [] && s.cwd == up + [SLASH] + rest
    ensures Resolve(s.tree, s.dir, up) != NO_ENTRY
  {
    hide Components;
    ComponentsJoin(up, rest);
    WalkJoin(s.tree, ROOT, Components(up), Components(rest));
  }

  // The step leaves the inode as it was exactly when the text ends in a slash, as that of the root does.
  lemma UpStays(s: Session)
    requires SessionOk(s) && Coherent(s)
    ensures Chdir(s, DOTDOT).dir == s.dir <==> s.cwd[|s.cwd| - 1] == '/'
    ensures s.dir == ROOT ==> s.cwd[|s.cwd| - 1] == '/'
  {
    hide Components, Chdir, Walk, DirWalk, SessionOk;
    UpGoes(s);
    var u := Chdir(s, DOTDOT);
    var k: nat :| LastSlashAt(s.cwd, k) && u.tree == s.tree && u.cwd == (if k == 0 then ['/'] else s.cwd[..k])
             && Components(s.cwd) == Components(u.cwd) + Components(s.cwd[k + 1..])
             && u.dir == Walk(s.tree, 2, Components(u.cwd));
    EndsThere(s.cwd, k);
    StepBelow(s, u.dir, Components(u.cwd), s.cwd[k + 1..]);
  }

  lemma EndsThere(text: Bytes, k: nat)
    requires LastSlashAt(text, k)
    ensures text[|text| - 1] == '/' <==> text[k + 1..] == []
    ensures SLASH !in text[k + 1..]
  {
    if text[k + 1..] != [] {
      assert text[|text| - 1] == text[k + 1..][|text| - k - 2];
      assert text[|text| - 1] in text[k + 1..];
    }
  }

  // The part behind the last slash leads strictly down, unless there is none.
  lemma StepBelow(s: Session, up: nat, above: seq<Bytes>, rest: Bytes)
    requires SessionOk(s) && Coherent(s) && SLASH !in rest
    requires Components(s.cwd) == above + Components(rest) && up == Walk(s.tree, ROOT, above)
    ensures rest == [] ==> up == s.dir
    ensures rest != [] ==> ROOT <= up < s.dir
  {
    hide Components, TreeOk;
    WalkJoin(s.tree, ROOT, above, Components(rest));
    RootIsDir(s.tree);
    if rest == [] {
      ComponentsStep([]);
    } else {
      NameHasComponents(rest);
      WalkInTree(s.tree, ROOT, above);
      WalkInTree(s.tree, up, Components(rest));
      WalkFromRoot(s.tree, above);
    }
  }

  lemma NameHasComponents(name: Bytes)
    requires name != [] && SLASH !in name
    ensures Components(name) != []
  {
    assert name[0] in name;
    assert Run(name, COMPONENT_MAX) > 0;
  }

  lemma WalkFromRoot(t: Tree, cs: seq<Bytes>)
    requires TreeOk(t) && DirWalk(t, ROOT, cs) && Walk(t, ROOT, cs) != NO_ENTRY
    ensures Walk(t, ROOT, cs) >= ROOT
  {
    hide TreeOk;
    RootIsDir(t);
    WalkInTree(t, ROOT, cs);
    ParentAtLeastRoot(t, Walk(t, ROOT, cs));
  }

  // A step down by a single name whose text fits, and a step up, lead back to the very same text and inode.
  lemma DownThenUp(s: Session, name: Bytes)
    requires SessionOk(s) && Coherent(s) && ChdirReady(s, name) && ChdirSucceeds(s, name)
    requires name != [] && SLASH !in name && name != DOTDOT && CwdFits(s.cwd, name)
    ensures SessionOk(Chdir(s, name)) && Coherent(Chdir(s, name))
    ensures Chdir(s, name) != s && Chdir(Chdir(s, name), DOTDOT) == s
  {
    hide Components, Chdir, ChdirSucceeds, ChdirReady, LastIndex, LastSlashAt, Walk, DirWalk;
    assert name != [SLASH] by { assert [SLASH][0] == SLASH; }
    ChdirCoherent(s, name);
    ChdirLeadsToDir(s, name);
    var u := Chdir(s, name);
    SteppedDown(s, name);
    UpGoes(u);
    var front := if s.cwd == [SLASH] then [] else s.cwd;
    SlashBefore(front, name);
    SlashPlace(u.cwd);
  }

  lemma SteppedDown(s: Session, name: Bytes)
    requires ChdirSucceeds(s, name) && name != [] && SLASH !in name && name != DOTDOT && CwdFits(s.cwd, name) && s.cwd != []
    ensures Plain(name) && Chdir(s, name).tree == s.tree && Chdir(s, name).dir == ChdirTarget(s, name)
    ensures Chdir(s, name).cwd == (if s.cwd == [SLASH] then [] else s.cwd) + [SLASH] + name
  {
    assert name[0] in name;
    assert name != [SLASH] by { assert [SLASH][0] == SLASH; }
    NoSlashesToLose(name);
  }

  lemma NoSlashesToLose(name: Bytes)
    requires name != [] && SLASH !in name
    ensures |FullText(name)| > PATH_MAX ==> !PathCuts.AllSlashes(FullText(name)[PATH_MAX..])
  {
    if |FullText(name)| > PATH_MAX {
      var text := FullText(name);
      assert name[0] in name && text == [SLASH] + name;
      assert text[PATH_MAX..][0] == name[PATH_MAX - 1] && name[PATH_MAX - 1] in name;
    }
  }

  lemma SlashBefore(front: Bytes, name: Bytes)
    requires SLASH !in name
    ensures LastSlashAt(front + [SLASH] + name, |front|)
    ensures (front + [SLASH] + name)[..|front|] == front
  {
    assert (front + [SLASH] + name)[|front| + 1..] == name;
  }

  // ------------------------------------------------------------------ every request of a run

  // Each request of a run does what the call of that name does.
  lemma ServeDone(s: Session, r: Request) returns (rc: int)
    requires SessionOk(s) && Ready(s, r)
    ensures match r
            case AskMkdir(p) => NodeLaws.Made(s, Serve(s, r), p, NodeLaws.NewDirectory(), 2, 1, rc)
            case AskCreate(p) => NodeLaws.Made(s, Serve(s, r), p, NodeLaws.NewFile(), 1, 0, rc)
            case AskWrite(p, d) => NodeLaws.Written(s, Serve(s, r), p, d, rc)
            case AskDelete(p) => NodeLaws.Deleted(s, Serve(s, r), p, rc)
            case AskChdir(p) => Went(s, Serve(s, r), p, rc)
  {
    hide SessionOk, NewReady, WriteReady, ParentReady, ChdirReady, NodeLaws.Made, NodeLaws.Written, NodeLaws.Deleted, Went;
    hide MkdirPath, CreatePath, WritePath, DeletePath, Chdir, WriteResult, ChdirSucceeds;
    match r
    case AskMkdir(p) =>
      NodeLaws.MkdirDone(s, p);
      rc := if HasParent(s, p) then s.tree.nextInode else -1;
    case AskCreate(p) =>
      NodeLaws.CreateDone(s, p);
      rc := if HasParent(s, p) then s.tree.nextInode else -1;
    case AskWrite(p, d) =>
      NodeLaws.WriteDone(s, p, d);
      rc := WriteResult(s, p, d);
    case AskDelete(p) =>
      NodeLaws.DeleteDone(s, p);
      rc := if HasParent(s, p) && Lookup(s.tree, ParentOf(s.tree, s.dir, p), BaseName(p)) != NO_ENTRY then 0 else -1;
    case AskChdir(p) =>
      ChdirDone(s, p);
      rc := if ChdirSucceeds(s, p) then 0 else -1;
  }
}
