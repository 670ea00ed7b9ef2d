/** Exactly when text and inode of the working directory stay together, request by request and over runs (kernel/fs.c:124-260). */
module CoherenceLaws {
  import opened Bytes
  import opened InodeTable
  import opened DirentBlock
  import opened StoreModel
  import opened Paths
  import opened Sessions
  import opened SessionLaws
  import opened OneName

  // ------------------------------------------------------------------ deleting

  lemma VictimVisited(t: Tree, dir: nat, name: Bytes, cs: seq<Bytes>)
    requires TreeOk(t) && IsDir(t, dir) && NamedOnce(t) && Lookup(t, dir, name) in Visited(t, ROOT, cs)
    requires Lookup(t, dir, name) != NO_ENTRY && Walk(t, ROOT, cs) != NO_ENTRY
    ensures Walk(Unlink(t, dir, name), ROOT, cs) != Walk(t, ROOT, cs)
  {
    hide TreeOk, NamedOnce, EntriesFrom, Unlink, Lookup, Walk, Visited;
    var u := Unlink(t, dir, name);
    UnlinkOk(t, dir, name);
    UnlinkNamed(t, dir, name);
    if Walk(u, ROOT, cs) == Walk(t, ROOT, cs) {
      WalksAgree(t, u, cs, cs);
      VisitedNamed(u, ROOT, cs, Lookup(t, dir, name));
    }
  }

  // A delete keeps text and inode together exactly when what it unlinks is not on the way.
  lemma DeleteExact(s: Session, p: Bytes)
    requires SessionOk(s) && ParentReady(s, p) && Coherent(s) && NamedOnce(s.tree)
    ensures Coherent(DeletePath(s, p)) <==> Gentle(s, AskDelete(p))
  {
    hide TreeOk, NamedOnce, Components, Unlink, Lookup, Walk, Visited, ParentOf, BaseName, DirWalk;
    if Gentle(s, AskDelete(p)) {
      DeleteCoherent(s, p);
    } else {
      VictimVisited(s.tree, ParentOf(s.tree, s.dir, p), BaseName(p), Components(s.cwd));
    }
  }

  // ------------------------------------------------------------------ changing the working directory

  // A text that lost more than slashes leads elsewhere.
  lemma CutTextLost(s: Session, dir: Bytes)
    requires SessionOk(s) && Coherent(s) && NamedOnce(s.tree) && ChdirReady(s, dir) && ChdirSucceeds(s, dir)
    requires Plain(dir) && (dir[0] == SLASH || s.cwd == [SLASH]) && !CwdFits(s.cwd, dir)
    ensures !Coherent(Chdir(s, dir))
  {
    hide Components, NamedOnce, TreeOk, CwdFits, Walk, DirWalk, Lookup;
    ChdirTargetIs(s, dir);
    WholeText(s, dir);
    CutText(s, dir);
    RootTarget(s, dir);
    UniqueWalk(s.tree, Components(dir), Components(CwdText(s.cwd, dir)));
  }

  lemma RootTarget(s: Session, dir: Bytes)
    requires Plain(dir) && Start(s.dir, dir) == ROOT && ChdirSucceeds(s, dir) && ChdirTarget(s, dir) == Resolve(s.tree, s.dir, dir)
    ensures Chdir(s, dir) == s.(cwd := CwdText(s.cwd, dir), dir := Walk(s.tree, ROOT, Components(dir)))
    ensures Walk(s.tree, ROOT, Components(dir)) != NO_ENTRY
  {
    hide Components, Walk, Lookup;
  }

  // A change of directory keeps them together exactly when it fails, or the new text is stored but for slashes at its end.
  lemma ChdirExactly(s: Session, dir: Bytes)
    requires SessionOk(s) && Coherent(s) && NamedOnce(s.tree) && ChdirReady(s, dir)
    ensures Coherent(Chdir(s, dir)) <==> !ChdirSucceeds(s, dir) || CwdFits(s.cwd, dir)
  {
    hide SessionOk, Coherent, ChdirReady, CwdText, Resolve, Lookup, NamedOnce, CwdFits, Chdir, ChdirSucceeds;
    if !ChdirSucceeds(s, dir) {
      Refused(s, dir);
    } else if CwdFits(s.cwd, dir) {
      ChdirCoherent(s, dir);
    } else {
      NotFitting(s.cwd, dir);
      if dir[0] == SLASH || s.cwd == [SLASH] {
        CutTextLost(s, dir);
      } else {
        RelativeChdirExact(s, dir);
      }
    }
  }

  lemma Refused(s: Session, dir: Bytes)
    requires !ChdirSucceeds(s, dir)
    ensures Chdir(s, dir) == s
  {
  }

  lemma NotFitting(cwd: Bytes, dir: Bytes)
    requires !CwdFits(cwd, dir)
    ensures Plain(dir) && (dir[0] == SLASH || cwd == [SLASH] || |cwd| + 1 + |dir| >= PATH_MAX)
  {
  }

  // ------------------------------------------------------------------ every request, every run

  lemma ServeExact(s: Session, r: Request)
    requires SessionOk(s) && Ready(s, r) && Coherent(s) && NamedOnce(s.tree)
    ensures Coherent(Serve(s, r)) <==> Gentle(s, r)
  {
    hide Coherent, NamedOnce, SessionOk, ChdirReady, ParentReady, NewReady, WriteReady, Chdir, ChdirSucceeds, CwdFits, DeletePath;
    if !r.AskDelete? && !r.AskChdir? {
      ServeCoherent(s, r);
    } else if r.AskDelete? {
      DeleteExact(s, r.path);
    } else {
      ChdirExactly(s, r.path);
    }
  }

  // Text and inode agree, now and after every request.
  ghost predicate AlwaysCoherent(s: Session, rs: seq<Request>)
    requires SessionOk(s) && ReadyRun(s, rs)
    decreases |rs|
  {
    Coherent(s) && (rs == [] || (ServeOk(s, rs[0]); AlwaysCoherent(Serve(s, rs[0]), rs[1..])))
  }

  // Over a run they agree all the way exactly when every request is gentle.
  lemma {:induction false} RunExact(s: Session, rs: seq<Request>)
    requires SessionOk(s) && Coherent(s) && NamedOnce(s.tree) && ReadyRun(s, rs)
    ensures AlwaysCoherent(s, rs) <==> GentleRun(s, rs)
    decreases |rs|
  {
    hide SessionOk, Coherent, NamedOnce, Ready, Gentle, Serve;
    if rs != [] {
      ServeOk(s, rs[0]);
      ServeExact(s, rs[0]);
      ServeNamed(s, rs[0]);
      if Coherent(Serve(s, rs[0])) {
        RunExact(Serve(s, rs[0]), rs[1..]);
      } else {
        NotAlways(Serve(s, rs[0]), rs[1..]);
      }
    }
  }

  lemma NotAlways(s: Session, rs: seq<Request>)
    requires SessionOk(s) && ReadyRun(s, rs) && !Coherent(s)
    ensures !AlwaysCoherent(s, rs)
  {
  }
}
