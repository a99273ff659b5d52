/**
  The filesystem object of a session: queries and in-place mutations over the overlay and
  the tombstones, each proved against the corresponding function on states, and what
  holds in every run of them.
 */
module Filesystem {
  import opened Options
  import opened Paths
  import opened Listing
  import opened Overlay
  import opened Refinement
  import opened Copying
  import Tree

  class FakeFilesystem {
    var memoryOverlay: map<Path, Entry>
    var deletedPaths: set<Path>
    const base: Base

    ghost function State(): Fs
      reads this
    {
      Fs(memoryOverlay, deletedPaths, base)
    }

    constructor (base: Base, overlay: map<Path, Entry>)
      ensures State() == Fs(overlay, {}, base)
    {
      this.base := base;
      memoryOverlay := overlay;
      deletedPaths := {};
    }

    method ListDir(p: Path) returns (names: seq<string>)
      ensures IsSorting(names, Overlay.ListDir(State(), p))
      ensures names == Listed(State(), p)
    {
      var fs := Fs(memoryOverlay, deletedPaths, base);
      var contents := {};
      if p !in deletedPaths && IsDir(fs, p) {
        contents := BackendNames(base.rows, p);
        contents := AddNames(contents, base.dynamic.Keys, p);
        contents := AddNames(contents, memoryOverlay.Keys, p);
        contents := set c | c in contents && ChildPath(p, c) !in deletedPaths;
      }
      names := SortNames(contents);
    }

    method MkFile(p: Path, content: string, attrs: Attrs) returns (made: bool)
      modifies this
      ensures State() == Overlay.MkFile(old(State()), p, content, attrs)
      ensures made <==> AcceptsFile(old(State()), p)
    {
      made := AcceptsFile(Fs(memoryOverlay, deletedPaths, base), p);
      if made {
        memoryOverlay := memoryOverlay[p := Entry(File, content, attrs)];
        deletedPaths := deletedPaths - {p};
      }
    }

    method MkDirP(p: Path, attrs: Attrs)
      modifies this
      ensures State() == Overlay.MkDirP(old(State()), p, attrs)
    {
      var i := 0;
      while i < |p|
        invariant 0 <= i <= |p|
        invariant State() == Overlay.MkDirP(old(State()), p[..i], attrs)
      {
        var current := p[..i + 1];
        assert Parent(current) == p[..i];
        var fs := Fs(memoryOverlay, deletedPaths, base);
        if !Overlay.Exists(fs, current) || IsFile(fs, current) {
          memoryOverlay := memoryOverlay[current := Entry(Dir, "", attrs)];
          deletedPaths := deletedPaths - {current};
        }
        i := i + 1;
      }
      assert p[..|p|] == p;
    }

    method Chmod(p: Path, perm: string) returns (ok: bool)
      modifies this
      ensures State() == Overlay.Chmod(old(State()), p, perm)
      ensures ok <==> GetNode(old(State()), p).Some?
    {
      var fs := Fs(memoryOverlay, deletedPaths, base);
      ok := GetNode(fs, p).Some?;
      if ok {
        if p !in memoryOverlay {
          memoryOverlay := memoryOverlay[p := CopyUp(fs, p)];
        }
        var e := memoryOverlay[p];
        memoryOverlay := memoryOverlay[p := e.(attrs := e.attrs.(perm := perm))];
      }
    }

    method Chown(p: Path, owner: Option<string>, group: Option<string>) returns (ok: bool)
      modifies this
      ensures State() == Overlay.Chown(old(State()), p, owner, group)
      ensures ok <==> GetNode(old(State()), p).Some?
    {
      var fs := Fs(memoryOverlay, deletedPaths, base);
      ok := GetNode(fs, p).Some?;
      if ok {
        if p !in memoryOverlay {
          memoryOverlay := memoryOverlay[p := CopyUp(fs, p)];
        }
        var e := memoryOverlay[p];
        if owner.Some? && owner.value != "" {
          e := e.(attrs := e.attrs.(owner := owner.value));
        }
        if group.Some? && group.value != "" {
          e := e.(attrs := e.attrs.(group := group.value));
        }
        memoryOverlay := memoryOverlay[p := e];
      }
    }

    method Remove(p: Path) returns (ok: bool)
      modifies this
      ensures State() == Overlay.Remove(old(State()), p)
      ensures ok <==> CanRemove(old(State()), p)
    {
      ok := CanRemove(Fs(memoryOverlay, deletedPaths, base), p);
      if ok {
        deletedPaths := deletedPaths + {p};
        memoryOverlay := memoryOverlay - {p};
      }
    }

    /** `finished` is false when the interpreter's recursion bound stopped the copy. */
    method CopyInto(src: Path, dst: Path, limit: nat) returns (finished: bool)
      modifies this
      ensures CopyRecursive(old(State()), src, dst, limit) ==
        if finished then Finished(State()) else RecursionError(State())
      decreases limit, 0
    {
      if limit == 0 { return false; }
      var fs := Fs(memoryOverlay, deletedPaths, base);
      if IsDir(fs, src) {
        if !Overlay.Exists(fs, dst) {
          MkDirP(dst, ROOT_DIR);
        }
        finished := CopyEach(src, dst, limit - 1);
      } else {
        var _ := MkFile(dst, GetContent(fs, src), ROOT_FILE);
        finished := true;
      }
    }

    /** The loop over the children of `src`. */
    method CopyEach(src: Path, dst: Path, limit: nat) returns (finished: bool)
      modifies this
      ensures CopyItems(old(State()), src, dst, Listed(old(State()), src), limit) ==
        if finished then Finished(State()) else RecursionError(State())
      decreases limit, 1
    {
      var items := ListDir(src);
      var i := 0;
      while i < |items|
        invariant 0 <= i <= |items|
        invariant CopyItems(old(State()), src, dst, items, limit) == CopyItems(State(), src, dst, items[i..], limit)
      {
        var ok := CopyInto(ChildPath(src, items[i]), ChildPath(dst, items[i]), limit);
        assert items[i..][0] == items[i] && items[i..][1..] == items[i + 1..];
        if !ok { return false; }
        i := i + 1;
      }
      finished := true;
    }

    method Copy(src: Path, dst: Path, recursive: bool, limit: nat) returns (r: Option<bool>)
      modifies this
      ensures Copying.Copy(old(State()), src, dst, recursive, limit) ==
        if r.Some? then Returned(State(), r.value) else Raised(State())
    {
      var fs := Fs(memoryOverlay, deletedPaths, base);
      if !Overlay.Exists(fs, src) { return Some(false); }
      var target := Effective(fs, src, dst);
      if IsDir(fs, src) {
        if !recursive { return Some(false); }
        if !Overlay.Exists(fs, target) {
          MkDirP(target, ROOT_DIR);
        } else if IsFile(fs, target) {
          return Some(false);
        }
        var finished := CopyEach(src, target, limit);
        r := if finished then Some(true) else None;
      } else {
        var _ := MkFile(target, GetContent(fs, src), ROOT_FILE);
        r := Some(true);
      }
    }

    method Move(src: Path, dst: Path, limit: nat) returns (r: Option<bool>)
      modifies this
      ensures Copying.Move(old(State()), src, dst, limit) ==
        if r.Some? then Returned(State(), r.value) else Raised(State())
    {
      if !Overlay.Exists(Fs(memoryOverlay, deletedPaths, base), src) { return Some(false); }
      r := Copy(src, dst, true, limit);
      if r == Some(true) {
        var removed := Remove(src);
        r := Some(removed);
      }
    }
  }

  /** The loops of a listing over the keys of one layer. */
  method AddNames(contents: set<string>, keys: set<Path>, p: Path) returns (r: set<string>)
    ensures r == contents + NamesBelow(keys, p)
  {
    r := contents;
    var todo := keys;
    while todo != {}
      invariant todo <= keys
      invariant r == contents + NamesBelow(keys - todo, p)
      decreases todo
    {
      var q :| q in todo;
      if p < q {
        r := r + {q[|p|]};
      } else if p == [] && q == [] {
        r := r + {""};
      }
      assert keys - (todo - {q}) == (keys - todo) + {q};
      todo := todo - {q};
    }
    assert keys - todo == keys;
  }

  // ----- runs -----

  datatype Op =
    | MkFileOp(path: Path, content: string, attrs: Attrs)
    | MkDirOp(path: Path, attrs: Attrs)
    | ChmodOp(path: Path, perm: string)
    | ChownOp(path: Path, owner: Option<string>, group: Option<string>)
    | RemoveOp(path: Path)
    | CopyOp(path: Path, dst: Path, recursive: bool, limit: nat)
    | MoveOp(path: Path, dst: Path, limit: nat)

  ghost predicate Resolved(op: Op) {
    Canonical(op.path) && ((op.CopyOp? || op.MoveOp?) ==> Canonical(op.dst))
  }

  ghost function Apply(fs: Fs, op: Op): Fs {
    match op
    case MkFileOp(p, content, attrs) => Overlay.MkFile(fs, p, content, attrs)
    case MkDirOp(p, attrs) => Overlay.MkDirP(fs, p, attrs)
    case ChmodOp(p, perm) => Overlay.Chmod(fs, p, perm)
    case ChownOp(p, owner, group) => Overlay.Chown(fs, p, owner, group)
    case RemoveOp(p) => Overlay.Remove(fs, p)
    case CopyOp(src, dst, recursive, limit) => Copying.Copy(fs, src, dst, recursive, limit).fs
    case MoveOp(src, dst, limit) => Copying.Move(fs, src, dst, limit).fs
  }

  ghost function Run(fs: Fs, ops: seq<Op>): Fs
    decreases |ops|
  {
    if ops == [] then fs else Run(Apply(fs, ops[0]), ops[1..])
  }

  /** The operations that store the root in the overlay. */
  predicate StoresRoot(op: Op) {
    op.path == [] && (op.MkFileOp? || op.ChmodOp? || op.ChownOp?)
  }

  lemma ApplyKeepsInv(fs: Fs, op: Op)
    requires Inv(fs) && Resolved(op)
    ensures Inv(Apply(fs, op))
  {
    hide Inv, Abs, Overlay.MkDirP, Overlay.MkFile, Overlay.Chmod, Overlay.Chown, Overlay.Remove, Copying.Copy, Copying.Move;
    match op
    case MkFileOp(p, content, attrs) => MkFileRefines(fs, p, content, attrs);
    case MkDirOp(p, attrs) => MkDirPRefines(fs, p, attrs);
    case ChmodOp(p, perm) =>
      if p == [] { RootCopyUp(fs, perm, None, None); } else { ChmodInvisible(fs, p, perm, p); }
    case ChownOp(p, owner, group) =>
      if p == [] { RootCopyUp(fs, "", owner, group); } else { ChownInvisible(fs, p, owner, group, p); }
    case RemoveOp(p) => RemoveKeepsInv(fs, p);
    case CopyOp(src, dst, recursive, limit) => CopyKeepsInv(fs, src, dst, recursive, limit);
    case MoveOp(src, dst, limit) => CopyKeepsInv(fs, src, dst, true, limit);
  }

  lemma {:induction false} CopyAvoidsRoot(fs: Fs, src: Path, dst: Path, limit: nat)
    requires dst != [] || [] in fs.overlay
    ensures [] in CopyRecursive(fs, src, dst, limit).fs.overlay <==> [] in fs.overlay
    decreases limit, 0
  {
    hide Listed, Overlay.Exists, IsDir, GetContent;
    if limit > 0 && IsDir(fs, src) {
      var made := if Overlay.Exists(fs, dst) then fs else Overlay.MkDirP(fs, dst, ROOT_DIR);
      MkDirPAvoidsRoot(fs, dst, ROOT_DIR);
      CopyItemsAvoidRoot(made, src, dst, Listed(made, src), limit - 1);
    }
  }

  lemma {:induction false} CopyItemsAvoidRoot(fs: Fs, src: Path, dst: Path, items: seq<string>, limit: nat)
    requires dst != [] || [] in fs.overlay || "" !in items
    ensures [] in CopyItems(fs, src, dst, items, limit).fs.overlay <==> [] in fs.overlay
    decreases limit, |items| + 1
  {
    hide CopyRecursive;
    if items != [] {
      assert items[0] in items;
      CopyAvoidsRoot(fs, ChildPath(src, items[0]), ChildPath(dst, items[0]), limit);
      var first := CopyRecursive(fs, ChildPath(src, items[0]), ChildPath(dst, items[0]), limit);
      CopyItemsAvoidRoot(first.fs, src, dst, items[1..], limit);
    }
  }

  lemma CopyOpAvoidsRoot(fs: Fs, src: Path, dst: Path, recursive: bool, limit: nat)
    requires Inv(fs) && [] !in fs.overlay
    ensures [] !in Copying.Copy(fs, src, dst, recursive, limit).fs.overlay
  {
    hide Inv, Abs, Overlay.ListDir, CopyItems, Overlay.MkDirP, GetContent, IsFile, IsDir, Overlay.Exists;
    var target := Effective(fs, src, dst);
    AbsAt(fs, []);
    AbsAt(fs, src);
    AbsAt(fs, dst);
    if target == [] {
      ListDirEmptyName(fs, []);
    } else {
      MkDirPAvoidsRoot(fs, target, ROOT_DIR);
    }
    if IsDir(fs, src) && (target == [] ==> src == []) {
      var made := if Overlay.Exists(fs, target) then fs else Overlay.MkDirP(fs, target, ROOT_DIR);
      CopyItemsAvoidRoot(made, src, target, Listed(made, src), limit);
    }
  }

  lemma MoveOpAvoidsRoot(fs: Fs, src: Path, dst: Path, limit: nat)
    requires Inv(fs) && [] !in fs.overlay
    ensures [] !in Copying.Move(fs, src, dst, limit).fs.overlay
  {
    hide Inv, Copying.Copy;
    CopyOpAvoidsRoot(fs, src, dst, true, limit);
  }

  lemma ApplyAvoidsRoot(fs: Fs, op: Op)
    requires Inv(fs) && Resolved(op) && !StoresRoot(op) && [] !in fs.overlay
    ensures [] !in Apply(fs, op).overlay
  {
    match op
    case MkDirOp(p, attrs) => MkDirPAvoidsRoot(fs, p, attrs);
    case CopyOp(src, dst, recursive, limit) => CopyOpAvoidsRoot(fs, src, dst, recursive, limit);
    case MoveOp(src, dst, limit) => MoveOpAvoidsRoot(fs, src, dst, limit);
    case _ =>
  }

  lemma {:induction false} RunKeepsInv(fs: Fs, ops: seq<Op>)
    requires Inv(fs) && forall op :: op in ops ==> Resolved(op)
    ensures Inv(Run(fs, ops))
    ensures [] !in fs.overlay && (forall op :: op in ops ==> !StoresRoot(op)) ==> [] !in Run(fs, ops).overlay
    decreases |ops|
  {
    hide Inv, Apply;
    if ops != [] {
      assert ops[0] in ops;
      ApplyKeepsInv(fs, ops[0]);
      if [] !in fs.overlay && !StoresRoot(ops[0]) {
        ApplyAvoidsRoot(fs, ops[0]);
      }
      RunKeepsInv(Apply(fs, ops[0]), ops[1..]);
    }
  }

  /** In every run from a well-formed start: every stored path's parent is stored or
      tombstoned, no overlay key is tombstoned, a directory's listing is exactly its
      existing children (for the root, as long as no operation stored it), and the
      queries agree on every non-root path up to generated entries. */
  lemma EveryRunAgrees(fs: Fs, ops: seq<Op>, p: Path)
    requires Inv(fs) && [] !in fs.overlay
    requires forall op :: op in ops ==> Resolved(op)
    ensures
      var s := Run(fs, ops);
      && s.overlay.Keys !! s.deleted
      && (forall q :: q in s.overlay && q != [] ==> Parent(q) in Known(s))
      && (IsDir(s, p) && (p != [] || forall op :: op in ops ==> !StoresRoot(op)) ==>
            ListDir(s, p) == Tree.List(Abs(s), p))
      && (p in Abs(s) <==> Overlay.Exists(s, p))
      && (p != [] ==>
            && (Overlay.Exists(s, p) <==> GetNode(s, p).Some?)
            && (IsDir(s, p) <==> GetNode(s, p).Some? && GetNode(s, p).value.isDir)
            && (IsFile(s, p) <==> GetNode(s, p).Some? && !GetNode(s, p).value.isDir && !ShowsGenerated(s, p)))
  {
    hide Overlay.ListDir, Overlay.Exists, IsDir, IsFile, GetNode, Abs, ShowsGenerated, Run;
    RunKeepsInv(fs, ops);
    var s := Run(fs, ops);
    AbsAt(s, p);
    if p != [] { QueriesAgree(s, p); }
    if IsDir(s, p) { ListDirExact(s, p); }
    assert forall q :: q in s.overlay ==> q in Known(s);
  }
}
