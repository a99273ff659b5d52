/**
  Every query of the layered filesystem reads one abstract tree, and every mutation
  keeps the invariant and updates that tree.
 */
module Refinement {
  import opened Options
  import opened Paths
  import opened Overlay
  import Tree

  /** The visible entry is a dynamic or backend one whose type is neither "dir" nor "file". */
  predicate ShowsGenerated(fs: Fs, p: Path) {
    && p !in fs.deleted && p !in fs.overlay
    && (if p in fs.base.dynamic then fs.base.dynamic[p].kind.Generated?
        else p in fs.base.rows && fs.base.rows[p].kind.Generated?)
  }

  /** The four queries agree on every non-root path, except that `is_file` denies exactly
      the generated entries, which `get_node` presents as files. */
  lemma QueriesAgree(fs: Fs, p: Path)
    requires Inv(fs) && p != []
    ensures GetNode(fs, p).Some? <==> Exists(fs, p)
    ensures IsDir(fs, p) <==> GetNode(fs, p).Some? && GetNode(fs, p).value.isDir
    ensures Exists(fs, p) ==> ((IsFile(fs, p) <==> !GetNode(fs, p).value.isDir) <==> !ShowsGenerated(fs, p))
    ensures !(IsDir(fs, p) && IsFile(fs, p))
  {
  }

  lemma {:induction false} KnownAncestors(fs: Fs, q: Path, k: nat)
    requires Inv(fs) && q in Known(fs) && k <= |q|
    ensures q[..k] in Known(fs)
    decreases |q| - k
  {
    if k == |q| {
      assert q[..k] == q;
    } else {
      KnownAncestors(fs, q, k + 1);
      assert Parent(q[..k + 1]) == q[..k];
    }
  }

  lemma NamesBelowExist(fs: Fs, keys: set<Path>, p: Path, c: string)
    requires Inv(fs) && keys <= Known(fs)
    requires c in NamesBelow(keys, p) && c != "" && p + [c] !in fs.deleted
    ensures Exists(fs, p + [c])
  {
    var q :| q in keys && p < q && c == q[|p|];
    KnownAncestors(fs, q, |p| + 1);
    assert q[..|p| + 1] == p + [c];
  }

  lemma NamesBelowComplete(keys: set<Path>, p: Path, c: string)
    requires p + [c] in keys
    ensures c in NamesBelow(keys, p)
  {
  }

  lemma NoEmptyName(fs: Fs, q: Path, i: nat)
    requires Inv(fs) && q in Known(fs) && i < |q|
    ensures q[i] != ""
  {
  }

  lemma EmptyNameBelow(fs: Fs, keys: set<Path>, p: Path)
    requires Inv(fs) && keys <= Known(fs)
    ensures "" in NamesBelow(keys, p) <==> p == [] && [] in keys
  {
  }

  lemma BackendNamesAt(rows: map<Path, Entry>, p: Path, c: string)
    ensures c in BackendNames(rows, p) <==> p + [c] in rows
  {
    assert Parent(p + [c]) == p && Last(p + [c]) == c;
    if c in BackendNames(rows, p) {
      var r :| r in rows && r != [] && Parent(r) == p && Last(r) == c;
      assert r == p + [c];
    }
  }

  lemma ListDirNames(fs: Fs, p: Path, c: string)
    requires Inv(fs) && IsDir(fs, p) && c != ""
    ensures c in ListDir(fs, p) <==> Exists(fs, p + [c])
  {
    var q := p + [c];
    NoImplicitDirs(fs.base, q);
    BackendNamesAt(fs.base.rows, p, c);
    if Exists(fs, q) {
      hide Inv;
      if q in fs.overlay {
        NamesBelowComplete(fs.overlay.Keys, p, c);
      } else if q in fs.base.dynamic {
        NamesBelowComplete(fs.base.dynamic.Keys, p, c);
      }
    } else if c in ListDir(fs, p) {
      hide Inv, NamesBelow;
      if c in NamesBelow(fs.base.dynamic.Keys, p) {
        NamesBelowExist(fs, fs.base.dynamic.Keys, p, c);
      } else if c in NamesBelow(fs.overlay.Keys, p) {
        NamesBelowExist(fs, fs.overlay.Keys, p, c);
      }
    }
  }

  lemma ListDirEmptyName(fs: Fs, p: Path)
    requires Inv(fs) && IsDir(fs, p)
    ensures "" in ListDir(fs, p) <==> p == [] && [] in fs.overlay
  {
    EmptyNameBelow(fs, fs.base.dynamic.Keys, p);
    EmptyNameBelow(fs, fs.overlay.Keys, p);
    forall q | q in fs.base.rows && q != [] ensures Last(q) != "" {
      NoEmptyName(fs, q, |q| - 1);
    }
  }

  /** The listing of a directory is exactly the set of names `c` for which `p/c` exists,
      unless it is the root's and the root has been put in the overlay: then it also
      holds an empty name. */
  lemma ListDirExact(fs: Fs, p: Path)
    requires Inv(fs) && IsDir(fs, p)
    ensures ListDir(fs, p) - {""} == Tree.List(Abs(fs), p)
    ensures ListDir(fs, p) == Tree.List(Abs(fs), p) <==> !(p == [] && [] in fs.overlay)
  {
    hide Inv, Abs, ListDir;
    AbsAt(fs, p);
    forall c ensures c in ListDir(fs, p) - {""} <==> c in Tree.List(Abs(fs), p) {
      AbsAt(fs, p + [c]);
      if c != "" {
        ListDirNames(fs, p, c);
      } else {
        NoEmptyChild(fs, p);
      }
    }
    ListDirEmptyName(fs, p);
  }

  lemma NoEmptyChild(fs: Fs, p: Path)
    requires Inv(fs)
    ensures p + [""] !in Abs(fs)
  {
    assert !ValidName((p + [""])[|p|]);
  }

  // ----- each mutation keeps the invariant and updates the tree -----

  lemma PutKeepsInv(fs: Fs, p: Path, e: Entry)
    requires Inv(fs) && Canonical(p) && !e.kind.Generated?
    requires p == [] || Parent(p) in Known(fs)
    ensures Inv(Put(fs, p, e))
  {
  }

  lemma PutAt(fs: Fs, p: Path, e: Entry, q: Path)
    requires Inv(fs) && Inv(Put(fs, p, e)) && !e.kind.Generated?
    ensures q != p ==>
      (q in Abs(Put(fs, p, e)) <==> q in Abs(fs)) && (q in Abs(fs) ==> Abs(Put(fs, p, e))[q] == Abs(fs)[q])
    ensures p in Abs(Put(fs, p, e))
    ensures Abs(Put(fs, p, e))[p] == if e.kind.Dir? || p == [] then Tree.D else Tree.F(e.content)
  {
    hide Inv, Abs, Known;
    AbsAt(fs, q);
    AbsAt(Put(fs, p, e), q);
    AbsAt(Put(fs, p, e), p);
  }

  lemma PutUpdatesTree(fs: Fs, p: Path, e: Entry)
    requires Inv(fs) && Canonical(p) && !e.kind.Generated? && p != [] && Parent(p) in Known(fs)
    ensures Abs(Put(fs, p, e)) == Abs(fs)[p := if e.kind.Dir? then Tree.D else Tree.F(e.content)]
  {
    hide Inv, Abs, Put;
    PutKeepsInv(fs, p, e);
    forall q { PutAt(fs, p, e, q); }
  }

  lemma MkFileRefines(fs: Fs, p: Path, content: string, attrs: Attrs)
    requires Inv(fs) && Canonical(p)
    ensures Inv(MkFile(fs, p, content, attrs))
    ensures Abs(MkFile(fs, p, content, attrs)) == Tree.Mkfile(Abs(fs), p, content)
  {
    if p == [] {
      RootFile(fs, content, attrs);
    } else {
      AbsAt(fs, Parent(p));
      if AcceptsFile(fs, p) {
        PutKeepsInv(fs, p, Entry(File, content, attrs));
        PutUpdatesTree(fs, p, Entry(File, content, attrs));
      }
    }
  }

  lemma RootFile(fs: Fs, content: string, attrs: Attrs)
    requires Inv(fs)
    ensures Inv(MkFile(fs, [], content, attrs))
    ensures Abs(MkFile(fs, [], content, attrs)) == Abs(fs)
  {
    RootPut(fs, Entry(File, content, attrs));
  }

  lemma RootPut(fs: Fs, e: Entry)
    requires Inv(fs) && !e.kind.Generated?
    ensures Inv(Put(fs, [], e))
    ensures Abs(Put(fs, [], e)) == Abs(fs)
  {
    hide Inv, Abs, Put;
    PutKeepsInv(fs, [], e);
    AbsAt(fs, []);
    forall q { PutAt(fs, [], e, q); }
  }

  lemma {:induction false} MkDirPRefines(fs: Fs, p: Path, attrs: Attrs)
    requires Inv(fs) && Canonical(p)
    ensures Inv(MkDirP(fs, p, attrs))
    ensures p in Known(MkDirP(fs, p, attrs))
    ensures Abs(MkDirP(fs, p, attrs)) == Tree.Mkdirs(Abs(fs), p)
    decreases |p|
  {
    if p != [] {
      var above := MkDirP(fs, Parent(p), attrs);
      MkDirPRefines(fs, Parent(p), attrs);
      AbsAt(above, p);
      if !Exists(above, p) || IsFile(above, p) {
        PutKeepsInv(above, p, Entry(Dir, "", attrs));
        PutUpdatesTree(above, p, Entry(Dir, "", attrs));
      } else {
        NoImplicitDirs(above.base, p);
      }
    }
  }

  lemma RemoveKeepsInv(fs: Fs, p: Path)
    requires Inv(fs)
    ensures Inv(Remove(fs, p))
  {
  }

  lemma RemoveAt(fs: Fs, p: Path, q: Path)
    requires Inv(fs) && CanRemove(fs, p)
    ensures q in Abs(Remove(fs, p)) <==> q in Abs(fs) && q != p
    ensures q in Abs(fs) && q != p ==> Abs(Remove(fs, p))[q] == Abs(fs)[q]
  {
    RemoveKeepsInv(fs, p);
    AbsAt(fs, q);
    AbsAt(Remove(fs, p), q);
  }

  /** A removal removes one path: everything stored below it stays stored. */
  lemma RemoveRefines(fs: Fs, p: Path)
    requires Inv(fs)
    ensures Inv(Remove(fs, p))
    ensures Abs(Remove(fs, p)) == Tree.Remove(Abs(fs), p)
  {
    RemoveKeepsInv(fs, p);
    if CanRemove(fs, p) {
      forall q {
        RemoveAt(fs, p, q);
      }
      assert Abs(Remove(fs, p)).Keys == Abs(fs).Keys - {p};
    } else {
      AbsAt(fs, p);
    }
  }

  lemma RemoveListing(fs: Fs, d: Path, p: Path, c: string)
    requires Inv(fs) && Canonical(d) && CanRemove(fs, d)
    requires IsDir(fs, p) && IsDir(Remove(fs, d), p)
    ensures c in ListDir(Remove(fs, d), p) <==> c in ListDir(fs, p) && !(p == Parent(d) && c == Last(d))
  {
    var after := Remove(fs, d);
    RemoveKeepsInv(fs, d);
    assert ValidName(Last(d)) && Parent(d) + [Last(d)] == d;
    if c == "" {
      ListDirEmptyName(fs, p);
      ListDirEmptyName(after, p);
    } else {
      ListDirNames(fs, p, c);
      ListDirNames(after, p, c);
      AbsAt(fs, p + [c]);
      AbsAt(after, p + [c]);
      RemoveAt(fs, d, p + [c]);
      assert p + [c] == d <==> p == Parent(d) && c == Last(d);
    }
  }

  /** A successful removal takes from the walkable paths exactly `d` and what lies below
      it; every other walkable path keeps its item, and its listing but for `d`'s own name. */
  lemma RemoveExact(fs: Fs, d: Path, p: Path)
    requires Inv(fs) && Canonical(d) && CanRemove(fs, d)
    ensures Tree.Reachable(Abs(Remove(fs, d)), p) <==> Tree.Reachable(Abs(fs), p) && !(d <= p)
    ensures Tree.Reachable(Abs(Remove(fs, d)), p) ==>
      && p in Abs(fs) && p in Abs(Remove(fs, d))
      && Abs(Remove(fs, d))[p] == Abs(fs)[p]
      && ListDir(Remove(fs, d), p) == ListDir(fs, p) - (if p == Parent(d) then {Last(d)} else {})
  {
    var after := Remove(fs, d);
    RemoveRefines(fs, d);
    AbsAt(fs, []);
    Tree.RemoveReachable(Abs(fs), d, p);
    if Tree.Reachable(Abs(after), p) {
      Tree.ReachableIffChain(Abs(fs), p);
      RemoveAt(fs, d, p);
      AbsAt(fs, p);
      AbsAt(after, p);
      if IsDir(fs, p) {
        forall c {
          RemoveListing(fs, d, p, c);
        }
      }
    }
  }

  /** Removing a directory and making it again brings back everything that stood below it:
      the tree is the old one exactly when the way to the directory was settled. */
  lemma RemadeDirectory(fs: Fs, d: Path, attrs: Attrs)
    requires Inv(fs) && Canonical(d) && d != [] && IsDir(fs, d)
    ensures Abs(MkDirP(Remove(fs, d), d, attrs)) == Abs(fs) <==> Tree.Settled(Abs(fs), Parent(d))
  {
    hide Inv, Abs, Remove, MkDirP, IsDir, Tree.Mkdirs;
    var t, u := Abs(fs), Abs(Remove(fs, d));
    AbsAt(fs, d);
    AbsAt(fs, []);
    RemoveRefines(fs, d);
    MkDirPRefines(Remove(fs, d), d, attrs);
    Tree.MkdirsSettles(u, d);
    if Tree.Mkdirs(u, d) == t {
      assert forall k :: 0 <= k <= |Parent(d)| ==> Parent(d)[..k] == d[..k];
    }
    if Tree.Settled(t, Parent(d)) {
      forall k | 0 <= k <= |Parent(d)| ensures Parent(d)[..k] in u && !u[Parent(d)[..k]].F? {
        assert Parent(d)[..k] != d;
      }
      Tree.MkdirsBelow(u, d);
    }
  }

  // ----- copy-up -----

  function WithEntry(fs: Fs, p: Path, e: Entry): Fs {
    fs.(overlay := fs.overlay[p := e])
  }

  /** What a copy-up stores, in the tree's terms. */
  lemma CopyUpItem(fs: Fs, p: Path)
    requires Inv(fs) && p != [] && GetNode(fs, p).Some?
    ensures p in Abs(fs) && Parent(p) in Known(fs) && !CopyUp(fs, p).kind.Generated?
    ensures ShowsGenerated(fs, p) ==>
      CopyUp(fs, p).kind.File? && CopyUp(fs, p).content == GetContent(fs, p) && Abs(fs)[p].G?
    ensures !ShowsGenerated(fs, p) ==>
      Abs(fs)[p] == if CopyUp(fs, p).kind.Dir? then Tree.D else Tree.F(CopyUp(fs, p).content)
  {
    QueriesAgree(fs, p);
    NoImplicitDirs(fs.base, p);
    AbsAt(fs, p);
  }

  lemma CopyUpRefines(fs: Fs, p: Path, e: Entry)
    requires Inv(fs) && Canonical(p) && p != [] && GetNode(fs, p).Some?
    requires e.kind == CopyUp(fs, p).kind && e.content == CopyUp(fs, p).content
    ensures Inv(WithEntry(fs, p, e))
    ensures Abs(WithEntry(fs, p, e)) == if ShowsGenerated(fs, p) then Abs(fs)[p := Tree.F(GetContent(fs, p))] else Abs(fs)
    ensures Abs(WithEntry(fs, p, e)) == Abs(fs) <==> !ShowsGenerated(fs, p)
  {
    hide Inv, Abs;
    CopyUpItem(fs, p);
    assert WithEntry(fs, p, e) == Put(fs, p, e);
    PutKeepsInv(fs, p, e);
    PutUpdatesTree(fs, p, e);
  }

  lemma CopyUpNodes(fs: Fs, p: Path, e: Entry, q: Path)
    requires Inv(fs) && p != [] && GetNode(fs, p).Some?
    requires e.kind == CopyUp(fs, p).kind
    ensures GetNode(WithEntry(fs, p, e), q) ==
      if q == p then Some(Node(GetNode(fs, p).value.isDir, e.attrs)) else GetNode(fs, q)
  {
  }

  /** Changing the permissions of a non-root path is invisible to existence, kinds,
      listings and contents, even when it materialises a backend or dynamic entry,
      except that a generated entry turns into a plain file. Only the permissions of
      that one path change. */
  lemma ChmodInvisible(fs: Fs, p: Path, perm: string, q: Path)
    requires Inv(fs) && Canonical(p) && p != []
    ensures Inv(Chmod(fs, p, perm))
    ensures Abs(Chmod(fs, p, perm)) == Abs(fs) <==> !ShowsGenerated(fs, p)
    ensures ShowsGenerated(fs, p) ==> Abs(Chmod(fs, p, perm)) == Abs(fs)[p := Tree.F(GetContent(fs, p))]
    ensures q != p || GetNode(fs, p).None? ==> GetNode(Chmod(fs, p, perm), q) == GetNode(fs, q)
    ensures GetNode(fs, p).Some? ==>
      var n := GetNode(fs, p).value;
      GetNode(Chmod(fs, p, perm), p) == Some(n.(attrs := n.attrs.(perm := perm)))
  {
    if GetNode(fs, p).Some? {
      var e := CopyUp(fs, p);
      var f := e.(attrs := e.attrs.(perm := perm));
      assert Chmod(fs, p, perm) == WithEntry(fs, p, f);
      CopyUpRefines(fs, p, f);
      CopyUpNodes(fs, p, f, q);
      CopyUpNodes(fs, p, f, p);
    }
  }

  /** The same for ownership. */
  lemma ChownInvisible(fs: Fs, p: Path, owner: Option<string>, group: Option<string>, q: Path)
    requires Inv(fs) && Canonical(p) && p != []
    ensures Inv(Chown(fs, p, owner, group))
    ensures Abs(Chown(fs, p, owner, group)) == Abs(fs) <==> !ShowsGenerated(fs, p)
    ensures ShowsGenerated(fs, p) ==> Abs(Chown(fs, p, owner, group)) == Abs(fs)[p := Tree.F(GetContent(fs, p))]
    ensures q != p || GetNode(fs, p).None? ==> GetNode(Chown(fs, p, owner, group), q) == GetNode(fs, q)
    ensures GetNode(fs, p).Some? ==>
      var n := GetNode(fs, p).value;
      GetNode(Chown(fs, p, owner, group), p) == Some(n.(attrs := NewOwner(n.attrs, owner, group)))
  {
    if GetNode(fs, p).Some? {
      var e := CopyUp(fs, p);
      var f := e.(attrs := NewOwner(e.attrs, owner, group));
      assert Chown(fs, p, owner, group) == WithEntry(fs, p, f);
      CopyUpRefines(fs, p, f);
      CopyUpNodes(fs, p, f, q);
      CopyUpNodes(fs, p, f, p);
    }
  }

  /** Changing the root's attributes puts the root in the overlay: the tree is unchanged,
      but the root's listing gains an empty name. */
  lemma RootCopyUp(fs: Fs, perm: string, owner: Option<string>, group: Option<string>)
    requires Inv(fs)
    ensures Inv(Chmod(fs, [], perm)) && Inv(Chown(fs, [], owner, group))
    ensures Abs(Chmod(fs, [], perm)) == Abs(fs) == Abs(Chown(fs, [], owner, group))
    ensures "" in ListDir(Chmod(fs, [], perm), []) && "" in ListDir(Chown(fs, [], owner, group), [])
  {
    var e := CopyUp(fs, []);
    var e1, e2 := e.(attrs := e.attrs.(perm := perm)), e.(attrs := NewOwner(e.attrs, owner, group));
    assert Chmod(fs, [], perm) == Put(fs, [], e1) && Chown(fs, [], owner, group) == Put(fs, [], e2);
    RootPut(fs, e1);
    RootPut(fs, e2);
    ListDirEmptyName(Chmod(fs, [], perm), []);
    ListDirEmptyName(Chown(fs, [], owner, group), []);
  }
}
