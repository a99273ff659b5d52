/**
  The layers as one map: rendered backend rows, over them the provided dynamic files, over
  them the overlay, less the tombstones. Every query is a lookup in that map and every
  mutation an update of it, attributes included.
 */
module Merging {
  import opened Options
  import opened Paths
  import opened Overlay
  import opened Refinement
  import opened Copying
  import Tree

  type Table = map<Path, Entry>

  function Rendered(b: Base): Table {
    map p | p in b.rows :: b.rows[p].(content := b.render(b.rows[p].content))
  }

  function Provided(b: Base): Table {
    map p | p in b.dynamic :: b.dynamic[p].(content := b.provide(p))
  }

  function Merged(fs: Fs): Table {
    Rendered(fs.base) + Provided(fs.base) + fs.overlay - fs.deleted
  }

  /** Every query of a non-root path is a lookup in the merged table. */
  lemma LookupIsMerged(fs: Fs, p: Path)
    requires Inv(fs) && p != []
    ensures Exists(fs, p) <==> p in Merged(fs)
    ensures IsDir(fs, p) <==> p in Merged(fs) && Merged(fs)[p].kind.Dir?
    ensures IsFile(fs, p) <==> p in Merged(fs) && Merged(fs)[p].kind.File?
    ensures GetNode(fs, p) ==
      if p in Merged(fs) then Some(Node(Merged(fs)[p].kind.Dir?, Merged(fs)[p].attrs)) else None
    ensures GetContent(fs, p) == if p in Merged(fs) then Merged(fs)[p].content else ""
  {
    NoImplicitDirs(fs.base, p);
  }

  /** And so is the abstract tree. */
  lemma TreeIsMerged(fs: Fs, p: Path)
    requires Inv(fs) && p != []
    ensures p in Abs(fs) <==> p in Merged(fs)
    ensures p in Abs(fs) ==>
      Abs(fs)[p] ==
        match Merged(fs)[p].kind
        case Dir => Tree.D
        case File => Tree.F(Merged(fs)[p].content)
        case Generated => Tree.G(Merged(fs)[p].content)
  {
    hide Merged, Inv, Abs, Exists, IsDir, IsFile, GetContent, GetNode;
    LookupIsMerged(fs, p);
    AbsAt(fs, p);
  }

  lemma PutMerged(fs: Fs, p: Path, e: Entry)
    ensures Merged(Put(fs, p, e)) == Merged(fs)[p := e]
  {
  }

  /** A file is stored under its attributes, exactly when its parent is a directory. */
  lemma MkFileMerged(fs: Fs, p: Path, content: string, attrs: Attrs)
    requires Inv(fs) && p != []
    ensures Merged(MkFile(fs, p, content, attrs)) ==
      if Tree.DirAt(Abs(fs), Parent(p)) then Merged(fs)[p := Entry(File, content, attrs)] else Merged(fs)
  {
    hide Merged, Inv, Abs;
    AbsAt(fs, Parent(p));
    PutMerged(fs, p, Entry(File, content, attrs));
  }

  lemma RemoveMerged(fs: Fs, p: Path)
    requires Inv(fs) && p != []
    ensures Merged(Remove(fs, p)) == Merged(fs) - {p}
  {
    LookupIsMerged(fs, p);
  }

  /** Making a directory stores, under its attributes, every path on the way that is missing
      or a file, and nothing else. */
  lemma {:induction false} MkDirPMerged(fs: Fs, p: Path, attrs: Attrs, q: Path)
    requires Inv(fs) && Canonical(p)
    ensures q in Merged(MkDirP(fs, p, attrs)) <==> q in Merged(fs) || (q != [] && q <= p)
    ensures q in Merged(MkDirP(fs, p, attrs)) ==>
      Merged(MkDirP(fs, p, attrs))[q] ==
        if q != [] && q <= p && (q !in Merged(fs) || Merged(fs)[q].kind.File?) then Entry(Dir, "", attrs)
        else Merged(fs)[q]
    decreases |p|
  {
    hide Merged, Inv, Abs, Exists, IsFile, GetNode, GetContent;
    if p != [] {
      var above := MkDirP(fs, Parent(p), attrs);
      MkDirPRefines(fs, Parent(p), attrs);
      MkDirPMerged(fs, Parent(p), attrs, q);
      MkDirPMerged(fs, Parent(p), attrs, p);
      LookupIsMerged(above, p);
      PutMerged(above, p, Entry(Dir, "", attrs));
      assert q <= p <==> q <= Parent(p) || q == p;
      assert !(p <= Parent(p));
    }
  }

  /** What a copy-up leaves in the table: a generated entry becomes a file, a directory that
      was not in the overlay loses what content its row had, and the attributes change. */
  ghost predicate Upped(was: Entry, now: Entry) {
    && now.kind == (if was.kind.Dir? then Dir else File)
    && (!was.kind.Dir? ==> now.content == was.content)
  }

  lemma CopyUpMerged(fs: Fs, p: Path)
    requires Inv(fs) && p != [] && GetNode(fs, p).Some?
    ensures p in Merged(fs) && Upped(Merged(fs)[p], CopyUp(fs, p)) && CopyUp(fs, p).attrs == Merged(fs)[p].attrs
  {
    LookupIsMerged(fs, p);
  }

  lemma EntryMerged(fs: Fs, p: Path, e: Entry)
    requires p !in fs.deleted
    ensures Merged(fs.(overlay := fs.overlay[p := e])) == Merged(fs)[p := e]
  {
  }

  /** Changing the permissions changes them, of that path, and nothing else but by copy-up. */
  lemma ChmodMerged(fs: Fs, p: Path, perm: string)
    requires Inv(fs) && p != []
    ensures p !in Merged(fs) ==> Merged(Chmod(fs, p, perm)) == Merged(fs)
    ensures p in Merged(fs) ==>
      var m, after := Merged(fs), Merged(Chmod(fs, p, perm));
      && p in after && after == m[p := after[p]] && Upped(m[p], after[p])
      && after[p].attrs.owner == m[p].attrs.owner && after[p].attrs.group == m[p].attrs.group
      && after[p].attrs.perm == perm
  {
    hide Merged, CopyUp, Exists, IsDir, IsFile, GetContent, Upped;
    LookupIsMerged(fs, p);
    if p in Merged(fs) {
      CopyUpMerged(fs, p);
      var e := CopyUp(fs, p);
      EntryMerged(fs, p, e.(attrs := e.attrs.(perm := perm))) by { NotDeleted(fs, p); }
      UppedAttrs(Merged(fs)[p], e, e.attrs.(perm := perm));
    }
  }

  lemma NotDeleted(fs: Fs, p: Path)
    requires GetNode(fs, p).Some?
    ensures p !in fs.deleted
  {
  }

  lemma UppedAttrs(was: Entry, now: Entry, attrs: Attrs)
    requires Upped(was, now)
    ensures Upped(was, now.(attrs := attrs))
  {
  }

  /** An owner or group that is given and not empty is set, the other attributes stay. */
  lemma ChownMerged(fs: Fs, p: Path, owner: Option<string>, group: Option<string>)
    requires Inv(fs) && p != []
    ensures p !in Merged(fs) ==> Merged(Chown(fs, p, owner, group)) == Merged(fs)
    ensures p in Merged(fs) ==>
      var m, after := Merged(fs), Merged(Chown(fs, p, owner, group));
      && p in after && after == m[p := after[p]] && Upped(m[p], after[p])
      && after[p].attrs.owner == (if owner.Some? && owner.value != "" then owner.value else m[p].attrs.owner)
      && after[p].attrs.group == (if group.Some? && group.value != "" then group.value else m[p].attrs.group)
      && after[p].attrs.perm == m[p].attrs.perm
  {
    hide Merged, CopyUp, Exists, IsDir, IsFile, GetContent, Upped;
    LookupIsMerged(fs, p);
    if p in Merged(fs) {
      CopyUpMerged(fs, p);
      var e := CopyUp(fs, p);
      EntryMerged(fs, p, e.(attrs := NewOwner(e.attrs, owner, group))) by { NotDeleted(fs, p); }
      UppedAttrs(Merged(fs)[p], e, NewOwner(e.attrs, owner, group));
    }
  }

  // ----- what a copy stores -----

  /** An entry that a copy makes belongs to root, with the default permissions of its kind. */
  ghost predicate Default(e: Entry) {
    && e.attrs.owner == "root" && e.attrs.group == "root"
    && (if e.kind.Dir? then e.attrs.perm == "drwxr-xr-x" && e.content == "" else e.kind.File? && e.attrs.perm == "-rw-r--r--")
  }

  /** Every entry of the table is as it was, or a new one with the defaults. */
  ghost predicate OnlyDefaults(m: Table, after: Table) {
    && (forall q :: q in m ==> q in after)
    && (forall q :: q in after ==> (q in m && after[q] == m[q]) || Default(after[q]))
  }

  lemma DefaultsTrans(m: Table, n: Table, o: Table)
    requires OnlyDefaults(m, n) && OnlyDefaults(n, o)
    ensures OnlyDefaults(m, o)
  {
  }

  lemma {:induction false} CopyDefaults(fs: Fs, src: Path, dst: Path, limit: nat)
    requires Inv(fs) && Canonical(src) && Canonical(dst) && dst != []
    ensures OnlyDefaults(Merged(fs), Merged(CopyRecursive(fs, src, dst, limit).fs))
    decreases limit, 0
  {
    hide Inv, Abs, Merged, MkDirP, MkFile, ListDir, Exists, IsDir, GetContent, CopyItems;
    if limit > 0 {
      if IsDir(fs, src) {
        var made := if Exists(fs, dst) then fs else MkDirP(fs, dst, ROOT_DIR);
        MadeDefaults(fs, dst);
        MkDirPRefines(fs, dst, ROOT_DIR);
        ListedGood(made, src);
        ItemsDefaults(made, src, dst, Listed(made, src), limit - 1);
        DefaultsTrans(Merged(fs), Merged(made), Merged(CopyItems(made, src, dst, Listed(made, src), limit - 1).fs));
      } else {
        MkFileMerged(fs, dst, GetContent(fs, src), ROOT_FILE);
      }
    }
  }

  lemma MadeDefaults(fs: Fs, dst: Path)
    requires Inv(fs) && Canonical(dst)
    ensures OnlyDefaults(Merged(fs), Merged(fs)) && OnlyDefaults(Merged(fs), Merged(MkDirP(fs, dst, ROOT_DIR)))
  {
    hide Inv, Merged, MkDirP;
    forall q
      ensures q in Merged(fs) ==> q in Merged(MkDirP(fs, dst, ROOT_DIR))
      ensures q in Merged(MkDirP(fs, dst, ROOT_DIR)) ==>
        (q in Merged(fs) && Merged(MkDirP(fs, dst, ROOT_DIR))[q] == Merged(fs)[q]) || Default(Merged(MkDirP(fs, dst, ROOT_DIR))[q])
    {
      MkDirPMerged(fs, dst, ROOT_DIR, q);
    }
  }

  lemma {:induction false} ItemsDefaults(fs: Fs, src: Path, dst: Path, items: seq<string>, limit: nat)
    requires Inv(fs) && Canonical(src) && Canonical(dst) && dst != [] && GoodItems(items)
    ensures OnlyDefaults(Merged(fs), Merged(CopyItems(fs, src, dst, items, limit).fs))
    decreases limit, |items| + 1
  {
    hide Inv, Abs, Merged, MkDirP, MkFile, ListDir, Exists, IsDir, GetContent, CopyRecursive;
    if items == [] {
      MadeDefaults(fs, dst);
    } else {
      assert items[0] in items;
      ChildCanonical(src, items[0]);
      ChildCanonical(dst, items[0]);
      var first := CopyRecursive(fs, ChildPath(src, items[0]), ChildPath(dst, items[0]), limit);
      CopyRecursiveKeepsInv(fs, ChildPath(src, items[0]), ChildPath(dst, items[0]), limit);
      CopyDefaults(fs, ChildPath(src, items[0]), ChildPath(dst, items[0]), limit);
      if first.Finished? {
        ItemsDefaults(first.fs, src, dst, items[1..], limit);
        DefaultsTrans(Merged(fs), Merged(first.fs), Merged(CopyItems(fs, src, dst, items, limit).fs));
      }
    }
  }

  /** A copy leaves every entry with its attributes as they were, except those it stores,
      which get the defaults of their kind and not the attributes of the source. */
  lemma CopyStoresDefaults(fs: Fs, src: Path, dst: Path, recursive: bool, limit: nat)
    requires Inv(fs) && Canonical(src) && Canonical(dst) && src != []
    ensures OnlyDefaults(Merged(fs), Merged(Copying.Copy(fs, src, dst, recursive, limit).fs))
  {
    hide Inv, Abs, Merged, MkDirP, MkFile, ListDir, Exists, IsDir, IsFile, GetContent, CopyItems, Effective, OnlyDefaults;
    var target := Effective(fs, src, dst);
    TargetBelowRoot(fs, src, dst);
    MadeDefaults(fs, target);
    FileDefaults(fs, target, GetContent(fs, src));
    BodyDefaults(fs, src, target, limit);
  }

  lemma TargetBelowRoot(fs: Fs, src: Path, dst: Path)
    requires Inv(fs) && Canonical(src) && Canonical(dst) && src != []
    ensures Canonical(Effective(fs, src, dst)) && Effective(fs, src, dst) != []
  {
    AbsAt(fs, []);
    ChildCanonical(dst, Last(src));
  }

  lemma FileDefaults(fs: Fs, target: Path, content: string)
    requires Inv(fs) && target != []
    ensures OnlyDefaults(Merged(fs), Merged(MkFile(fs, target, content, ROOT_FILE)))
  {
    hide Inv, Merged, MkFile;
    MkFileMerged(fs, target, content, ROOT_FILE);
  }

  lemma BodyDefaults(fs: Fs, src: Path, target: Path, limit: nat)
    requires Inv(fs) && Canonical(src) && Canonical(target) && target != []
    ensures
      var made := if Exists(fs, target) then fs else MkDirP(fs, target, ROOT_DIR);
      OnlyDefaults(Merged(fs), Merged(CopyItems(made, src, target, Listed(made, src), limit).fs))
  {
    hide Inv, Abs, Merged, MkDirP, ListDir, Exists, CopyItems, OnlyDefaults;
    var made := if Exists(fs, target) then fs else MkDirP(fs, target, ROOT_DIR);
    MadeDefaults(fs, target);
    MkDirPRefines(fs, target, ROOT_DIR);
    ListedGood(made, src);
    ItemsDefaults(made, src, target, Listed(made, src), limit);
    DefaultsTrans(Merged(fs), Merged(made), Merged(CopyItems(made, src, target, Listed(made, src), limit).fs));
  }
}
