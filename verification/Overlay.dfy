/**
  The layered filesystem state: tombstones over a mutable overlay over dynamic files over
  a read-only indexed backend, with the queries and mutations as functions of that state.
 */
module Overlay {
  import opened Options
  import opened Paths
  import Tree

  datatype Kind = Dir | File | Generated

  datatype Attrs = Attrs(owner: string, group: string, perm: string)

  datatype Entry = Entry(kind: Kind, content: string, attrs: Attrs)

  datatype Node = Node(isDir: bool, attrs: Attrs)

  /** The part no operation changes: backend rows, dynamic entries, template rendering
      of stored contents, and the providers behind the dynamic entries. */
  datatype Base = Base(
    rows: map<Path, Entry>,
    dynamic: map<Path, Entry>,
    render: string -> string,
    provide: Path -> string)

  datatype Fs = Fs(overlay: map<Path, Entry>, deleted: set<Path>, base: Base)

  const ROOT_FILE: Attrs := Attrs("root", "root", "-rw-r--r--")
  const ROOT_DIR: Attrs := Attrs("root", "root", "drwxr-xr-x")

  // ----- backend lookups -----

  /** The row's parent column. */
  predicate HasChildRow(rows: map<Path, Entry>, p: Path) {
    exists q :: q in rows && q != [] && Parent(q) == p
  }

  predicate BackendExists(rows: map<Path, Entry>, p: Path) {
    p in rows || HasChildRow(rows, p)
  }

  predicate BackendIsDir(rows: map<Path, Entry>, p: Path) {
    if p in rows then rows[p].kind.Dir? else BackendExists(rows, p)
  }

  function BackendNames(rows: map<Path, Entry>, p: Path): set<string> {
    set q | q in rows && q != [] && Parent(q) == p :: Last(q)
  }

  // ----- queries -----

  predicate Exists(fs: Fs, p: Path) {
    && p !in fs.deleted
    && (p == [] || p in fs.overlay || p in fs.base.dynamic || BackendExists(fs.base.rows, p))
  }

  predicate IsDir(fs: Fs, p: Path) {
    && p !in fs.deleted
    && (|| p == []
        || (if p in fs.overlay then fs.overlay[p].kind.Dir?
            else if p in fs.base.dynamic then fs.base.dynamic[p].kind.Dir?
            else BackendIsDir(fs.base.rows, p)))
  }

  predicate IsFile(fs: Fs, p: Path) {
    && p !in fs.deleted
    && (if p in fs.overlay then fs.overlay[p].kind.File?
        else if p in fs.base.dynamic then fs.base.dynamic[p].kind.File?
        else if p in fs.base.rows then fs.base.rows[p].kind.File?
        else Exists(fs, p) && !IsDir(fs, p))
  }

  function GetNode(fs: Fs, p: Path): Option<Node> {
    if p in fs.deleted then None
    else if p in fs.overlay then Some(Node(fs.overlay[p].kind.Dir?, fs.overlay[p].attrs))
    else if p in fs.base.dynamic then Some(Node(false, fs.base.dynamic[p].attrs))
    else if p in fs.base.rows then Some(Node(fs.base.rows[p].kind.Dir?, fs.base.rows[p].attrs))
    else if IsDir(fs, p) then Some(Node(true, ROOT_DIR))
    else if Exists(fs, p) then Some(Node(false, ROOT_FILE))
    else None
  }

  function GetContent(fs: Fs, p: Path): string {
    if p in fs.deleted then ""
    else if p in fs.overlay then fs.overlay[p].content
    else if p in fs.base.dynamic then fs.base.provide(p)
    else if p in fs.base.rows then fs.base.render(fs.base.rows[p].content)
    else ""
  }

  /** First components of the keys below `p`. The root key itself starts with the root
      prefix and contributes an empty name. */
  function NamesBelow(keys: set<Path>, p: Path): set<string> {
    (set q | q in keys && p < q :: q[|p|]) + (if p == [] && [] in keys then {""} else {})
  }

  /** `posixpath.join(p, c)`, with the empty name joining to `p` itself. */
  function ChildPath(p: Path, c: string): Path {
    if c == "" then p else p + [c]
  }

  function ListDir(fs: Fs, p: Path): set<string> {
    if p in fs.deleted || !IsDir(fs, p) then {}
    else
      var names := BackendNames(fs.base.rows, p)
        + NamesBelow(fs.base.dynamic.Keys, p) + NamesBelow(fs.overlay.Keys, p);
      set c | c in names && ChildPath(p, c) !in fs.deleted
  }

  // ----- mutations -----

  function Put(fs: Fs, p: Path, e: Entry): Fs {
    fs.(overlay := fs.overlay[p := e], deleted := fs.deleted - {p})
  }

  predicate AcceptsFile(fs: Fs, p: Path) {
    p == [] || (Exists(fs, Parent(p)) && IsDir(fs, Parent(p)))
  }

  function MkFile(fs: Fs, p: Path, content: string, attrs: Attrs): Fs {
    if AcceptsFile(fs, p) then Put(fs, p, Entry(File, content, attrs)) else fs
  }

  function MkDirP(fs: Fs, p: Path, attrs: Attrs): Fs
    decreases |p|
  {
    if p == [] then fs
    else
      var above := MkDirP(fs, Parent(p), attrs);
      if !Exists(above, p) || IsFile(above, p) then Put(above, p, Entry(Dir, "", attrs)) else above
  }

  /** The overlay entry that a permission or ownership change finds or makes. */
  function CopyUp(fs: Fs, p: Path): Entry
    requires GetNode(fs, p).Some?
  {
    if p in fs.overlay then fs.overlay[p]
    else
      var node := GetNode(fs, p).value;
      Entry(if node.isDir then Dir else File, if node.isDir then "" else GetContent(fs, p), node.attrs)
  }

  function Chmod(fs: Fs, p: Path, perm: string): Fs {
    if GetNode(fs, p).None? then fs
    else
      var e := CopyUp(fs, p);
      fs.(overlay := fs.overlay[p := e.(attrs := e.attrs.(perm := perm))])
  }

  function NewOwner(a: Attrs, owner: Option<string>, group: Option<string>): Attrs {
    var b := if owner.Some? && owner.value != "" then a.(owner := owner.value) else a;
    if group.Some? && group.value != "" then b.(group := group.value) else b
  }

  function Chown(fs: Fs, p: Path, owner: Option<string>, group: Option<string>): Fs {
    if GetNode(fs, p).None? then fs
    else
      var e := CopyUp(fs, p);
      fs.(overlay := fs.overlay[p := e.(attrs := NewOwner(e.attrs, owner, group))])
  }

  predicate CanRemove(fs: Fs, p: Path) {
    p != [] && Exists(fs, p)
  }

  function Remove(fs: Fs, p: Path): Fs {
    if !CanRemove(fs, p) then fs
    else fs.(deleted := fs.deleted + {p}, overlay := fs.overlay - {p})
  }

  // ----- well-formedness -----

  ghost predicate ParentClosed(keys: set<Path>) {
    forall q :: q in keys && q != [] ==> Parent(q) in keys
  }

  ghost predicate WfBase(b: Base) {
    && [] !in b.rows && [] !in b.dynamic
    && ParentClosed(b.rows.Keys + {[]})
    && ParentClosed(b.rows.Keys + b.dynamic.Keys + {[]})
    && (forall p :: p in b.dynamic ==> !b.dynamic[p].kind.Dir?)
  }

  /** Every path some layer has ever stored. It only grows. */
  function Known(fs: Fs): set<Path> {
    fs.overlay.Keys + fs.deleted + fs.base.rows.Keys + fs.base.dynamic.Keys + {[]}
  }

  ghost predicate Inv(fs: Fs) {
    && WfBase(fs.base)
    && fs.overlay.Keys !! fs.deleted
    && [] !in fs.deleted
    && ParentClosed(Known(fs))
    && (forall p :: p in Known(fs) ==> Canonical(p))
    && (forall p :: p in fs.overlay ==> !fs.overlay[p].kind.Generated?)
  }

  // ----- the abstract tree -----

  function ItemAt(fs: Fs, p: Path): Tree.Item {
    if IsDir(fs, p) then Tree.D
    else if IsFile(fs, p) then Tree.F(GetContent(fs, p))
    else Tree.G(GetContent(fs, p))
  }

  function Abs(fs: Fs): Tree.Tree {
    map p | p in Known(fs) && Exists(fs, p) :: ItemAt(fs, p)
  }

  lemma NoImplicitDirs(b: Base, p: Path)
    requires WfBase(b)
    ensures p != [] ==> (BackendExists(b.rows, p) <==> p in b.rows)
  {
  }

  /** A path is in the abstract tree exactly when it exists, and holds what the queries report. */
  lemma AbsAt(fs: Fs, p: Path)
    requires Inv(fs)
    ensures p in Abs(fs) <==> Exists(fs, p)
    ensures p in Abs(fs) ==> Abs(fs)[p] == ItemAt(fs, p)
    ensures Tree.DirAt(Abs(fs), p) <==> IsDir(fs, p)
    ensures p != [] ==> (IsFile(fs, p) <==> p in Abs(fs) && Abs(fs)[p].F?)
    ensures Tree.DirAt(Abs(fs), [])
  {
  }
}
