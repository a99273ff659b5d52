/**
  Recursive copy and move. The interpreter bounds the depth of recursive calls; `limit`
  is that bound, and exceeding it is the `RecursionError` that ends the call.
 */
module Copying {
  import opened Paths
  import opened Listing
  import opened Overlay
  import opened Refinement
  import opened Laying
  import Tree

  datatype Copied = Finished(fs: Fs) | RecursionError(fs: Fs)

  datatype Outcome = Returned(fs: Fs, ok: bool) | Raised(fs: Fs)

  ghost function Listed(fs: Fs, p: Path): seq<string> {
    Sorting(ListDir(fs, p))
  }

  ghost function CopyRecursive(fs: Fs, src: Path, dst: Path, limit: nat): Copied
    decreases limit, 0
  {
    if limit == 0 then RecursionError(fs)
    else if IsDir(fs, src) then
      var made := if Exists(fs, dst) then fs else MkDirP(fs, dst, ROOT_DIR);
      CopyItems(made, src, dst, Listed(made, src), limit - 1)
    else Finished(MkFile(fs, dst, GetContent(fs, src), ROOT_FILE))
  }

  ghost function CopyItems(fs: Fs, src: Path, dst: Path, items: seq<string>, limit: nat): Copied
    decreases limit, |items| + 1
  {
    if items == [] then Finished(fs)
    else
      var first := CopyRecursive(fs, ChildPath(src, items[0]), ChildPath(dst, items[0]), limit);
      if first.RecursionError? then first else CopyItems(first.fs, src, dst, items[1..], limit)
  }

  /** A destination that is an existing directory is copied into. */
  function Effective(fs: Fs, src: Path, dst: Path): Path {
    if Exists(fs, dst) && IsDir(fs, dst) && src != [] then dst + [Last(src)] else dst
  }

  ghost function Copy(fs: Fs, src: Path, dst: Path, recursive: bool, limit: nat): Outcome {
    if !Exists(fs, src) then Returned(fs, false)
    else
      var target := Effective(fs, src, dst);
      if !IsDir(fs, src) then Returned(MkFile(fs, target, GetContent(fs, src), ROOT_FILE), true)
      else if !recursive || (Exists(fs, target) && IsFile(fs, target)) then Returned(fs, false)
      else
        var made := if Exists(fs, target) then fs else MkDirP(fs, target, ROOT_DIR);
        var done := CopyItems(made, src, target, Listed(made, src), limit);
        if done.Finished? then Returned(done.fs, true) else Raised(done.fs)
  }

  ghost function Move(fs: Fs, src: Path, dst: Path, limit: nat): Outcome {
    if !Exists(fs, src) then Returned(fs, false)
    else
      var copied := Copy(fs, src, dst, true, limit);
      if copied.Returned? && copied.ok then Returned(Remove(copied.fs, src), CanRemove(copied.fs, src)) else copied
  }

  // ----- the invariant survives any copy -----

  ghost predicate GoodItems(items: seq<string>) {
    forall c :: c in items ==> c == "" || ValidName(c)
  }

  lemma ListedGood(fs: Fs, p: Path)
    requires Inv(fs)
    ensures GoodItems(Listed(fs, p))
  {
    forall c | c in ListDir(fs, p) && c != "" ensures ValidName(c) {
      ListDirNames(fs, p, c);
      NoImplicitDirs(fs.base, p + [c]);
      assert Canonical(p + [c]) && (p + [c])[|p|] == c;
    }
  }

  lemma ChildCanonical(p: Path, c: string)
    requires Canonical(p) && (c == "" || ValidName(c))
    ensures Canonical(ChildPath(p, c))
  {
  }

  lemma {:induction false} CopyRecursiveKeepsInv(fs: Fs, src: Path, dst: Path, limit: nat)
    requires Inv(fs) && Canonical(src) && Canonical(dst)
    ensures Inv(CopyRecursive(fs, src, dst, limit).fs)
    decreases limit, 0
  {
    hide Inv, Abs, MkDirP, MkFile, ListDir, Exists, IsDir, GetContent;
    if limit > 0 {
      if IsDir(fs, src) {
        var made := if Exists(fs, dst) then fs else MkDirP(fs, dst, ROOT_DIR);
        MkDirPRefines(fs, dst, ROOT_DIR);
        ListedGood(made, src);
        CopyItemsKeepsInv(made, src, dst, Listed(made, src), limit - 1);
      } else {
        MkFileRefines(fs, dst, GetContent(fs, src), ROOT_FILE);
      }
    }
  }

  lemma {:induction false} CopyItemsKeepsInv(fs: Fs, src: Path, dst: Path, items: seq<string>, limit: nat)
    requires Inv(fs) && Canonical(src) && Canonical(dst) && GoodItems(items)
    ensures Inv(CopyItems(fs, src, dst, items, limit).fs)
    decreases limit, |items| + 1
  {
    if items != [] {
      assert items[0] in items;
      ChildCanonical(src, items[0]);
      ChildCanonical(dst, items[0]);
      CopyRecursiveKeepsInv(fs, ChildPath(src, items[0]), ChildPath(dst, items[0]), limit);
      var first := CopyRecursive(fs, ChildPath(src, items[0]), ChildPath(dst, items[0]), limit);
      CopyItemsKeepsInv(first.fs, src, dst, items[1..], limit);
    }
  }

  lemma CopyKeepsInv(fs: Fs, src: Path, dst: Path, recursive: bool, limit: nat)
    requires Inv(fs) && Canonical(src) && Canonical(dst)
    ensures Inv(Copy(fs, src, dst, recursive, limit).fs)
    ensures Inv(Move(fs, src, dst, limit).fs)
  {
    hide Inv, Abs, MkDirP, MkFile, ListDir, Exists, IsDir, GetContent;
    var target := Effective(fs, src, dst);
    assert Canonical(target) by {
      if src != [] { ChildCanonical(dst, Last(src)); }
    }
    MkFileRefines(fs, target, GetContent(fs, src), ROOT_FILE);
    MkDirPRefines(fs, target, ROOT_DIR);
    var made := if Exists(fs, target) then fs else MkDirP(fs, target, ROOT_DIR);
    ListedGood(made, src);
    CopyItemsKeepsInv(made, src, target, Listed(made, src), limit);
    RemoveKeepsInv(Copy(fs, src, dst, true, limit).fs, src);
  }

  // ----- a copy is laying from a snapshot -----

  /** The copy reads nothing that it has written: the target is not inside the source, and
      when the source is inside the target, no entry of it is on the way down to it. */
  ghost predicate Apart(t: Tree.Tree, src: Path, dst: Path) {
    !(src < dst) && (dst < src && Tree.DirAt(t, src) ==> src + [src[|dst|]] !in t)
  }

  /** Going from `dst` down to the child `c` does not go towards `src`. */
  predicate Aside(src: Path, dst: Path, c: string) {
    !(src < dst) && (dst < src ==> src[|dst|] != c)
  }

  ghost predicate CanCopy(fs: Fs, src: Path, dst: Path) {
    && Inv(fs) && Canonical(src) && Canonical(dst)
    && src != [] && dst != [] && Exists(fs, src)
    && Apart(Abs(fs), src, dst)
  }

  lemma ListedChildren(fs: Fs, p: Path)
    requires Inv(fs) && IsDir(fs, p) && !(p == [] && [] in fs.overlay)
    ensures forall c :: c in Listed(fs, p) <==> p + [c] in Abs(fs)
    ensures forall c :: c in Listed(fs, p) ==> ValidName(c)
    ensures Sorted(Listed(fs, p))
    ensures Listed(fs, p) == Names(Abs(fs), p)
  {
    ListDirExact(fs, p);
    AbsAt(fs, p);
    ListedGood(fs, p);
    ListDirEmptyName(fs, p);
  }

  /** Where children of two paths are on one way. */
  lemma ChildrenMeet(p: Path, d: string, r: Path, c: string, q: Path)
    requires p + [d] <= q && r + [c] <= q
    ensures p < r || (r < p && p[|r|] == c) || (p == r && c == d)
  {
    assert p == q[..|p|] && r == q[..|r|] && q[|p|] == d && q[|r|] == c;
  }

  lemma StepDown(p: Path, r: Path, c: string)
    requires p + [c] < r + [c]
    ensures p < r && r[|p|] == c
  {
    assert p + [c] == (r + [c])[..|p| + 1] == r[..|p| + 1];
  }

  lemma ChildApart(t: Tree.Tree, src: Path, dst: Path, c: string)
    requires Aside(src, dst, c)
    ensures Apart(t, src + [c], dst + [c])
  {
    if src + [c] < dst + [c] { StepDown(src, dst, c); }
    if dst + [c] < src + [c] { StepDown(dst, src, c); }
  }

  /** What is written for one child is off the way to the others of the source. */
  lemma OffWay(src: Path, dst: Path, c: string, d: string, q: Path)
    requires Aside(src, dst, c) && c != d && src + [d] <= q
    ensures !(dst + [c] <= q) && !(q <= dst + [c])
  {
    if dst + [c] <= q { ChildrenMeet(src, d, dst, c, q); }
    if q <= dst + [c] { ChildrenMeet(src, d, dst, c, dst + [c]); }
  }

  lemma SourceKept(t: Tree.Tree, snap: Tree.Tree, src: Path, dst: Path, c: string, d: string)
    requires src + [c] in snap && Tree.DirAt(t, []) && Aside(src, dst, c) && c != d
    requires Same(snap, t, src + [d])
    ensures Same(snap, Lay(t, snap, src + [c], dst + [c]), src + [d])
  {
    hide Lay;
    var v := Lay(t, snap, src + [c], dst + [c]);
    forall q | src + [d] <= q
      ensures q in snap <==> q in v
      ensures q in snap ==> snap[q] == v[q]
    {
      OffWay(src, dst, c, d, q);
      LayLocal(t, snap, src + [c], dst + [c], q);
    }
  }

  lemma OpenedSource(t: Tree.Tree, snap: Tree.Tree, src: Path, dst: Path)
    requires Tree.DirAt(t, []) && src in snap && Same(snap, t, src) && !(src < dst)
    ensures Same(snap, Opened(t, dst), src)
  {
    SameAt(snap, t, src);
    forall q | src <= q
      ensures q in snap <==> q in Opened(t, dst)
      ensures q in snap ==> snap[q] == Opened(t, dst)[q]
    {
      OpenedAt(t, dst, q);
      assert q <= dst ==> q == src == dst;
    }
  }

  /** A recursive copy that finishes is the laying of its source, read from a snapshot taken
      before, on the abstract tree; it finishes when the recursion bound exceeds the depth of
      the source. */
  lemma {:induction false} CopyRecursiveLays(fs: Fs, snap: Tree.Tree, src: Path, dst: Path, limit: nat)
    requires Inv(fs) && Canonical(src) && Canonical(dst) && src != [] && dst != []
    requires src in snap && Same(snap, Abs(fs), src) && Apart(snap, src, dst)
    ensures Inv(CopyRecursive(fs, src, dst, limit).fs)
    ensures CopyRecursive(fs, src, dst, limit).Finished? ==>
      Abs(CopyRecursive(fs, src, dst, limit).fs) == Lay(Abs(fs), snap, src, dst)
    ensures FitsWithin(snap, src, limit) ==> CopyRecursive(fs, src, dst, limit).Finished?
    decreases limit, 0, 0
  {
    hide Inv, Abs, MkDirP, MkFile, ListDir, Exists, IsDir, GetContent, CopyItems, FitsWithin, Same, Apart, Names;
    CopyRecursiveKeepsInv(fs, src, dst, limit);
    AbsAt(fs, src);
    SameAt(snap, Abs(fs), src);
    if limit == 0 {
      NeverFitsNothing(snap, src);
    } else if IsDir(fs, src) {
      CopyDirectoryLays(fs, snap, src, dst, limit - 1);
      if FitsWithin(snap, src, limit) { FitsBelow(snap, src, limit); }
    } else {
      MkFileRefines(fs, dst, GetContent(fs, src), ROOT_FILE);
    }
  }

  /** The body of a directory copy, shared by the outer call and the recursive helper. */
  lemma {:induction false} CopyDirectoryLays(fs: Fs, snap: Tree.Tree, src: Path, dst: Path, limit: nat)
    requires Inv(fs) && Canonical(src) && Canonical(dst) && src != [] && dst != []
    requires Tree.DirAt(snap, src) && Same(snap, Abs(fs), src) && Apart(snap, src, dst)
    ensures
      var made := if Exists(fs, dst) then fs else MkDirP(fs, dst, ROOT_DIR);
      var r := CopyItems(made, src, dst, Listed(made, src), limit);
      && (r.Finished? ==> Abs(r.fs) == Lay(Abs(fs), snap, src, dst))
      && ((forall c :: FitsWithin(snap, src + [c], limit)) ==> r.Finished?)
    decreases limit, 2, 0
  {
    hide Inv, Abs, MkDirP, MkFile, ListDir, Exists, IsDir, GetContent, CopyItems, FitsWithin, Same, Names, Listed, Lay;
    var t := Abs(fs);
    AbsAt(fs, dst);
    AbsAt(fs, []);
    MkDirPRefines(fs, dst, ROOT_DIR);
    var made := if Exists(fs, dst) then fs else MkDirP(fs, dst, ROOT_DIR);
    assert Inv(made) && Abs(made) == Opened(t, dst);
    OpenedSource(t, snap, src, dst);
    SameAt(snap, Abs(made), src);
    AbsAt(made, src);
    ListedChildren(made, src);
    SameNames(snap, Abs(made), src);
    var items := Names(snap, src);
    assert Listed(made, src) == items;
    forall c | c in items ensures Same(snap, Abs(made), src + [c]) && Aside(src, dst, c) {
      SameBelow(snap, Abs(made), src, c);
    }
    CopyItemsLays(made, snap, src, dst, items, limit);
    LayOfDirectory(t, snap, src, dst);
  }

  lemma SameBelow(t: Tree.Tree, u: Tree.Tree, p: Path, c: string)
    requires Same(t, u, p)
    ensures Same(t, u, p + [c])
  {
    forall q | p + [c] <= q
      ensures q in t <==> q in u
      ensures q in t ==> t[q] == u[q]
    {
      assert p <= q;
    }
  }

  lemma {:induction false} CopyItemsLays(fs: Fs, snap: Tree.Tree, src: Path, dst: Path, items: seq<string>, limit: nat)
    requires Inv(fs) && Canonical(src) && Canonical(dst) && src in snap && Sorted(items)
    requires forall c :: c in items ==>
      ValidName(c) && src + [c] in snap && Same(snap, Abs(fs), src + [c]) && Aside(src, dst, c)
    ensures CopyItems(fs, src, dst, items, limit).Finished? ==>
      Abs(CopyItems(fs, src, dst, items, limit).fs) == LayItems(Abs(fs), snap, src, dst, items)
    ensures (forall c :: c in items ==> FitsWithin(snap, src + [c], limit)) ==>
      CopyItems(fs, src, dst, items, limit).Finished?
    decreases limit, 1, |items|
  {
    hide Inv, Abs, MkDirP, MkFile, ListDir, Exists, IsDir, GetContent, CopyRecursive, FitsWithin, Same, Aside, Lay;
    if items != [] {
      var c := items[0];
      assert c in items && ValidName(c) && Aside(src, dst, c);
      ChildApart(snap, src, dst, c);
      CopyRecursiveLays(fs, snap, src + [c], dst + [c], limit);
      var first := CopyRecursive(fs, src + [c], dst + [c], limit);
      assert first == CopyRecursive(fs, ChildPath(src, c), ChildPath(dst, c), limit);
      if first.Finished? {
        AbsAt(fs, []);
        forall d | d in items[1..] ensures Same(snap, Abs(first.fs), src + [d]) {
          assert d in items && d != c;
          SourceKept(Abs(fs), snap, src, dst, c, d);
        }
        assert forall d :: d in items[1..] ==> d in items;
        CopyItemsLays(first.fs, snap, src, dst, items[1..], limit);
      }
    }
  }

  // ----- copying a directory into its own subtree -----

  /** Making `p` would change nothing on the way to it, which from `s` on is one of
      directories. */
  ghost predicate Way(t: Tree.Tree, s: Path, p: Path) {
    Tree.Settled(t, p) && forall k :: |s| <= k <= |p| ==> Tree.DirAt(t, p[..k])
  }

  /** Nothing is stored at or below `p`: it is absent and has no residue. */
  ghost predicate Fresh(t: Tree.Tree, p: Path) {
    forall r :: r in t ==> !(p <= r)
  }

  /** A generated entry stands strictly between the source and a target inside it. */
  ghost predicate Walled(t: Tree.Tree, src: Path, target: Path) {
    exists k :: |src| < k < |target| && target[..k] in t && t[target[..k]].G?
  }

  /** Sorted names of children of `src` whose places below the directory `dst` are fresh. */
  ghost predicate ItemsReady(t: Tree.Tree, src: Path, dst: Path, items: seq<string>) {
    && Tree.DirAt(t, []) && Way(t, src, dst) && Sorted(items)
    && forall c :: c in items ==> ValidName(c) && src + [c] in t && Fresh(t, dst + [c])
  }

  lemma WayHas(t: Tree.Tree, s: Path, p: Path, q: Path)
    requires Way(t, s, p) && s <= q <= p
    ensures Tree.DirAt(t, q)
  {
    assert p[..|q|] == q;
  }

  lemma WayBelow(t: Tree.Tree, s: Path, p: Path)
    requires Way(t, s, p) && s < p
    ensures Way(t, s + [p[|s|]], p) && s + [p[|s|]] <= p
  {
  }

  /** Without a generated entry between them, making the target makes the way to it. */
  lemma WayMade(t: Tree.Tree, src: Path, dst: Path)
    requires Tree.DirAt(t, []) && Tree.DirAt(t, src) && src < dst && dst !in t && !Walled(t, src, dst)
    ensures Way(Tree.Mkdirs(t, dst), src, dst)
  {
    Tree.MkdirsSettles(t, dst);
    forall k | |src| <= k <= |dst| ensures Tree.DirAt(Tree.Mkdirs(t, dst), dst[..k]) {
      Tree.MkdirsAt(t, dst, dst[..k]);
      assert dst[..|src|] == src && dst[..|dst|] == dst;
    }
  }

  lemma FreshMade(t: Tree.Tree, p: Path, c: string)
    requires Tree.DirAt(t, []) && Fresh(t, p)
    ensures Fresh(Tree.Mkdirs(t, p), p + [c])
  {
    forall r | r in Tree.Mkdirs(t, p) ensures !(p + [c] <= r) {
      Tree.MkdirsAt(t, p, r);
    }
  }

  lemma {:induction false} NestedRaises(fs: Fs, src: Path, dst: Path, limit: nat)
    requires Inv(fs) && Canonical(src) && Canonical(dst) && src < dst && !(src == [] && [] in fs.overlay)
    requires Fresh(Abs(fs), dst) && Way(Abs(fs), src, Parent(dst))
    ensures CopyRecursive(fs, src, dst, limit).RecursionError?
    decreases limit, 0, 0
  {
    hide Inv, Abs, MkDirP, MkFile, ListDir, Exists, IsDir, GetContent, CopyItems, Fresh;
    if limit > 0 {
      var t := Abs(fs);
      WayHas(t, src, Parent(dst), src);
      assert forall k :: |src| <= k < |dst| ==> dst[..k] == Parent(dst)[..k];
      AbsAt(fs, src);
      NestedBodyRaises(fs, src, dst, limit - 1);
    }
  }

  lemma {:induction false} NestedBodyRaises(fs: Fs, src: Path, dst: Path, limit: nat)
    requires Inv(fs) && Canonical(src) && Canonical(dst) && src < dst && !(src == [] && [] in fs.overlay)
    requires IsDir(fs, src) && Fresh(Abs(fs), dst) && !Walled(Abs(fs), src, dst)
    ensures !Exists(fs, dst)
    ensures
      var made := MkDirP(fs, dst, ROOT_DIR);
      CopyItems(made, src, dst, Listed(made, src), limit).RecursionError?
    decreases limit, 2, 0
  {
    hide Inv, Abs, MkDirP, MkFile, ListDir, Exists, IsDir, GetContent, CopyItems, Tree.Mkdirs, Way, Walled, Fresh, Names;
    var t := Abs(fs);
    FreshAbsent(t, dst);
    AbsAt(fs, dst);
    AbsAt(fs, src);
    AbsAt(fs, []);
    var made := MkDirP(fs, dst, ROOT_DIR);
    MkDirPRefines(fs, dst, ROOT_DIR);
    WayMade(t, src, dst);
    WayHas(Abs(made), src, dst, src);
    AbsAt(made, src);
    AbsAt(made, []);
    MkDirPAvoidsRoot(fs, dst, ROOT_DIR);
    ListedChildren(made, src);
    var items := Listed(made, src);
    WayHas(Abs(made), src, dst, src + [dst[|src|]]);
    forall c | c in items ensures Fresh(Abs(made), dst + [c]) { FreshMade(t, dst, c); }
    NestedItemsRaise(made, src, dst, items, limit);
  }

  lemma FreshAbsent(t: Tree.Tree, p: Path)
    requires Fresh(t, p)
    ensures p !in t
  {
    assert p <= p;
  }

  lemma {:induction false} MkDirPAvoidsRoot(fs: Fs, p: Path, attrs: Attrs)
    ensures [] in MkDirP(fs, p, attrs).overlay <==> [] in fs.overlay
    decreases |p|
  {
    if p != [] { MkDirPAvoidsRoot(fs, Parent(p), attrs); }
  }

  lemma {:induction false} NestedItemsRaise(fs: Fs, src: Path, dst: Path, items: seq<string>, limit: nat)
    requires Inv(fs) && Canonical(src) && Canonical(dst) && src < dst && dst[|src|] in items
    requires ItemsReady(Abs(fs), src, dst, items)
    ensures CopyItems(fs, src, dst, items, limit).RecursionError?
    decreases limit, 1, |items|
  {
    hide Inv, Abs, MkDirP, MkFile, ListDir, Exists, IsDir, GetContent, CopyRecursive, FitsWithin, Way, Fresh;
    var x := items[0];
    assert x in items && ValidName(x) && src + [x] in Abs(fs);
    assert CopyItems(fs, src, dst, items, limit) ==
      var first := CopyRecursive(fs, src + [x], dst + [x], limit);
      if first.RecursionError? then first else CopyItems(first.fs, src, dst, items[1..], limit);
    if x == dst[|src|] {
      assert Parent(dst + [x]) == dst;
      WayBelow(Abs(fs), src, dst);
      NestedRaises(fs, src + [x], dst + [x], limit);
    } else {
      hide CopyItems;
      SiblingCopied(fs, src, dst, items, limit);
      var first := CopyRecursive(fs, src + [x], dst + [x], limit);
      if first.Finished? {
        assert items == [x] + items[1..];
        NestedItemsRaise(first.fs, src, dst, items[1..], limit);
      }
    }
  }

  /** A child of the source that does not lead to the target is copied as usual. */
  lemma {:induction false} SiblingCopied(fs: Fs, src: Path, dst: Path, items: seq<string>, limit: nat)
    requires Inv(fs) && Canonical(src) && Canonical(dst) && src < dst && items != [] && items[0] != dst[|src|]
    requires ItemsReady(Abs(fs), src, dst, items)
    ensures
      var first := CopyRecursive(fs, src + [items[0]], dst + [items[0]], limit);
      first.Finished? ==>
        && Inv(first.fs) && ItemsReady(Abs(first.fs), src, dst, items[1..])
  {
    hide Inv, Abs, Exists, IsDir, CopyRecursive, FitsWithin, Way, Fresh, Lay, Same;
    var t, x := Abs(fs), items[0];
    assert x in items && src + [x] in t;
    assert (dst + [x])[|src|] == dst[|src|] && (src + [x])[|src|] == x;
    assert Same(t, t, src + [x]) by { SameItself(t, src + [x]); }
    CopyRecursiveLays(fs, t, src + [x], dst + [x], limit);
    var first := CopyRecursive(fs, src + [x], dst + [x], limit);
    if first.Finished? {
      RestReady(t, src, dst, items);
    }
  }

  lemma SameItself(t: Tree.Tree, p: Path)
    ensures Same(t, t, p)
  {
  }

  lemma RestReady(t: Tree.Tree, src: Path, dst: Path, items: seq<string>)
    requires ItemsReady(t, src, dst, items) && items != []
    ensures src + [items[0]] in t
    ensures ItemsReady(Lay(t, t, src + [items[0]], dst + [items[0]]), src, dst, items[1..])
  {
    hide Lay, Same;
    var x := items[0];
    assert x in items && src + [x] in t;
    var v := Lay(t, t, src + [x], dst + [x]);
    LayAbove(t, t, src + [x], dst + [x], []);
    forall k | 0 <= k <= |dst| ensures dst[..k] in v && v[dst[..k]] == t[dst[..k]] {
      LayAbove(t, t, src + [x], dst + [x], dst[..k]);
    }
    forall d | d in items[1..] ensures ValidName(d) && src + [d] in v && Fresh(v, dst + [d]) {
      assert d in items && d != x;
      LayGrows(t, t, src + [x], dst + [x], src + [d]);
      LaySibling(t, t, src, dst, x, d);
      FreshLocal(t, v, dst + [d]);
    }
  }

  lemma FreshLocal(t: Tree.Tree, u: Tree.Tree, p: Path)
    requires Same(t, u, p) && Fresh(t, p)
    ensures Fresh(u, p)
  {
  }

  // ----- a generated entry on the way lets the copy end -----

  /** The two trees agree on everything that is not strictly below `x`. */
  ghost predicate SameOutside(t: Tree.Tree, u: Tree.Tree, x: Path) {
    forall q :: !(x < q) ==> (q in t <==> q in u) && (q in t ==> t[q] == u[q])
  }

  /** A generated entry, with nothing missing and no file on the way to it. */
  ghost predicate Wall(t: Tree.Tree, x: Path) {
    Tree.DirAt(t, []) && Tree.Settled(t, x) && x in t && t[x].G?
  }

  lemma WallKept(t: Tree.Tree, u: Tree.Tree, x: Path)
    requires Wall(t, x) && SameOutside(t, u, x)
    ensures Wall(u, x)
  {
    forall k | 0 <= k <= |x| ensures x[..k] in u && !u[x[..k]].F? {
      assert !(x < x[..k]);
    }
    assert x != [] && !(x < []);
  }

  /** Walks that do not start below a wall do not pass it. */
  lemma WalkOutside(t: Tree.Tree, u: Tree.Tree, x: Path, s: Path, q: Path)
    requires Wall(t, x) && SameOutside(t, u, x) && !(x < s)
    ensures Tree.InWalk(t, s, q) <==> Tree.InWalk(u, s, q)
  {
    WallKept(t, u, x);
    if s <= q && x < q {
      assert q[..|x|] == x && q[..|s|] == s;
      assert s <= x;
      assert !Tree.DirAt(t, q[..|x|]) && !Tree.DirAt(u, q[..|x|]);
    } else if s <= q {
      forall k | |s| <= k <= |q| ensures Tree.DirAt(t, q[..k]) <==> Tree.DirAt(u, q[..k]) {
        assert !(x < q[..k]);
      }
      assert !(x < q);
    }
  }

  lemma FitsOutside(t: Tree.Tree, u: Tree.Tree, x: Path, s: Path, limit: nat)
    requires Wall(t, x) && SameOutside(t, u, x) && !(x < s)
    ensures FitsWithin(t, s, limit) <==> FitsWithin(u, s, limit)
  {
    hide Tree.InWalk, Wall, SameOutside;
    forall q ensures Tree.InWalk(t, s, q) <==> Tree.InWalk(u, s, q) { WalkOutside(t, u, x, s, q); }
  }

  lemma MadeOutside(t: Tree.Tree, x: Path, d: Path)
    requires Wall(t, x) && x < d
    ensures SameOutside(t, Tree.Mkdirs(t, d), x)
  {
    forall q | !(x < q)
      ensures q in t <==> q in Tree.Mkdirs(t, d)
      ensures q in t ==> t[q] == Tree.Mkdirs(t, d)[q]
    {
      Tree.MkdirsAt(t, d, q);
      if q <= d {
        assert q <= x && q == x[..|q|];
      }
    }
  }

  lemma OutsideTrans(t: Tree.Tree, u: Tree.Tree, v: Tree.Tree, x: Path)
    requires SameOutside(t, u, x) && SameOutside(u, v, x)
    ensures SameOutside(t, v, x)
  {
  }

  lemma OutsideAt(t: Tree.Tree, u: Tree.Tree, x: Path, q: Path)
    requires SameOutside(t, u, x) && !(x < q)
    ensures q in t <==> q in u
    ensures q in t ==> t[q] == u[q]
  {
  }

  /** A copy to anywhere below a wall, of anything not below it, finishes and writes only
      below the wall. */
  lemma {:induction false} WalledFinishes(fs: Fs, src: Path, dst: Path, x: Path, limit: nat)
    requires Inv(fs) && Canonical(src) && Canonical(dst) && src != []
    requires Wall(Abs(fs), x) && x < dst && !(x < src) && src in Abs(fs) && FitsWithin(Abs(fs), src, limit)
    ensures
      var r := CopyRecursive(fs, src, dst, limit);
      r.Finished? && Inv(r.fs) && SameOutside(Abs(fs), Abs(r.fs), x)
    decreases limit, 0, 0
  {
    hide Inv, Abs, MkDirP, MkFile, ListDir, Exists, IsDir, GetContent, CopyItems, FitsWithin, Wall, Tree.Mkdirs;
    var t := Abs(fs);
    AbsAt(fs, src);
    NeverFitsNothing(t, src);
    if IsDir(fs, src) {
      FitsBelow(t, src, limit);
      WalledBody(fs, src, dst, x, limit - 1);
    } else {
      MkFileRefines(fs, dst, GetContent(fs, src), ROOT_FILE);
    }
  }

  lemma {:induction false} WalledBody(fs: Fs, src: Path, dst: Path, x: Path, limit: nat)
    requires Inv(fs) && Canonical(src) && Canonical(dst) && !(src == [] && [] in fs.overlay)
    requires Wall(Abs(fs), x) && x < dst && !(x < src) && IsDir(fs, src)
    requires forall c :: FitsWithin(Abs(fs), src + [c], limit)
    ensures
      var made := if Exists(fs, dst) then fs else MkDirP(fs, dst, ROOT_DIR);
      var r := CopyItems(made, src, dst, Listed(made, src), limit);
      r.Finished? && Inv(r.fs) && SameOutside(Abs(fs), Abs(r.fs), x)
    decreases limit, 2, 0
  {
    hide Inv, Abs, MkDirP, MkFile, ListDir, Exists, IsDir, GetContent, CopyItems, FitsWithin, Wall, Tree.Mkdirs, SameOutside, Names;
    var t := Abs(fs);
    AbsAt(fs, src);
    WallBeside(t, x, src);
    MkDirPRefines(fs, dst, ROOT_DIR);
    MkDirPAvoidsRoot(fs, dst, ROOT_DIR);
    MadeOutside(t, x, dst);
    var made := if Exists(fs, dst) then fs else MkDirP(fs, dst, ROOT_DIR);
    var u := Abs(made);
    assert SameOutside(t, u, x) by { OutsideItself(t, x); }
    WallKept(t, u, x);
    OutsideAt(t, u, x, src);
    AbsAt(made, src);
    ListedChildren(made, src);
    var items := Listed(made, src);
    forall c | c in items ensures FitsWithin(u, src + [c], limit) && !(x < src + [c]) {
      FitsOutside(t, u, x, src + [c], limit);
    }
    WalledItems(made, src, dst, x, items, limit);
    OutsideTrans(t, u, Abs(CopyItems(made, src, dst, items, limit).fs), x);
  }

  lemma OutsideItself(t: Tree.Tree, x: Path)
    ensures SameOutside(t, t, x)
  {
  }

  /** The children of a directory that is not below a wall are not below it either. */
  lemma WallBeside(t: Tree.Tree, x: Path, s: Path)
    requires Wall(t, x) && Tree.DirAt(t, s) && !(x < s)
    ensures forall c :: !(x < s + [c])
  {
    forall c ensures !(x < s + [c]) {
      if x < s + [c] { StrictlyAbove(x, s, c); }
    }
  }

  lemma StrictlyAbove(x: Path, s: Path, c: string)
    requires x < s + [c]
    ensures x < s || x == s
  {
    assert x == (s + [c])[..|x|] == s[..|x|];
    assert s[..|s|] == s;
  }

  lemma {:induction false} WalledItems(fs: Fs, src: Path, dst: Path, x: Path, items: seq<string>, limit: nat)
    requires Inv(fs) && Canonical(src) && Canonical(dst)
    requires Wall(Abs(fs), x) && x < dst
    requires forall c :: c in items ==>
      ValidName(c) && src + [c] in Abs(fs) && !(x < src + [c]) && FitsWithin(Abs(fs), src + [c], limit)
    ensures
      var r := CopyItems(fs, src, dst, items, limit);
      r.Finished? && Inv(r.fs) && SameOutside(Abs(fs), Abs(r.fs), x)
    decreases limit, 1, |items|
  {
    hide Inv, Abs, CopyRecursive, FitsWithin, Wall, SameOutside;
    var t := Abs(fs);
    if items == [] {
      OutsideItself(t, x);
    } else {
      var c := items[0];
      assert c in items && ValidName(c);
      assert CopyRecursive(fs, src + [c], dst + [c], limit) == CopyRecursive(fs, ChildPath(src, c), ChildPath(dst, c), limit);
      WalledFinishes(fs, src + [c], dst + [c], x, limit);
      var first := CopyRecursive(fs, src + [c], dst + [c], limit).fs;
      WallKept(t, Abs(first), x);
      forall d | d in items[1..]
        ensures ValidName(d) && src + [d] in Abs(first) && !(x < src + [d]) && FitsWithin(Abs(first), src + [d], limit)
      {
        assert d in items;
        OutsideAt(t, Abs(first), x, src + [d]);
        FitsOutside(t, Abs(first), x, src + [d], limit);
      }
      WalledItems(first, src, dst, x, items[1..], limit);
      OutsideTrans(t, Abs(first), Abs(CopyItems(first, src, dst, items[1..], limit).fs), x);
    }
  }

  // ----- copies -----

  /** A directory is not copied onto a plain file: the copy returns false. */
  predicate Refuses(fs: Fs, src: Path, target: Path) {
    IsDir(fs, src) && Exists(fs, target) && IsFile(fs, target)
  }

  /** Where a copy goes, in the tree's terms: into a destination that is a directory, under
      the source's own name, and otherwise to the destination itself. */
  lemma TargetWritten(fs: Fs, src: Path, dst: Path)
    requires Inv(fs) && src != []
    ensures Effective(fs, src, dst) == if Tree.DirAt(Abs(fs), dst) then dst + [Last(src)] else dst
    ensures Effective(fs, src, dst) != []
    ensures Canonical(src) && Canonical(dst) ==> Canonical(Effective(fs, src, dst))
  {
    AbsAt(fs, dst);
    AbsAt(fs, []);
  }

  /** A copy of what does not exist, and one of a directory that is not recursive, return
      false and change nothing. */
  lemma CopyDeclines(fs: Fs, src: Path, dst: Path, recursive: bool, limit: nat)
    requires Inv(fs)
    requires !(src in Abs(fs)) || (Tree.DirAt(Abs(fs), src) && !recursive)
    ensures Copy(fs, src, dst, recursive, limit) == Returned(fs, false)
    ensures !(src in Abs(fs)) ==> Move(fs, src, dst, limit) == Returned(fs, false)
  {
    hide Abs, Inv;
    AbsAt(fs, src);
  }

  /** A copy, apart from its source or onto it, that returns has laid the source, as it was
      before, at its target, or has refused and changed nothing; it refuses exactly a
      directory onto a plain file. It returns when the recursion bound exceeds the depth of
      the source. */
  lemma CopyIsLaying(fs: Fs, src: Path, dst: Path, limit: nat)
    requires Inv(fs) && Canonical(src) && Canonical(dst) && src != [] && src in Abs(fs)
    requires
      var target := if Tree.DirAt(Abs(fs), dst) then dst + [Last(src)] else dst;
      Apart(Abs(fs), src, target)
    ensures FitsWithin(Abs(fs), src, limit + 1) ==> Copy(fs, src, dst, true, limit).Returned?
    ensures Copy(fs, src, dst, true, limit).Returned? ==>
      var t, after := Abs(fs), Copy(fs, src, dst, true, limit);
      var target := if Tree.DirAt(t, dst) then dst + [Last(src)] else dst;
      && Inv(after.fs)
      && (after.ok <==> !(t[src].D? && target in t && t[target].F?))
      && Abs(after.fs) == if after.ok then Lay(t, t, src, target) else t
  {
    hide Inv, Abs, Copy, Exists, IsDir, IsFile, Effective, Apart, FitsWithin, Lay;
    TargetWritten(fs, src, dst);
    AbsAt(fs, src);
    AbsAt(fs, Effective(fs, src, dst));
    CopyLays(fs, src, dst, limit);
  }

  /** The same, with the target computed from the layers. */
  lemma CopyLays(fs: Fs, src: Path, dst: Path, limit: nat)
    requires CanCopy(fs, src, Effective(fs, src, dst))
    ensures src in Abs(fs)
    ensures FitsWithin(Abs(fs), src, limit + 1) ==> Copy(fs, src, dst, true, limit).Returned?
    ensures Copy(fs, src, dst, true, limit).Returned? ==>
      var t, target, after := Abs(fs), Effective(fs, src, dst), Copy(fs, src, dst, true, limit);
      && Inv(after.fs)
      && (after.ok <==> !Refuses(fs, src, target))
      && Abs(after.fs) == if after.ok then Lay(t, t, src, target) else t
  {
    hide Inv, Abs, MkDirP, MkFile, ListDir, Exists, IsDir, IsFile, GetContent, CopyItems, Effective, Apart, FitsWithin, Names, Same;
    var t, target := Abs(fs), Effective(fs, src, dst);
    AbsAt(fs, src);
    SameItself(t, src);
    CopyKeepsInv(fs, src, dst, true, limit) by { EffectiveCanonical(fs, src, dst); }
    if IsDir(fs, src) {
      CopyDirectoryLays(fs, t, src, target, limit);
      if FitsWithin(t, src, limit + 1) { FitsBelow(t, src, limit + 1); }
    } else {
      MkFileRefines(fs, target, GetContent(fs, src), ROOT_FILE);
    }
  }

  lemma EffectiveCanonical(fs: Fs, src: Path, dst: Path)
    requires Canonical(Effective(fs, src, dst))
    ensures Canonical(dst)
  {
    if Effective(fs, src, dst) != dst {
      forall i | 0 <= i < |dst| ensures ValidName(dst[i]) {
        assert dst[i] == (dst + [Last(src)])[i];
      }
    }
  }

  /** Nothing stands below what a directory of the source meets, and a file has a parent to
      be stored in. */
  ghost predicate ClearTarget(fs: Fs, src: Path, target: Path) {
    && CanCopy(fs, src, target) && Bare(Abs(fs), Abs(fs), src, target)
    && (IsDir(fs, src) || Tree.DirAt(Abs(fs), Parent(target)))
  }

  /** What a copy is for: the tree with the relocated walk of the source, and whatever
      ancestors the target lacked when a directory had to be made. */
  ghost function Intended(t: Tree.Tree, src: Path, target: Path): Tree.Tree
    requires target != []
  {
    Prepared(t, t, src, target) + Tree.Relocated(t, src, target)
  }

  lemma RefusedMeets(fs: Fs, src: Path, target: Path)
    requires Inv(fs) && src != [] && target != [] && Refuses(fs, src, target)
    ensures src in Abs(fs) && target in Tree.Relocated(Abs(fs), src, target)
    ensures Tree.Relocated(Abs(fs), src, target)[target].D? && target in Abs(fs) && Abs(fs)[target].F?
  {
    hide Inv, Abs, IsDir, IsFile, Exists, Tree.Relocated;
    AbsAt(fs, src);
    AbsAt(fs, target);
    StartRelocated(Abs(fs), src, target);
  }

  /** A returned copy is what it is for exactly when it did not refuse and everything that a
      directory of the source meets, and is no directory, is a plain file that gives way:
      the first entry listed in that directory is a directory. Then nothing but the walk has
      been added exactly when no ancestor was missing or no directory had to be made. */
  lemma CopyExact(fs: Fs, src: Path, dst: Path, limit: nat)
    requires ClearTarget(fs, src, Effective(fs, src, dst)) && Copy(fs, src, dst, true, limit).Returned?
    ensures
      var t, target, after := Abs(fs), Effective(fs, src, dst), Copy(fs, src, dst, true, limit);
      && (Abs(after.fs) == Intended(t, src, target) <==> after.ok && Landable(t, t, src, target))
      && (Intended(t, src, target) == t + Tree.Relocated(t, src, target) <==>
            !NeedsDir(t, t, src, target) || Tree.Settled(t, Parent(target)))
  {
    hide Inv, Abs, Copy, Exists, IsDir, IsFile, Effective, Apart, Lay, Landable, Bare, NeedsDir, Tree.Relocated, Tree.Mkdirs, Tree.Settled;
    var t, target, after := Abs(fs), Effective(fs, src, dst), Copy(fs, src, dst, true, limit);
    CopyLays(fs, src, dst, limit);
    AbsAt(fs, src);
    AbsAt(fs, []);
    AncestorsDiffer(t, t, src, target);
    LayExactIff(t, t, src, target);
    if !after.ok {
      RefusedMeets(fs, src, target);
      assert Intended(t, src, target)[target].D?;
    }
  }

  /** After a returned copy the walk of the target equals the walk of the source, in names,
      kinds and contents, exactly when the copy did not refuse, everything met gave way, and
      nothing stray stood in a copied directory. */
  lemma CopiedWalkExact(fs: Fs, src: Path, dst: Path, limit: nat)
    requires ClearTarget(fs, src, Effective(fs, src, dst)) && Copy(fs, src, dst, true, limit).Returned?
    ensures
      var t, target, after := Abs(fs), Effective(fs, src, dst), Copy(fs, src, dst, true, limit);
      var moved := Tree.Relocated(t, src, target);
      Tree.Relocated(Abs(after.fs), target, target) == moved <==>
        after.ok && Landable(t, t, src, target) && !exists r :: Stray(t, moved, target, r)
  {
    hide Inv, Abs, Copy, Exists, IsDir, IsFile, Effective, Apart, Lay, Landable, Bare, Prepared, Tree.Relocated, Tree.InWalk;
    var t, target, after := Abs(fs), Effective(fs, src, dst), Copy(fs, src, dst, true, limit);
    var moved := Tree.Relocated(t, src, target);
    CopyLays(fs, src, dst, limit);
    AbsAt(fs, src);
    AbsAt(fs, []);
    if !after.ok {
      RefusedMeets(fs, src, target);
      OwnWalk(t, target, target);
    } else if Landable(t, t, src, target) {
      LayExact(t, t, src, target);
      var u := Prepared(t, t, src, target);
      CopiedWalkIff(u, t, src, target);
      forall r ensures Stray(t, moved, target, r) <==> Stray(u, moved, target, r) {
        PreparedAt(t, t, src, target, r);
      }
    } else {
      var w := LayDiffers(t, t, src, target);
      OwnWalk(Abs(after.fs), target, w);
    }
  }

  lemma {:induction false} LengthsBounded(keys: set<Path>) returns (bound: nat)
    ensures forall q :: q in keys ==> |q| < bound
  {
    if keys == {} {
      bound := 0;
    } else {
      var p :| p in keys;
      var rest := LengthsBounded(keys - {p});
      bound := if rest > |p| then rest else |p| + 1;
    }
  }

  lemma FitsSome(t: Tree.Tree) returns (bound: nat)
    ensures forall s :: FitsWithin(t, s, bound)
  {
    bound := LengthsBounded(t.Keys);
  }

  /** Copying a directory to a fresh target, its ancestors there or not, returns, given enough
      recursion depth, exactly when the target does not lie inside the source or a generated
      entry stands strictly between the two. */
  lemma CopyReturnsIff(fs: Fs, src: Path, dst: Path)
    requires Inv(fs) && Canonical(src) && !(src == [] && [] in fs.overlay) && IsDir(fs, src)
    requires
      var target := Effective(fs, src, dst);
      Canonical(target) && target != [] && Fresh(Abs(fs), target)
    ensures
      var target := Effective(fs, src, dst);
      (exists limit :: Copy(fs, src, dst, true, limit).Returned?) <==>
        !(src <= target) || Walled(Abs(fs), src, target)
  {
    hide Inv, Abs, IsDir, Exists, Effective, Copy, Walled, Fresh;
    var t, target := Abs(fs), Effective(fs, src, dst);
    AbsAt(fs, src);
    FreshAbsent(t, target);
    if !(src <= target) {
      var bound := FitsSome(t);
      FitsMore(t, src, bound);
      assert CanCopy(fs, src, target) by { FreshApart(t, src, target); }
      CopyLays(fs, src, dst, bound);
      assert Copy(fs, src, dst, true, bound).Returned?;
    } else if Walled(t, src, target) {
      assert src != target;
      var bound := WalledReturns(fs, src, dst);
      assert Copy(fs, src, dst, true, bound).Returned?;
    } else {
      forall limit ensures !Copy(fs, src, dst, true, limit).Returned? {
        IntoItselfRaises(fs, src, dst, limit);
      }
    }
  }

  lemma FreshApart(t: Tree.Tree, src: Path, target: Path)
    requires src in t && Fresh(t, target) && !(src <= target)
    ensures Apart(t, src, target)
  {
  }

  lemma FitsMore(t: Tree.Tree, s: Path, limit: nat)
    requires FitsWithin(t, s, limit)
    ensures FitsWithin(t, s, limit + 1)
  {
  }

  lemma WalledReturns(fs: Fs, src: Path, dst: Path) returns (bound: nat)
    requires Inv(fs) && Canonical(src) && !(src == [] && [] in fs.overlay) && IsDir(fs, src)
    requires
      var target := Effective(fs, src, dst);
      Canonical(target) && src < target && target !in Abs(fs) && Walled(Abs(fs), src, target)
    ensures Copy(fs, src, dst, true, bound).Returned?
  {
    hide Inv, Abs, IsDir, Exists, Effective, MkDirP, CopyItems, ListDir, FitsWithin, Tree.Mkdirs, SameOutside, Names;
    var t, target := Abs(fs), Effective(fs, src, dst);
    var k :| |src| < k < |target| && target[..k] in t && t[target[..k]].G?;
    var x := target[..k];
    AbsAt(fs, src);
    AbsAt(fs, target);
    AbsAt(fs, []);
    var made := MkDirP(fs, target, ROOT_DIR);
    MkDirPRefines(fs, target, ROOT_DIR);
    MkDirPAvoidsRoot(fs, target, ROOT_DIR);
    var u := Abs(made);
    Tree.MkdirsAt(t, target, x);
    Tree.MkdirsAt(t, target, src);
    Tree.MkdirsSettles(t, target);
    AbsAt(made, src);
    AbsAt(made, []);
    AbsAt(made, target);
    assert Wall(u, x) by { SettledPrefix(u, target, k); }
    bound := FitsSome(u);
    Tree.MkdirsAt(t, target, target);
    WalledBody(made, src, target, x, bound);
  }

  lemma SettledPrefix(t: Tree.Tree, p: Path, k: nat)
    requires Tree.Settled(t, p) && k <= |p|
    ensures Tree.Settled(t, p[..k])
  {
    forall j | 0 <= j <= k ensures p[..k][..j] in t && !t[p[..k][..j]].F? {
      assert p[..k][..j] == p[..j];
    }
  }

  lemma IntoItselfRaises(fs: Fs, src: Path, dst: Path, limit: nat)
    requires Inv(fs) && Canonical(src) && !(src == [] && [] in fs.overlay) && IsDir(fs, src)
    requires
      var target := Effective(fs, src, dst);
      && Canonical(target) && target != [] && Fresh(Abs(fs), target)
      && src <= target && !Walled(Abs(fs), src, target)
    ensures Copy(fs, src, dst, true, limit).Raised?
    ensures Move(fs, src, dst, limit).Raised?
  {
    hide Inv, Abs, MkDirP, MkFile, ListDir, Exists, IsDir, IsFile, GetContent, CopyItems, CopyRecursive, Effective, Walled, Fresh;
    AbsAt(fs, src);
    FreshAbsent(Abs(fs), Effective(fs, src, dst));
    assert src != Effective(fs, src, dst);
    NestedBodyRaises(fs, src, Effective(fs, src, dst), limit);
  }

  // ----- moves -----

  /** A move that the recursion bound allows lays the source at its target and removes it, or
      refuses and changes nothing. */
  lemma MoveIsLaying(fs: Fs, src: Path, dst: Path, limit: nat, p: Path)
    requires Inv(fs) && Canonical(src) && Canonical(dst) && src != [] && src in Abs(fs)
    requires
      var target := if Tree.DirAt(Abs(fs), dst) then dst + [Last(src)] else dst;
      Apart(Abs(fs), src, target)
    requires FitsWithin(Abs(fs), src, limit + 1)
    ensures
      var t, after := Abs(fs), Move(fs, src, dst, limit);
      var target := if Tree.DirAt(t, dst) then dst + [Last(src)] else dst;
      && after.Returned? && Inv(after.fs)
      && (after.ok <==> !(t[src].D? && target in t && t[target].F?))
      && Abs(after.fs) == (if after.ok then Lay(t, t, src, target) - {src} else t)
      && (after.ok ==>
            (Tree.Reachable(Abs(after.fs), p) <==> Tree.Reachable(Lay(t, t, src, target), p) && !(src <= p)))
  {
    hide Inv, Abs, Move, Exists, IsDir, IsFile, Effective, Apart, FitsWithin, Lay, Tree.Reachable;
    TargetWritten(fs, src, dst);
    AbsAt(fs, src);
    AbsAt(fs, Effective(fs, src, dst));
    MoveLays(fs, src, dst, limit, p);
  }

  /** The same, with the target computed from the layers. */
  lemma MoveLays(fs: Fs, src: Path, dst: Path, limit: nat, p: Path)
    requires CanCopy(fs, src, Effective(fs, src, dst)) && FitsWithin(Abs(fs), src, limit + 1)
    ensures src in Abs(fs)
    ensures
      var t, target, after := Abs(fs), Effective(fs, src, dst), Move(fs, src, dst, limit);
      && after.Returned? && Inv(after.fs)
      && (after.ok <==> !Refuses(fs, src, target))
      && Abs(after.fs) == (if after.ok then Lay(t, t, src, target) - {src} else t)
      && (after.ok ==>
            (Tree.Reachable(Abs(after.fs), p) <==> Tree.Reachable(Lay(t, t, src, target), p) && !(src <= p)))
  {
    hide Inv, Abs, Exists, IsDir, IsFile, Effective, Copy, Remove, Apart, FitsWithin, Lay, Tree.Reachable;
    var t, target := Abs(fs), Effective(fs, src, dst);
    CopyLays(fs, src, dst, limit);
    AbsAt(fs, src);
    AbsAt(fs, []);
    var copied := Copy(fs, src, dst, true, limit);
    if copied.ok {
      LayGrows(t, t, src, target, src);
      AbsAt(copied.fs, src);
      AbsAt(copied.fs, []);
      RemoveRefines(copied.fs, src);
      Tree.RemoveReachable(Abs(copied.fs), src, p);
    }
  }

  /** After a move the walk of the target is what the walk of the source was exactly when the
      move did not refuse, everything met gave way, nothing stray stood in a copied directory,
      and the target was not the source itself. */
  lemma MovedWalkExact(fs: Fs, src: Path, dst: Path, limit: nat)
    requires ClearTarget(fs, src, Effective(fs, src, dst)) && !(Effective(fs, src, dst) < src)
    requires FitsWithin(Abs(fs), src, limit + 1)
    ensures
      var t, target, after := Abs(fs), Effective(fs, src, dst), Move(fs, src, dst, limit);
      var moved := Tree.Relocated(t, src, target);
      && after.Returned?
      && (Tree.Relocated(Abs(after.fs), target, target) == moved <==>
            && after.ok && Landable(t, t, src, target) && target != src
            && !exists r :: Stray(t, moved, target, r))
  {
    hide Inv, Abs, Exists, IsDir, IsFile, Effective, Copy, Move, Apart, FitsWithin, Lay, Landable, Bare, Stray, Tree.Relocated, Tree.InWalk;
    var t, target := Abs(fs), Effective(fs, src, dst);
    var after := Move(fs, src, dst, limit);
    CopyLays(fs, src, dst, limit);
    CopiedWalkExact(fs, src, dst, limit);
    MoveLays(fs, src, dst, limit, src);
    var u := Abs(Copy(fs, src, dst, true, limit).fs);
    if after.ok {
      if target == src {
        StartRelocated(t, src, target);
        WalkStarts(u - {src}, src, src, src);
      } else {
        assert Same(u - {src}, u, target);
        RelocatedLocal(u - {src}, u, target, target);
      }
    }
  }

  /** A target that is clear and where everything met gives way. */
  ghost predicate LandTarget(fs: Fs, src: Path, target: Path) {
    ClearTarget(fs, src, target) && Landable(Abs(fs), Abs(fs), src, target) && !Refuses(fs, src, target)
  }

  /** There a move leaves the intended tree without the source: what can be walked to is what
      the copy put at the target, with what it was merged into, and what stood elsewhere,
      less the source and everything below it. */
  lemma MoveExact(fs: Fs, src: Path, dst: Path, limit: nat, p: Path)
    requires LandTarget(fs, src, Effective(fs, src, dst)) && FitsWithin(Abs(fs), src, limit + 1)
    ensures
      var t, after, target := Abs(fs), Move(fs, src, dst, limit), Effective(fs, src, dst);
      var u, v := Prepared(t, t, src, target), Intended(t, src, target);
      && after.Returned? && after.ok && Inv(after.fs)
      && Abs(after.fs) == v - {src}
      && (Tree.Reachable(Abs(after.fs), p) <==>
            && !(src <= p)
            && if target <= p then Tree.DirChain(u, Parent(target)) && Tree.InWalk(v, target, p) else Tree.Reachable(u, p))
  {
    hide Inv, Abs, IsDir, Exists, IsFile, Move, Apart, FitsWithin, Lay, Landable, Bare, Prepared, Tree.Relocated, Tree.InWalk, Tree.Reachable, Tree.DirChain, Effective;
    var t, target := Abs(fs), Effective(fs, src, dst);
    AbsAt(fs, src);
    AbsAt(fs, []);
    MoveLays(fs, src, dst, limit, p);
    LayExact(t, t, src, target);
    PreparedAt(t, t, src, target, []);
    GraftReachable(Prepared(t, t, src, target), Tree.Relocated(t, src, target), target, p);
  }

  lemma FreshLands(t: Tree.Tree, snap: Tree.Tree, s: Path, d: Path)
    requires Fresh(t, d)
    ensures Landable(t, snap, s, d) && Bare(t, snap, s, d)
    ensures forall moved, r :: !Stray(t, moved, d, r)
  {
    assert forall q: Path :: d <= d + q;
  }

  /** In particular, at a fresh target below directories one can walk to, exactly the old tree
      is left with that subtree standing at the target instead. */
  lemma MoveRelocates(fs: Fs, src: Path, dst: Path, limit: nat, p: Path)
    requires ClearTarget(fs, src, Effective(fs, src, dst)) && FitsWithin(Abs(fs), src, limit + 1)
    requires Fresh(Abs(fs), Effective(fs, src, dst)) && Tree.DirChain(Abs(fs), Parent(Effective(fs, src, dst)))
    ensures
      var t, after, target := Abs(fs), Move(fs, src, dst, limit), Effective(fs, src, dst);
      && after.Returned? && after.ok
      && Abs(after.fs) == (t + Tree.Relocated(t, src, target)) - {src}
      && (Tree.Reachable(Abs(after.fs), p) <==>
            if target <= p then p in Tree.Relocated(t, src, target) else Tree.Reachable(t, p) && !(src <= p))
  {
    hide Inv, Abs, Move, Effective, IsDir, IsFile, Exists, Tree.Reachable, Tree.Relocated, Tree.InWalk, Landable, Bare, NeedsDir, FitsWithin, Tree.Mkdirs, Stray, Fresh;
    var t, target := Abs(fs), Effective(fs, src, dst);
    var moved := Tree.Relocated(t, src, target);
    FreshLands(t, t, src, target);
    FreshAbsent(t, target);
    AbsAt(fs, target);
    MoveExact(fs, src, dst, limit, p);
    AbsAt(fs, src);
    Tree.ChainSettled(t, Parent(target));
    Tree.MkdirsSettles(t, Parent(target));
    CopiedWalkIff(t, t, src, target);
    OwnWalk(t + moved, target, p);
    assert !(target <= src) by { FreshNot(t, target, src); }
    if target <= p && src <= p { CommonPrefixes(src, target, p); }
  }

  lemma FreshNot(t: Tree.Tree, p: Path, q: Path)
    requires Fresh(t, p) && q in t
    ensures !(p <= q)
  {
  }

  lemma CommonPrefixes(p: Path, q: Path, r: Path)
    requires p <= r && q <= r
    ensures p <= q || q <= p
  {
  }

  /** Moving anything to the directory it is in, or a file onto itself, reports success and
      leaves nothing of it: the copy goes onto the source, and the source is removed. */
  lemma MoveOntoItself(fs: Fs, src: Path, dst: Path, limit: nat, p: Path)
    requires Inv(fs) && Canonical(src) && src != [] && Exists(fs, src)
    requires if dst == src then !IsDir(fs, src) else dst == Parent(src) && IsDir(fs, dst)
    requires FitsWithin(Abs(fs), src, limit + 1)
    ensures
      var t, after := Abs(fs), Move(fs, src, dst, limit);
      && Effective(fs, src, dst) == src
      && after.Returned? && after.ok && Inv(after.fs)
      && Abs(after.fs) == (if IsDir(fs, src) then t + Tree.Relocated(t, src, src) else t) - {src}
      && (Tree.Reachable(Abs(after.fs), p) <==> Tree.Reachable(t, p) && !(src <= p))
  {
    hide Inv, Abs, Move, Tree.Reachable, Tree.Relocated, FitsWithin, NeedsDir, Landable, Bare, Exists, IsDir, IsFile, GetContent;
    var t := Abs(fs);
    AbsAt(fs, src);
    AbsAt(fs, dst);
    AbsAt(fs, []);
    EffectiveSource(fs, src, dst);
    if IsDir(fs, src) {
      OntoItself(t, src);
      MoveExact(fs, src, dst, limit, p);
    } else {
      FileMoveLoses(fs, src, dst, limit);
      MoveKeepsInv(fs, src, dst, limit);
      Tree.RemoveReachable(t, src, p);
    }
  }

  lemma EffectiveSource(fs: Fs, src: Path, dst: Path)
    requires Inv(fs) && src != [] && Canonical(src) && Exists(fs, src)
    requires if dst == src then !IsDir(fs, src) else dst == Parent(src) && IsDir(fs, dst)
    ensures Effective(fs, src, dst) == src && Canonical(dst)
  {
    AbsAt(fs, dst);
  }

  lemma MoveKeepsInv(fs: Fs, src: Path, dst: Path, limit: nat)
    requires Inv(fs) && Canonical(src) && Canonical(dst)
    ensures Inv(Move(fs, src, dst, limit).fs)
  {
    CopyKeepsInv(fs, src, dst, true, limit);
  }

  /** Every place of a walk relocated onto itself is there already, and as it should be. */
  lemma OntoItself(t: Tree.Tree, src: Path)
    ensures Apart(t, src, src) && Landable(t, t, src, src) && Bare(t, t, src, src) && !NeedsDir(t, t, src, src)
  {
    forall q | Tree.InWalk(t, src, q) ensures src + q[|src|..] == q {
    }
  }

  // ----- where the reported result and the effect part -----

  /** Copying a file always reports success, but the copy exists exactly when the target's
      parent is a directory. */
  lemma FileCopyReported(fs: Fs, src: Path, dst: Path, recursive: bool, limit: nat)
    requires Inv(fs) && Canonical(src) && Canonical(dst) && src in Abs(fs) && !Abs(fs)[src].D?
    ensures src != []
    ensures
      var t, r := Abs(fs), Copy(fs, src, dst, recursive, limit);
      var target := if Tree.DirAt(t, dst) then dst + [Last(src)] else dst;
      && r.Returned? && r.ok && target != []
      && (Tree.DirAt(t, Parent(target)) ==> Abs(r.fs) == t[target := Tree.F(t[src].content)])
      && (!Tree.DirAt(t, Parent(target)) ==> r.fs == fs)
  {
    hide Abs, Inv, MkFile, Effective, IsFile, GetNode, ListDir;
    AbsAt(fs, src);
    AbsAt(fs, []);
    TargetWritten(fs, src, dst);
    var target := Effective(fs, src, dst);
    AbsAt(fs, Parent(target));
    MkFileRefines(fs, target, GetContent(fs, src), ROOT_FILE);
    if !IsDir(fs, Parent(target)) { FileRefused(fs, target, GetContent(fs, src)); }
  }

  lemma FileRefused(fs: Fs, target: Path, content: string)
    requires target != [] && !IsDir(fs, Parent(target))
    ensures MkFile(fs, target, content, ROOT_FILE) == fs
  {
  }

  /** So a moved file survives exactly when the target's parent is a directory and the target
      is not the file itself: otherwise the move reports success and only the removal has
      happened. */
  lemma FileMoveLoses(fs: Fs, src: Path, dst: Path, limit: nat)
    requires Inv(fs) && Canonical(src) && Canonical(dst) && src in Abs(fs) && !Abs(fs)[src].D?
    ensures src != []
    ensures
      var t, r := Abs(fs), Move(fs, src, dst, limit);
      var target := if Tree.DirAt(t, dst) then dst + [Last(src)] else dst;
      && r.Returned? && r.ok && target != []
      && (if Tree.DirAt(t, Parent(target)) && target != src
          then Abs(r.fs) == t[target := Tree.F(t[src].content)] - {src} && target in Abs(r.fs)
          else Abs(r.fs) == t - {src})
  {
    hide Abs, Inv, Copy, MkFile, Effective, GetContent, IsDir, IsFile, GetNode, ListDir;
    FileCopyReported(fs, src, dst, true, limit);
    var r := Copy(fs, src, dst, true, limit).fs;
    CopyKeepsInv(fs, src, dst, true, limit);
    AbsAt(fs, src);
    AbsAt(r, src);
    RemoveRefines(r, src);
  }

  /** A source directory of files that meets something other than a directory: every child
      is refused, the copy of it finishes, and nothing has changed. */
  lemma BlockedByFile(fs: Fs, src: Path, dst: Path, limit: nat)
    requires Inv(fs) && Canonical(src) && src != [] && IsDir(fs, src) && Exists(fs, dst) && !IsDir(fs, dst)
    requires forall c :: src + [c] in Abs(fs) ==> !IsDir(fs, src + [c])
    requires limit >= 2
    ensures CopyRecursive(fs, src, dst, limit) == Finished(fs)
  {
    hide Inv, ListDir, Abs, Exists, IsDir, GetContent, CopyItems;
    ListedChildren(fs, src);
    BlockedItems(fs, src, dst, Listed(fs, src), limit - 1);
  }

  lemma {:induction false} BlockedItems(fs: Fs, src: Path, dst: Path, items: seq<string>, limit: nat)
    requires !IsDir(fs, dst) && limit > 0
    requires forall c :: c in items ==> c != "" && !IsDir(fs, src + [c])
    ensures CopyItems(fs, src, dst, items, limit) == Finished(fs)
    decreases |items|
  {
    hide IsDir, GetContent, Exists;
    if items != [] {
      var c := items[0];
      assert items == [c] + items[1..] && Parent(dst + [c]) == dst;
      assert CopyRecursive(fs, src + [c], dst + [c], limit) == Finished(fs);
      assert forall d :: d in items[1..] ==> d in items;
      BlockedItems(fs, src, dst, items[1..], limit);
    }
  }

  /** Every entry of the source is a directory of files that meets something other than a
      directory at the target. */
  ghost predicate AllBlocked(fs: Fs, src: Path, target: Path) {
    forall c :: src + [c] in Abs(fs) ==>
      && IsDir(fs, src + [c]) && Exists(fs, target + [c]) && !IsDir(fs, target + [c])
      && forall e :: src + [c] + [e] in Abs(fs) ==> !IsDir(fs, src + [c] + [e])
  }

  /** Moving such a directory reports success, and all that has happened is the removal:
      everything below the source is lost. */
  lemma DirectoryMoveLoses(fs: Fs, src: Path, dst: Path, limit: nat)
    requires Inv(fs) && Canonical(src) && src != [] && IsDir(fs, src) && limit >= 2
    requires
      var target := Effective(fs, src, dst);
      target != [] && IsDir(fs, target) && AllBlocked(fs, src, target)
    ensures Move(fs, src, dst, limit) == Returned(Remove(fs, src), true)
  {
    hide Inv, Abs, ListDir, IsDir, IsFile, Exists, GetContent, Effective, CopyItems, AllBlocked;
    var target := Effective(fs, src, dst);
    AbsAt(fs, src);
    AbsAt(fs, target);
    ListedChildren(fs, src);
    AllBlockedItems(fs, src, target, Listed(fs, src), limit);
    assert Copy(fs, src, dst, true, limit) == Returned(fs, true);
  }

  lemma {:induction false} AllBlockedItems(fs: Fs, src: Path, target: Path, items: seq<string>, limit: nat)
    requires Inv(fs) && Canonical(src) && limit >= 2 && AllBlocked(fs, src, target)
    requires forall c :: c in items ==> ValidName(c) && src + [c] in Abs(fs)
    ensures CopyItems(fs, src, target, items, limit) == Finished(fs)
    decreases |items|
  {
    hide Inv, Abs, IsDir, Exists, CopyRecursive;
    if items != [] {
      var c := items[0];
      assert c in items && ValidName(c) && src + [c] in Abs(fs);
      BlockedByFile(fs, src + [c], target + [c], limit);
      assert CopyRecursive(fs, src + [c], target + [c], limit) ==
             CopyRecursive(fs, ChildPath(src, c), ChildPath(target, c), limit);
      assert forall d :: d in items[1..] ==> d in items;
      AllBlockedItems(fs, src, target, items[1..], limit);
    }
  }

  lemma OnlyListed(l: seq<string>, c: string)
    requires Sorted(l) && forall d :: d in l <==> d == c
    ensures l == [c]
  {
    SortingUnique(l, [c], {c});
  }

  /** Where something already stands inside the source, a copy of it into itself can end: the
      source holds one directory of its own name, and that holds only files, one of them of
      the same name again, which stops the descent. */
  lemma StandingFileEnds(fs: Fs, src: Path, limit: nat)
    requires Inv(fs) && Canonical(src) && src != [] && IsDir(fs, src) && limit >= 2
    requires
      var n, t := Last(src), Abs(fs);
      && (forall c :: src + [c] in t <==> c == n) && IsDir(fs, src + [n])
      && src + [n] + [n] in t && (forall c :: src + [n] + [c] in t ==> !IsDir(fs, src + [n] + [c]))
    ensures Effective(fs, src, src) == src + [Last(src)] && Copy(fs, src, src, true, limit) == Returned(fs, true)
  {
    hide Inv, Abs, ListDir, Exists, IsDir, IsFile, GetContent, CopyRecursive;
    var n := Last(src);
    AbsAt(fs, src);
    AbsAt(fs, src + [n]);
    AbsAt(fs, src + [n] + [n]);
    assert n == src[|src| - 1] && ValidName(n);
    ListedChildren(fs, src);
    OnlyListed(Listed(fs, src), n);
    BlockedByFile(fs, src + [n], src + [n] + [n], limit);
    assert [n][1..] == [];
    assert CopyItems(fs, src, src + [n], [n], limit) == CopyItems(fs, src, src + [n], [], limit);
  }
}
