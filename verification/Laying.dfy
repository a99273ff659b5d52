/**
  Copying on abstract trees. `Lay` is what a recursive copy does to a tree when the source is
  read from a snapshot; `Relocated` is what a copy is for. They agree exactly when every
  non-directory that a directory of the source meets gives way.
 */
module Laying {
  import opened Paths
  import opened Listing
  import Tree

  /** The names in a directory, in listing order. */
  ghost function Names(t: Tree.Tree, p: Path): (names: seq<string>)
    ensures Sorted(names) && forall c :: c in names <==> p + [c] in t
  {
    Sorting(Tree.Children(t, p))
  }

  /** The state in which the children of a directory are copied. */
  function Opened(t: Tree.Tree, d: Path): Tree.Tree {
    if d in t then t else Tree.Mkdirs(t, d)
  }

  ghost function Lay(t: Tree.Tree, snap: Tree.Tree, s: Path, d: Path): Tree.Tree
    requires s in snap
    decreases Tree.Below(snap, s), 1, 0
  {
    if Tree.DirAt(snap, s) then LayItems(Opened(t, d), snap, s, d, Names(snap, s))
    else Tree.Mkfile(t, d, snap[s].content)
  }

  ghost function LayItems(t: Tree.Tree, snap: Tree.Tree, s: Path, d: Path, items: seq<string>): Tree.Tree
    requires s in snap && forall c :: c in items ==> s + [c] in snap
    decreases Tree.Below(snap, s), 0, |items|
  {
    if items == [] then t
    else
      assert items[0] in items;
      Tree.BelowChild(snap, s, items[0]);
      LayItems(Lay(t, snap, s + [items[0]], d + [items[0]]), snap, s, d, items[1..])
  }

  // ----- agreement of trees and of walks -----

  /** The two trees agree at and below `p`. */
  ghost predicate Same(t: Tree.Tree, u: Tree.Tree, p: Path) {
    forall q :: p <= q ==> (q in t <==> q in u) && (q in t ==> t[q] == u[q])
  }

  lemma SameAt(t: Tree.Tree, u: Tree.Tree, p: Path)
    requires Same(t, u, p)
    ensures p in t <==> p in u
    ensures p in t ==> t[p] == u[p]
  {
  }

  lemma SameNames(t: Tree.Tree, u: Tree.Tree, p: Path)
    requires Same(t, u, p)
    ensures Names(t, p) == Names(u, p)
  {
    forall c ensures p + [c] in t <==> p + [c] in u {
      assert p <= p + [c];
    }
    assert Tree.Children(t, p) == Tree.Children(u, p);
  }

  /** No walk below `s` is `limit` deep. */
  ghost predicate FitsWithin(t: Tree.Tree, s: Path, limit: nat) {
    forall q :: Tree.InWalk(t, s, q) ==> |q| - |s| < limit
  }

  lemma NeverFitsNothing(t: Tree.Tree, s: Path)
    requires s in t
    ensures !FitsWithin(t, s, 0)
  {
    assert Tree.InWalk(t, s, s);
  }

  lemma FitsBelow(t: Tree.Tree, s: Path, limit: nat)
    requires limit > 0 && Tree.DirAt(t, s) && FitsWithin(t, s, limit)
    ensures forall c :: FitsWithin(t, s + [c], limit - 1)
  {
    forall c, q | Tree.InWalk(t, s + [c], q) ensures |q| - |s + [c]| < limit - 1 {
      assert q[|s|] == c;
      WalkStep(t, s, q);
    }
  }

  lemma WalkStep(t: Tree.Tree, s: Path, q: Path)
    requires s < q
    ensures Tree.InWalk(t, s, q) <==> Tree.DirAt(t, s) && Tree.InWalk(t, s + [q[|s|]], q)
  {
    assert q[..|s|] == s;
    assert s + [q[|s|]] <= q;
    if Tree.InWalk(t, s, q) {
      assert Tree.DirAt(t, q[..|s|]);
    }
  }

  /** A walk only exists when its start does. */
  lemma WalkFrom(t: Tree.Tree, s: Path, q: Path)
    requires Tree.InWalk(t, s, q)
    ensures s in t
  {
    assert q[..|s|] == s;
    if q != s { assert Tree.DirAt(t, q[..|s|]); }
  }

  lemma WalkPrefix(t: Tree.Tree, s: Path, q: Path, j: nat)
    requires Tree.InWalk(t, s, q) && |s| <= j <= |q|
    ensures Tree.InWalk(t, s, q[..j])
  {
    assert q[..|q|] == q;
    assert s <= q[..j];
    forall k | |s| <= k < j ensures Tree.DirAt(t, q[..j][..k]) {
      assert q[..j][..k] == q[..k];
      assert Tree.DirAt(t, q[..k]);
    }
    if j < |q| { assert Tree.DirAt(t, q[..j]); }
  }

  lemma OnlyFile(t: Tree.Tree, s: Path, q: Path)
    requires !Tree.DirAt(t, s)
    ensures Tree.InWalk(t, s, q) <==> q == s && s in t
  {
    if s < q { WalkStep(t, s, q); }
  }

  /** A path in the walk of a child, and its place. */
  lemma ChildPlace(s: Path, d: Path, c: string, q: Path)
    requires s + [c] <= q
    ensures s < q && q[|s|] == c && d + [c] + q[|s + [c]|..] == d + q[|s|..]
  {
  }

  // ----- relocated walks -----

  function RelocatedItems(t: Tree.Tree, s: Path, d: Path, items: seq<string>): Tree.Tree {
    if items == [] then map[]
    else Tree.Relocated(t, s + [items[0]], d + [items[0]]) + RelocatedItems(t, s, d, items[1..])
  }

  lemma {:induction false} RelocatedItemsAt(t: Tree.Tree, s: Path, d: Path, items: seq<string>, r: Path)
    ensures r in RelocatedItems(t, s, d, items) <==>
      d < r && r[|d|] in items && r in Tree.Relocated(t, s + [r[|d|]], d + [r[|d|]])
    ensures r in RelocatedItems(t, s, d, items) ==>
      RelocatedItems(t, s, d, items)[r] == Tree.Relocated(t, s + [r[|d|]], d + [r[|d|]])[r]
  {
    hide Tree.Relocated;
    if items != [] {
      RelocatedItemsAt(t, s, d, items[1..], r);
      assert items == [items[0]] + items[1..];
      if r in Tree.Relocated(t, s + [items[0]], d + [items[0]]) {
        assert d + [items[0]] <= r;
        assert d < r && r[|d|] == items[0];
      }
    }
  }

  lemma RelocatedStep(t: Tree.Tree, s: Path, d: Path, r: Path)
    requires Tree.DirAt(t, s)
    ensures r in Tree.Relocated(t, s, d) <==>
      r == d || (d < r && r in Tree.Relocated(t, s + [r[|d|]], d + [r[|d|]]))
    ensures r in Tree.Relocated(t, s, d) ==>
      Tree.Relocated(t, s, d)[r] ==
      (if r == d then Tree.D else Tree.Relocated(t, s + [r[|d|]], d + [r[|d|]])[r])
  {
    if r == d {
      assert s + r[|d|..] == s;
    } else if d < r {
      var c := r[|d|];
      var q := s + r[|d|..];
      assert q[|s|] == c;
      assert (s + [c]) + r[|d + [c]|..] == q;
      assert d + [c] <= r;
      WalkStep(t, s, q);
    }
  }

  /** A relocated directory is its own place plus its relocated children. */
  lemma RelocatedDirectory(t: Tree.Tree, s: Path, d: Path, items: seq<string>)
    requires Tree.DirAt(t, s)
    requires forall c :: c in items <==> s + [c] in t
    ensures map[d := Tree.D] + RelocatedItems(t, s, d, items) == Tree.Relocated(t, s, d)
  {
    hide RelocatedItems, Tree.Relocated, Tree.InWalk;
    var a, b := map[d := Tree.D] + RelocatedItems(t, s, d, items), Tree.Relocated(t, s, d);
    forall r
      ensures r in a <==> r in b
      ensures r in a ==> a[r] == b[r]
    {
      RelocatedItemsAt(t, s, d, items, r);
      RelocatedStep(t, s, d, r);
      if d < r { WalkStarts(t, s + [r[|d|]], d + [r[|d|]], r); }
    }
  }

  lemma WalkStarts(t: Tree.Tree, s: Path, d: Path, r: Path)
    ensures r in Tree.Relocated(t, s, d) ==> s in t
  {
    if r in Tree.Relocated(t, s, d) {
      WalkFrom(t, s, s + r[|d|..]);
    }
  }

  /** The place of the start of a walk. */
  lemma StartRelocated(t: Tree.Tree, s: Path, d: Path)
    requires s in t
    ensures d in Tree.Relocated(t, s, d) && Tree.Relocated(t, s, d)[d] == Tree.Copied(t[s])
  {
    assert d[|d|..] == [] && s + [] == s;
    assert Tree.InWalk(t, s, s);
  }

  lemma RelocatedFile(t: Tree.Tree, s: Path, d: Path)
    requires s in t && !Tree.DirAt(t, s)
    ensures Tree.Relocated(t, s, d) == map[d := Tree.F(t[s].content)]
  {
    hide Tree.InWalk;
    var a := Tree.Relocated(t, s, d);
    assert d[|d|..] == [] && s + d[|d|..] == s;
    forall q ensures Tree.InWalk(t, s, q) <==> q == s { OnlyFile(t, s, q); }
    forall r | r in a ensures r == d {
      assert s + r[|d|..] == s;
      assert r[|d|..] == [];
    }
  }

  lemma RelocatedDirs(t: Tree.Tree, s: Path, d: Path, p: Path, k: nat)
    requires p in Tree.Relocated(t, s, d) && |d| <= k < |p|
    ensures Tree.DirAt(Tree.Relocated(t, s, d), p[..k])
  {
    var q, j := s + p[|d|..], k - |d| + |s|;
    assert d <= p && Tree.InWalk(t, s, q);
    assert Tree.DirAt(t, q[..j]);
    WalkPrefix(t, s, q, j);
    assert d <= p[..k] && s + p[..k][|d|..] == q[..j];
  }

  // ----- when laying is relocating -----

  /** A directory of the walk stands against something that is none. */
  ghost predicate Meets(t: Tree.Tree, snap: Tree.Tree, s: Path, d: Path, q: Path) {
    Tree.InWalk(snap, s, q) && snap[q].D? && d + q[|s|..] in t && !t[d + q[|s|..]].D?
  }

  /** Nothing stands below what is met. */
  ghost predicate Bare(t: Tree.Tree, snap: Tree.Tree, s: Path, d: Path) {
    forall q, r :: Meets(t, snap, s, d, q) && r in t ==> !(d + q[|s|..] < r)
  }

  /** The directory's first child in listing order is a directory: making its place turns a
      plain file in the way into a directory before anything is refused. */
  ghost predicate OpensFirst(snap: Tree.Tree, q: Path) {
    Names(snap, q) != [] && Tree.DirAt(snap, q + [Names(snap, q)[0]])
  }

  /** Everything met is a plain file that gives way. */
  ghost predicate Landable(t: Tree.Tree, snap: Tree.Tree, s: Path, d: Path) {
    forall q :: Meets(t, snap, s, d, q) ==> t[d + q[|s|..]].F? && OpensFirst(snap, q)
  }

  /** Some directory of the walk has nothing in its place yet. */
  ghost predicate NeedsDir(t: Tree.Tree, snap: Tree.Tree, s: Path, d: Path) {
    exists q :: Tree.InWalk(snap, s, q) && snap[q].D? && d + q[|s|..] !in t
  }

  /** Making a directory below `d` also makes whatever ancestors `d` lacks. */
  ghost function Prepared(t: Tree.Tree, snap: Tree.Tree, s: Path, d: Path): Tree.Tree
    requires d != []
  {
    if NeedsDir(t, snap, s, d) then Tree.Mkdirs(t, Parent(d)) else t
  }

  ghost predicate ItemsNeedDir(t: Tree.Tree, snap: Tree.Tree, s: Path, d: Path, items: seq<string>) {
    exists c :: c in items && NeedsDir(t, snap, s + [c], d + [c])
  }

  ghost function PreparedItems(t: Tree.Tree, snap: Tree.Tree, s: Path, d: Path, items: seq<string>): Tree.Tree {
    if ItemsNeedDir(t, snap, s, d, items) then Tree.Mkdirs(t, d) else t
  }

  /** What is met and what is missing depend on the destination only at and below `d`. */
  lemma MeetsLocal(t: Tree.Tree, u: Tree.Tree, snap: Tree.Tree, s: Path, d: Path)
    requires Same(t, u, d)
    ensures forall q :: Meets(t, snap, s, d, q) <==> Meets(u, snap, s, d, q)
    ensures NeedsDir(t, snap, s, d) <==> NeedsDir(u, snap, s, d)
    ensures Landable(t, snap, s, d) <==> Landable(u, snap, s, d)
    ensures Bare(t, snap, s, d) <==> Bare(u, snap, s, d)
  {
    hide OpensFirst, Same, Bare;
    forall q | Tree.InWalk(snap, s, q)
      ensures d + q[|s|..] in t <==> d + q[|s|..] in u
      ensures d + q[|s|..] in t ==> t[d + q[|s|..]] == u[d + q[|s|..]]
    {
      PlaceSame(t, u, d, q[|s|..]);
    }
    hide Tree.InWalk;
    BareLocal(t, u, snap, s, d);
  }

  lemma PlaceSame(t: Tree.Tree, u: Tree.Tree, d: Path, q: Path)
    requires Same(t, u, d)
    ensures d + q in t <==> d + q in u
    ensures d + q in t ==> t[d + q] == u[d + q]
  {
    assert d <= d + q;
  }

  lemma BareLocal(t: Tree.Tree, u: Tree.Tree, snap: Tree.Tree, s: Path, d: Path)
    requires Same(t, u, d)
    ensures Bare(t, snap, s, d) <==> Bare(u, snap, s, d)
  {
    hide Tree.InWalk;
    forall q: Path
      ensures d + q in t <==> d + q in u
      ensures d + q in t ==> t[d + q] == u[d + q]
    {
      PlaceSame(t, u, d, q);
    }
    forall q: Path, r | d + q < r ensures r in t <==> r in u {
      assert d <= r;
    }
  }

  /** What a child's walk meets and misses, its directory's does. */
  lemma MeetsBelow(t: Tree.Tree, snap: Tree.Tree, s: Path, d: Path, c: string)
    requires Tree.DirAt(snap, s)
    ensures forall q :: Meets(t, snap, s + [c], d + [c], q) ==>
      Meets(t, snap, s, d, q) && d + [c] + q[|s + [c]|..] == d + q[|s|..]
    ensures NeedsDir(t, snap, s + [c], d + [c]) ==> NeedsDir(t, snap, s, d)
    ensures Landable(t, snap, s, d) ==> Landable(t, snap, s + [c], d + [c])
    ensures Bare(t, snap, s, d) ==> Bare(t, snap, s + [c], d + [c])
  {
    hide OpensFirst;
    forall q | Tree.InWalk(snap, s + [c], q)
      ensures Tree.InWalk(snap, s, q) && d + [c] + q[|s + [c]|..] == d + q[|s|..]
    {
      ChildPlace(s, d, c, q);
      WalkStep(snap, s, q);
    }
  }

  /** Every path of a directory's walk but the first is in the walk of a child. */
  lemma WalkChild(snap: Tree.Tree, s: Path, d: Path, q: Path) returns (c: string)
    requires Tree.InWalk(snap, s, q) && q != s
    ensures Tree.DirAt(snap, s) && s + [c] in snap && Tree.InWalk(snap, s + [c], q)
    ensures d + [c] + q[|s + [c]|..] == d + q[|s|..]
  {
    assert s < q;
    c := q[|s|];
    WalkStep(snap, s, q);
    ChildPlace(s, d, c, q);
    WalkFrom(snap, s + [c], q);
  }

  lemma OwnPlace(s: Path, d: Path)
    ensures d + s[|s|..] == d
  {
  }

  /** What is missing below an existing directory is missing below one of its children. */
  lemma NeedsChild(t: Tree.Tree, snap: Tree.Tree, s: Path, d: Path, items: seq<string>)
    requires Tree.DirAt(snap, s) && d in t
    requires forall c :: c in items <==> s + [c] in snap
    ensures ItemsNeedDir(t, snap, s, d, items) <==> NeedsDir(t, snap, s, d)
  {
    forall c ensures NeedsDir(t, snap, s + [c], d + [c]) ==> NeedsDir(t, snap, s, d) {
      MeetsBelow(t, snap, s, d, c);
    }
    if NeedsDir(t, snap, s, d) {
      var q :| Tree.InWalk(snap, s, q) && snap[q].D? && d + q[|s|..] !in t;
      OwnPlace(s, d);
      var c := WalkChild(snap, s, d, q);
      assert NeedsDir(t, snap, s + [c], d + [c]);
    }
  }

  /** The start of the walk: absent, a directory, or met. */
  lemma StartMet(t: Tree.Tree, snap: Tree.Tree, s: Path, d: Path)
    requires Tree.DirAt(snap, s)
    ensures d !in t ==> NeedsDir(t, snap, s, d)
    ensures d in t && !t[d].D? ==> Meets(t, snap, s, d, s)
    ensures d in t && !t[d].D? && Bare(t, snap, s, d) ==> forall r :: r in t ==> !(d < r)
  {
    OwnPlace(s, d);
    assert Tree.InWalk(snap, s, s);
  }

  // ----- where laying writes -----

  /** Laying at `d` changes nothing that is neither above, at nor below it. */
  lemma {:induction false} LayLocal(t: Tree.Tree, snap: Tree.Tree, s: Path, d: Path, q: Path)
    requires s in snap && Tree.DirAt(t, []) && d != [] && !(d <= q) && !(q <= d)
    ensures q in Lay(t, snap, s, d) <==> q in t
    ensures q in t ==> Lay(t, snap, s, d)[q] == t[q]
    decreases Tree.Below(snap, s), 1, 0
  {
    hide Names, Tree.Mkdirs;
    if Tree.DirAt(snap, s) {
      OpenedAt(t, d, q);
      OpenedAt(t, d, []);
      LayItemsLocal(Opened(t, d), snap, s, d, Names(snap, s), q);
    }
  }

  lemma {:induction false} LayItemsLocal(t: Tree.Tree, snap: Tree.Tree, s: Path, d: Path, items: seq<string>, q: Path)
    requires s in snap && (forall c :: c in items ==> s + [c] in snap)
    requires Tree.DirAt(t, []) && !(q <= d) && forall c :: c in items ==> !(d + [c] <= q)
    ensures q in LayItems(t, snap, s, d, items) <==> q in t
    ensures q in t ==> LayItems(t, snap, s, d, items)[q] == t[q]
    decreases Tree.Below(snap, s), 0, |items|
  {
    hide Lay;
    if items != [] {
      var c := items[0];
      assert c in items;
      Tree.BelowChild(snap, s, c);
      assert q <= d + [c] ==> q <= d || q == d + [c];
      LayLocal(t, snap, s + [c], d + [c], q);
      LayAbove(t, snap, s + [c], d + [c], []);
      LayItemsLocal(Lay(t, snap, s + [c], d + [c]), snap, s, d, items[1..], q);
    }
  }

  lemma OpenedAt(t: Tree.Tree, d: Path, q: Path)
    requires Tree.DirAt(t, [])
    ensures !(q <= d) ==> (q in Opened(t, d) <==> q in t) && (q in t ==> Opened(t, d)[q] == t[q])
    ensures q in t && !t[q].F? ==> q in Opened(t, d) && Opened(t, d)[q] == t[q]
    ensures d !in t ==> Tree.DirAt(Opened(t, d), d)
  {
    Tree.MkdirsAt(t, d, q);
    Tree.MkdirsAt(t, d, d);
  }

  /** Above `d`, what is no plain file stays. */
  lemma {:induction false} LayAbove(t: Tree.Tree, snap: Tree.Tree, s: Path, d: Path, q: Path)
    requires s in snap && Tree.DirAt(t, []) && q < d && q in t && !t[q].F?
    ensures q in Lay(t, snap, s, d) && Lay(t, snap, s, d)[q] == t[q]
    decreases Tree.Below(snap, s), 1, 0
  {
    hide Names, Tree.Mkdirs;
    if Tree.DirAt(snap, s) {
      OpenedAt(t, d, q);
      OpenedAt(t, d, []);
      LayItemsAbove(Opened(t, d), snap, s, d, Names(snap, s), q);
    }
  }

  lemma {:induction false} LayItemsAbove(t: Tree.Tree, snap: Tree.Tree, s: Path, d: Path, items: seq<string>, q: Path)
    requires s in snap && (forall c :: c in items ==> s + [c] in snap)
    requires Tree.DirAt(t, []) && q <= d && q in t && !t[q].F?
    ensures q in LayItems(t, snap, s, d, items) && LayItems(t, snap, s, d, items)[q] == t[q]
    decreases Tree.Below(snap, s), 0, |items|
  {
    hide Lay;
    if items != [] {
      var c := items[0];
      assert c in items;
      Tree.BelowChild(snap, s, c);
      LayAbove(t, snap, s + [c], d + [c], q);
      LayAbove(t, snap, s + [c], d + [c], []);
      LayItemsAbove(Lay(t, snap, s + [c], d + [c]), snap, s, d, items[1..], q);
    }
  }

  /** Nothing is taken away. */
  lemma {:induction false} LayGrows(t: Tree.Tree, snap: Tree.Tree, s: Path, d: Path, q: Path)
    requires s in snap && Tree.DirAt(t, []) && d != [] && q in t
    ensures q in Lay(t, snap, s, d)
    decreases Tree.Below(snap, s), 1, 0
  {
    hide Names, Tree.Mkdirs;
    if Tree.DirAt(snap, s) {
      Tree.MkdirsAt(t, d, q);
      OpenedAt(t, d, []);
      LayItemsGrow(Opened(t, d), snap, s, d, Names(snap, s), q);
    }
  }

  lemma {:induction false} LayItemsGrow(t: Tree.Tree, snap: Tree.Tree, s: Path, d: Path, items: seq<string>, q: Path)
    requires s in snap && (forall c :: c in items ==> s + [c] in snap)
    requires Tree.DirAt(t, []) && q in t
    ensures q in LayItems(t, snap, s, d, items)
    decreases Tree.Below(snap, s), 0, |items|
  {
    hide Lay;
    if items != [] {
      var c := items[0];
      assert c in items;
      Tree.BelowChild(snap, s, c);
      LayGrows(t, snap, s + [c], d + [c], q);
      LayAbove(t, snap, s + [c], d + [c], []);
      LayItemsGrow(Lay(t, snap, s + [c], d + [c]), snap, s, d, items[1..], q);
    }
  }

  /** Laying one child is not seen at or below the place of another. */
  lemma LaySibling(t: Tree.Tree, snap: Tree.Tree, s: Path, d: Path, c: string, x: string)
    requires s + [c] in snap && Tree.DirAt(t, []) && c != x
    ensures Same(t, Lay(t, snap, s + [c], d + [c]), d + [x])
  {
    hide Lay;
    forall q | d + [x] <= q
      ensures q in t <==> q in Lay(t, snap, s + [c], d + [c])
      ensures q in t ==> t[q] == Lay(t, snap, s + [c], d + [c])[q]
    {
      assert q[|d|] == x;
      assert !(d + [c] <= q) && !(q <= d + [c]);
      LayLocal(t, snap, s + [c], d + [c], q);
    }
  }

  lemma OpenedSame(t: Tree.Tree, d: Path, c: string)
    requires Tree.DirAt(t, [])
    ensures Same(t, Opened(t, d), d + [c]) && Same(t, Tree.Mkdirs(t, d), d + [c])
  {
    forall q | d + [c] <= q
      ensures q in t <==> q in Tree.Mkdirs(t, d)
      ensures q in t ==> t[q] == Tree.Mkdirs(t, d)[q]
    {
      Tree.MkdirsAt(t, d, q);
    }
  }

  // ----- laying is relocating when everything met gives way -----

  lemma SumAssociative(a: Tree.Tree, b: Tree.Tree, c: Tree.Tree)
    ensures (a + b) + c == a + (b + c)
  {
  }

  lemma DirAbsorbed(t: Tree.Tree, p: Path, added: Tree.Tree)
    requires Tree.DirAt(t, p)
    ensures t + (map[p := Tree.D] + added) == t + added
  {
  }

  lemma {:induction false} LayExact(t: Tree.Tree, snap: Tree.Tree, s: Path, d: Path)
    requires s in snap && Tree.DirAt(t, []) && d != []
    requires Landable(t, snap, s, d) && Bare(t, snap, s, d)
    requires Tree.DirAt(snap, s) || Tree.DirAt(t, Parent(d))
    ensures Lay(t, snap, s, d) == Prepared(t, snap, s, d) + Tree.Relocated(snap, s, d)
    decreases Tree.Below(snap, s), 1, 0
  {
    hide Names, Meets, NeedsDir, Landable, Bare, Tree.Relocated, RelocatedItems, Tree.Mkdirs, LayItems, PreparedItems;
    if Tree.DirAt(snap, s) {
      var items := Names(snap, s);
      LayFromMade(t, snap, s, d);
      var u := if Tree.DirAt(t, d) then t else Tree.Mkdirs(t, d);
      MadeReady(t, snap, s, d);
      LayItemsExact(u, snap, s, d, items);
      DirectorySum(t, snap, s, d);
    } else {
      RelocatedFile(snap, s, d);
      NoDirMissing(t, snap, s, d);
      assert t + map[d := Tree.F(snap[s].content)] == t[d := Tree.F(snap[s].content)];
    }
  }

  lemma NoDirMissing(t: Tree.Tree, snap: Tree.Tree, s: Path, d: Path)
    requires !Tree.DirAt(snap, s)
    ensures !NeedsDir(t, snap, s, d)
  {
    hide Tree.InWalk;
    forall q ensures Tree.InWalk(snap, s, q) ==> q == s && s in snap { OnlyFile(snap, s, q); }
  }

  /** A plain file in the way gives way to the first child: the children might as well have
      been laid into the made directory. */
  lemma LayFromMade(t: Tree.Tree, snap: Tree.Tree, s: Path, d: Path)
    requires Tree.DirAt(snap, s) && Tree.DirAt(t, []) && d != []
    requires Landable(t, snap, s, d) && Bare(t, snap, s, d)
    ensures
      var u := if Tree.DirAt(t, d) then t else Tree.Mkdirs(t, d);
      Lay(t, snap, s, d) == LayItems(u, snap, s, d, Names(snap, s))
  {
    hide Names, Tree.Mkdirs, Lay;
    StartMet(t, snap, s, d);
    LayOfDirectory(t, snap, s, d);
    if d in t && !t[d].D? {
      OwnPlace(s, d);
      var items, u := Names(snap, s), Tree.Mkdirs(t, d);
      var c := items[0];
      assert c in items;
      assert d < d + [c] && d + [c] !in t;
      MadeTwice(t, d, c);
      LayOfDirectory(t, snap, s + [c], d + [c]);
      LayOfDirectory(u, snap, s + [c], d + [c]);
    }
  }

  lemma LayOfDirectory(t: Tree.Tree, snap: Tree.Tree, s: Path, d: Path)
    requires Tree.DirAt(snap, s)
    ensures Lay(t, snap, s, d) == LayItems(Opened(t, d), snap, s, d, Names(snap, s))
  {
  }

  lemma MadeTwice(t: Tree.Tree, d: Path, c: string)
    requires Tree.DirAt(t, []) && d + [c] !in t
    ensures Opened(Tree.Mkdirs(t, d), d + [c]) == Opened(t, d + [c])
  {
    hide Tree.Mkdirs;
    var u, p := Tree.Mkdirs(t, d), d + [c];
    assert Parent(p) == d;
    Tree.MkdirsAt(t, d, []);
    Tree.MkdirsAt(t, d, p);
    Tree.MkdirsSettles(t, d);
    Tree.MkdirsSettles(u, d);
    Tree.MkdirsStep(t, p);
    Tree.MkdirsStep(u, p);
  }

  lemma MadeReady(t: Tree.Tree, snap: Tree.Tree, s: Path, d: Path)
    requires Tree.DirAt(snap, s) && Tree.DirAt(t, []) && d != []
    requires Landable(t, snap, s, d) && Bare(t, snap, s, d)
    ensures
      var u := if Tree.DirAt(t, d) then t else Tree.Mkdirs(t, d);
      && Tree.DirAt(u, []) && Tree.DirAt(u, d)
      && forall c :: Landable(u, snap, s + [c], d + [c]) && Bare(u, snap, s + [c], d + [c])
  {
    hide Same, Tree.Mkdirs, OpensFirst, NeedsDir;
    var u := if Tree.DirAt(t, d) then t else Tree.Mkdirs(t, d);
    StartMet(t, snap, s, d);
    OwnPlace(s, d);
    Tree.MkdirsAt(t, d, d);
    Tree.MkdirsAt(t, d, []);
    hide Landable, Bare, Meets;
    forall c ensures Landable(u, snap, s + [c], d + [c]) && Bare(u, snap, s + [c], d + [c]) {
      MeetsBelow(t, snap, s, d, c);
      OpenedSame(t, d, c);
      if !Tree.DirAt(t, d) { MeetsLocal(t, u, snap, s + [c], d + [c]); }
    }
  }

  /** The made directory and what its children add are the relocated directory. */
  lemma DirectorySum(t: Tree.Tree, snap: Tree.Tree, s: Path, d: Path)
    requires Tree.DirAt(snap, s) && Tree.DirAt(t, []) && d != []
    requires Landable(t, snap, s, d) && Bare(t, snap, s, d)
    ensures
      var u, items := if Tree.DirAt(t, d) then t else Tree.Mkdirs(t, d), Names(snap, s);
      PreparedItems(u, snap, s, d, items) + RelocatedItems(snap, s, d, items) ==
        Prepared(t, snap, s, d) + Tree.Relocated(snap, s, d)
  {
    hide Names, Tree.Relocated, RelocatedItems, Tree.Mkdirs;
    var items := Names(snap, s);
    var moved := RelocatedItems(snap, s, d, items);
    RelocatedDirectory(snap, s, d, items);
    if Tree.DirAt(t, d) {
      NeedsChild(t, snap, s, d, items);
      Tree.MkdirsParent(t, d);
      Tree.MkdirsAt(t, d, d);
      DirAbsorbed(Prepared(t, snap, s, d), d, moved);
    } else {
      var u := Tree.Mkdirs(t, d);
      SomethingMissing(t, snap, s, d);
      Tree.MkdirsAt(t, d, []);
      Tree.MkdirsSettles(t, d);
      Tree.MkdirsSettles(u, d);
      MadeLast(t, d) by { StartGivesWay(t, snap, s, d); }
      SumAssociative(Tree.Mkdirs(t, Parent(d)), map[d := Tree.D], moved);
    }
  }

  lemma StartGivesWay(t: Tree.Tree, snap: Tree.Tree, s: Path, d: Path)
    requires Tree.DirAt(snap, s) && Landable(t, snap, s, d)
    ensures d in t ==> !t[d].G?
  {
    OwnPlace(s, d);
    StartMet(t, snap, s, d);
  }

  lemma SomethingMissing(t: Tree.Tree, snap: Tree.Tree, s: Path, d: Path)
    requires Tree.DirAt(snap, s) && !Tree.DirAt(t, d)
    requires Landable(t, snap, s, d) && Bare(t, snap, s, d)
    ensures NeedsDir(t, snap, s, d)
  {
    hide Names;
    StartMet(t, snap, s, d);
    OwnPlace(s, d);
    if d in t {
      var c := Names(snap, s)[0];
      assert c in Names(snap, s);
      StartMet(t, snap, s + [c], d + [c]);
      MeetsBelow(t, snap, s, d, c);
    }
  }

  lemma MadeLast(t: Tree.Tree, d: Path)
    requires d != [] && Tree.DirAt(t, []) && !Tree.DirAt(t, d) && (d in t ==> !t[d].G?)
    ensures Tree.Mkdirs(t, d) == Tree.Mkdirs(t, Parent(d)) + map[d := Tree.D]
  {
    Tree.MkdirsAt(t, Parent(d), d);
    Tree.MkdirsStep(t, d);
    assert !(d <= Parent(d));
  }

  /** What the first child leaves: the ancestors made on the way, and its relocated walk. */
  ghost function AfterFirst(t: Tree.Tree, snap: Tree.Tree, s: Path, d: Path, c: string): Tree.Tree {
    Prepared(t, snap, s + [c], d + [c]) + Tree.Relocated(snap, s + [c], d + [c])
  }

  lemma {:induction false} LayItemsExact(t: Tree.Tree, snap: Tree.Tree, s: Path, d: Path, items: seq<string>)
    requires s in snap && Sorted(items) && (forall c :: c in items ==> s + [c] in snap)
    requires Tree.DirAt(t, []) && Tree.DirAt(t, d)
    requires forall c :: c in items ==> Landable(t, snap, s + [c], d + [c]) && Bare(t, snap, s + [c], d + [c])
    ensures LayItems(t, snap, s, d, items) ==
      PreparedItems(t, snap, s, d, items) + RelocatedItems(snap, s, d, items)
    decreases Tree.Below(snap, s), 0, |items|
  {
    hide Lay, Landable, Bare, NeedsDir, Same, Tree.Relocated, Tree.Mkdirs;
    if items != [] {
      var c, rest := items[0], items[1..];
      assert c in items;
      Tree.BelowChild(snap, s, c);
      assert Parent(d + [c]) == d;
      LayExact(t, snap, s + [c], d + [c]);
      var v := Lay(t, snap, s + [c], d + [c]);
      LayAbove(t, snap, s + [c], d + [c], []);
      LayAbove(t, snap, s + [c], d + [c], d);
      forall x | x in rest
        ensures Landable(v, snap, s + [x], d + [x]) && Bare(v, snap, s + [x], d + [x])
        ensures NeedsDir(t, snap, s + [x], d + [x]) <==> NeedsDir(v, snap, s + [x], d + [x])
      {
        assert x in items && x != c;
        LaySibling(t, snap, s, d, c, x);
        MeetsLocal(t, v, snap, s + [x], d + [x]);
      }
      LayItemsExact(v, snap, s, d, rest);
      RestSum(t, snap, s, d, items);
    }
  }

  lemma RestSum(t: Tree.Tree, snap: Tree.Tree, s: Path, d: Path, items: seq<string>)
    requires items != [] && Tree.DirAt(t, [])
    requires
      var v := AfterFirst(t, snap, s, d, items[0]);
      forall x :: x in items[1..] ==> (NeedsDir(t, snap, s + [x], d + [x]) <==> NeedsDir(v, snap, s + [x], d + [x]))
    ensures
      var v := AfterFirst(t, snap, s, d, items[0]);
      PreparedItems(v, snap, s, d, items[1..]) + RelocatedItems(snap, s, d, items[1..]) ==
        PreparedItems(t, snap, s, d, items) + RelocatedItems(snap, s, d, items)
  {
    hide NeedsDir, Tree.Mkdirs, Tree.Relocated;
    var c, rest := items[0], items[1..];
    var v, moved := AfterFirst(t, snap, s, d, c), Tree.Relocated(snap, s + [c], d + [c]);
    assert items == [c] + rest;
    assert ItemsNeedDir(t, snap, s, d, items) <==> NeedsDir(t, snap, s + [c], d + [c]) || ItemsNeedDir(v, snap, s, d, rest);
    assert Parent(d + [c]) == d;
    assert forall r :: r in moved ==> !(r <= d);
    Tree.MkdirsOver(t, moved, d);
    assert PreparedItems(v, snap, s, d, rest) == PreparedItems(t, snap, s, d, items) + moved;
    SumAssociative(PreparedItems(t, snap, s, d, items), moved, RelocatedItems(snap, s, d, rest));
  }

  // ----- and differs otherwise -----

  /** A path at which what was laid falls short of the relocated walk: it is missing, or no
      directory where one should be. */
  ghost predicate FallsShort(r: Tree.Tree, moved: Tree.Tree, w: Path) {
    w in moved && (w !in r || (moved[w].D? && !r[w].D?))
  }

  lemma {:induction false} LayDiffers(t: Tree.Tree, snap: Tree.Tree, s: Path, d: Path) returns (w: Path)
    requires s in snap && Tree.DirAt(t, []) && d != []
    requires !Landable(t, snap, s, d) && Bare(t, snap, s, d)
    ensures d <= w && FallsShort(Lay(t, snap, s, d), Tree.Relocated(snap, s, d), w)
    decreases Tree.Below(snap, s), 1, 0
  {
    hide Names, Tree.Relocated, Tree.Mkdirs, NeedsDir, Lay;
    UnlandableDir(t, snap, s, d);
    LayOfDirectory(t, snap, s, d);
    StartMet(t, snap, s, d);
    if d in t && !t[d].D? {
      w := BlockedStart(t, snap, s, d);
    } else {
      var u := Opened(t, d);
      OpenedAt(t, d, []);
      OpenedAt(t, d, d);
      hide Landable, Bare, Meets;
      var c := UnlandableChild(t, snap, s, d);
      forall x ensures Bare(u, snap, s + [x], d + [x]) {
        MeetsBelow(t, snap, s, d, x);
        OpenedSame(t, d, x);
        MeetsLocal(t, u, snap, s + [x], d + [x]);
      }
      OpenedSame(t, d, c);
      MeetsLocal(t, u, snap, s + [c], d + [c]);
      w := LayItemsDiffer(u, snap, s, d, Names(snap, s));
      RelocatedStep(snap, s, d, w);
    }
  }

  lemma UnlandableDir(t: Tree.Tree, snap: Tree.Tree, s: Path, d: Path)
    requires !Landable(t, snap, s, d)
    ensures Tree.DirAt(snap, s)
  {
    var q :| Meets(t, snap, s, d, q);
    if !Tree.DirAt(snap, s) { OnlyFile(snap, s, q); }
  }

  /** When the start itself is fine, something below a child is not. */
  lemma UnlandableChild(t: Tree.Tree, snap: Tree.Tree, s: Path, d: Path) returns (c: string)
    requires Tree.DirAt(snap, s) && !Landable(t, snap, s, d) && (d in t ==> t[d].D?)
    ensures s + [c] in snap && !Landable(t, snap, s + [c], d + [c])
  {
    hide OpensFirst;
    var q :| Meets(t, snap, s, d, q) && !(t[d + q[|s|..]].F? && OpensFirst(snap, q));
    OwnPlace(s, d);
    c := WalkChild(snap, s, d, q);
    assert Meets(t, snap, s + [c], d + [c], q);
  }

  /** A start that does not give way keeps what stands there, or loses its first child. */
  lemma BlockedStart(t: Tree.Tree, snap: Tree.Tree, s: Path, d: Path) returns (w: Path)
    requires Tree.DirAt(snap, s) && Tree.DirAt(t, []) && d != [] && d in t && !t[d].D?
    requires !Landable(t, snap, s, d) && Bare(t, snap, s, d)
    ensures d <= w && FallsShort(Lay(t, snap, s, d), Tree.Relocated(snap, s, d), w)
  {
    hide Names, Tree.Relocated, Tree.Mkdirs, NeedsDir, Lay, LayItems;
    LayOfDirectory(t, snap, s, d);
    StartMet(t, snap, s, d);
    StartRelocated(snap, s, d);
    OnlyStartMet(t, snap, s, d);
    var items := Names(snap, s);
    if t[d].G? {
      LayItemsAbove(t, snap, s, d, items, d);
      w := d;
    } else if items == [] {
      LayNothing(t, snap, s, d);
      w := d;
    } else {
      var c := items[0];
      assert c in items && !Tree.DirAt(snap, s + [c]);
      FirstRefused(t, snap, s, d, items);
      w := d + [c];
      assert forall x :: x in items[1..] ==> x in items && x != c;
      forall x | x in items[1..] ensures !(d + [x] <= w) {
        assert (d + [x])[|d|] == x && w[|d|] == c;
      }
      LayItemsLocal(t, snap, s, d, items[1..], w);
      RelocatedStep(snap, s, d, w);
      StartRelocated(snap, s + [c], d + [c]);
    }
  }

  lemma LayNothing(t: Tree.Tree, snap: Tree.Tree, s: Path, d: Path)
    requires s in snap
    ensures LayItems(t, snap, s, d, []) == t
  {
  }

  /** A file is refused where its parent is no directory. */
  lemma FirstRefused(t: Tree.Tree, snap: Tree.Tree, s: Path, d: Path, items: seq<string>)
    requires s in snap && items != [] && (forall c :: c in items ==> s + [c] in snap)
    requires !Tree.DirAt(snap, s + [items[0]]) && !Tree.DirAt(t, d)
    ensures forall c :: c in items[1..] ==> s + [c] in snap
    ensures LayItems(t, snap, s, d, items) == LayItems(t, snap, s, d, items[1..])
  {
    assert items[0] in items && Parent(d + [items[0]]) == d;
    assert Lay(t, snap, s + [items[0]], d + [items[0]]) == t;
  }

  lemma PlaceBelow(s: Path, d: Path, q: Path)
    requires s <= q
    ensures q == s || d < d + q[|s|..]
  {
  }

  /** Nothing stands below the start, so nothing else is met: it must be the start that does
      not give way. */
  lemma OnlyStartMet(t: Tree.Tree, snap: Tree.Tree, s: Path, d: Path)
    requires Tree.DirAt(snap, s) && d in t && !t[d].D?
    requires !Landable(t, snap, s, d) && Bare(t, snap, s, d)
    ensures !(t[d].F? && OpensFirst(snap, s))
  {
    hide OpensFirst;
    StartMet(t, snap, s, d);
    OwnPlace(s, d);
    var q :| Meets(t, snap, s, d, q) && !(t[d + q[|s|..]].F? && OpensFirst(snap, q));
    PlaceBelow(s, d, q);
  }

  lemma {:induction false} LayItemsDiffer(t: Tree.Tree, snap: Tree.Tree, s: Path, d: Path, items: seq<string>) returns (w: Path)
    requires s in snap && Sorted(items) && (forall c :: c in items ==> s + [c] in snap)
    requires Tree.DirAt(t, [])
    requires forall c :: c in items ==> Bare(t, snap, s + [c], d + [c])
    requires exists c :: c in items && !Landable(t, snap, s + [c], d + [c])
    ensures d < w && w[|d|] in items
    ensures FallsShort(LayItems(t, snap, s, d, items), Tree.Relocated(snap, s + [w[|d|]], d + [w[|d|]]), w)
    decreases Tree.Below(snap, s), 0, |items|
  {
    hide Lay, Landable, Bare, Same, Tree.Relocated;
    var c, rest := items[0], items[1..];
    assert c in items && items == [c] + rest;
    Tree.BelowChild(snap, s, c);
    var v := Lay(t, snap, s + [c], d + [c]);
    LayAbove(t, snap, s + [c], d + [c], []);
    if Landable(t, snap, s + [c], d + [c]) {
      forall x | x in rest
        ensures Bare(v, snap, s + [x], d + [x])
        ensures Landable(t, snap, s + [x], d + [x]) <==> Landable(v, snap, s + [x], d + [x])
      {
        assert x in items && x != c;
        LaySibling(t, snap, s, d, c, x);
        MeetsLocal(t, v, snap, s + [x], d + [x]);
      }
      w := LayItemsDiffer(v, snap, s, d, rest);
    } else {
      w := LayDiffers(t, snap, s + [c], d + [c]);
      assert w[|d|] == c;
      forall x | x in rest ensures !(d + [x] <= w) {
        assert (d + [x])[|d|] == x && x in items && x != c;
      }
      LayItemsLocal(v, snap, s, d, rest, w);
    }
  }

  /** Where nothing stands below what is met, a copy is the relocated walk of its source, and
      the ancestors missing when a directory had to be made, exactly when every
      non-directory that a directory meets is a plain file and the first entry listed in
      that directory is a directory. */
  lemma LayExactIff(t: Tree.Tree, snap: Tree.Tree, s: Path, d: Path)
    requires s in snap && Tree.DirAt(t, []) && d != [] && Bare(t, snap, s, d)
    requires Tree.DirAt(snap, s) || Tree.DirAt(t, Parent(d))
    ensures Lay(t, snap, s, d) == Prepared(t, snap, s, d) + Tree.Relocated(snap, s, d) <==>
      Landable(t, snap, s, d)
  {
    hide Lay, Landable, Bare, Prepared, Tree.Relocated;
    if Landable(t, snap, s, d) {
      LayExact(t, snap, s, d);
    } else {
      var w := LayDiffers(t, snap, s, d);
      var moved := Tree.Relocated(snap, s, d);
      assert w in Prepared(t, snap, s, d) + moved && (Prepared(t, snap, s, d) + moved)[w] == moved[w];
    }
  }

  /** A relocated walk reads only what lies at or below its start. */
  lemma RelocatedLocal(t: Tree.Tree, u: Tree.Tree, s: Path, d: Path)
    requires Same(t, u, s)
    ensures Tree.Relocated(t, s, d) == Tree.Relocated(u, s, d)
  {
    var a, b := Tree.Relocated(t, s, d), Tree.Relocated(u, s, d);
    forall r
      ensures r in a <==> r in b
      ensures r in a ==> a[r] == b[r]
    {
      if d <= r {
        var q := s + r[|d|..];
        forall k | |s| <= k <= |q| ensures Tree.DirAt(t, q[..k]) <==> Tree.DirAt(u, q[..k]) {
          assert s <= q[..k];
        }
        assert s <= q;
      }
    }
  }

  // ----- the walk of what has been laid -----

  /** Something stands in a copied directory that the copy has not put there. */
  ghost predicate Stray(t: Tree.Tree, moved: Tree.Tree, target: Path, r: Path) {
    r in t && target < r && r !in moved && Tree.DirAt(moved, Parent(r))
  }

  /** The walk of the target is the relocated walk exactly when nothing was left standing in a
      place that becomes a copied directory: residue is re-exposed. */
  lemma CopiedWalkIff(t: Tree.Tree, snap: Tree.Tree, s: Path, target: Path)
    requires s in snap && target != []
    ensures
      var moved := Tree.Relocated(snap, s, target);
      Tree.Relocated(t + moved, target, target) == moved <==> !exists r :: Stray(t, moved, target, r)
  {
    hide Tree.InWalk, Tree.Relocated;
    var moved := Tree.Relocated(snap, s, target);
    var u := t + moved;
    if r :| Stray(t, moved, target, r) {
      StrayWalked(t, snap, s, target, r);
    } else {
      forall p
        ensures p in Tree.Relocated(u, target, target) <==> p in moved
        ensures p in moved ==> Tree.Relocated(u, target, target)[p] == moved[p]
      {
        OwnWalk(u, target, p);
        if p in moved { MovedWalk(t, snap, s, target, p); }
        if p in Tree.Relocated(u, target, target) { WalkedIsMoved(t, snap, s, target, p); }
      }
    }
  }

  /** A walk relocated onto itself. */
  lemma OwnWalk(u: Tree.Tree, target: Path, p: Path)
    ensures p in Tree.Relocated(u, target, target) <==> Tree.InWalk(u, target, p)
    ensures p in Tree.Relocated(u, target, target) ==> p in u && Tree.Relocated(u, target, target)[p] == Tree.Copied(u[p])
  {
    if target <= p { assert target + p[|target|..] == p; }
  }

  lemma MovedWalk(t: Tree.Tree, snap: Tree.Tree, s: Path, target: Path, p: Path)
    requires p in Tree.Relocated(snap, s, target)
    ensures Tree.InWalk(t + Tree.Relocated(snap, s, target), target, p)
    ensures Tree.Copied(Tree.Relocated(snap, s, target)[p]) == Tree.Relocated(snap, s, target)[p]
  {
    forall k | |target| <= k < |p| ensures Tree.DirAt(t + Tree.Relocated(snap, s, target), p[..k]) {
      RelocatedDirs(snap, s, target, p, k);
    }
  }

  lemma StrayWalked(t: Tree.Tree, snap: Tree.Tree, s: Path, target: Path, r: Path)
    requires Stray(t, Tree.Relocated(snap, s, target), target, r)
    ensures r in Tree.Relocated(t + Tree.Relocated(snap, s, target), target, target)
  {
    var u := t + Tree.Relocated(snap, s, target);
    MovedWalk(t, snap, s, target, Parent(r));
    forall k | |target| <= k < |r| ensures Tree.DirAt(u, r[..k]) {
      if k < |r| - 1 {
        assert r[..k] == Parent(r)[..k];
        assert Tree.DirAt(u, Parent(r)[..k]);
      }
    }
    OwnWalk(u, target, r);
  }

  lemma {:induction false} WalkedIsMoved(t: Tree.Tree, snap: Tree.Tree, s: Path, target: Path, p: Path)
    requires s in snap && !exists r :: Stray(t, Tree.Relocated(snap, s, target), target, r)
    requires Tree.InWalk(t + Tree.Relocated(snap, s, target), target, p)
    ensures p in Tree.Relocated(snap, s, target)
    decreases |p|
  {
    hide Tree.Relocated;
    var moved := Tree.Relocated(snap, s, target);
    var u := t + moved;
    if p == target {
      StartRelocated(snap, s, target);
    } else {
      assert p[..|p| - 1] == Parent(p);
      assert Tree.DirAt(u, Parent(p));
      WalkPrefix(u, target, p, |p| - 1);
      WalkedIsMoved(t, snap, s, target, Parent(p));
      assert !Stray(t, moved, target, p);
    }
  }

  /** Whatever is added below `target`, a path is reachable below it exactly when the way to
      `target` and from there on is one of directories; elsewhere nothing changes. */
  lemma GraftReachable(t: Tree.Tree, added: Tree.Tree, target: Path, p: Path)
    requires Tree.DirAt(t, []) && target != [] && forall r :: r in added ==> target <= r
    ensures Tree.Reachable(t + added, p) <==>
      if target <= p then Tree.DirChain(t, Parent(target)) && Tree.InWalk(t + added, target, p)
      else Tree.Reachable(t, p)
  {
    var u := t + added;
    assert !(target <= []);
    Tree.ReachableIffChain(t, p);
    Tree.ReachableIffChain(u, p);
    forall k | 0 <= k <= |p| && !(target <= p[..k]) ensures Tree.DirAt(u, p[..k]) <==> Tree.DirAt(t, p[..k]) {
    }
    if target <= p {
      assert forall k :: 0 <= k < |target| ==> p[..k] == Parent(target)[..k] && !(target <= p[..k]);
      if Tree.InWalk(u, [], p) {
        forall k | 0 <= k <= |Parent(target)| ensures Tree.DirAt(t, Parent(target)[..k]) {
          assert Tree.DirAt(u, p[..k]);
        }
      }
      if Tree.DirChain(t, Parent(target)) && Tree.InWalk(u, target, p) {
        forall k | 0 <= k < |p| ensures Tree.DirAt(u, p[..k]) {
          if k < |target| { assert Tree.DirAt(t, Parent(target)[..k]); }
        }
      }
    } else {
      assert forall k :: 0 <= k <= |p| ==> target <= p[..k] ==> target <= p;
    }
  }

  /** The ancestors made for the target change nothing below it, and remove nothing. */
  lemma PreparedAt(t: Tree.Tree, snap: Tree.Tree, s: Path, target: Path, q: Path)
    requires Tree.DirAt(t, []) && target != []
    ensures
      var u := Prepared(t, snap, s, target);
      && (target <= q ==> (q in u <==> q in t) && (q in t ==> u[q] == t[q]))
      && (q in t ==> q in u && (t[q].D? ==> u[q].D?))
  {
    hide NeedsDir, Tree.Mkdirs;
    Tree.MkdirsAt(t, Parent(target), q);
    assert target <= q ==> !(q <= Parent(target));
  }

  lemma AncestorsDiffer(t: Tree.Tree, snap: Tree.Tree, s: Path, target: Path)
    requires Tree.DirAt(t, []) && target != []
    ensures
      var moved := Tree.Relocated(snap, s, target);
      Tree.Mkdirs(t, Parent(target)) + moved == t + moved <==> Tree.Settled(t, Parent(target))
  {
    hide Tree.InWalk, Tree.Relocated;
    var p, moved := Parent(target), Tree.Relocated(snap, s, target);
    var u := Tree.Mkdirs(t, p);
    Tree.MkdirsSettles(t, p);
    if u + moved == t + moved {
      forall k | 0 <= k <= |p| ensures p[..k] in t && !t[p[..k]].F? {
        assert p[..k] !in moved;
        assert p[..k] in u && !u[p[..k]].F?;
        assert p[..k] in u + moved && (u + moved)[p[..k]] == u[p[..k]];
        assert p[..k] in t + moved && (t + moved)[p[..k]] == t[p[..k]];
      }
    }
  }
}
