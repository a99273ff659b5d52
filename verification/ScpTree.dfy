/**
  The trees that SCP transfers, and what a sink makes of one in any destination: `Place`.
  It adds exactly the sent tree when no directory of it meets a generated entry.
 */
module ScpTree {
  import opened Paths
  import opened Laying
  import Tree

  /** Nine permission bits. */
  type Mode = m: nat | m < 512

  datatype Node =
    | FileNode(name: string, mode: Mode, content: string)
    | DirNode(name: string, mode: Mode, kids: seq<Node>)

  /** The paths and items a node stands for below `b`. */
  function Flatten(b: Path, n: Node): Tree.Tree
    decreases n
  {
    var p := b + [n.name];
    match n
    case FileNode(_, _, content) => map[p := Tree.F(content)]
    case DirNode(_, _, kids) => map[p := Tree.D] + FlattenAll(p, kids)
  }

  function FlattenAll(b: Path, ns: seq<Node>): Tree.Tree
    decreases ns
  {
    if ns == [] then map[] else Flatten(b, ns[0]) + FlattenAll(b, ns[1..])
  }

  /** The tree once a node has been received in the base `b`: a directory is made like any
      other, and a file goes into the base, or to its place when the base is no directory. */
  function Place(t: Tree.Tree, b: Path, n: Node): Tree.Tree
    decreases n
  {
    match n
    case FileNode(name, _, content) => Tree.Mkfile(t, if Tree.DirAt(t, b) then b + [name] else b, content)
    case DirNode(name, _, kids) => PlaceAll(Tree.Mkdirs(t, b + [name]), b + [name], kids)
  }

  function PlaceAll(t: Tree.Tree, b: Path, ns: seq<Node>): Tree.Tree
    decreases ns
  {
    if ns == [] then t else PlaceAll(Place(t, b, ns[0]), b, ns[1..])
  }

  /** Making a directory in the base also makes whatever ancestors the base lacks. */
  function Made(t: Tree.Tree, b: Path, n: Node): Tree.Tree {
    if n.DirNode? then Tree.Mkdirs(t, b) else t
  }

  predicate HasDir(ns: seq<Node>) {
    ns != [] && (ns[0].DirNode? || HasDir(ns[1..]))
  }

  function MadeAll(t: Tree.Tree, b: Path, ns: seq<Node>): Tree.Tree {
    if HasDir(ns) then Tree.Mkdirs(t, b) else t
  }

  /** No directory of the node stands where a generated entry is: `mkdir_p` takes such an
      entry for a directory and leaves it. */
  predicate Accepts(t: Tree.Tree, b: Path, n: Node)
    decreases n
  {
    var p := b + [n.name];
    n.DirNode? ==> (p in t ==> !t[p].G?) && AcceptsAll(t, p, n.kids)
  }

  predicate AcceptsAll(t: Tree.Tree, b: Path, ns: seq<Node>)
    decreases ns
  {
    ns == [] || (Accepts(t, b, ns[0]) && AcceptsAll(t, b, ns[1..]))
  }

  /** Nothing stands below a generated entry that a directory of the node meets. */
  ghost predicate NothingBelow(t: Tree.Tree, b: Path, n: Node)
    decreases n
  {
    var p := b + [n.name];
    n.DirNode? ==> if p in t && t[p].G? then forall r :: r in t ==> !(p < r) else NothingBelowAll(t, p, n.kids)
  }

  ghost predicate NothingBelowAll(t: Tree.Tree, b: Path, ns: seq<Node>)
    decreases ns
  {
    ns == [] || (NothingBelow(t, b, ns[0]) && NothingBelowAll(t, b, ns[1..]))
  }

  /** Siblings have different names. */
  predicate Distinct(n: Node)
    decreases n
  {
    n.DirNode? ==> DistinctAll(n.kids)
  }

  predicate DistinctAll(ns: seq<Node>)
    decreases ns
  {
    ns == [] ||
    (Distinct(ns[0]) && (forall i :: 0 < i < |ns| ==> ns[i].name != ns[0].name) && DistinctAll(ns[1..]))
  }

  // ----- the flat form -----

  lemma {:induction false} FlattenBelow(b: Path, n: Node, r: Path)
    requires r in Flatten(b, n)
    ensures b + [n.name] <= r
    decreases n
  {
    if n.DirNode? && r != b + [n.name] {
      FlattenAllBelow(b + [n.name], n.kids, r);
    }
  }

  lemma {:induction false} FlattenAllBelow(b: Path, ns: seq<Node>, r: Path)
    requires r in FlattenAll(b, ns)
    ensures b < r && exists i :: 0 <= i < |ns| && r[|b|] == ns[i].name
    decreases ns
  {
    if r in FlattenAll(b, ns[1..]) {
      FlattenAllBelow(b, ns[1..], r);
      var i :| 0 <= i < |ns[1..]| && r[|b|] == ns[1..][i].name;
      assert ns[i + 1] == ns[1..][i];
    } else {
      FlattenBelow(b, ns[0], r);
      assert r[|b|] == ns[0].name;
    }
  }

  /** A node's own place. */
  lemma FlattenOwn(b: Path, n: Node)
    ensures
      var p := b + [n.name];
      p in Flatten(b, n) && Flatten(b, n)[p] == if n.DirNode? then Tree.D else Tree.F(n.content)
  {
    var p := b + [n.name];
    if n.DirNode? && p in FlattenAll(p, n.kids) { FlattenAllBelow(p, n.kids, p); }
  }

  // ----- where a node is placed -----

  /** Placing changes nothing that is neither on the way to, nor at or below the node's place. */
  lemma {:induction false} PlaceLocal(t: Tree.Tree, b: Path, n: Node, q: Path)
    requires [] in t && !(b + [n.name] <= q) && !(q <= b + [n.name])
    ensures q in Place(t, b, n) <==> q in t
    ensures q in t ==> Place(t, b, n)[q] == t[q]
    decreases n
  {
    if n.DirNode? {
      var p := b + [n.name];
      Tree.MkdirsAt(t, p, q);
      Tree.MkdirsAt(t, p, []);
      PlaceAllLocal(Tree.Mkdirs(t, p), p, n.kids, q);
    }
  }

  lemma {:induction false} PlaceAllLocal(t: Tree.Tree, b: Path, ns: seq<Node>, q: Path)
    requires [] in t && !(q <= b) && forall i :: 0 <= i < |ns| ==> !(b + [ns[i].name] <= q)
    ensures q in PlaceAll(t, b, ns) <==> q in t
    ensures q in t ==> PlaceAll(t, b, ns)[q] == t[q]
    decreases ns
  {
    hide Place;
    if ns != [] {
      NotOnWay(b, ns[0].name, q);
      PlaceLocal(t, b, ns[0], q);
      PlaceGrows(t, b, ns[0], []);
      PlaceAllLocal(Place(t, b, ns[0]), b, ns[1..], q);
    }
  }

  lemma NotOnWay(b: Path, c: string, q: Path)
    requires !(q <= b) && !(b + [c] <= q)
    ensures !(q <= b + [c])
  {
  }

  /** Nothing is taken away. */
  lemma {:induction false} PlaceGrows(t: Tree.Tree, b: Path, n: Node, q: Path)
    requires [] in t && q in t
    ensures q in Place(t, b, n)
    decreases n
  {
    if n.DirNode? {
      var p := b + [n.name];
      Tree.MkdirsAt(t, p, q);
      Tree.MkdirsAt(t, p, []);
      PlaceAllGrow(Tree.Mkdirs(t, p), p, n.kids, q);
    }
  }

  lemma {:induction false} PlaceAllGrow(t: Tree.Tree, b: Path, ns: seq<Node>, q: Path)
    requires [] in t && q in t
    ensures q in PlaceAll(t, b, ns)
    decreases ns
  {
    if ns != [] {
      PlaceGrows(t, b, ns[0], q);
      PlaceGrows(t, b, ns[0], []);
      PlaceAllGrow(Place(t, b, ns[0]), b, ns[1..], q);
    }
  }

  /** On the way to the base what is no plain file stays, but a file sent into a base that is
      a generated entry. */
  lemma {:induction false} PlaceAbove(t: Tree.Tree, b: Path, n: Node, q: Path)
    requires [] in t && q <= b && q in t && !t[q].F? && (q == b && n.FileNode? ==> t[q].D?)
    ensures q in Place(t, b, n) && Place(t, b, n)[q] == t[q]
    decreases n
  {
    if n.DirNode? {
      var p := b + [n.name];
      Tree.MkdirsAt(t, p, q);
      Tree.MkdirsAt(t, p, []);
      PlaceAllAbove(Tree.Mkdirs(t, p), p, n.kids, q);
    }
  }

  lemma {:induction false} PlaceAllAbove(t: Tree.Tree, b: Path, ns: seq<Node>, q: Path)
    requires [] in t && q < b && q in t && !t[q].F?
    ensures q in PlaceAll(t, b, ns) && PlaceAll(t, b, ns)[q] == t[q]
    decreases ns
  {
    if ns != [] {
      PlaceAbove(t, b, ns[0], q);
      PlaceGrows(t, b, ns[0], []);
      PlaceAllAbove(Place(t, b, ns[0]), b, ns[1..], q);
    }
  }

  /** Every generated entry of `u` is one of `t`. */
  ghost predicate FewerGenerated(t: Tree.Tree, u: Tree.Tree) {
    forall q :: q in u && u[q].G? ==> q in t && t[q].G?
  }

  lemma MkdirsFewer(t: Tree.Tree, p: Path)
    requires [] in t
    ensures FewerGenerated(t, Tree.Mkdirs(t, p))
  {
    forall q | q in Tree.Mkdirs(t, p) && Tree.Mkdirs(t, p)[q].G? ensures q in t && t[q].G? {
      Tree.MkdirsAt(t, p, q);
    }
  }

  lemma {:induction false} PlaceFewer(t: Tree.Tree, b: Path, n: Node)
    requires [] in t
    ensures FewerGenerated(t, Place(t, b, n))
    decreases n
  {
    if n.DirNode? {
      var p := b + [n.name];
      MkdirsFewer(t, p);
      Tree.MkdirsAt(t, p, []);
      PlaceAllFewer(Tree.Mkdirs(t, p), p, n.kids);
    }
  }

  lemma {:induction false} PlaceAllFewer(t: Tree.Tree, b: Path, ns: seq<Node>)
    requires [] in t
    ensures FewerGenerated(t, PlaceAll(t, b, ns))
    decreases ns
  {
    if ns != [] {
      PlaceFewer(t, b, ns[0]);
      PlaceGrows(t, b, ns[0], []);
      PlaceAllFewer(Place(t, b, ns[0]), b, ns[1..]);
    }
  }

  lemma {:induction false} AcceptsFewer(t: Tree.Tree, u: Tree.Tree, b: Path, n: Node)
    requires FewerGenerated(t, u) && Accepts(t, b, n)
    ensures Accepts(u, b, n)
    decreases n
  {
    if n.DirNode? { AcceptsAllFewer(t, u, b + [n.name], n.kids); }
  }

  lemma {:induction false} AcceptsAllFewer(t: Tree.Tree, u: Tree.Tree, b: Path, ns: seq<Node>)
    requires FewerGenerated(t, u) && AcceptsAll(t, b, ns)
    ensures AcceptsAll(u, b, ns)
    decreases ns
  {
    if ns != [] {
      AcceptsFewer(t, u, b, ns[0]);
      AcceptsAllFewer(t, u, b, ns[1..]);
    }
  }

  // ----- what is accepted is added exactly -----

  lemma DirMade(t: Tree.Tree, b: Path, name: string)
    requires Tree.DirAt(t, []) && (b + [name] in t ==> !t[b + [name]].G?)
    ensures
      var p := b + [name];
      var u := Tree.Mkdirs(t, p);
      && u == Tree.Mkdirs(t, b) + map[p := Tree.D]
      && Tree.DirAt(u, []) && Tree.DirAt(u, p) && Tree.Mkdirs(u, p) == u
  {
    hide Tree.Mkdirs;
    var p := b + [name];
    var u := Tree.Mkdirs(t, p);
    assert Parent(p) == b && !(p <= b);
    Tree.MkdirsAt(t, b, p);
    Tree.MkdirsStep(t, p);
    Tree.MkdirsAt(t, p, p);
    Tree.MkdirsAt(t, p, []);
    Tree.MkdirsSettles(t, p);
    Tree.MkdirsSettles(u, p);
  }

  lemma {:induction false} PlaceExact(t: Tree.Tree, b: Path, n: Node)
    requires Tree.DirAt(t, []) && Tree.DirAt(t, b) && Accepts(t, b, n)
    ensures Place(t, b, n) == Made(t, b, n) + Flatten(b, n)
    decreases n
  {
    hide Tree.Mkdirs, PlaceAll, FlattenAll;
    var p := b + [n.name];
    if n.FileNode? {
      assert Parent(p) == b;
      assert t + map[p := Tree.F(n.content)] == t[p := Tree.F(n.content)];
    } else {
      DirMade(t, b, n.name);
      MkdirsFewer(t, p);
      AcceptsAllFewer(t, Tree.Mkdirs(t, p), p, n.kids);
      PlaceAllExact(Tree.Mkdirs(t, p), p, n.kids);
      SumAssociative(Tree.Mkdirs(t, b), map[p := Tree.D], FlattenAll(p, n.kids));
    }
  }

  lemma {:induction false} PlaceAllExact(t: Tree.Tree, b: Path, ns: seq<Node>)
    requires Tree.DirAt(t, []) && Tree.DirAt(t, b) && AcceptsAll(t, b, ns)
    ensures PlaceAll(t, b, ns) == MadeAll(t, b, ns) + FlattenAll(b, ns)
    decreases ns
  {
    hide Tree.Mkdirs, Place, Flatten, Accepts;
    if ns == [] {
      assert t + map[] == t;
    } else {
      var n, rest, added := ns[0], ns[1..], Flatten(b, ns[0]);
      PlaceExact(t, b, n);
      var v := Place(t, b, n);
      PlaceAbove(t, b, n, []);
      PlaceAbove(t, b, n, b);
      PlaceFewer(t, b, n);
      AcceptsAllFewer(t, v, b, rest);
      PlaceAllExact(v, b, rest);
      forall r | r in added ensures !(r <= b) { FlattenBelow(b, n, r); }
      Tree.MkdirsOver(t, added, b);
      SumAssociative(MadeAll(t, b, ns), added, FlattenAll(b, rest));
      MadeStep(t, b, ns, added);
    }
  }

  lemma MadeStep(t: Tree.Tree, b: Path, ns: seq<Node>, added: Tree.Tree)
    requires ns != []
    requires Tree.Mkdirs(t + added, b) == Tree.Mkdirs(t, b) + added
    requires Tree.Mkdirs(Tree.Mkdirs(t, b) + added, b) == Tree.Mkdirs(t, b) + added
    ensures MadeAll(Made(t, b, ns[0]) + added, b, ns[1..]) == MadeAll(t, b, ns) + added
  {
  }

  // ----- what is not accepted is not added -----

  lemma {:induction false} NothingBelowLocal(t: Tree.Tree, u: Tree.Tree, b: Path, n: Node)
    requires Same(t, u, b + [n.name])
    ensures NothingBelow(t, b, n) <==> NothingBelow(u, b, n)
    ensures Accepts(t, b, n) <==> Accepts(u, b, n)
    decreases n
  {
    var p := b + [n.name];
    SameAt(t, u, p);
    if n.DirNode? {
      forall i | 0 <= i < |n.kids| ensures Same(t, u, p + [n.kids[i].name]) { SameStep(t, u, p, n.kids[i].name); }
      NothingBelowAllLocal(t, u, p, n.kids);
      assert forall r :: p < r ==> (r in t <==> r in u);
    }
  }

  lemma SameStep(t: Tree.Tree, u: Tree.Tree, p: Path, c: string)
    requires Same(t, u, p)
    ensures Same(t, u, p + [c])
  {
    forall q | p + [c] <= q
      ensures q in t <==> q in u
      ensures q in t ==> t[q] == u[q]
    {
      assert p <= q;
    }
  }

  lemma {:induction false} NothingBelowAllLocal(t: Tree.Tree, u: Tree.Tree, b: Path, ns: seq<Node>)
    requires forall i :: 0 <= i < |ns| ==> Same(t, u, b + [ns[i].name])
    ensures NothingBelowAll(t, b, ns) <==> NothingBelowAll(u, b, ns)
    ensures AcceptsAll(t, b, ns) <==> AcceptsAll(u, b, ns)
    decreases ns
  {
    hide Same;
    if ns != [] {
      NothingBelowLocal(t, u, b, ns[0]);
      assert forall i :: 0 <= i < |ns[1..]| ==> ns[1..][i] == ns[i + 1];
      NothingBelowAllLocal(t, u, b, ns[1..]);
    }
  }

  /** Placing one node is not seen at or below the place of another name. */
  lemma PlaceSibling(t: Tree.Tree, b: Path, n: Node, c: string)
    requires [] in t && c != n.name
    ensures Same(t, Place(t, b, n), b + [c])
  {
    hide Place;
    forall q | b + [c] <= q
      ensures q in t <==> q in Place(t, b, n)
      ensures q in t ==> t[q] == Place(t, b, n)[q]
    {
      assert q[|b|] == c;
      assert !(b + [n.name] <= q) && !(q <= b + [n.name]);
      PlaceLocal(t, b, n, q);
    }
  }

  /** The first file sent into a generated entry has no place below it: it is stored where
      the entry was. */
  lemma {:induction false} FirstFileMissing(t: Tree.Tree, p: Path, ns: seq<Node>, i: nat)
    requires Tree.DirAt(t, []) && p != [] && p in t && t[p].G? && DistinctAll(ns)
    requires forall j :: 0 <= j < |ns| ==> p + [ns[j].name] !in t
    requires i < |ns| && ns[i].FileNode? && forall j :: 0 <= j < i ==> ns[j].DirNode?
    ensures p + [ns[i].name] !in PlaceAll(t, p, ns)
    decreases ns
  {
    hide Place;
    var n, rest, v := ns[0], ns[1..], Place(t, p, ns[0]);
    assert forall j :: 0 <= j < |rest| ==> rest[j] == ns[j + 1] && rest[j].name != n.name;
    PlaceGrows(t, p, n, []);
    if i == 0 {
      var w := p + [n.name];
      FileIntoGenerated(t, p, n);
      forall j | 0 <= j < |rest| ensures !(p + [rest[j].name] <= w) {
        assert (p + [rest[j].name])[|p|] == rest[j].name && w[|p|] == n.name;
      }
      PlaceAllLocal(v, p, rest, w);
    } else {
      RestMissing(t, p, ns);
      FirstFileMissing(v, p, rest, i - 1);
    }
  }

  /** A directory sent into a generated entry leaves it, and the places of the others empty. */
  lemma RestMissing(t: Tree.Tree, p: Path, ns: seq<Node>)
    requires Tree.DirAt(t, []) && p in t && t[p].G? && DistinctAll(ns) && ns != [] && ns[0].DirNode?
    requires forall j :: 0 <= j < |ns| ==> p + [ns[j].name] !in t
    ensures
      var v, rest := Place(t, p, ns[0]), ns[1..];
      && Tree.DirAt(v, []) && p in v && v[p].G? && DistinctAll(rest)
      && forall j :: 0 <= j < |rest| ==> p + [rest[j].name] !in v
  {
    hide Place;
    var n, rest, v := ns[0], ns[1..], Place(t, p, ns[0]);
    PlaceAbove(t, p, n, p);
    PlaceAbove(t, p, n, []);
    forall j | 0 <= j < |rest| ensures p + [rest[j].name] !in v {
      assert rest[j] == ns[j + 1] && rest[j].name != n.name;
      PlaceSibling(t, p, n, rest[j].name);
      SameAt(t, v, p + [rest[j].name]);
    }
  }

  /** What is sent into a generated entry: either the entry never becomes a directory, or the
      first file sent into it is missing. */
  lemma {:induction false} SentIntoGenerated(t: Tree.Tree, p: Path, ns: seq<Node>) returns (w: Path)
    requires Tree.DirAt(t, []) && p != [] && p in t && t[p].G? && DistinctAll(ns)
    requires forall i :: 0 <= i < |ns| ==> p + [ns[i].name] !in t
    ensures
      || (w == p && !Tree.DirAt(PlaceAll(t, p, ns), p))
      || (p < w && w in FlattenAll(p, ns) && w !in PlaceAll(t, p, ns))
    decreases ns
  {
    hide Place, Flatten;
    if ns == [] {
      w := p;
    } else if ns[0].FileNode? {
      w := p + [ns[0].name];
      FirstFileMissing(t, p, ns, 0);
      FlattenOwn(p, ns[0]);
    } else {
      RestMissing(t, p, ns);
      w := SentIntoGenerated(Place(t, p, ns[0]), p, ns[1..]);
    }
  }

  lemma FileIntoGenerated(t: Tree.Tree, p: Path, n: Node)
    requires n.FileNode? && p in t && t[p].G?
    ensures p + [n.name] in Place(t, p, n) <==> p + [n.name] in t
  {
    assert p + [n.name] != p;
  }

  lemma {:induction false} PlaceDiffers(t: Tree.Tree, b: Path, n: Node) returns (w: Path)
    requires Tree.DirAt(t, []) && Distinct(n) && NothingBelow(t, b, n) && !Accepts(t, b, n)
    ensures b + [n.name] <= w && FallsShort(Place(t, b, n), Flatten(b, n), w)
    decreases n
  {
    hide Tree.Mkdirs, PlaceAll, FlattenAll;
    var p := b + [n.name];
    var u := Tree.Mkdirs(t, p);
    Tree.MkdirsAt(t, p, p);
    Tree.MkdirsAt(t, p, []);
    FlattenOwn(b, n);
    if p in t && t[p].G? {
      forall i | 0 <= i < |n.kids| ensures p + [n.kids[i].name] !in u {
        Tree.MkdirsAt(t, p, p + [n.kids[i].name]);
        assert p < p + [n.kids[i].name];
      }
      w := SentIntoGenerated(u, p, n.kids);
      if w != p { FlattenedFile(p, n.kids, w); }
    } else {
      forall i | 0 <= i < |n.kids| ensures Same(t, u, p + [n.kids[i].name]) { OpenedSame(t, p, n.kids[i].name); }
      NothingBelowAllLocal(t, u, p, n.kids);
      w := PlaceAllDiffers(u, p, n.kids);
    }
  }

  lemma FlattenedFile(p: Path, ns: seq<Node>, w: Path)
    requires w in FlattenAll(p, ns)
    ensures p < w
  {
    FlattenAllBelow(p, ns, w);
  }

  lemma {:induction false} PlaceAllDiffers(t: Tree.Tree, b: Path, ns: seq<Node>) returns (w: Path)
    requires Tree.DirAt(t, []) && Tree.DirAt(t, b) && DistinctAll(ns) && NothingBelowAll(t, b, ns) && !AcceptsAll(t, b, ns)
    ensures b < w && FallsShort(PlaceAll(t, b, ns), FlattenAll(b, ns), w)
    decreases ns
  {
    hide Place, Flatten, Accepts, NothingBelow, Same;
    var n, rest, v := ns[0], ns[1..], Place(t, b, ns[0]);
    assert forall i :: 0 <= i < |rest| ==> rest[i] == ns[i + 1] && rest[i].name != n.name;
    PlaceAbove(t, b, n, []);
    PlaceAbove(t, b, n, b);
    if Accepts(t, b, n) {
      forall i | 0 <= i < |rest| ensures Same(t, v, b + [rest[i].name]) { PlaceSibling(t, b, n, rest[i].name); }
      NothingBelowAllLocal(t, v, b, rest);
      w := PlaceAllDiffers(v, b, rest);
    } else {
      w := PlaceDiffers(t, b, n);
      assert w[|b|] == n.name;
      forall i | 0 <= i < |rest| ensures !(b + [rest[i].name] <= w) {
        assert (b + [rest[i].name])[|b|] == rest[i].name;
      }
      PlaceAllLocal(v, b, rest, w);
      if w in FlattenAll(b, rest) { FlattenAllBelow(b, rest, w); }
    }
  }

  /** With distinct names among siblings, and nothing below a generated entry that a directory
      meets, receiving a node in a directory adds exactly that node, and the ancestors missing
      when a directory had to be made, if and only if no directory meets one. */
  lemma PlaceExactIff(t: Tree.Tree, b: Path, n: Node)
    requires Tree.DirAt(t, []) && Tree.DirAt(t, b) && Distinct(n) && NothingBelow(t, b, n)
    ensures Place(t, b, n) == Made(t, b, n) + Flatten(b, n) <==> Accepts(t, b, n)
  {
    hide Place, Flatten, Accepts, NothingBelow, Made;
    if Accepts(t, b, n) {
      PlaceExact(t, b, n);
    } else {
      var w := PlaceDiffers(t, b, n);
      assert (Made(t, b, n) + Flatten(b, n))[w] == Flatten(b, n)[w];
    }
  }

  // ----- what becomes of the entry that is met -----

  /** What stands at the base after each of the nodes sent into it: a file overwrites what is
      no directory, and a directory turns a plain file, but not a generated entry, into one. */
  function Outcome(i: Tree.Item, ns: seq<Node>): Tree.Item
    decreases |ns|
  {
    if ns == [] then i
    else Outcome(
      match ns[0]
      case FileNode(_, _, content) => (if i.D? then i else Tree.F(content))
      case DirNode(_, _, _) => (if i.F? then Tree.D else i),
      ns[1..])
  }

  lemma PlaceAtBase(t: Tree.Tree, b: Path, n: Node)
    requires Tree.DirAt(t, []) && b != [] && Tree.DirAt(t, Parent(b)) && b in t
    ensures b in Place(t, b, n) && Place(t, b, n)[b] == Outcome(t[b], [n])
    ensures Tree.DirAt(Place(t, b, n), []) && Tree.DirAt(Place(t, b, n), Parent(b))
  {
    hide Tree.Mkdirs, PlaceAll;
    PlaceGrows(t, b, n, b);
    assert [n][1..] == [];
    if n.DirNode? {
      var p := b + [n.name];
      Tree.MkdirsAt(t, p, b);
      Tree.MkdirsAt(t, p, []);
      Tree.MkdirsAt(t, p, Parent(b));
      assert Parent(b) < b < p;
      PlaceAllAbove(Tree.Mkdirs(t, p), p, n.kids, b);
      PlaceAllAbove(Tree.Mkdirs(t, p), p, n.kids, []);
      PlaceAllAbove(Tree.Mkdirs(t, p), p, n.kids, Parent(b));
    }
  }

  lemma {:induction false} MetOutcome(t: Tree.Tree, b: Path, ns: seq<Node>)
    requires Tree.DirAt(t, []) && b != [] && Tree.DirAt(t, Parent(b)) && b in t
    ensures b in PlaceAll(t, b, ns) && PlaceAll(t, b, ns)[b] == Outcome(t[b], ns)
    decreases ns
  {
    hide Place;
    if ns != [] {
      PlaceAtBase(t, b, ns[0]);
      assert [ns[0]][1..] == [];
      MetOutcome(Place(t, b, ns[0]), b, ns[1..]);
    }
  }

  /** A generated entry that a directory meets ends as the outcome of what is sent into it. */
  lemma GeneratedOutcome(t: Tree.Tree, b: Path, n: Node)
    requires Tree.DirAt(t, []) && Tree.DirAt(t, b) && n.DirNode?
    requires b + [n.name] in t && t[b + [n.name]].G?
    ensures
      var p, u := b + [n.name], Place(t, b, n);
      p in u && u[p] == Outcome(t[p], n.kids)
  {
    hide Tree.Mkdirs, PlaceAll, Outcome;
    var p := b + [n.name];
    assert Parent(p) == b;
    Tree.MkdirsAt(t, p, p);
    Tree.MkdirsAt(t, p, b);
    Tree.MkdirsAt(t, p, []);
    MetOutcome(Tree.Mkdirs(t, p), p, n.kids);
  }

  /** It stays exactly when no file is sent directly into it; files alone leave the last
      one's content there; and it becomes a directory exactly when a directory is sent into it
      after a file. */
  lemma {:induction false} OutcomeOf(i: Tree.Item, ns: seq<Node>)
    requires !i.D?
    ensures i.G? ==> (Outcome(i, ns).G? <==> forall k :: 0 <= k < |ns| ==> ns[k].DirNode?)
    ensures (forall k :: 0 <= k < |ns| ==> ns[k].FileNode?) ==>
      Outcome(i, ns) == if ns == [] then i else Tree.F(ns[|ns| - 1].content)
    ensures i.G? ==>
      (Outcome(i, ns).D? <==> exists j, k :: 0 <= j < k < |ns| && ns[j].FileNode? && ns[k].DirNode?)
    ensures i.F? ==> (Outcome(i, ns).D? <==> exists k :: 0 <= k < |ns| && ns[k].DirNode?) && !Outcome(i, ns).G?
    decreases |ns|
  {
    if ns != [] {
      var n, rest := ns[0], ns[1..];
      assert forall k :: 0 <= k < |rest| ==> rest[k] == ns[k + 1];
      assert forall k :: 0 < k < |ns| ==> ns[k] == rest[k - 1];
      if i.F? && n.DirNode? {
        StaysDirectory(rest);
      } else {
        OutcomeOf(if n.FileNode? then Tree.F(n.content) else i, rest);
      }
    }
  }

  lemma {:induction false} StaysDirectory(ns: seq<Node>)
    ensures Outcome(Tree.D, ns) == Tree.D
    decreases |ns|
  {
    if ns != [] { StaysDirectory(ns[1..]); }
  }
}
