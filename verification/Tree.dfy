/**
  The abstract filesystem: one map from paths to what lives there. Every query of the
  layered filesystem agrees with it and every mutation updates it (see `Overlay`).
 */
module Tree {
  import opened Paths

  /** `G` is a generated entry: a dynamic file whose declared type is not "file". */
  datatype Item = D | F(content: string) | G(content: string)

  type Tree = map<Path, Item>

  predicate DirAt(t: Tree, p: Path) {
    p in t && t[p].D?
  }

  function Children(t: Tree, p: Path): (names: set<string>)
    ensures forall c :: c in names <==> p + [c] in t
  {
    var names := set q | q in t && q != [] && Parent(q) == p :: Last(q);
    assert forall c :: p + [c] in t ==> Parent(p + [c]) == p && Last(p + [c]) == c;
    assert forall q: Path :: q in t && q != [] && Parent(q) == p ==> q == p + [Last(q)];
    names
  }

  /** Everything at or below a path. */
  function Below(t: Tree, p: Path): set<Path> {
    set q | q in t && p <= q
  }

  lemma BelowChild(t: Tree, p: Path, c: string)
    requires p in t
    ensures Below(t, p + [c]) < Below(t, p)
  {
    assert p in Below(t, p) && p !in Below(t, p + [c]);
  }

  function List(t: Tree, p: Path): set<string> {
    if DirAt(t, p) then Children(t, p) else {}
  }

  /** A path found by walking listings down from the root. */
  predicate Reachable(t: Tree, p: Path)
    decreases |p|
  {
    p == [] || (Reachable(t, Parent(p)) && Last(p) in List(t, Parent(p)))
  }

  /** A path found by walking listings down from `root`. */
  predicate InWalk(t: Tree, root: Path, q: Path) {
    root <= q && q in t && forall k :: |root| <= k < |q| ==> DirAt(t, q[..k])
  }

  /** Every ancestor of `p`, and `p` itself, is a directory. */
  predicate DirChain(t: Tree, p: Path) {
    forall k :: 0 <= k <= |p| ==> DirAt(t, p[..k])
  }

  function Mkfile(t: Tree, p: Path, content: string): Tree {
    if p == [] || !DirAt(t, Parent(p)) then t else t[p := F(content)]
  }

  function Mkdirs(t: Tree, p: Path): Tree
    decreases |p|
  {
    if p == [] then t
    else
      var above := Mkdirs(t, Parent(p));
      if p !in above || above[p].F? then above[p := D] else above
  }

  function Remove(t: Tree, p: Path): Tree {
    if p == [] then t else t - {p}
  }

  /** What a copy of an item becomes: a generated entry is copied as a plain file. */
  function Copied(i: Item): Item {
    if i.D? then D else F(i.content)
  }

  /** The walk below `src`, moved to stand below `dst`. */
  function Relocated(t: Tree, src: Path, dst: Path): (m: Tree)
    ensures forall r :: r in m <==> dst <= r && InWalk(t, src, src + r[|dst|..])
    ensures forall r :: r in m ==>
      dst <= r && src + r[|dst|..] in t && m[r] == Copied(t[src + r[|dst|..]])
  {
    var places := set q | q in t && InWalk(t, src, q) :: dst + q[|src|..];
    forall r ensures r in places <==> dst <= r && InWalk(t, src, src + r[|dst|..]) {
      if dst <= r && InWalk(t, src, src + r[|dst|..]) {
        var q := src + r[|dst|..];
        assert dst + q[|src|..] == r;
      }
      if r in places {
        var q :| q in t && InWalk(t, src, q) && r == dst + q[|src|..];
        assert src + r[|dst|..] == q;
      }
    }
    map r | r in places :: Copied(t[src + r[|dst|..]])
  }

  lemma {:induction false} MkdirsAt(t: Tree, p: Path, q: Path)
    requires [] in t
    ensures q in Mkdirs(t, p) <==> q in t || q <= p
    ensures q in Mkdirs(t, p) ==>
      Mkdirs(t, p)[q] == if q != [] && q <= p && (q !in t || t[q].F?) then D else t[q]
    decreases |p|
  {
    if p == [] {
      assert q <= p <==> q == [];
    } else {
      MkdirsAt(t, Parent(p), q);
      assert q <= p <==> q <= Parent(p) || q == p;
      assert !(p <= Parent(p));
    }
  }

  /** Making the directory `p` would change no ancestor of it, nor `p` itself. */
  predicate Settled(t: Tree, p: Path) {
    forall k :: 0 <= k <= |p| ==> p[..k] in t && !t[p[..k]].F?
  }

  /** Making a directory settles its whole path, and does nothing exactly when it is settled. */
  lemma MkdirsSettles(t: Tree, p: Path)
    requires DirAt(t, [])
    ensures Settled(Mkdirs(t, p), p)
    ensures Mkdirs(t, p) == t <==> Settled(t, p)
  {
    forall k | 0 <= k <= |p| ensures p[..k] in Mkdirs(t, p) && !Mkdirs(t, p)[p[..k]].F? {
      MkdirsAt(t, p, p[..k]);
    }
    if Settled(t, p) {
      forall q
        ensures q in Mkdirs(t, p) <==> q in t
        ensures q in t ==> Mkdirs(t, p)[q] == t[q]
      {
        MkdirsAt(t, p, q);
        if q <= p { assert q == p[..|q|]; }
      }
    }
  }

  lemma MkdirsStep(t: Tree, p: Path)
    requires p != []
    ensures
      var above := Mkdirs(t, Parent(p));
      Mkdirs(t, p) == if p !in above || above[p].F? then above[p := D] else above
  {
  }

  /** Below a settled path, making a directory adds that one path. */
  lemma MkdirsBelow(t: Tree, p: Path)
    requires p != [] && DirAt(t, []) && Settled(t, Parent(p))
    ensures Mkdirs(t, p) == if p !in t || t[p].F? then t[p := D] else t
  {
    MkdirsSettles(t, Parent(p));
  }

  /** Making the directory `p` does not see what is added off the way to it. */
  lemma MkdirsOver(t: Tree, added: Tree, p: Path)
    requires DirAt(t, []) && forall r :: r in added ==> !(r <= p)
    ensures Mkdirs(t + added, p) == Mkdirs(t, p) + added
    ensures Mkdirs(Mkdirs(t, p) + added, p) == Mkdirs(t, p) + added
  {
    MkdirsAdded(t, added, p);
    MkdirsAt(t, p, []);
    MkdirsSettles(t, p);
    MkdirsSettles(Mkdirs(t, p), p);
    MkdirsAdded(Mkdirs(t, p), added, p);
  }

  lemma MkdirsAdded(t: Tree, added: Tree, p: Path)
    requires DirAt(t, []) && forall r :: r in added ==> !(r <= p)
    ensures Mkdirs(t + added, p) == Mkdirs(t, p) + added
  {
    hide Mkdirs;
    assert [] <= p;
    var u, v := Mkdirs(t + added, p), Mkdirs(t, p) + added;
    forall q
      ensures q in u <==> q in v
      ensures q in u ==> u[q] == v[q]
    {
      MkdirsAt(t, p, q);
      MkdirsAt(t + added, p, q);
    }
  }

  lemma MkdirsParent(t: Tree, p: Path)
    requires p != [] && DirAt(t, []) && DirAt(t, p)
    ensures Mkdirs(t, p) == Mkdirs(t, Parent(p))
  {
    MkdirsAt(t, Parent(p), p);
  }

  lemma ChainSettled(t: Tree, p: Path)
    requires DirChain(t, p)
    ensures DirAt(t, []) && DirAt(t, p) && Settled(t, p)
  {
    assert p[..0] == [] && p[..|p|] == p;
    forall k | 0 <= k <= |p| ensures p[..k] in t && !t[p[..k]].F? {
      assert DirAt(t, p[..k]);
    }
  }

  lemma {:induction false} ReachableIffChain(t: Tree, p: Path)
    requires DirAt(t, [])
    ensures Reachable(t, p) <==> InWalk(t, [], p)
    decreases |p|
  {
    if p == [] {
      assert InWalk(t, [], p);
    } else {
      ReachableIffChain(t, Parent(p));
      assert Parent(p) + [Last(p)] == p;
      assert forall k :: 0 <= k < |p| - 1 ==> p[..k] == Parent(p)[..k];
      if InWalk(t, [], p) {
        assert DirAt(t, p[..|p| - 1]);
        forall k | 0 <= k < |Parent(p)| ensures DirAt(t, Parent(p)[..k]) {
          assert DirAt(t, p[..k]);
        }
        assert InWalk(t, [], Parent(p));
      }
      if Reachable(t, p) {
        forall k | 0 <= k < |p| ensures DirAt(t, p[..k]) {
          if k < |p| - 1 { assert DirAt(t, Parent(p)[..k]); }
        }
      }
    }
  }

  /** Removing `d` takes away exactly `d` and everything below it from what can be walked to. */
  lemma {:induction false} RemoveReachable(t: Tree, d: Path, p: Path)
    requires DirAt(t, []) && d != []
    ensures Reachable(Remove(t, d), p) <==> Reachable(t, p) && !(d <= p)
    decreases |p|
  {
    if p != [] {
      RemoveReachable(t, d, Parent(p));
      assert Parent(p) + [Last(p)] == p;
      assert d <= p <==> d <= Parent(p) || d == p;
    }
  }
}
