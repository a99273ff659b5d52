/**
  The server's cache of per-address filesystems: an ordered dictionary reordered on a hit
  and evicted from the front, against the access log.
 */
module FsCache {
  import opened Options

  datatype Key = Key(ip: string, user: Option<string>)

  datatype Slot<F> = Slot(key: Key, fs: F)

  /** One request that reached the cache; `built` is what the constructor would make, or
      nothing when it would raise. */
  datatype Access<F> = Access(key: Key, built: Option<F>)

  const LIMIT: nat := 100

  function Keys<F>(cache: seq<Slot<F>>): (ks: seq<Key>)
    ensures |ks| == |cache|
    ensures forall i :: 0 <= i < |ks| ==> ks[i] == cache[i].key
  {
    if cache == [] then [] else [cache[0].key] + Keys(cache[1..])
  }

  /** Position of a key, or the length when it is absent. */
  function Find(ks: seq<Key>, k: Key): (i: nat)
    ensures i <= |ks|
    ensures i < |ks| ==> ks[i] == k
    ensures forall j :: 0 <= j < i ==> ks[j] != k
  {
    if ks == [] || ks[0] == k then 0 else 1 + Find(ks[1..], k)
  }

  /** The cache after a request and what the request returns. */
  function Serve<F>(cache: seq<Slot<F>>, a: Access<F>): (seq<Slot<F>>, Option<F>) {
    var i := Find(Keys(cache), a.key);
    if i < |cache| then (cache[..i] + cache[i + 1..] + [cache[i]], Some(cache[i].fs))
    else if a.built.None? then (cache, None)
    else
      var kept := if |cache| >= LIMIT then cache[1..] else cache;
      (kept + [Slot(a.key, a.built.value)], a.built)
  }

  function Run<F>(log: seq<Access<F>>): seq<Slot<F>> {
    if log == [] then [] else Serve(Run(log[..|log| - 1]), log[|log| - 1]).0
  }

  predicate Hit<F>(cache: seq<Slot<F>>, k: Key) {
    Find(Keys(cache), k) < |cache|
  }

  /** The requests that used or filled a cache entry. */
  function Used<F>(log: seq<Access<F>>): seq<Key> {
    if log == [] then []
    else
      var before, a := log[..|log| - 1], log[|log| - 1];
      if Hit(Run(before), a.key) || a.built.Some? then Used(before) + [a.key] else Used(before)
  }

  // ----- recency order -----

  /** The last position of a key in the log. */
  function LastUse(uses: seq<Key>, k: Key): int {
    if uses == [] then -1
    else if uses[|uses| - 1] == k then |uses| - 1
    else LastUse(uses[..|uses| - 1], k)
  }

  /** The distinct keys of the log, least recently used first. */
  ghost predicate IsRecency(r: seq<Key>, uses: seq<Key>) {
    && (forall i, j :: 0 <= i < j < |r| ==> LastUse(uses, r[i]) < LastUse(uses, r[j]))
    && (forall k :: k in r <==> LastUse(uses, k) >= 0)
  }

  function Without(r: seq<Key>, k: Key): seq<Key> {
    var i := Find(r, k);
    if i < |r| then r[..i] + r[i + 1..] else r
  }

  function Recency(uses: seq<Key>): seq<Key> {
    if uses == [] then []
    else Without(Recency(uses[..|uses| - 1]), uses[|uses| - 1]) + [uses[|uses| - 1]]
  }

  lemma {:induction false} LastUseRange(uses: seq<Key>, k: Key)
    ensures -1 <= LastUse(uses, k) < |uses|
  {
    if uses != [] && uses[|uses| - 1] != k { LastUseRange(uses[..|uses| - 1], k); }
  }

  lemma LastUseAppend(uses: seq<Key>, k: Key, x: Key)
    ensures LastUse(uses + [k], x) == if x == k then |uses| else LastUse(uses, x)
    ensures LastUse(uses, x) < |uses|
  {
    assert (uses + [k])[..|uses|] == uses;
    LastUseRange(uses, x);
  }

  lemma AppendedOrder(r: seq<Key>, uses: seq<Key>, k: Key)
    requires IsRecency(r, uses)
    ensures
      var s := Without(r, k) + [k];
      forall i, j :: 0 <= i < j < |s| ==> LastUse(uses + [k], s[i]) < LastUse(uses + [k], s[j])
  {
    hide LastUse, Find;
    var w := Without(r, k);
    var s := w + [k];
    WithoutPlaces(r, uses, k);
    forall i, j | 0 <= i < j < |s| ensures LastUse(uses + [k], s[i]) < LastUse(uses + [k], s[j]) {
      LastUseAppend(uses, k, s[i]);
      LastUseAppend(uses, k, s[j]);
    }
  }

  lemma WithoutPlaces(r: seq<Key>, uses: seq<Key>, k: Key)
    requires IsRecency(r, uses)
    ensures
      var w := Without(r, k);
      && (forall i :: 0 <= i < |w| ==> w[i] != k)
      && (forall i, j :: 0 <= i < j < |w| ==> LastUse(uses, w[i]) < LastUse(uses, w[j]))
  {
  }

  lemma AppendedMembers(r: seq<Key>, uses: seq<Key>, k: Key)
    requires IsRecency(r, uses)
    ensures forall x :: x in Without(r, k) + [k] <==> LastUse(uses + [k], x) >= 0
  {
  }

  /** `Recency` is the recency order of the log, which has only one. */
  lemma {:induction false} RecencyIs(uses: seq<Key>)
    ensures IsRecency(Recency(uses), uses)
  {
    hide Without, LastUse;
    if uses != [] {
      var before, k := uses[..|uses| - 1], uses[|uses| - 1];
      RecencyIs(before);
      AppendedOrder(Recency(before), before, k);
      AppendedMembers(Recency(before), before, k);
      assert before + [k] == uses;
    } else {
      NeverUsed();
    }
  }

  lemma NeverUsed()
    ensures forall k :: LastUse([], k) == -1
  {
  }

  lemma {:induction false} RecencyUnique(r: seq<Key>, s: seq<Key>, uses: seq<Key>)
    requires IsRecency(r, uses) && IsRecency(s, uses)
    ensures r == s
  {
    SubsequenceLength(r, s, uses);
    SubsequenceLength(s, r, uses);
    forall i | 0 <= i < |r| ensures r[i] == s[i] {
      SamePlace(r, s, uses, i);
    }
  }

  /** In two recency orders of one log, every entry is at least as far along as its rank. */
  lemma {:induction false} RankBound(r: seq<Key>, s: seq<Key>, uses: seq<Key>, i: nat) returns (j: nat)
    requires IsRecency(r, uses) && IsRecency(s, uses) && i < |r|
    ensures j < |s| && s[j] == r[i] && i <= j
    decreases i
  {
    assert r[i] in r && r[i] in s;
    j :| 0 <= j < |s| && s[j] == r[i];
    if i > 0 {
      var h := RankBound(r, s, uses, i - 1);
      assert LastUse(uses, s[h]) < LastUse(uses, s[j]);
      Increasing(s, uses, h, j);
    }
  }

  lemma Increasing(r: seq<Key>, uses: seq<Key>, i: nat, j: nat)
    requires IsRecency(r, uses) && i < |r| && j < |r|
    ensures LastUse(uses, r[i]) < LastUse(uses, r[j]) ==> i < j
    ensures r[i] == r[j] ==> i == j
  {
  }

  lemma SubsequenceLength(r: seq<Key>, s: seq<Key>, uses: seq<Key>)
    requires IsRecency(r, uses) && IsRecency(s, uses)
    ensures |r| <= |s|
  {
    if r != [] { var j := RankBound(r, s, uses, |r| - 1); }
  }

  lemma SamePlace(r: seq<Key>, s: seq<Key>, uses: seq<Key>, i: nat)
    requires IsRecency(r, uses) && IsRecency(s, uses) && i < |r| && |r| == |s|
    ensures r[i] == s[i]
  {
    var j := RankBound(r, s, uses, i);
    var h := RankBound(s, r, uses, j);
    assert r[h] == r[i] && i <= j <= h;
    Increasing(r, uses, h, i);
  }

  // ----- the cache holds the most recent keys -----

  /** The last at most `LIMIT` elements. */
  function Newest(r: seq<Key>): seq<Key> {
    if |r| <= LIMIT then r else r[|r| - LIMIT..]
  }

  lemma KeysOfServe<F>(cache: seq<Slot<F>>, a: Access<F>)
    requires Hit(cache, a.key) || a.built.Some?
    ensures
      var ks, i := Keys(cache), Find(Keys(cache), a.key);
      Keys(Serve(cache, a).0) ==
        (if i < |ks| then ks[..i] + ks[i + 1..] else if |ks| >= LIMIT then ks[1..] else ks) + [a.key]
  {
    hide Find, Keys;
    var ks, i := Keys(cache), Find(Keys(cache), a.key);
    if i < |ks| {
      var head, tail := cache[..i], cache[i + 1..];
      KeysSlice(cache, i);
      KeysSlice(cache, i + 1);
      KeysAppend(head, tail);
      KeysOne(cache[i]);
      KeysAppend(head + tail, [cache[i]]);
    } else {
      var kept, slot := if |cache| >= LIMIT then cache[1..] else cache, Slot(a.key, a.built.value);
      if |cache| >= LIMIT { KeysSlice(cache, 1); }
      KeysOne(slot);
      KeysAppend(kept, [slot]);
    }
  }

  lemma KeysAppend<F>(a: seq<Slot<F>>, b: seq<Slot<F>>)
    ensures Keys(a + b) == Keys(a) + Keys(b)
  {
    hide Keys;
  }

  lemma KeysSlice<F>(a: seq<Slot<F>>, i: nat)
    requires i <= |a|
    ensures Keys(a[..i]) == Keys(a)[..i] && Keys(a[i..]) == Keys(a)[i..]
  {
    hide Keys;
  }

  lemma KeysOne<F>(s: Slot<F>)
    ensures Keys([s]) == [s.key]
  {
  }

  /** Among the newest keys, a hit is found where it stands in the whole order; a miss
      stands before them or nowhere. */
  lemma FindInNewest(r: seq<Key>, k: Key)
    requires forall i, j :: 0 <= i < j < |r| ==> r[i] != r[j]
    ensures
      var ks := Newest(r);
      var off, i, at := |r| - |ks|, Find(ks, k), Find(r, k);
      if i < |ks| then at == off + i else at == |r| || at < off
  {
  }

  lemma ServeNewest<F>(cache: seq<Slot<F>>, a: Access<F>, r: seq<Key>)
    requires forall i, j :: 0 <= i < j < |r| ==> r[i] != r[j]
    requires Keys(cache) == Newest(r)
    requires Hit(cache, a.key) || a.built.Some?
    ensures Keys(Serve(cache, a).0) == Newest(Without(r, a.key) + [a.key])
  {
    hide Serve, Find, Keys, Newest;
    KeysOfServe(cache, a);
    FindInNewest(r, a.key);
    var ks, k := Newest(r), a.key;
    var i, at := Find(ks, k), Find(r, k);
    if i < |ks| {
      NewestWithout(r, k, i);
    } else if at == |r| {
      NewestAppend(r, k);
    } else {
      NewestWithoutOld(r, k, at);
    }
  }

  lemma NewestWithout(r: seq<Key>, k: Key, i: nat)
    requires i < |Newest(r)|
    ensures
      var ks, at := Newest(r), |r| - |Newest(r)| + i;
      Newest(r[..at] + r[at + 1..] + [k]) == ks[..i] + ks[i + 1..] + [k]
  {
  }

  lemma NewestAppend(r: seq<Key>, k: Key)
    ensures Newest(r + [k]) == (if |Newest(r)| >= LIMIT then Newest(r)[1..] else Newest(r)) + [k]
  {
  }

  lemma NewestWithoutOld(r: seq<Key>, k: Key, at: nat)
    requires at < |r| - |Newest(r)|
    ensures |Newest(r)| == LIMIT && Newest(r[..at] + r[at + 1..] + [k]) == Newest(r)[1..] + [k]
  {
  }

  /** After any log of requests, the cached keys are the last at most 100 distinct keys used,
      in order of most recent use. */
  lemma {:induction false} CacheIsNewest<F>(log: seq<Access<F>>)
    ensures Keys(Run(log)) == Newest(Recency(Used(log)))
    ensures IsRecency(Recency(Used(log)), Used(log))
  {
    hide Serve, IsRecency, Newest;
    RecencyIs(Used(log));
    if log != [] {
      var before, a := log[..|log| - 1], log[|log| - 1];
      CacheIsNewest(before);
      if Hit(Run(before), a.key) || a.built.Some? {
        RecencyDistinct(Used(before));
        ServeNewest(Run(before), a, Recency(Used(before)));
        assert Used(log)[..|Used(log)| - 1] == Used(before);
      } else {
        MissUnbuilt(Run(before), a);
      }
    } else {
      assert Newest([]) == [] by { NewestEmpty(); }
    }
  }

  lemma NewestEmpty()
    ensures Newest([]) == []
  {
  }

  lemma MissUnbuilt<F>(cache: seq<Slot<F>>, a: Access<F>)
    requires !Hit(cache, a.key) && a.built.None?
    ensures Serve(cache, a) == (cache, None)
  {
  }

  lemma RecencyDistinct(uses: seq<Key>)
    ensures forall i, j :: 0 <= i < j < |Recency(uses)| ==> Recency(uses)[i] != Recency(uses)[j]
  {
    RecencyIs(uses);
  }

  /** So there are never more than 100, and with fewer than that none has been evicted. */
  lemma CacheSize<F>(log: seq<Access<F>>)
    ensures |Run(log)| == (if |Recency(Used(log))| < 100 then |Recency(Used(log))| else 100)
  {
    hide Run, Recency, Used;
    CacheIsNewest(log);
  }

  /** What the latest miss of a key stored. */
  function LatestMiss<F>(log: seq<Access<F>>, k: Key): Option<F> {
    if log == [] then None
    else
      var before, a := log[..|log| - 1], log[|log| - 1];
      if a.key == k && !Hit(Run(before), k) && a.built.Some? then a.built else LatestMiss(before, k)
  }

  /** Every cached filesystem is the one its key's latest miss stored. */
  lemma {:induction false} CachedIsLatestMiss<F>(log: seq<Access<F>>, i: nat)
    requires i < |Run(log)|
    ensures LatestMiss(log, Run(log)[i].key) == Some(Run(log)[i].fs)
    decreases |log|
  {
    if log != [] {
      var before, a := log[..|log| - 1], log[|log| - 1];
      var cache, at := Run(before), Find(Keys(Run(before)), a.key);
      var slot := Run(log)[i];
      if Hit(cache, a.key) {
        var from := if i == |cache| - 1 then at else if i < at then i else i + 1;
        assert slot == cache[from];
        CachedIsLatestMiss(before, from);
      } else if a.built.None? {
        CachedIsLatestMiss(before, i);
      } else if i < |Run(log)| - 1 {
        var from := if |cache| >= LIMIT then i + 1 else i;
        assert slot == cache[from];
        assert Keys(cache)[from] != a.key;
        CachedIsLatestMiss(before, from);
      }
    }
  }

  /** A hit returns the very filesystem stored at that key's latest miss. */
  lemma HitReturnsStored<F>(log: seq<Access<F>>, a: Access<F>)
    requires Hit(Run(log), a.key)
    ensures Serve(Run(log), a).1.Some? && Serve(Run(log), a).1 == LatestMiss(log, a.key)
  {
    var i := Find(Keys(Run(log)), a.key);
    CachedIsLatestMiss(log, i);
  }

  // ----- the server's method -----

  class VfsCache<F> {
    const persistent: bool
    var slots: seq<Slot<F>>

    constructor (persistent: bool)
      ensures this.persistent == persistent && slots == []
    {
      this.persistent := persistent;
      slots := [];
    }

    /** `built` is what constructing a filesystem would give, nothing when that raises;
        `fallback` is then built instead and not kept. */
    method GetFilesystem(key: Key, built: Option<F>, fallback: F) returns (fs: F)
      modifies this`slots
      ensures persistent && key.ip != "unknown" ==>
        var (after, served) := Serve(old(slots), Access(key, built));
        slots == after && fs == if served.Some? then served.value else fallback
      ensures !(persistent && key.ip != "unknown") ==>
        slots == old(slots) && fs == if built.Some? then built.value else fallback
    {
      var cached := persistent && key.ip != "unknown";
      if cached {
        var i := Find(Keys(slots), key);
        if i < |slots| {
          var slot := slots[i];
          slots := slots[..i] + slots[i + 1..] + [slot];
          return slot.fs;
        }
      }
      if built.None? { return fallback; }
      if cached {
        if |slots| >= LIMIT {
          slots := slots[1..];
        }
        slots := slots + [Slot(key, built.value)];
      }
      fs := built.value;
    }
  }
}
