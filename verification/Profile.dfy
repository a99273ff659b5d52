/**
  The profile loader: a nested tree of nodes flattened into the path-keyed manifest that
  the indexed backend stores.
 */
module Profile {
  import opened Options
  import opened Paths
  import opened Overlay

  /** A profile node: file text, a list of empty files, a mapping, or something else. */
  datatype Value = Text(text: string) | Names(items: seq<string>) | Dict(entries: seq<(string, Value)>) | Unknown

  function Find(es: seq<(string, Value)>, n: string): (v: Option<Value>)
    ensures v.Some? ==> exists i :: 0 <= i < |es| && es[i] == (n, v.value)
    ensures v.None? ==> forall i :: 0 <= i < |es| ==> es[i].0 != n
  {
    if es == [] then None else if es[0].0 == n then Some(es[0].1) else Find(es[1..], n)
  }

  /** A mapping with a "content" or "provider" key describes one file. */
  predicate IsFileConfig(es: seq<(string, Value)>) {
    Find(es, "content").Some? || Find(es, "provider").Some?
  }

  function TextOr(v: Option<Value>, default: string): string {
    if v.Some? && v.value.Text? then v.value.text else default
  }

  function KindOf(v: Option<Value>): Kind {
    if v.None? || v == Some(Text("file")) then File else if v == Some(Text("dir")) then Dir else Generated
  }

  function ConfigRow(es: seq<(string, Value)>): Entry {
    Entry(KindOf(Find(es, "type")), TextOr(Find(es, "content"), ""),
          Attrs(TextOr(Find(es, "owner"), "root"), TextOr(Find(es, "group"), "root"),
                TextOr(Find(es, "perm"), "-rw-r--r--")))
  }

  const DIRECTORY: Entry := Entry(Dir, "", ROOT_FILE)

  function FileRow(text: string): Entry {
    Entry(File, text, ROOT_FILE)
  }

  type Manifest = map<Path, Entry>

  // ----- flattening -----

  /** A list of names, as empty files of a directory. */
  function FlatNames(path: Path, items: seq<string>): Manifest {
    if items == [] then map[path := DIRECTORY]
    else FlatNames(path, items[..|items| - 1])[path + [items[|items| - 1]] := FileRow("")]
  }

  function FlatValue(path: Path, v: Value): Manifest
    decreases v, 1, 0
  {
    match v
    case Text(text) => map[path := FileRow(text)]
    case Names(items) => FlatNames(path, items)
    case Dict(es) => if IsFileConfig(es) then map[path := ConfigRow(es)] else map[path := DIRECTORY] + Flat(path, es, v)
    case Unknown => map[]
  }

  /** The entries of a mapping, later ones overriding; `whole` is the mapping they are of. */
  function Flat(path: Path, es: seq<(string, Value)>, ghost whole: Value): Manifest
    requires forall e :: e in es ==> e.1 < whole
    decreases whole, 0, |es|
  {
    if es == [] then map[]
    else
      var last := es[|es| - 1];
      assert last in es;
      Flat(path, es[..|es| - 1], whole) + FlatValue(path + [last.0], last.1)
  }

  /** The manifest of a profile's nodes. */
  function Flatten(es: seq<(string, Value)>): Manifest {
    Flat([], es, Dict(es))
  }

  // ----- walking -----

  /** The row a node stands for itself. */
  function RowOf(v: Value): Option<Entry> {
    match v
    case Text(text) => Some(FileRow(text))
    case Names(_) => Some(DIRECTORY)
    case Dict(es) => Some(if IsFileConfig(es) then ConfigRow(es) else DIRECTORY)
    case Unknown => None
  }

  /** The node of a name below a node. */
  function Child(v: Value, n: string): Option<Value> {
    match v
    case Names(items) => if n in items then Some(Text("")) else None
    case Dict(es) => if IsFileConfig(es) then None else Find(es, n)
    case _ => None
  }

  /** Walking the nested tree along a path. */
  function Walk(v: Value, p: Path): Option<Entry>
    decreases |p|
  {
    if p == [] then RowOf(v)
    else match Child(v, p[0])
      case Some(c) => Walk(c, p[1..])
      case None => None
  }

  /** Mapping keys are distinct, and every name is a slash-free path component. */
  predicate WellNamed(v: Value)
    decreases v, 1, 0
  {
    match v
    case Names(items) => forall i :: 0 <= i < |items| ==> ValidName(items[i])
    case Dict(es) => IsFileConfig(es) || WellNamedAll(es, v)
    case _ => true
  }

  predicate WellNamedAll(es: seq<(string, Value)>, ghost whole: Value)
    requires forall e :: e in es ==> e.1 < whole
    decreases whole, 0, |es|
  {
    es == [] ||
    (var last := es[|es| - 1];
     assert last in es;
     && ValidName(last.0) && WellNamed(last.1)
     && (forall i :: 0 <= i < |es| - 1 ==> es[i].0 != last.0)
     && WellNamedAll(es[..|es| - 1], whole))
  }

  // ----- the flat manifest is the tree -----

  lemma {:induction false} FlatNamesAt(path: Path, items: seq<string>, q: Path)
    ensures q in FlatNames(path, items) <==> q == path || (|q| == |path| + 1 && path < q && q[|path|] in items)
    ensures q in FlatNames(path, items) ==>
      FlatNames(path, items)[q] == if q == path then DIRECTORY else FileRow("")
    decreases |items|
  {
    if items != [] {
      var last := items[|items| - 1];
      FlatNamesAt(path, items[..|items| - 1], q);
      assert items == items[..|items| - 1] + [last];
      assert q == path + [last] <==> |q| == |path| + 1 && path < q && q[|path|] == last;
    }
  }

  /** The node of a name among entries, by the last of them. */
  lemma FindLast(es: seq<(string, Value)>, n: string)
    requires es != [] && forall i :: 0 <= i < |es| - 1 ==> es[i].0 != es[|es| - 1].0
    ensures Find(es, n) == if es[|es| - 1].0 == n then Some(es[|es| - 1].1) else Find(es[..|es| - 1], n)
  {
    var k := |es| - 1;
    FindAppend(es[..k], es[k], n);
    assert es[..k] + [es[k]] == es;
    if es[k].0 == n { FindAbsent(es[..k], n); }
  }

  lemma {:induction false} FindAppend(es: seq<(string, Value)>, e: (string, Value), n: string)
    ensures Find(es + [e], n) == if Find(es, n).Some? then Find(es, n) else if e.0 == n then Some(e.1) else None
    decreases |es|
  {
    if es == [] {
      assert [e][1..] == [];
      assert es + [e] == [e];
    } else {
      assert (es + [e])[1..] == es[1..] + [e];
      FindAppend(es[1..], e, n);
    }
  }

  lemma {:induction false} FindAbsent(es: seq<(string, Value)>, n: string)
    requires forall i :: 0 <= i < |es| ==> es[i].0 != n
    ensures Find(es, n) == None
    decreases |es|
  {
  }

  /** Looking a path up in a node's flat form is walking the node. */
  lemma {:induction false} FlatValueIsWalk(path: Path, v: Value, q: Path)
    requires WellNamed(v)
    ensures q in FlatValue(path, v) <==> path <= q && Walk(v, q[|path|..]).Some?
    ensures q in FlatValue(path, v) ==> Some(FlatValue(path, v)[q]) == Walk(v, q[|path|..])
    decreases v, 1, 0
  {
    hide WellNamed, IsFileConfig, ConfigRow;
    if path <= q && |q| > |path| {
      var rel := q[|path|..];
      assert rel[0] == q[|path|] && rel[1..] == q[|path| + 1..];
    }
    match v
    case Text(_) => OnlyItself(path, q);
    case Unknown => OnlyItself(path, q);
    case Names(items) => FlatNamesAt(path, items, q); OnlyItself(path, q);
    case Dict(es) =>
      OnlyItself(path, q);
      if !IsFileConfig(es) {
        FlatIsWalk(path, es, v, q) by { Unpack(es, v); }
      }
  }

  lemma Unpack(es: seq<(string, Value)>, v: Value)
    requires v == Dict(es) && WellNamed(v) && !IsFileConfig(es)
    ensures WellNamedAll(es, v)
  {
  }

  lemma OnlyItself(path: Path, q: Path)
    ensures path <= q ==> (q == path <==> q[|path|..] == [])
  {
  }

  lemma {:induction false} FlatIsWalk(path: Path, es: seq<(string, Value)>, whole: Value, q: Path)
    requires forall e :: e in es ==> e.1 < whole
    requires WellNamedAll(es, whole)
    ensures q in Flat(path, es, whole) <==>
      path < q && Find(es, q[|path|]).Some? && Walk(Find(es, q[|path|]).value, q[|path| + 1..]).Some?
    ensures q in Flat(path, es, whole) ==>
      Some(Flat(path, es, whole)[q]) == Walk(Find(es, q[|path|]).value, q[|path| + 1..])
    decreases whole, 0, |es|
  {
    hide WellNamed, Walk, FlatValue;
    if es != [] {
      var k := |es| - 1;
      var last := es[k];
      assert last in es;
      FlatIsWalk(path, es[..k], whole, q);
      FlatValueIsWalk(path + [last.0], last.1, q);
      assert path + [last.0] <= q <==> path < q && q[|path|] == last.0;
      if path < q {
        FindLast(es, q[|path|]);
        if q[|path|] == last.0 {
          assert q[|path + [last.0]|..] == q[|path| + 1..];
          FindAbsent(es[..k], last.0);
        }
      }
    }
  }

  /** The profile's tree: its nodes below the root. */
  ghost predicate Proper(es: seq<(string, Value)>) {
    !IsFileConfig(es) && WellNamed(Dict(es))
  }

  /** Looking a path up in the manifest equals walking the nested tree. */
  lemma LookupIsWalk(es: seq<(string, Value)>, p: Path)
    requires Proper(es) && p != []
    ensures p in Flatten(es) <==> Walk(Dict(es), p).Some?
    ensures p in Flatten(es) ==> Some(Flatten(es)[p]) == Walk(Dict(es), p)
  {
    FlatIsWalk([], es, Dict(es), p);
  }

  lemma RootIsNotARow(es: seq<(string, Value)>)
    requires Proper(es)
    ensures [] !in Flatten(es)
  {
    FlatIsWalk([], es, Dict(es), []);
  }

  /** The names the parent index gives for a path are the names of the tree's nodes there. */
  lemma IndexIsChildren(es: seq<(string, Value)>, p: Path, n: string)
    requires Proper(es)
    ensures n in BackendNames(Flatten(es), p) <==> Walk(Dict(es), p + [n]).Some?
  {
    LookupIsWalk(es, p + [n]);
    var rows := Flatten(es);
    assert Parent(p + [n]) == p && Last(p + [n]) == n;
    if n in BackendNames(rows, p) {
      var q :| q in rows && q != [] && Parent(q) == p && Last(q) == n;
      assert q == p + [n];
    }
  }

  lemma {:induction false} WalkParent(v: Value, p: Path)
    requires p != [] && Walk(v, p).Some?
    ensures Walk(v, Parent(p)) == Some(DIRECTORY)
    decreases |p|
  {
    var c := Child(v, p[0]);
    if |p| > 1 {
      WalkParent(c.value, p[1..]);
      assert Parent(p)[0] == p[0] && Parent(p)[1..] == Parent(p[1..]);
    } else {
      assert Parent(p) == [];
    }
  }

  lemma {:induction false} WalkCanonical(v: Value, p: Path)
    requires WellNamed(v) && Walk(v, p).Some?
    ensures Canonical(p)
    decreases |p|
  {
    if p != [] {
      var c := Child(v, p[0]);
      ChildNamed(v, p[0]);
      WalkCanonical(c.value, p[1..]);
      assert p == [p[0]] + p[1..];
    }
  }

  lemma ChildNamed(v: Value, n: string)
    requires WellNamed(v) && Child(v, n).Some?
    ensures ValidName(n) && WellNamed(Child(v, n).value)
  {
    if v.Dict? { FindNamed(v.entries, v, n); }
  }

  lemma {:induction false} FindNamed(es: seq<(string, Value)>, whole: Value, n: string)
    requires forall e :: e in es ==> e.1 < whole
    requires WellNamedAll(es, whole) && Find(es, n).Some?
    ensures ValidName(n) && WellNamed(Find(es, n).value)
    decreases |es|
  {
    hide WellNamed, ValidName;
    if es != [] {
      FindLast(es, n);
      if es[|es| - 1].0 != n { FindNamed(es[..|es| - 1], whole, n); }
    }
  }

  /** Dynamic entries that a profile may come with: files at canonical paths whose parents
      are in the profile, dynamic, or the root. */
  ghost predicate ProperDynamic(rows: Manifest, dynamic: Manifest) {
    forall p :: p in dynamic ==>
      && p != [] && Canonical(p) && !dynamic[p].kind.Dir?
      && (Parent(p) == [] || Parent(p) in rows || Parent(p) in dynamic)
  }

  /** What start-up may have written: entries at canonical paths with stored parents. */
  ghost predicate ProperOverlay(b: Base, overlay: Manifest) {
    forall p :: p in overlay ==>
      && Canonical(p) && !overlay[p].kind.Generated?
      && (p != [] && Parent(p) != [] ==> Parent(p) in overlay || Parent(p) in b.rows || Parent(p) in b.dynamic)
  }

  /** Every entry's parent is the root or present as a directory, and every path is
      canonical: the manifest is what the filesystem assumes of its backend, and a filesystem
      over it starts in its invariant. */
  lemma ManifestIsWellFormed(es: seq<(string, Value)>, b: Base, overlay: Manifest)
    requires Proper(es) && b.rows == Flatten(es)
    ensures forall p :: p in b.rows ==>
      p != [] && Canonical(p) && (Parent(p) != [] ==> Parent(p) in b.rows && b.rows[Parent(p)] == DIRECTORY)
    ensures ProperDynamic(b.rows, b.dynamic) ==> WfBase(b)
    ensures ProperDynamic(b.rows, b.dynamic) && ProperOverlay(b, overlay) ==> Inv(Fs(overlay, {}, b))
  {
    hide Flatten, Proper;
    forall p | p in b.rows
      ensures p != [] && Canonical(p)
      ensures Parent(p) != [] ==> Parent(p) in b.rows && b.rows[Parent(p)] == DIRECTORY
    {
      RowWellFormed(es, p);
    }
    if ProperDynamic(b.rows, b.dynamic) {
      assert [] !in b.rows by { RootIsNotARow(es); }
      if ProperOverlay(b, overlay) {
        var fs := Fs(overlay, {}, b);
        assert Known(fs) == overlay.Keys + b.rows.Keys + b.dynamic.Keys + {[]};
      }
    }
  }

  lemma RowWellFormed(es: seq<(string, Value)>, p: Path)
    requires Proper(es) && p in Flatten(es)
    ensures p != [] && Canonical(p)
    ensures Parent(p) != [] ==> Parent(p) in Flatten(es) && Flatten(es)[Parent(p)] == DIRECTORY
  {
    RootIsNotARow(es);
    LookupIsWalk(es, p);
    WalkParent(Dict(es), p);
    WalkCanonical(Dict(es), p);
    if Parent(p) != [] { LookupIsWalk(es, Parent(p)); }
  }

  /** Nodes of different names never contribute the same path. */
  lemma SubtreesDisjoint(path: Path, m: string, v: Value, n: string, w: Value)
    requires m != n && WellNamed(v) && WellNamed(w)
    ensures FlatValue(path + [m], v).Keys !! FlatValue(path + [n], w).Keys
  {
    forall q | q in FlatValue(path + [m], v) ensures q !in FlatValue(path + [n], w) {
      FlatValueIsWalk(path + [m], v, q);
      FlatValueIsWalk(path + [n], w, q);
      assert q[|path|] == m;
    }
  }

  // ----- the rows -----

  function KindText(k: Kind): string {
    match k
    case Dir => "dir"
    case File => "file"
    case Generated => "generated"
  }

  /** A mapping that spells an entry out. */
  function Spelled(e: Entry): seq<(string, Value)> {
    [("type", Text(KindText(e.kind))), ("content", Text(e.content)), ("owner", Text(e.attrs.owner)),
     ("group", Text(e.attrs.group)), ("perm", Text(e.attrs.perm))]
  }

  /** A mapping that spells an entry out in full stands for exactly that entry. */
  lemma SpelledRow(e: Entry)
    ensures IsFileConfig(Spelled(e)) && ConfigRow(Spelled(e)) == e
  {
    var es := Spelled(e);
    FindFirst(es, 0);
    FindFirst(es, 1);
    FindFirst(es, 2);
    FindFirst(es, 3);
    FindFirst(es, 4);
  }

  lemma {:induction false} FindFirst(es: seq<(string, Value)>, i: nat)
    requires i < |es| && forall j :: 0 <= j < i ==> es[j].0 != es[i].0
    ensures Find(es, es[i].0) == Some(es[i].1)
    decreases i
  {
    if i > 0 { FindFirst(es[1..], i - 1); }
  }

  /** A mapping is a file exactly when it has a content or a provider; any other is a directory. */
  lemma ConfigExact(es: seq<(string, Value)>)
    ensures IsFileConfig(es) <==> exists i :: 0 <= i < |es| && (es[i].0 == "content" || es[i].0 == "provider")
    ensures !IsFileConfig(es) ==> RowOf(Dict(es)) == Some(Entry(Dir, "", Attrs("root", "root", "-rw-r--r--")))
  {
  }

  /** Whatever is not spelled out is a plain file's: a mapping with only its content is the text
      itself, and directories and texts belong to root. */
  lemma DefaultRow(content: string)
    ensures IsFileConfig([("content", Text(content))])
    ensures RowOf(Dict([("content", Text(content))])) == RowOf(Text(content))
    ensures RowOf(Text(content)) == Some(Entry(File, content, Attrs("root", "root", "-rw-r--r--")))
    ensures DIRECTORY == Entry(Dir, "", Attrs("root", "root", "-rw-r--r--"))
  {
    var es := [("content", Text(content))];
    assert es[1..] == [];
    FindAbsent(es, "type");
    FindAbsent(es, "owner");
    FindAbsent(es, "group");
    FindAbsent(es, "perm");
    FindFirst(es, 0);
  }

  // ----- the loader's loops -----

  method HandleListNode(flat: Manifest, path: Path, items: seq<string>) returns (r: Manifest)
    ensures r == flat + FlatNames(path, items)
  {
    r := flat[path := DIRECTORY];
    for i := 0 to |items|
      invariant r == flat + FlatNames(path, items[..i])
    {
      r := r[path + [items[i]] := FileRow("")];
      assert items[..i + 1][..i] == items[..i];
    }
    assert items[..|items|] == items;
  }

  method FlattenNodes(path: Path, es: seq<(string, Value)>, ghost whole: Value) returns (flat: Manifest)
    requires forall e :: e in es ==> e.1 < whole
    ensures flat == Flat(path, es, whole)
    decreases whole, 0
  {
    flat := map[];
    for i := 0 to |es|
      invariant flat == Flat(path, es[..i], whole)
    {
      var (name, value) := es[i];
      assert es[i] in es;
      var p := path + [name];
      assert es[..i + 1][..i] == es[..i];
      match value {
        case Text(text) => flat := flat[p := FileRow(text)];
        case Names(items) => flat := HandleListNode(flat, p, items);
        case Dict(entries) => flat := HandleDictNode(flat, p, value);
        case Unknown =>
      }
    }
    assert es[..|es|] == es;
  }

  method HandleDictNode(flat: Manifest, path: Path, value: Value) returns (r: Manifest)
    requires value.Dict?
    ensures r == flat + FlatValue(path, value)
    decreases value, 1
  {
    if IsFileConfig(value.entries) {
      r := flat[path := ConfigRow(value.entries)];
    } else {
      r := flat[path := DIRECTORY];
      var below := FlattenNodes(path, value.entries, value);
      r := r + below;
    }
  }

  /** The whole of the node loader. */
  method LoadNodes(es: seq<(string, Value)>) returns (rows: Manifest)
    requires Proper(es)
    ensures rows == Flatten(es)
    ensures [] !in rows
    ensures forall p :: p in rows ==> Some(rows[p]) == Walk(Dict(es), p)
    ensures forall p :: p != [] && Walk(Dict(es), p).Some? ==> p in rows
  {
    rows := FlattenNodes([], es, Dict(es));
    RootIsNotARow(es);
    forall p | p != []
      ensures p in rows ==> Some(rows[p]) == Walk(Dict(es), p)
      ensures Walk(Dict(es), p).Some? ==> p in rows
    {
      LookupIsWalk(es, p);
    }
  }
}
