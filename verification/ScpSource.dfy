/**
  The SCP source (`scp -f`): what it prints for a file tree, and what a sink fed those bytes
  makes of it.
 */
module ScpSource {
  import opened Options
  import opened Paths
  import opened Text
  import opened ScpSink
  import opened ScpTree
  import Tree

  /** A component that survives the header line: no line end, and no trailing whitespace. */
  predicate GoodName(n: string) {
    ValidName(n) && '\n' !in n && !IsSpace(n[|n| - 1])
  }

  predicate GoodNode(n: Node)
    decreases n
  {
    GoodName(n.name) && (n.DirNode? ==> GoodNodes(n.kids))
  }

  predicate GoodNodes(ns: seq<Node>)
    decreases ns
  {
    ns == [] || (GoodNode(ns[0]) && GoodNodes(ns[1..]))
  }

  function FileLine(mode: Mode, size: nat, name: string): string {
    "C" + Octal4(mode) + " " + Decimal(size) + " " + name
  }

  function DirLine(mode: Mode, name: string): string {
    "D" + Octal4(mode) + " 0 " + name
  }

  function Bytes(n: Node): string
    decreases n
  {
    match n
    case FileNode(name, mode, content) => FileLine(mode, |content|, name) + "\n" + (content + [0 as char])
    case DirNode(name, mode, kids) => DirLine(mode, name) + "\n" + BytesAll(kids) + "E\n"
  }

  function BytesAll(ns: seq<Node>): string
    decreases ns
  {
    if ns == [] then "" else Bytes(ns[0]) + BytesAll(ns[1..])
  }

  /** The bytes on the wire, for a file of mode 644 in a directory of mode 755. */
  lemma WireFormat()
    ensures Bytes(FileNode("a", 420, "hi")) == "C0644 2 a\nhi" + [0 as char]
    ensures Bytes(DirNode("d", 493, [FileNode("a", 420, "hi")])) == "D0755 0 d\n" + "C0644 2 a\nhi" + [0 as char] + "E\n"
  {
    assert Octal4(420) == "0644" && Octal4(493) == "0755" && Decimal(2) == "2";
    assert FileLine(420, 2, "a") == "C0644 2 a" && DirLine(493, "d") == "D0755 0 d";
    var file := FileNode("a", 420, "hi");
    assert Bytes(file) == "C0644 2 a" + "\n" + ("hi" + [0 as char]) == "C0644 2 a\nhi" + [0 as char];
    assert [file][1..] == [];
    assert BytesAll([file]) == Bytes(file) + "" == Bytes(file);
    assert "D0755 0 d" + "\n" == "D0755 0 d\n";
  }

  /** The acknowledgements a sink returns: two for a file, two around a directory's children. */
  function Acks(n: Node): string
    decreases n
  {
    match n
    case FileNode(_, _, _) => ACK + ACK
    case DirNode(_, _, kids) => ACK + AcksAll(kids) + ACK
  }

  function AcksAll(ns: seq<Node>): string
    decreases ns
  {
    if ns == [] then "" else Acks(ns[0]) + AcksAll(ns[1..])
  }

  // ----- header round trip -----

  lemma NoLineEnd(s: string)
    requires AllDigits(s)
    ensures '\n' !in s && ' ' !in s
  {
  }

  lemma StripLine(line: string)
    requires line != "" && !IsSpace(line[0]) && !IsSpace(line[|line| - 1])
    ensures Strip(line + "\n") == line
  {
    StripPadded("", line, "\n");
    assert "" + line + "\n" == line + "\n";
  }

  /** Printing and parsing a file header returns the mode, the decimal size and the name. */
  lemma FileLineRoundTrip(mode: Mode, size: nat, name: string)
    requires GoodName(name)
    ensures
      var line := FileLine(mode, size, name);
      && '\n' !in line && Strip(line + "\n") == line && line[0] == 'C'
      && ParseFile(line) == Some(FileHeader(Octal4(mode), size, name))
      && OctalValue(Octal4(mode)) == mode
  {
    var line, d := FileLine(mode, size, name), Decimal(size);
    FileLineParts(mode, size, name);
    NoLineEnd(Octal4(mode));
    NoLineEnd(d);
    hide Octal4, Decimal, FileLine, Strip;
    StripLine(line);
    DigitRunExact(d, " " + name);
    DecimalRoundTrip(size);
    Octal4RoundTrip(mode);
  }

  /** Where the parts of a file header stand. */
  lemma FileLineParts(mode: Mode, size: nat, name: string)
    requires name != ""
    ensures
      var line, d := FileLine(mode, size, name), Decimal(size);
      && |line| > 8 && line[0] == 'C' && line[1..5] == Octal4(mode) && line[5] == ' '
      && line[6..] == d + (" " + name)
      && (d + (" " + name))[..|d|] == d && (d + (" " + name))[|d| + 1..] == name
      && line[|line| - 1] == name[|name| - 1]
      && ('\n' in line ==> '\n' in Octal4(mode) || '\n' in d || '\n' in name)
  {
    hide Octal4, Decimal;
  }

  lemma DirLineRoundTrip(mode: Mode, name: string)
    requires GoodName(name)
    ensures
      var line := DirLine(mode, name);
      && '\n' !in line && Strip(line + "\n") == line && line[0] == 'D'
      && ParseDir(line) == Some(name)
  {
    var line := DirLine(mode, name);
    NoLineEnd(Octal4(mode));
    assert line[|line| - 1] == name[|name| - 1];
    StripLine(line);
    assert line[1..5] == Octal4(mode) && line[5..8] == " 0 " && line[8..] == name;
  }

  // ----- the sink on printed bytes -----

  /** Between headers, with a base to return to. */
  predicate Ready(s: Sink) {
    s.phase == Header("") && s.stack != []
  }

  lemma FileFed(s: Sink, n: Node)
    requires Ready(s) && GoodNode(n) && n.FileNode?
    ensures FeedAll(s, Bytes(n)) == Fed(s.(tree := Place(s.tree, s.base, n)), Acks(n))
  {
    hide FileLine;
    var line := FileLine(n.mode, |n.content|, n.name);
    FileLineRoundTrip(n.mode, |n.content|, n.name);
    HeaderFed(s, line);
    var on := OnHeader(s.(phase := Header(line)), line);
    FeedAllAppend(s, line + "\n", n.content + [0 as char]);
    var got := s.(phase := Trailer(n.name, n.content));
    assert on.sink == s.(phase := if |n.content| == 0 then Trailer(n.name, "") else Data(n.name, |n.content|, ""));
    ContentRead(on.sink, got, n.name, n.content);
    JoinName(s.base, n.name);
    assert Save(got, n.name, n.content) == Fed(s.(tree := Place(s.tree, s.base, n)), ACK);
  }

  /** The content is collected, and the byte after it saves it. */
  lemma ContentRead(receiving: Sink, got: Sink, name: string, content: string)
    requires receiving ==
      got.(phase := if |content| == 0 then Trailer(name, "") else Data(name, |content|, ""))
    requires got.phase == Trailer(name, content)
    ensures FeedAll(receiving, content + [0 as char]) == Save(got, name, content)
  {
    hide Save;
    if content != "" {
      DataFed(receiving, name, |content|, "", content);
      assert "" + content == content;
    }
    FeedAllAppend(receiving, content, [0 as char]);
    assert FeedAll(receiving, content) == Fed(got, "");
    assert [0 as char][1..] == "";
    assert FeedAll(got, [0 as char]) == Save(got, name, content);
  }

  lemma DirOpened(s: Sink, mode: Mode, name: string)
    requires Ready(s) && GoodName(name)
    ensures FeedAll(s, DirLine(mode, name) + "\n") ==
      Fed(Sink(Tree.Mkdirs(s.tree, s.base + [name]), s.base + [name], s.stack + [s.base], Header("")), ACK)
  {
    hide DirLine;
    var line, p := DirLine(mode, name), s.base + [name];
    DirLineRoundTrip(mode, name);
    HeaderFed(s, line);
    JoinName(s.base, name);
    var on := OnHeader(s.(phase := Header(line)), line);
    assert on.out == ACK && on.sink.tree == Tree.Mkdirs(s.tree, p) && on.sink.base == p;
    assert on.sink.stack == s.stack + [s.base] && on.sink.phase == Header("");
  }

  lemma DirClosed(s: Sink, b: Path, stack: seq<Path>)
    requires s.phase == Header("") && s.stack == stack + [b] && stack != []
    ensures FeedAll(s, "E\n") == Fed(s.(base := b, stack := stack), ACK)
  {
    HeaderFed(s, "E");
    StripLine("E");
    assert "E" + "\n" == "E\n";
  }

  /** Fed the bytes printed for a node, a sink anywhere places it, acknowledges every round,
      and is back where it was. */
  lemma {:induction false} NodePlaced(s: Sink, n: Node)
    requires Ready(s) && GoodNode(n)
    ensures FeedAll(s, Bytes(n)) == Fed(s.(tree := Place(s.tree, s.base, n)), Acks(n))
    decreases n
  {
    hide Feed, DirLine, FeedAll, GoodName;
    if n.FileNode? {
      FileFed(s, n);
    } else {
      var line, p := DirLine(n.mode, n.name), s.base + [n.name];
      DirOpened(s, n.mode, n.name);
      var inside := FeedAll(s, line + "\n").sink;
      NodesPlaced(inside, n.kids);
      var filled := inside.(tree := PlaceAll(inside.tree, p, n.kids));
      DirClosed(filled, s.base, s.stack);
      FeedAllAppend(s, line + "\n", BytesAll(n.kids));
      FeedAllAppend(s, line + "\n" + BytesAll(n.kids), "E\n");
    }
  }

  lemma {:induction false} NodesPlaced(s: Sink, ns: seq<Node>)
    requires Ready(s) && GoodNodes(ns)
    ensures FeedAll(s, BytesAll(ns)) == Fed(s.(tree := PlaceAll(s.tree, s.base, ns)), AcksAll(ns))
    decreases ns
  {
    hide Feed, Place, Bytes;
    if ns != [] {
      NodePlaced(s, ns[0]);
      var next := s.(tree := Place(s.tree, s.base, ns[0]));
      NodesPlaced(next, ns[1..]);
      FeedAllAppend(s, Bytes(ns[0]), BytesAll(ns[1..]));
    }
  }

  /** In a directory it adds exactly that node there, and the ancestors missing when a
      directory had to be made, when no directory of it meets a generated entry; and only
      then, if siblings have different names and nothing stands below what is met. */
  lemma NodeFed(s: Sink, n: Node)
    requires Ready(s) && GoodNode(n) && Tree.DirAt(s.tree, []) && Tree.DirAt(s.tree, s.base)
    ensures
      var fed, exact := FeedAll(s, Bytes(n)), Made(s.tree, s.base, n) + Flatten(s.base, n);
      && fed.out == Acks(n) && fed.sink == s.(tree := fed.sink.tree)
      && (Accepts(s.tree, s.base, n) ==> fed.sink.tree == exact)
      && (Distinct(n) && NothingBelow(s.tree, s.base, n) ==>
            (fed.sink.tree == exact <==> Accepts(s.tree, s.base, n)))
      && (Tree.Settled(s.tree, s.base) ==> Made(s.tree, s.base, n) == s.tree)
  {
    hide FeedAll, Bytes, Place, Flatten, Accepts, Distinct, NothingBelow, GoodNode, Tree.Mkdirs, Tree.Settled;
    NodePlaced(s, n);
    Tree.MkdirsSettles(s.tree, s.base);
    if Accepts(s.tree, s.base, n) { PlaceExact(s.tree, s.base, n); }
    if Distinct(n) && NothingBelow(s.tree, s.base, n) { PlaceExactIff(s.tree, s.base, n); }
  }

  /** A directory that meets a generated entry is acknowledged like any other. The entry
      stays exactly when no file is sent directly into the directory; files alone overwrite
      it with the last one's content; and the directory is made exactly when a directory is
      sent into it after a file, the first file being lost. */
  lemma GeneratedMet(s: Sink, n: Node)
    requires Ready(s) && GoodNode(n) && n.DirNode? && Tree.DirAt(s.tree, []) && Tree.DirAt(s.tree, s.base)
    requires s.base + [n.name] in s.tree && s.tree[s.base + [n.name]].G?
    ensures
      var fed, p, kids := FeedAll(s, Bytes(n)), s.base + [n.name], n.kids;
      && fed.out == Acks(n) && p in fed.sink.tree
      && (fed.sink.tree[p].G? <==> forall k :: 0 <= k < |kids| ==> kids[k].DirNode?)
      && (kids != [] && (forall k :: 0 <= k < |kids| ==> kids[k].FileNode?) ==>
            fed.sink.tree[p] == Tree.F(kids[|kids| - 1].content))
      && (fed.sink.tree[p].D? <==> exists j, k :: 0 <= j < k < |kids| && kids[j].FileNode? && kids[k].DirNode?)
  {
    hide FeedAll, Bytes, Place, Outcome, GoodNode;
    NodePlaced(s, n);
    GeneratedOutcome(s.tree, s.base, n);
    OutcomeOf(s.tree[s.base + [n.name]], n.kids);
  }

  /** The directory's own files that meet it so: the first one has no place below it. */
  lemma FirstFileLost(s: Sink, n: Node, i: nat)
    requires Ready(s) && GoodNode(n) && n.DirNode? && Tree.DirAt(s.tree, []) && DistinctAll(n.kids)
    requires
      var p := s.base + [n.name];
      p in s.tree && s.tree[p].G? && forall r :: r in s.tree ==> !(p < r)
    requires i < |n.kids| && n.kids[i].FileNode? && forall k :: 0 <= k < i ==> n.kids[k].DirNode?
    ensures s.base + [n.name] + [n.kids[i].name] !in FeedAll(s, Bytes(n)).sink.tree
  {
    hide FeedAll, Bytes, GoodNode, PlaceAll, Tree.Mkdirs;
    NodePlaced(s, n);
    var p := s.base + [n.name];
    Tree.MkdirsAt(s.tree, p, p);
    Tree.MkdirsAt(s.tree, p, []);
    forall k | 0 <= k < |n.kids| ensures p + [n.kids[k].name] !in Tree.Mkdirs(s.tree, p) {
      Tree.MkdirsAt(s.tree, p, p + [n.kids[k].name]);
      assert p < p + [n.kids[k].name];
    }
    FirstFileMissing(Tree.Mkdirs(s.tree, p), p, n.kids, i);
  }
}
