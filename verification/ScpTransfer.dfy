/**
  A whole transfer: the source walks its filesystem and prints it, the sink reads the
  bytes in chunks of any size and rebuilds it.
 */
module ScpTransfer {
  import opened Paths
  import opened Listing
  import opened Text
  import opened ScpSink
  import opened ScpTree
  import opened ScpSource
  import opened ScpReceive
  import opened Laying
  import Tree

  /** `os.path.basename` of a resolved path. */
  function BaseName(p: Path): string {
    if p == [] then "" else Last(p)
  }

  /** What the source sends for a path, children in listing order. */
  ghost function Extract(t: Tree.Tree, modes: Path -> Mode, p: Path): Node
    requires p in t
    decreases Tree.Below(t, p), 1, 0
  {
    if t[p].D? then DirNode(BaseName(p), modes(p), ExtractAll(t, modes, p, Names(t, p)))
    else FileNode(BaseName(p), modes(p), t[p].content)
  }

  ghost function ExtractAll(t: Tree.Tree, modes: Path -> Mode, p: Path, names: seq<string>): seq<Node>
    requires p in t && forall c :: c in names ==> p + [c] in t
    decreases Tree.Below(t, p), 0, |names|
  {
    if names == [] then []
    else
      assert names[0] in names;
      Tree.BelowChild(t, p, names[0]);
      [Extract(t, modes, p + [names[0]])] + ExtractAll(t, modes, p, names[1..])
  }

  lemma ExtractStep(t: Tree.Tree, modes: Path -> Mode, p: Path, names: seq<string>)
    requires p in t && names != [] && forall c :: c in names ==> p + [c] in t
    ensures p + [names[0]] in t && forall c :: c in names[1..] ==> p + [c] in t
    ensures
      var all := ExtractAll(t, modes, p, names);
      && all != [] && all[0] == Extract(t, modes, p + [names[0]]) && all[0].name == names[0]
      && all[1..] == ExtractAll(t, modes, p, names[1..])
  {
    assert names[0] in names && Last(p + [names[0]]) == names[0];
  }

  /** Every path the source walks to has a name it can announce. */
  ghost predicate Announceable(t: Tree.Tree, p: Path) {
    forall q :: q in t && p <= q ==> q != [] && GoodName(Last(q))
  }

  lemma {:induction false} ExtractGood(t: Tree.Tree, modes: Path -> Mode, p: Path)
    requires p in t && Announceable(t, p)
    ensures GoodNode(Extract(t, modes, p))
    decreases Tree.Below(t, p), 1, 0
  {
    hide Names, GoodName;
    if t[p].D? {
      ExtractAllGood(t, modes, p, Names(t, p));
    }
  }

  lemma {:induction false} ExtractAllGood(t: Tree.Tree, modes: Path -> Mode, p: Path, names: seq<string>)
    requires p in t && Announceable(t, p) && forall c :: c in names ==> p + [c] in t
    ensures GoodNodes(ExtractAll(t, modes, p, names))
    decreases Tree.Below(t, p), 0, |names|
  {
    hide GoodName;
    if names != [] {
      ExtractStep(t, modes, p, names);
      Tree.BelowChild(t, p, names[0]);
      ExtractGood(t, modes, p + [names[0]]);
      ExtractAllGood(t, modes, p, names[1..]);
    }
  }

  lemma {:induction false} ExtractNames(t: Tree.Tree, modes: Path -> Mode, p: Path, names: seq<string>)
    requires p in t && forall c :: c in names ==> p + [c] in t
    ensures |ExtractAll(t, modes, p, names)| == |names|
    ensures forall i :: 0 <= i < |names| ==> ExtractAll(t, modes, p, names)[i].name == names[i]
    decreases |names|
  {
    if names != [] {
      ExtractStep(t, modes, p, names);
      ExtractNames(t, modes, p, names[1..]);
      var all := ExtractAll(t, modes, p, names);
      assert forall i :: 0 < i < |names| ==> names[i] == names[1..][i - 1] && all[i] == all[1..][i - 1];
    }
  }

  /** What is sent never names two siblings alike. */
  lemma {:induction false} ExtractDistinct(t: Tree.Tree, modes: Path -> Mode, p: Path)
    requires p in t
    ensures Distinct(Extract(t, modes, p))
    decreases Tree.Below(t, p), 1, 0
  {
    hide Names;
    if t[p].D? {
      ExtractAllDistinct(t, modes, p, Names(t, p));
    }
  }

  lemma {:induction false} ExtractAllDistinct(t: Tree.Tree, modes: Path -> Mode, p: Path, names: seq<string>)
    requires p in t && Sorted(names) && forall c :: c in names ==> p + [c] in t
    ensures DistinctAll(ExtractAll(t, modes, p, names))
    decreases Tree.Below(t, p), 0, |names|
  {
    if names != [] {
      ExtractStep(t, modes, p, names);
      ExtractNames(t, modes, p, names);
      Tree.BelowChild(t, p, names[0]);
      ExtractDistinct(t, modes, p + [names[0]]);
      ExtractAllDistinct(t, modes, p, names[1..]);
    }
  }

  /** What is sent stands for exactly the relocated walk of the source path. */
  lemma {:induction false} FlattenExtract(t: Tree.Tree, modes: Path -> Mode, p: Path, b: Path)
    requires p != [] && p in t
    ensures Flatten(b, Extract(t, modes, p)) == Tree.Relocated(t, p, b + [Last(p)])
    decreases Tree.Below(t, p), 1, 0
  {
    hide Tree.Relocated, Names;
    var dst := b + [Last(p)];
    if t[p].D? {
      var names := Names(t, p);
      FlattenExtractAll(t, modes, p, dst, names);
      RelocatedDirectory(t, p, dst, names);
    } else {
      RelocatedFile(t, p, dst);
    }
  }

  lemma {:induction false} FlattenExtractAll(t: Tree.Tree, modes: Path -> Mode, p: Path, b: Path, names: seq<string>)
    requires p in t && forall c :: c in names ==> p + [c] in t
    ensures FlattenAll(b, ExtractAll(t, modes, p, names)) == RelocatedItems(t, p, b, names)
    decreases Tree.Below(t, p), 0, |names|
  {
    hide Tree.Relocated;
    if names != [] {
      var c := names[0];
      ExtractStep(t, modes, p, names);
      assert Last(p + [c]) == c;
      Tree.BelowChild(t, p, c);
      FlattenExtract(t, modes, p + [c], b);
      FlattenExtractAll(t, modes, p, b, names[1..]);
    }
  }

  /** A download of `p` replayed as an upload with the base `b` of another filesystem ends the
      sink's session with code 0 and places what was sent. In a directory that accepts it, it
      adds exactly the relocated walk of `p`, and the ancestors missing when a directory had
      to be made, as copying `p` into `b` does; and only there, if nothing stands below a
      generated entry that a directory meets. */
  lemma TransferIsCopy(t: Tree.Tree, modes: Path -> Mode, p: Path, u: Tree.Tree, b: Path)
    requires p != [] && p in t && Announceable(t, p)
    ensures
      var n := Extract(t, modes, p);
      Session(Sink(u, b, [b], Header("")), Bytes(n)) == Fed(Sink(Place(u, b, n), b, [b], Done(0)), Acks(n))
    ensures Tree.DirAt(u, []) && Tree.DirAt(u, b) ==>
      var n := Extract(t, modes, p);
      var exact := Made(u, b, n) + Tree.Relocated(t, p, b + [Last(p)]);
      && (Accepts(u, b, n) ==> Place(u, b, n) == exact)
      && (NothingBelow(u, b, n) ==> (Place(u, b, n) == exact <==> Accepts(u, b, n)))
  {
    hide Tree.Relocated, Extract, Bytes, FeedAll, Place, Flatten, Made, Accepts, NothingBelow, Distinct;
    var n := Extract(t, modes, p);
    ExtractGood(t, modes, p);
    ExtractDistinct(t, modes, p);
    FlattenExtract(t, modes, p, b);
    NodePlaced(Sink(u, b, [b], Header("")), n);
    assert Acks(n) + "" == Acks(n);
    if Tree.DirAt(u, []) && Tree.DirAt(u, b) {
      if Accepts(u, b, n) { PlaceExact(u, b, n); }
      if NothingBelow(u, b, n) { PlaceExactIff(u, b, n); }
    }
  }

  /** Receiving a printed node, however the channel chunks it and whatever stands at the
      destination, places exactly that node. */
  method Upload(n: Node, tree: Tree.Tree, b: Path) returns (code: int, result: Tree.Tree, acks: string)
    requires GoodNode(n)
    ensures code == 0
    ensures result == Place(tree, b, n)
    ensures acks == Acks(n)
  {
    var r := new Receiver(Bytes(n), tree);
    ghost var start := Sink(tree, b, [b], Header(""));
    assert r.Unread() == Bytes(n);
    code := r.ProcessSinkProtocol(b);
    NodePlaced(start, n);
    assert "" + Session(start, Bytes(n)).out == Acks(n) + "" == Acks(n);
    result, acks := r.tree, r.out;
  }

  /** A client that hangs up in the middle of a file leaves what came of it stored as the file,
      acknowledged twice, and the session ends with code 0. */
  lemma TruncatedStored(s: Sink, mode: Mode, size: nat, name: string, part: string)
    requires Ready(s) && GoodName(name) && |part| <= size
    ensures Session(s, FileLine(mode, size, name) + "\n" + part) ==
      Fed(s.(tree := Tree.Mkfile(s.tree, if Tree.DirAt(s.tree, s.base) then s.base + [name] else s.base, part), phase := Done(0)),
          ACK + ACK)
  {
    hide Session, FeedAll, FileLine;
    var line := FileLine(mode, size, name);
    FileLineRoundTrip(mode, size, name);
    SessionHeader(s, line, part);
    PhaseIrrelevant(s, Header(line), line);
    JoinName(s.base, name);
    CopySession("", s, line, part);
    assert part[..|part|] == part && PastFile(part, |part|) == "";
    var stored := s.(tree := Tree.Mkfile(s.tree, if Tree.DirAt(s.tree, s.base) then s.base + [name] else s.base, part));
    SessionCut(stored, "");
    assert "" + ACK + ACK + "" == ACK + ACK;
    assert "" + ACK == ACK;
  }

  // ----- the sending recursion -----

  /** What the source writes, and the answers it leaves unread. */
  datatype Sent = Sent(bytes: string, left: string)

  predicate Acked(answers: string) {
    ACK <= answers
  }

  /** The answers after one has been read; a client that has hung up answers nothing. */
  function Rest(answers: string): string {
    if answers == "" then "" else answers[1..]
  }

  /** What the source writes for a node whatever the answers: a refused file or directory is
      its header alone, and the source goes on with what comes after it. */
  function SendNode(n: Node, answers: string): Sent
    decreases n
  {
    match n
    case FileNode(name, mode, content) =>
      var line := FileLine(mode, |content|, name) + "\n";
      if !Acked(answers) then Sent(line, Rest(answers))
      else Sent(line + (content + [0 as char]), Rest(Rest(answers)))
    case DirNode(name, mode, kids) =>
      var line := DirLine(mode, name) + "\n";
      if !Acked(answers) then Sent(line, Rest(answers))
      else
        var inside := SendNodes(kids, Rest(answers));
        Sent(line + inside.bytes + "E\n", Rest(inside.left))
  }

  function SendNodes(ns: seq<Node>, answers: string): Sent
    decreases ns
  {
    if ns == [] then Sent("", answers)
    else
      var first := SendNode(ns[0], answers);
      var rest := SendNodes(ns[1..], first.left);
      Sent(first.bytes + rest.bytes, rest.left)
  }

  /** Given the answers a sink returns, the source prints the node and reads exactly them. */
  lemma {:induction false} AckedSend(n: Node, rest: string)
    ensures SendNode(n, Acks(n) + rest) == Sent(Bytes(n), rest)
    decreases n
  {
    hide FileLine, DirLine;
    if n.FileNode? {
      assert (Acks(n) + rest)[1..][1..] == rest;
    } else {
      assert (Acks(n) + rest)[1..] == AcksAll(n.kids) + (ACK + rest);
      AckedSendAll(n.kids, ACK + rest);
    }
  }

  /** A refused file or directory is its header line alone, and one answer is read; a file
      whose header is acknowledged is sent whole, whatever is answered at its end. */
  lemma RefusedSend(n: Node, answers: string)
    ensures !Acked(answers) ==>
      SendNode(n, answers).left == (if answers == "" then "" else answers[1..]) &&
      SendNode(n, answers).bytes ==
        (if n.FileNode? then "C" + Octal4(n.mode) + " " + Decimal(|n.content|) + " " + n.name
         else "D" + Octal4(n.mode) + " 0 " + n.name) + "\n"
    ensures Acked(answers) && n.FileNode? ==> SendNode(n, answers).bytes == Bytes(n)
    ensures Acked(answers) <==> answers != "" && answers[0] == 0 as char
  {
    assert answers != "" ==> answers[..1] == [answers[0]];
  }

  lemma {:induction false} AckedSendAll(ns: seq<Node>, rest: string)
    ensures SendNodes(ns, AcksAll(ns) + rest) == Sent(BytesAll(ns), rest)
    decreases ns
  {
    hide SendNode, Acks, Bytes;
    if ns == [] {
      assert "" + rest == rest;
    } else {
      var more := AcksAll(ns[1..]) + rest;
      assert AcksAll(ns) + rest == Acks(ns[0]) + more;
      AckedSend(ns[0], more);
      AckedSendAll(ns[1..], rest);
    }
  }

  lemma {:induction false} SendMore(ns: seq<Node>, n: Node, answers: string)
    ensures
      var before := SendNodes(ns, answers);
      var last := SendNode(n, before.left);
      SendNodes(ns + [n], answers) == Sent(before.bytes + last.bytes, last.left)
    decreases |ns|
  {
    hide SendNode;
    if ns == [] {
      assert [] + [n] == [n] && [n][1..] == [];
    } else {
      assert (ns + [n])[0] == ns[0] && (ns + [n])[1..] == ns[1..] + [n];
      SendMore(ns[1..], n, SendNode(ns[0], answers).left);
    }
  }

  /** What is sent for a directory, by its parts. */
  lemma SentDirectory(n: Node, answers: string)
    requires n.DirNode?
    ensures
      var line := DirLine(n.mode, n.name) + "\n";
      SendNode(n, answers) ==
        (if !Acked(answers) then Sent(line, Rest(answers))
         else var inside := SendNodes(n.kids, Rest(answers)); Sent(line + inside.bytes + "E\n", Rest(inside.left)))
  {
  }

  lemma {:induction false} ExtractMore(t: Tree.Tree, modes: Path -> Mode, p: Path, names: seq<string>, c: string)
    requires p in t && p + [c] in t && forall x :: x in names ==> p + [x] in t
    ensures forall x :: x in names + [c] ==> p + [x] in t
    ensures ExtractAll(t, modes, p, names + [c]) == ExtractAll(t, modes, p, names) + [Extract(t, modes, p + [c])]
    decreases |names|
  {
    hide Extract;
    if names == [] {
      assert [] + [c] == [c] && [c][1..] == [];
    } else {
      assert (names + [c])[0] == names[0] && (names + [c])[1..] == names[1..] + [c];
      ExtractMore(t, modes, p, names[1..], c);
    }
  }

  /** The source. While it waits for an answer anything may happen to the filesystem, unless
      it is `still`; `limit` is the interpreter's recursion bound. The ghost results are the
      nodes that what was sent amounts to. */
  class Sender {
    const modes: Path -> Mode
    const still: bool
    var tree: Tree.Tree
    var written: string
    var answers: string

    constructor (tree: Tree.Tree, modes: Path -> Mode, answers: string, still: bool)
      ensures this.tree == tree && this.modes == modes && this.answers == answers && written == "" && this.still == still
    {
      this.tree, this.modes, this.answers, this.still, written := tree, modes, answers, still, "";
    }

    /** One byte from the client, or none when it has hung up. */
    method ReadAnswer() returns (b: string)
      modifies this`answers, this`tree
      ensures answers == Rest(old(answers)) && (b == ACK <==> Acked(old(answers)))
      ensures still ==> tree == old(tree)
    {
      b := "";
      if answers != "" {
        b, answers := answers[..1], answers[1..];
      }
      if !still { tree := *; }
    }

    /** The text read from a path: none where no file is. */
    function ContentAt(p: Path): string
      reads this
    {
      if p in tree && !tree[p].D? then tree[p].content else ""
    }

    /** A file is sent as it is when its turn comes. */
    method SendFile(p: Path) returns (ghost n: Node)
      modifies this
      ensures n == FileNode(BaseName(p), modes(p), old(ContentAt(p)))
      ensures
        var sent := SendNode(n, old(answers));
        written == old(written) + sent.bytes && answers == sent.left
      ensures still ==> tree == old(tree)
    {
      hide FileLine;
      var content := ContentAt(p);
      n := FileNode(BaseName(p), modes(p), content);
      var line := FileLine(modes(p), |content|, BaseName(p)) + "\n";
      written := written + line;
      var ack := ReadAnswer();
      if ack != ACK { return; }
      written := written + content;
      written := written + [0 as char];
      var _ := ReadAnswer();
      assert old(written) + line + content + [0 as char] == old(written) + (line + (content + [0 as char]));
    }

    /** The recursion over a directory. Whatever happens meanwhile, what is written is what is
        written for some node; in a still filesystem, and within the recursion bound, for the
        directory itself. `raised` is the recursion error, before anything has been sent; one
        further down is caught and ends its directory early. */
    method SendDirectory(p: Path, limit: nat) returns (ghost n: Node, raised: bool)
      modifies this
      ensures raised <==> limit == 0
      ensures raised ==> written == old(written) && answers == old(answers)
      ensures !raised ==>
        var sent := SendNode(n, old(answers));
        && n.DirNode? && n.name == BaseName(p) && n.mode == modes(p)
        && written == old(written) + sent.bytes && answers == sent.left
      ensures still ==> tree == old(tree)
      ensures still && old(Tree.DirAt(tree, p) && FitsWithin(tree, p, limit)) ==> !raised && n == old(Extract(tree, modes, p))
      decreases limit, 1
    {
      hide DirLine, ExtractAll, SendNode, SendNodes, Names, FitsWithin;
      n := if Tree.DirAt(tree, p) then Extract(tree, modes, p) else DirNode(BaseName(p), modes(p), []);
      if limit == 0 {
        if p in tree { NeverFitsNothing(tree, p); }
        return n, true;
      }
      raised := false;
      var line := DirLine(modes(p), BaseName(p)) + "\n";
      written := written + line;
      SentDirectory(n, old(answers));
      ghost var before := tree;
      if Tree.DirAt(before, p) && FitsWithin(before, p, limit) { FitsBelow(before, p, limit); }
      var ack := ReadAnswer();
      if ack != ACK { return; }
      ghost var kids := SendItems(p, limit - 1);
      n := DirNode(BaseName(p), modes(p), kids);
      SentDirectory(n, old(answers));
      written := written + "E\n";
      var _ := ReadAnswer();
      ghost var inside := SendNodes(kids, Rest(old(answers)));
      assert old(written) + line + inside.bytes + "E\n" == old(written) + (line + inside.bytes + "E\n");
    }

    /** The loop over the listing of a directory, each child looked up when its turn comes. */
    method SendItems(p: Path, limit: nat) returns (ghost kids: seq<Node>)
      modifies this
      ensures
        var sent := SendNodes(kids, old(answers));
        written == old(written) + sent.bytes && answers == sent.left
      ensures still ==> tree == old(tree)
      ensures still && old(Tree.DirAt(tree, p)) && (forall c :: old(FitsWithin(tree, p + [c], limit))) ==>
        kids == old(ExtractAll(tree, modes, p, Names(tree, p)))
      decreases limit, 2
    {
      hide SendNode, SendNodes, Extract, ExtractAll, FitsWithin, Names;
      kids := [];
      ghost var t := tree;
      var items := SortNames(Tree.List(tree, p));
      ghost var intact := still && Tree.DirAt(t, p) && forall c :: FitsWithin(t, p + [c], limit);
      ListedItems(t, p, items);
      NoneExtracted(t, p);
      var i := 0;
      while i < |items|
        invariant 0 <= i <= |items| && (still ==> tree == t)
        invariant written == old(written) + SendNodes(kids, old(answers)).bytes
        invariant answers == SendNodes(kids, old(answers)).left
        invariant intact ==> kids == ExtractAll(t, modes, p, items[..i])
      {
        var child := p + [items[i]];
        assert items[i] in items;
        if child in tree {
          ghost var n;
          if tree[child].D? {
            if limit == 0 && intact { NeverFitsNothing(t, child); }
            var raised;
            n, raised := SendDirectory(child, limit);
            if raised { return; }
          } else {
            ExtractFile(tree, child);
            n := SendFile(child);
          }
          WrittenMore(old(written), kids, n, old(answers));
          kids := kids + [n];
        }
        assert items[..i + 1] == items[..i] + [items[i]];
        if intact { ExtractMore(t, modes, p, items[..i], items[i]); }
        i := i + 1;
      }
      assert items[..|items|] == items;
    }

    lemma WrittenMore(w: string, ns: seq<Node>, n: Node, answers: string)
      ensures
        var before, after := SendNodes(ns, answers), SendNodes(ns + [n], answers);
        var last := SendNode(n, before.left);
        w + before.bytes + last.bytes == w + after.bytes && after.left == last.left
    {
      hide SendNode, SendNodes;
      SendMore(ns, n, answers);
    }

    lemma ListedItems(t: Tree.Tree, p: Path, items: seq<string>)
      requires items == Sorting(Tree.List(t, p))
      ensures Tree.DirAt(t, p) ==> items == Names(t, p) && forall c :: c in items ==> p + [c] in t
    {
    }

    lemma ExtractFile(t: Tree.Tree, p: Path)
      requires p in t && !t[p].D?
      ensures Extract(t, modes, p) == FileNode(BaseName(p), modes(p), t[p].content)
    {
    }

    lemma NoneExtracted(t: Tree.Tree, p: Path)
      ensures p in t ==> ExtractAll(t, modes, p, []) == []
      ensures SendNodes([], answers) == Sent("", answers)
    {
    }

    /** Source mode for a path: the error for a missing one, the first acknowledgement, the
        node, and the exit code. The kind of the node is settled before the acknowledgement. */
    method HandleSourceMode(p: Path, limit: nat) returns (code: int, ghost n: Node)
      requires limit > 0
      modifies this
      ensures p !in old(tree) ==> code == 1 && written == old(written) + NO_SUCH_FILE && answers == old(answers)
      ensures p in old(tree) && !Acked(old(answers)) ==>
        code == 1 && written == old(written) && answers == Rest(old(answers))
      ensures p in old(tree) && Acked(old(answers)) ==>
        var sent := SendNode(n, Rest(old(answers)));
        && code == 0 && n.name == BaseName(p) && (n.DirNode? <==> old(tree)[p].D?)
        && written == old(written) + sent.bytes && answers == sent.left
      ensures still && p in old(tree) && Acked(old(answers)) && old(FitsWithin(tree, p, limit)) ==>
        n == old(Extract(tree, modes, p))
    {
      hide FitsWithin, SendNode, Names, ExtractAll;
      n := FileNode("", 0, "");
      if p !in tree {
        written := written + NO_SUCH_FILE;
        return 1, n;
      }
      var isDir := tree[p].D?;
      var ack := ReadAnswer();
      if ack != ACK { return 1, n; }
      if isDir {
        var raised;
        n, raised := SendDirectory(p, limit);
      } else {
        n := SendFile(p);
      }
      code := 0;
    }
  }

  const NO_SUCH_FILE: string := [1 as char] + "SCP: No such file or directory\n"
}
