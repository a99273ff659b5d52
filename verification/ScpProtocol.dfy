/**
  Source and sink joined by two channels: bytes one way, acknowledgements the other.
  Every interleaving of their steps completes.
 */
module ScpProtocol {
  import opened Paths
  import opened Text
  import opened ScpSink
  import opened ScpSource
  import opened ScpTree
  import Tree

  /** What the recursion of the source still has to do. */
  datatype Task = Send(node: Node) | Close

  /** The read the source is blocked on. */
  datatype Wait = Initial | DirSent(kids: seq<Node>) | FileSent(content: string) | FileEnd | DirEnd | Finished(code: int)

  datatype Source = Source(todo: seq<Task>, out: string, wait: Wait)

  datatype System = System(src: Source, up: string, fed: string, sink: Sink, down: string)

  predicate GoodTask(t: Task) {
    t.Send? ==> GoodNode(t.node)
  }

  predicate GoodSource(s: Source) {
    && (forall i :: 0 <= i < |s.todo| ==> GoodTask(s.todo[i]))
    && (s.wait.DirSent? ==> GoodNodes(s.wait.kids))
  }

  function Tasks(ns: seq<Node>): (ts: seq<Task>)
    ensures |ts| == |ns|
  {
    if ns == [] then [] else [Send(ns[0])] + Tasks(ns[1..])
  }

  lemma {:induction false} TasksGood(ns: seq<Node>)
    requires GoodNodes(ns)
    ensures forall i :: 0 <= i < |Tasks(ns)| ==> GoodTask(Tasks(ns)[i])
    decreases |ns|
  {
    if ns != [] { TasksGood(ns[1..]); }
  }

  /** The next write of the source, and the read that follows it. */
  function Proceed(todo: seq<Task>): Source
    requires todo != [] ==> GoodTask(todo[0])
  {
    if todo == [] then Source([], "", Finished(0))
    else match todo[0]
      case Send(FileNode(name, mode, content)) =>
        Source(todo[1..], FileLine(mode, |content|, name) + "\n", FileSent(content))
      case Send(DirNode(name, mode, kids)) =>
        Source(todo[1..], DirLine(mode, name) + "\n", DirSent(kids))
      case Close => Source(todo[1..], "E\n", DirEnd)
  }

  /** One byte read from the client. */
  function OnAck(s: Source, b: char): Source
    requires GoodSource(s)
  {
    match s.wait
    case Initial => if [b] == ACK then Proceed(s.todo) else Source([], "", Finished(1))
    case DirSent(kids) =>
      if [b] != ACK then Proceed(s.todo)
      else
        TasksGood(kids);
        Proceed(Tasks(kids) + [Close] + s.todo)
    case FileSent(content) =>
      if [b] != ACK then Proceed(s.todo) else Source(s.todo, content + [0 as char], FileEnd)
    case FileEnd => Proceed(s.todo)
    case DirEnd => Proceed(s.todo)
    case Finished(_) => s
  }

  // ----- the steps -----

  predicate CanPush(y: System) { y.src.out != "" }

  function Push(y: System): System
    requires CanPush(y)
  {
    y.(src := y.src.(out := y.src.out[1..]), up := y.up + [y.src.out[0]])
  }

  predicate CanConsume(y: System) { y.up != "" && !y.sink.phase.Done? }

  function Consume(y: System): System
    requires CanConsume(y)
  {
    var f := Feed(y.sink, y.up[0]);
    y.(up := y.up[1..], fed := y.fed + [y.up[0]], sink := f.sink, down := y.down + f.out)
  }

  predicate CanAck(y: System) { y.src.out == "" && !y.src.wait.Finished? && y.down != "" }

  function Ack(y: System): System
    requires CanAck(y) && GoodSource(y.src)
  {
    y.(src := OnAck(y.src, y.down[0]), down := y.down[1..])
  }

  predicate CanHangUp(y: System) {
    y.src.wait.Finished? && y.src.out == "" && y.up == "" && !y.sink.phase.Done?
  }

  function HangUp(y: System): System {
    var end := AtEnd(y.sink);
    y.(sink := end.sink, down := y.down + end.out)
  }

  ghost predicate Next(y: System, z: System)
    requires GoodSource(y.src)
  {
    || (CanPush(y) && z == Push(y))
    || (CanConsume(y) && z == Consume(y))
    || (CanAck(y) && z == Ack(y))
    || (CanHangUp(y) && z == HangUp(y))
  }

  /** The sink has sent its first acknowledgement; the source waits for it. */
  function Start(n: Node, t: Tree.Tree, b: Path): System {
    System(Source([Send(n)], "", Initial), "", "", Sink(t, b, [b], Header("")), ACK)
  }

  // ----- the invariant -----

  /** Fed `w`, the sink stays silent until the last byte and then acknowledges. */
  ghost predicate Pending(s: Sink, w: string)
    decreases |w|
  {
    && w != ""
    && Feed(s, w[0]).out == (if |w| == 1 then ACK else "")
    && (|w| > 1 ==> Pending(Feed(s, w[0]).sink, w[1..]))
  }

  function Closes(todo: seq<Task>): nat {
    if todo == [] then 0 else (if todo[0].Close? then 1 else 0) + Closes(todo[1..])
  }

  /** The sink, having acknowledged, expects what the source will send next. */
  ghost predicate Matched(src: Source, sink: Sink) {
    && (match src.wait
        case FileSent(content) =>
          || (content == "" && sink.phase.Trailer?)
          || (content != "" && sink.phase.Data? && sink.phase.left == |content|)
        case _ => sink.phase == Header(""))
    && |sink.stack| == 1 + Closes(src.todo) + (if src.wait.DirSent? then 1 else 0)
  }

  function TodoBytes(todo: seq<Task>): string
    requires forall i :: 0 <= i < |todo| ==> GoodTask(todo[i])
  {
    if todo == [] then ""
    else
      assert GoodTask(todo[0]);
      (if todo[0].Close? then "E\n" else Bytes(todo[0].node)) + TodoBytes(todo[1..])
  }

  /** The bytes the source has not yet begun to write, if all goes well. */
  function Remaining(s: Source): string
    requires GoodSource(s)
  {
    match s.wait
    case Finished(_) => ""
    case DirSent(kids) => BytesAll(kids) + ("E\n" + TodoBytes(s.todo))
    case FileSent(content) => content + [0 as char] + TodoBytes(s.todo)
    case _ => TodoBytes(s.todo)
  }

  ghost predicate Inv(y: System, n: Node, t: Tree.Tree, b: Path): (holds: bool)
    requires GoodNode(n)
    ensures holds ==> GoodSource(y.src)
  {
    && GoodSource(y.src)
    && y.fed + y.up + y.src.out + Remaining(y.src) == Bytes(n)
    && (var reached := FeedAll(Sink(t, b, [b], Header("")), y.fed).sink;
        y.sink == reached || (y.src.wait.Finished? && y.sink == reached.(phase := Done(0))))
    && (|| AckInFlight(y)
        || BytesInFlight(y)
        || AllSent(y))
  }

  ghost predicate AckInFlight(y: System) {
    && y.down == ACK && y.up == "" && y.src.out == "" && !y.src.wait.Finished? && Matched(y.src, y.sink)
  }

  ghost predicate BytesInFlight(y: System) {
    && y.down == "" && !y.src.wait.Finished? && y.src.wait != Initial
    && Pending(y.sink, y.up + y.src.out)
    && Matched(y.src, FeedAll(y.sink, y.up + y.src.out).sink)
  }

  ghost predicate AllSent(y: System) {
    && y.down == "" && y.up == "" && y.src == Source([], "", Finished(0))
    && y.sink.phase in {Header(""), Done(0)}
  }

  /** A measure that every step lowers. */
  function Work(y: System): nat
    requires GoodSource(y.src)
  {
    4 * |Remaining(y.src)| + 3 * |y.src.out| + 2 * |y.up| + |y.down| + (if y.sink.phase.Done? then 0 else 1)
  }

  ghost predicate Complete(y: System) {
    && y.src == Source([], "", Finished(0)) && y.sink.phase == Done(0) && y.up == "" && y.down == ""
  }

  // ----- when the sink acknowledges -----

  lemma {:induction false} PendingLine(s: Sink, buf: string, w: string)
    requires s.phase == Header(buf) && '\n' !in w
    requires OnHeader(s, Strip(buf + w + "\n")).out == ACK
    ensures Pending(s, w + "\n")
    decreases |w|
  {
    hide OnHeader, Strip;
    if w == "" {
      assert w + "\n" == "\n" && buf + w + "\n" == buf + ['\n'];
    } else {
      var next := Feed(s, w[0]).sink;
      assert (w + "\n")[1..] == w[1..] + "\n";
      assert buf + w + "\n" == (buf + [w[0]]) + w[1..] + "\n";
      SamePhase(s, Header(buf + [w[0]]), Strip(buf + w + "\n"));
      PendingLine(next, buf + [w[0]], w[1..]);
    }
  }

  lemma SamePhase(s: Sink, p: Phase, h: string)
    ensures OnHeader(s.(phase := p), h) == OnHeader(s, h)
  {
  }

  lemma {:induction false} PendingContent(s: Sink, content: string)
    requires if content == "" then s.phase.Trailer? else s.phase.Data? && s.phase.left == |content|
    ensures Pending(s, content + [0 as char])
    decreases |content|
  {
    if content != "" {
      assert (content + [0 as char])[1..] == content[1..] + [0 as char];
      PendingContent(Feed(s, content[0]).sink, content[1..]);
    }
  }

  lemma {:induction false} PendingAlive(s: Sink, w: string)
    requires Pending(s, w)
    ensures !s.phase.Done?
    decreases |w|
  {
    if |w| > 1 { PendingAlive(Feed(s, w[0]).sink, w[1..]); }
  }

  lemma {:induction false} ClosesAppend(a: seq<Task>, b: seq<Task>)
    ensures Closes(a + b) == Closes(a) + Closes(b)
    decreases |a|
  {
    if a == [] {
      assert a + b == b;
    } else {
      assert (a + b)[1..] == a[1..] + b;
      ClosesAppend(a[1..], b);
    }
  }

  lemma {:induction false} ClosesTasks(ns: seq<Node>)
    ensures Closes(Tasks(ns)) == 0
    decreases |ns|
  {
    if ns != [] { ClosesTasks(ns[1..]); }
  }

  lemma {:induction false} TodoBytesAppend(ns: seq<Node>, rest: seq<Task>)
    requires GoodNodes(ns) && forall i :: 0 <= i < |rest| ==> GoodTask(rest[i])
    ensures forall i :: 0 <= i < |Tasks(ns) + rest| ==> GoodTask((Tasks(ns) + rest)[i])
    ensures TodoBytes(Tasks(ns) + rest) == BytesAll(ns) + TodoBytes(rest)
    decreases |ns|
  {
    hide Bytes, GoodNode;
    TasksGood(ns);
    if ns == [] {
      assert Tasks(ns) + rest == rest;
      assert "" + TodoBytes(rest) == TodoBytes(rest);
    } else {
      TodoBytesAppend(ns[1..], rest);
      assert (Tasks(ns) + rest)[1..] == Tasks(ns[1..]) + rest;
      assert Bytes(ns[0]) + BytesAll(ns[1..]) + TodoBytes(rest) == Bytes(ns[0]) + (BytesAll(ns[1..]) + TodoBytes(rest));
    }
  }

  /** Where the sink stands for the source to go on with `todo`. */
  ghost predicate Resting(todo: seq<Task>, sink: Sink) {
    && (forall i :: 0 <= i < |todo| ==> GoodTask(todo[i]))
    && sink.phase == Header("") && |sink.stack| == 1 + Closes(todo)
  }

  lemma ProceedBytes(todo: seq<Task>)
    requires forall i :: 0 <= i < |todo| ==> GoodTask(todo[i])
    ensures GoodSource(Proceed(todo))
    ensures Proceed(todo).out + Remaining(Proceed(todo)) == TodoBytes(todo)
    ensures !Proceed(todo).wait.Initial?
  {
    hide FileLine, DirLine, TodoBytes, Bytes, BytesAll, GoodNode, GoodNodes;
    TodoBytesStep(todo);
    if todo != [] {
      ProceedParts(todo);
      hide Proceed, GoodTask;
      var s, rest := Proceed(todo), TodoBytes(todo[1..]);
      if s.wait.DirSent? {
        Regroup(s.out, BytesAll(s.wait.kids), "E\n", rest);
      } else if s.wait.FileSent? {
        Regroup(s.out, s.wait.content, [0 as char], rest);
      }
    }
  }

  lemma Regroup(a: string, b: string, c: string, d: string)
    ensures a + (b + (c + d)) == a + b + c + d
    ensures a + (b + c + d) == a + (b + c) + d
  {
  }

  lemma ProceedParts(todo: seq<Task>)
    requires todo != [] && forall i :: 0 <= i < |todo| ==> GoodTask(todo[i])
    ensures
      var s := Proceed(todo);
      && GoodTask(todo[0]) && GoodSource(s) && s.todo == todo[1..]
      && !s.wait.Initial? && !s.wait.Finished?
      && (s.wait.DirSent? ==> todo[0].Send? && Bytes(todo[0].node) == s.out + BytesAll(s.wait.kids) + "E\n")
      && (s.wait.FileSent? ==> todo[0].Send? && Bytes(todo[0].node) == s.out + (s.wait.content + [0 as char]))
      && (s.wait.DirEnd? ==> todo[0].Close? && s.out == "E\n")
      && !s.wait.FileEnd?
  {
  }

  lemma TodoBytesStep(todo: seq<Task>)
    requires forall i :: 0 <= i < |todo| ==> GoodTask(todo[i])
    ensures todo == [] ==> TodoBytes(todo) == ""
    ensures todo != [] ==>
      && GoodTask(todo[0])
      && TodoBytes(todo) == (if todo[0].Close? then "E\n" else Bytes(todo[0].node)) + TodoBytes(todo[1..])
  {
  }

  /** What the source writes next is acknowledged at its last byte, and leaves the two
      sides matched again. */
  lemma ProceedAcked(todo: seq<Task>, sink: Sink)
    requires Resting(todo, sink) && todo != []
    ensures
      var s := Proceed(todo);
      && !s.wait.Finished? && Pending(sink, s.out)
      && Matched(s, FeedAll(sink, s.out).sink)
  {
    hide FileLine, DirLine, Strip;
    assert GoodTask(todo[0]);
    match todo[0]
    case Send(FileNode(name, mode, content)) =>
      var line := FileLine(mode, |content|, name);
      FileLineRoundTrip(mode, |content|, name);
      LineAcked(sink, line);
    case Send(DirNode(name, mode, kids)) =>
      var line := DirLine(mode, name);
      DirLineRoundTrip(mode, name);
      LineAcked(sink, line);
    case Close =>
      StripLine("E");
      assert "E" + "\n" == "E\n";
      LineAcked(sink, "E");
  }

  lemma LineAcked(sink: Sink, line: string)
    requires sink.phase == Header("") && '\n' !in line && Strip(line + "\n") == line
    requires OnHeader(sink, line).out == ACK
    ensures Pending(sink, line + "\n")
    ensures FeedAll(sink, line + "\n").sink == OnHeader(sink, line).sink
  {
    hide OnHeader, Strip;
    assert "" + line + "\n" == line + "\n";
    PendingLine(sink, "", line);
    HeaderFed(sink, line);
    SamePhase(sink, Header(line), line);
  }

  // ----- every step keeps the invariant and makes progress -----

  lemma StartInv(n: Node, t: Tree.Tree, b: Path)
    requires GoodNode(n)
    ensures Inv(Start(n, t, b), n, t, b)
  {
    hide Bytes, GoodNode, TodoBytes;
    var y := Start(n, t, b);
    assert GoodTask(Send(n));
    assert [Send(n)][1..] == [];
    TodoBytesStep([Send(n)]);
    TodoBytesStep([]);
    assert Remaining(y.src) == Bytes(n) + "" == Bytes(n);
    assert "" + "" + "" + Bytes(n) == Bytes(n);
    assert Closes(y.src.todo) == 0 by {
      assert y.src.todo[1..] == [];
    }
    assert Matched(y.src, y.sink);
  }

  lemma PushStep(y: System, n: Node, t: Tree.Tree, b: Path)
    requires GoodNode(n) && Inv(y, n, t, b) && CanPush(y)
    ensures Inv(Push(y), n, t, b) && Work(Push(y)) < Work(y)
  {
    hide Pending, FeedAll, Bytes, Feed;
    var z := Push(y);
    assert z.up + z.src.out == y.up + y.src.out;
    assert z.fed + z.up + z.src.out == y.fed + y.up + y.src.out;
  }

  lemma ConsumeStep(y: System, n: Node, t: Tree.Tree, b: Path)
    requires GoodNode(n) && Inv(y, n, t, b) && CanConsume(y)
    ensures Inv(Consume(y), n, t, b) && Work(Consume(y)) < Work(y)
  {
    hide Bytes, Feed, FeedAll, Pending, Remaining, Matched, AckInFlight;
    var z, w, s0 := Consume(y), y.up + y.src.out, Sink(t, b, [b], Header(""));
    assert BytesInFlight(y) by { OnlyThen(y); }
    ConsumeOne(s0, y.fed, y.up[0]);
    assert z.fed + z.up + z.src.out == y.fed + y.up + y.src.out;
    ConsumeWaits(y);
  }

  lemma OnlyThen(y: System)
    requires y.up != "" && (AckInFlight(y) || BytesInFlight(y) || AllSent(y))
    ensures BytesInFlight(y)
  {
  }

  lemma ConsumeOne(s: Sink, fed: string, c: char)
    ensures FeedAll(s, fed + [c]).sink == Feed(FeedAll(s, fed).sink, c).sink
  {
    FeedAllAppend(s, fed, [c]);
    assert [c][1..] == "";
  }

  lemma ConsumeWaits(y: System)
    requires CanConsume(y) && BytesInFlight(y)
    ensures AckInFlight(Consume(y)) || BytesInFlight(Consume(y))
    ensures |Consume(y).down| <= 1
  {
    hide Feed;
    var z, w := Consume(y), y.up + y.src.out;
    assert w[0] == y.up[0] && w[1..] == z.up + z.src.out;
    assert z.down == Feed(y.sink, w[0]).out && z.sink == Feed(y.sink, w[0]).sink;
    if |w| == 1 {
      assert w[1..] == "" && z.up == "" && z.src.out == "";
      assert FeedAll(y.sink, w).sink == z.sink;
      assert AckInFlight(z);
    } else {
      assert FeedAll(y.sink, w).sink == FeedAll(z.sink, w[1..]).sink;
      assert BytesInFlight(z);
    }
  }

  lemma HangUpStep(y: System, n: Node, t: Tree.Tree, b: Path)
    requires GoodNode(n) && Inv(y, n, t, b) && CanHangUp(y)
    ensures Inv(HangUp(y), n, t, b) && Work(HangUp(y)) < Work(y)
  {
  }

  /** In flight again, or everything sent. */
  lemma ProceedStep(y: System, todo: seq<Task>)
    requires Resting(todo, y.sink) && y.up == "" && y.down == "" && y.src == Proceed(todo)
    ensures BytesInFlight(y) || AllSent(y)
  {
    hide Pending, FeedAll, Matched, Feed;
    if todo != [] {
      ProceedAcked(todo, y.sink);
      ProceedBytes(todo);
      assert y.up + y.src.out == y.src.out;
    }
  }

  lemma OpenedTodo(kids: seq<Node>, todo: seq<Task>)
    requires GoodNodes(kids) && forall i :: 0 <= i < |todo| ==> GoodTask(todo[i])
    ensures
      var more := Tasks(kids) + [Close] + todo;
      && (forall i :: 0 <= i < |more| ==> GoodTask(more[i]))
      && Closes(more) == 1 + Closes(todo)
      && TodoBytes(more) == BytesAll(kids) + ("E\n" + TodoBytes(todo))
  {
    var rest := [Close] + todo;
    assert rest[1..] == todo;
    assert Tasks(kids) + [Close] + todo == Tasks(kids) + rest;
    TodoBytesAppend(kids, rest);
    ClosesAppend(Tasks(kids), rest);
    ClosesTasks(kids);
  }

  /** What the source goes on with after a good acknowledgement, unless a file's content
      comes next. */
  function NextTodo(s: Source): seq<Task> {
    if s.wait.DirSent? then Tasks(s.wait.kids) + [Close] + s.todo else s.todo
  }

  lemma AckedSource(s: Source, sink: Sink)
    requires GoodSource(s) && !s.wait.Finished? && !s.wait.FileSent? && Matched(s, sink)
    ensures Resting(NextTodo(s), sink)
    ensures OnAck(s, 0 as char) == Proceed(NextTodo(s))
    ensures Remaining(s) == TodoBytes(NextTodo(s))
  {
    hide Bytes, GoodNode, GoodNodes;
    if s.wait.DirSent? { OpenedTodo(s.wait.kids, s.todo); }
  }

  lemma AckStep(y: System, n: Node, t: Tree.Tree, b: Path)
    requires GoodNode(n) && Inv(y, n, t, b) && CanAck(y)
    ensures Inv(Ack(y), n, t, b) && Work(Ack(y)) < Work(y)
  {
    hide Pending, FeedAll, Feed, Bytes, Proceed;
    var z := Ack(y);
    assert AckInFlight(y) && y.down[0] == 0 as char && z.down == "";
    if y.src.wait.FileSent? {
      ContentStep(y);
    } else {
      hide Matched;
      AckedSource(y.src, y.sink);
      var todo := NextTodo(y.src);
      ProceedBytes(todo);
      ProceedStep(z, todo);
      assert y.fed + y.up + y.src.out + Remaining(y.src) == z.fed + z.up + z.src.out + Remaining(z.src) by {
        assert y.fed + "" + "" == y.fed;
        assert y.fed + (z.src.out + Remaining(z.src)) == y.fed + z.src.out + Remaining(z.src);
      }
    }
  }

  lemma ContentStep(y: System)
    requires GoodSource(y.src) && AckInFlight(y) && y.src.wait.FileSent?
    ensures
      var z := Ack(y);
      && GoodSource(z.src) && BytesInFlight(z) && Work(z) < Work(y)
      && y.fed + y.up + y.src.out + Remaining(y.src) == z.fed + z.up + z.src.out + Remaining(z.src)
  {
    hide Pending, FeedAll, TodoBytes, Closes, Bytes, BytesAll, GoodNode, GoodNodes, Proceed;
    var content, todo := y.src.wait.content, y.src.todo;
    var z, w := Ack(y), content + [0 as char];
    assert z == System(Source(todo, w, FileEnd), "", y.fed, y.sink, "");
    PendingContent(y.sink, content);
    ContentTaken(y.sink, content);
    assert z.up + z.src.out == w;
    EmptyChannels(y.fed, w, TodoBytes(todo));
  }

  lemma EmptyChannels(fed: string, w: string, rest: string)
    ensures fed + "" + "" + (w + rest) == fed + "" + w + rest
  {
  }

  lemma ContentTaken(sink: Sink, content: string)
    requires if content == "" then sink.phase.Trailer? else sink.phase.Data? && sink.phase.left == |content|
    ensures
      var after := FeedAll(sink, content + [0 as char]).sink;
      after.phase == Header("") && after.stack == sink.stack
  {
    FeedAllAppend(sink, content, [0 as char]);
    assert [0 as char][1..] == "";
    if content != "" {
      DataFed(sink, sink.phase.name, |content|, sink.phase.got, content);
    }
  }

  /** No reachable state is stuck: until both sides have ended with code 0, some step is possible. */
  lemma NeverStuck(y: System, n: Node, t: Tree.Tree, b: Path)
    requires GoodNode(n) && Inv(y, n, t, b)
    ensures Complete(y) || CanPush(y) || CanConsume(y) || CanAck(y) || CanHangUp(y)
  {
    hide Bytes, FeedAll, Matched;
    if BytesInFlight(y) { PendingAlive(y.sink, y.up + y.src.out); }
  }

  lemma CompleteTree(y: System, n: Node, t: Tree.Tree, b: Path)
    requires GoodNode(n) && Inv(y, n, t, b) && Complete(y)
    ensures y.sink == Sink(Place(t, b, n), b, [b], Done(0))
  {
    hide Bytes, FeedAll, Place;
    assert Remaining(y.src) == "";
    assert y.fed + "" + "" + "" == y.fed;
    NodePlaced(Sink(t, b, [b], Header("")), n);
  }

  lemma NextKeepsInv(y: System, z: System, n: Node, t: Tree.Tree, b: Path)
    requires GoodNode(n) && Inv(y, n, t, b) && Next(y, z)
    ensures Inv(z, n, t, b) && Work(z) < Work(y)
  {
    hide Inv, Work, Push, Consume, Ack, HangUp;
    if CanPush(y) && z == Push(y) {
      PushStep(y, n, t, b);
    } else if CanConsume(y) && z == Consume(y) {
      ConsumeStep(y, n, t, b);
    } else if CanAck(y) && z == Ack(y) {
      AckStep(y, n, t, b);
    } else {
      HangUpStep(y, n, t, b);
    }
  }

  ghost predicate IsRun(ys: seq<System>) {
    && ys != []
    && forall i :: 0 <= i < |ys| - 1 ==> GoodSource(ys[i].src) && Next(ys[i], ys[i + 1])
  }

  lemma {:induction false} RunKeepsInv(ys: seq<System>, n: Node, t: Tree.Tree, b: Path)
    requires GoodNode(n) && IsRun(ys) && ys[0] == Start(n, t, b)
    ensures forall i :: 0 <= i < |ys| ==> Inv(ys[i], n, t, b) && Work(ys[i]) + i <= Work(ys[0])
    decreases |ys|
  {
    hide Inv, Work, Next, Start;
    StartInv(n, t, b);
    if |ys| > 1 {
      var k := |ys| - 1;
      assert IsRun(ys[..k]) by {
        assert forall i :: 0 <= i < k ==> ys[..k][i] == ys[i];
      }
      RunKeepsInv(ys[..k], n, t, b);
      assert ys[..k][k - 1] == ys[k - 1] && Next(ys[k - 1], ys[k - 1 + 1]);
      NextKeepsInv(ys[k - 1], ys[k], n, t, b);
      forall i | 0 <= i < |ys| ensures Inv(ys[i], n, t, b) && Work(ys[i]) + i <= Work(ys[0]) {
        if i < k { assert ys[..k][i] == ys[i]; }
      }
    }
  }

  /** Over every interleaving of the two sides: the run is no longer than the work there
      was at the start; at every state either both sides have ended with code 0, the
      channels are empty and the sink has placed the sent node, whatever stood at the
      destination, or some step is possible. So no run deadlocks and every run that cannot go
      on is complete. In a directory that accepts the node exactly the node is added. */
  lemma EveryRunCompletes(ys: seq<System>, n: Node, t: Tree.Tree, b: Path)
    requires GoodNode(n) && IsRun(ys) && ys[0] == Start(n, t, b)
    ensures GoodSource(ys[0].src) && |ys| <= Work(ys[0]) + 1
    ensures forall i :: 0 <= i < |ys| ==>
      var y := ys[i];
      if Complete(y) then y.sink == Sink(Place(t, b, n), b, [b], Done(0))
      else CanPush(y) || CanConsume(y) || CanAck(y) || CanHangUp(y)
    ensures Tree.DirAt(t, []) && Tree.DirAt(t, b) && Accepts(t, b, n) ==> Place(t, b, n) == Made(t, b, n) + Flatten(b, n)
  {
    hide Work, Next, Start, Place, Flatten, Made, Accepts, FeedAll, Bytes;
    if Tree.DirAt(t, []) && Tree.DirAt(t, b) && Accepts(t, b, n) { PlaceExact(t, b, n); }
    RunKeepsInv(ys, n, t, b);
    var last := |ys| - 1;
    assert Inv(ys[last], n, t, b) && Work(ys[last]) + last <= Work(ys[0]);
    forall i | 0 <= i < |ys|
      ensures if Complete(ys[i]) then ys[i].sink == Sink(Place(t, b, n), b, [b], Done(0))
              else CanPush(ys[i]) || CanConsume(ys[i]) || CanAck(ys[i]) || CanHangUp(ys[i])
    {
      assert Inv(ys[i], n, t, b);
      NeverStuck(ys[i], n, t, b);
      if Complete(ys[i]) { CompleteTree(ys[i], n, t, b); }
    }
  }
}
