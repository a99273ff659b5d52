/**
  The SCP sink (`scp -t`) as a machine fed one byte at a time. Reading in chunks of any
  size is feeding the same bytes, so this is also the specification of the reading loops.
 */
module ScpSink {
  import opened Options
  import opened Paths
  import opened Text
  import Tree

  datatype Phase =
    | Header(line: string)
    | Data(name: string, left: nat, got: string)
    | Trailer(name: string, got: string)
    | Done(code: int)

  datatype Sink = Sink(tree: Tree.Tree, base: Path, stack: seq<Path>, phase: Phase)

  /** The sink after some input, and the bytes it wrote back. */
  datatype Fed = Fed(sink: Sink, out: string)

  const ACK: string := [0 as char]
  const BAD_HEADER: string := [1 as char] + "SCP Protocol Error: Invalid header\n"
  const BAD_DIRECTORY: string := [1 as char] + "SCP Protocol Error: Invalid directory header\n"

  function UnknownCommand(line: string): string {
    [1 as char] + "SCP: Unknown protocol command: " + line + "\n"
  }

  datatype FileHeader = FileHeader(mode: string, size: nat, name: string)

  /** `C(\d{4}) (\d+) (.+)` on a header without line ends. */
  function ParseFile(h: string): Option<FileHeader> {
    if |h| < 6 || h[0] != 'C' || !AllDigits(h[1..5]) || h[5] != ' ' then None
    else
      var rest := h[6..];
      var k := DigitRun(rest);
      if k == 0 || k + 1 >= |rest| || rest[k] != ' ' then None
      else Some(FileHeader(h[1..5], DecimalValue(rest[..k]), rest[k + 1..]))
  }

  /** `D(\d{4}) 0 (.+)`. */
  function ParseDir(h: string): Option<string> {
    if |h| < 9 || h[0] != 'D' || !AllDigits(h[1..5]) || h[5..8] != " 0 " then None else Some(h[8..])
  }

  /** A file header is `C`, four digits, a size in digits and a name, with single spaces. */
  lemma ParseFileExact(h: string, f: FileHeader)
    ensures ParseFile(h) == Some(f) <==> exists d :: IsFileHeader(h, f, d)
  {
    hide ParseFile, IsFileHeader;
    if ParseFile(h) == Some(f) {
      ParsedFile(h, f);
    }
    if d :| IsFileHeader(h, f, d) {
      FileParsed(h, f, d);
    }
  }

  lemma ParsedFile(h: string, f: FileHeader)
    requires ParseFile(h) == Some(f)
    ensures exists d :: IsFileHeader(h, f, d)
  {
    hide DecimalValue, DigitRun;
    var rest := h[6..];
    var k := DigitRun(rest);
    var d := rest[..k];
    assert h == "C" + f.mode + " " + rest;
    assert rest == d + " " + f.name;
    Pieces("C" + f.mode + " ", d, " ", f.name);
    assert IsFileHeader(h, f, d);
  }

  lemma Pieces(a: string, b: string, c: string, d: string)
    ensures a + (b + c + d) == a + b + c + d && a + b + c + d == a + (b + (c + d))
  {
  }

  lemma FileParsed(h: string, f: FileHeader, d: string)
    requires IsFileHeader(h, f, d)
    ensures ParseFile(h) == Some(f)
  {
    hide DecimalValue, DigitRun;
    var rest := d + (" " + f.name);
    Pieces("C" + f.mode + " ", d, " ", f.name);
    HeaderCut(h, f.mode, rest);
    DigitRunExact(d, " " + f.name);
    assert rest[..|d|] == d && rest[|d| + 1..] == f.name && rest[|d|] == ' ';
  }

  lemma HeaderCut(h: string, mode: string, rest: string)
    requires |mode| == 4 && h == "C" + mode + " " + rest
    ensures |h| >= 6 && h[0] == 'C' && h[1..5] == mode && h[5] == ' ' && h[6..] == rest
  {
  }

  ghost predicate IsFileHeader(h: string, f: FileHeader, d: string) {
    && |f.mode| == 4 && AllDigits(f.mode) && d != "" && AllDigits(d) && f.name != ""
    && h == "C" + f.mode + " " + d + " " + f.name && DecimalValue(d) == f.size
  }

  /** A directory header is `D`, four digits, the size 0 and a name. */
  lemma ParseDirExact(h: string, name: string)
    ensures ParseDir(h) == Some(name) <==>
      name != "" && exists mode :: |mode| == 4 && AllDigits(mode) && h == "D" + mode + " 0 " + name
  {
    if ParseDir(h) == Some(name) {
      assert h == "D" + h[1..5] + " 0 " + name;
    }
    if name != "" && exists mode :: |mode| == 4 && AllDigits(mode) && h == "D" + mode + " 0 " + name {
      var mode :| |mode| == 4 && AllDigits(mode) && h == "D" + mode + " 0 " + name;
      assert h[1..5] == mode && h[5..8] == " 0 " && h[8..] == name;
    }
  }

  /** One complete header line, already stripped. */
  function OnHeader(s: Sink, h: string): Fed {
    if h == "" then Fed(s.(phase := Done(0)), "")
    else if h[0] == 'C' then
      match ParseFile(h)
      case None => Fed(s.(phase := Done(1)), BAD_HEADER)
      case Some(f) =>
        Fed(s.(phase := if f.size == 0 then Trailer(f.name, "") else Data(f.name, f.size, "")), ACK)
    else if h[0] == 'D' then
      var pushed := s.(stack := s.stack + [s.base], phase := Header(""));
      match ParseDir(h)
      case None => Fed(pushed, BAD_DIRECTORY)
      case Some(name) =>
        var dir := JoinText(s.base, name);
        Fed(pushed.(base := dir, tree := Tree.Mkdirs(s.tree, dir)), ACK)
    else if h[0] == 'E' then
      var top := |s.stack| - 1;
      var popped := if s.stack == [] then s else s.(base := s.stack[top], stack := s.stack[..top]);
      Fed(popped.(phase := if popped.stack == [] then Done(0) else Header("")), ACK)
    else if h[0] == 'T' then Fed(s.(phase := Header("")), ACK)
    else Fed(s.(phase := Done(1)), UnknownCommand(h))
  }

  /** A received file is stored in the current directory, or at it when it is no directory. */
  function Target(s: Sink, name: string): Path {
    if Tree.DirAt(s.tree, s.base) then JoinText(s.base, name) else s.base
  }

  function Save(s: Sink, name: string, content: string): Fed {
    Fed(s.(tree := Tree.Mkfile(s.tree, Target(s, name), content), phase := Header("")), ACK)
  }

  function Feed(s: Sink, b: char): Fed {
    match s.phase
    case Header(line) =>
      if b == '\n' then OnHeader(s, Strip(line + [b])) else Fed(s.(phase := Header(line + [b])), "")
    case Data(name, left, got) =>
      Fed(s.(phase := if left <= 1 then Trailer(name, got + [b]) else Data(name, left - 1, got + [b])), "")
    case Trailer(name, got) => Save(s, name, got)
    case Done(_) => Fed(s, "")
  }

  function FeedAll(s: Sink, w: string): Fed
    decreases |w|
  {
    if w == "" then Fed(s, "")
    else
      var first := Feed(s, w[0]);
      var rest := FeedAll(first.sink, w[1..]);
      Fed(rest.sink, first.out + rest.out)
  }

  /** The input ends: a header being read stops the sink, a file being read is stored as
      far as it came. */
  function AtEnd(s: Sink): Fed {
    match s.phase
    case Header(_) => Fed(s.(phase := Done(0)), "")
    case Data(name, _, got) => Fed(Save(s, name, got).sink.(phase := Done(0)), ACK)
    case Trailer(name, got) => Fed(Save(s, name, got).sink.(phase := Done(0)), ACK)
    case Done(_) => Fed(s, "")
  }

  /** A whole session of the sink on the input `w`. */
  function Session(s: Sink, w: string): Fed {
    var fed := FeedAll(s, w);
    var end := AtEnd(fed.sink);
    Fed(end.sink, fed.out + end.out)
  }

  /** What the sink answers to a header: an acknowledgement to a file, a directory, the end of
      one or a time, and a line of text after a byte 1 to everything else. It stops with code
      1 at a bad file header or an unknown command, goes on after a bad directory header, and
      stops with code 0 at an empty one. */
  lemma HeaderAnswers(s: Sink, h: string)
    requires s.phase == Header("")
    ensures
      var on := OnHeader(s, h);
      if h == "" then on == Fed(s.(phase := Done(0)), "")
      else
        var good := h[0] == 'E' || h[0] == 'T' || (h[0] == 'C' && ParseFile(h).Some?) || (h[0] == 'D' && ParseDir(h).Some?);
        && (good ==> on.out == [0 as char])
        && (!good ==> on.out != "" && on.out[0] == 1 as char && on.out[|on.out| - 1] == '\n')
        && (on.sink.phase == Done(1) <==> !good && h[0] != 'D')
        && (h[0] == 'T' || (h[0] == 'D' && !good) ==> on.sink.phase == Header("") && on.sink.tree == s.tree && on.sink.base == s.base)
        && (h[0] == 'C' && good ==> on.sink.(phase := s.phase) == s)
  {
  }

  lemma {:induction false} FeedAllAppend(s: Sink, v: string, w: string)
    ensures FeedAll(s, v + w) ==
      Fed(FeedAll(FeedAll(s, v).sink, w).sink, FeedAll(s, v).out + FeedAll(FeedAll(s, v).sink, w).out)
    decreases |v|
  {
    hide Feed;
    if v == "" {
      assert v + w == w;
    } else {
      assert (v + w)[0] == v[0] && (v + w)[1..] == v[1..] + w;
      FeedAllAppend(Feed(s, v[0]).sink, v[1..], w);
    }
  }

  lemma {:induction false} DoneFed(s: Sink, w: string)
    requires s.phase.Done?
    ensures FeedAll(s, w) == Fed(s, "")
    decreases |w|
  {
    if w != "" { DoneFed(s, w[1..]); }
  }

  /** Bytes of a header line are collected silently. */
  lemma {:induction false} LineFed(s: Sink, line: string, w: string)
    requires s.phase == Header(line) && '\n' !in w
    ensures FeedAll(s, w) == Fed(s.(phase := Header(line + w)), "")
    decreases |w|
  {
    hide OnHeader, Strip;
    if w == "" {
      assert line + w == line;
    } else {
      LineFed(s.(phase := Header(line + [w[0]])), line + [w[0]], w[1..]);
      assert line + [w[0]] + w[1..] == line + w;
    }
  }

  lemma HeaderFed(s: Sink, line: string)
    requires s.phase == Header("") && '\n' !in line
    ensures FeedAll(s, line + "\n") == OnHeader(s.(phase := Header(line)), Strip(line + "\n"))
  {
    hide OnHeader, Strip;
    LineFed(s, "", line);
    assert "" + line == line;
    FeedAllAppend(s, line, "\n");
    var t := s.(phase := Header(line));
    assert "\n"[1..] == "";
    assert FeedAll(t, "\n") == Feed(t, '\n');
  }

  /** Bytes of a file are collected silently. */
  lemma {:induction false} DataFed(s: Sink, name: string, left: nat, got: string, w: string)
    requires s.phase == Data(name, left, got) && 0 < |w| <= left
    ensures FeedAll(s, w) ==
      Fed(s.(phase := if |w| == left then Trailer(name, got + w) else Data(name, left - |w|, got + w)), "")
    decreases |w|
  {
    var next := Feed(s, w[0]).sink;
    if |w| == 1 {
      assert w[1..] == "" && w == [w[0]];
    } else {
      DataFed(next, name, left - 1, got + [w[0]], w[1..]);
      assert got + [w[0]] + w[1..] == got + w;
    }
  }

  // ----- the directory stack -----

  /** `None` is a directory header that did not parse: it is pushed but not entered. */
  function Entered(start: Path, open: seq<Option<string>>): Path {
    if open == [] then start
    else
      var last := open[|open| - 1];
      var above := Entered(start, open[..|open| - 1]);
      if last.None? then above else JoinText(above, last.value)
  }

  /** The stack holds one more path than there are open directories: the base to return
      to for each of them above the session's own; the base is their join. */
  ghost predicate StackIs(s: Sink, start: Path, open: seq<Option<string>>) {
    && |s.stack| == 1 + |open|
    && s.base == Entered(start, open)
    && s.stack[0] == start
    && forall i :: 0 <= i < |open| ==> s.stack[i + 1] == Entered(start, open[..i])
  }

  /** The directories open after a header. */
  function OpenAfter(open: seq<Option<string>>, h: string): seq<Option<string>> {
    if h != "" && h[0] == 'D' then open + [ParseDir(h)]
    else if h != "" && h[0] == 'E' && open != [] then open[..|open| - 1]
    else open
  }

  /** Every header keeps the stack discipline, and of the end-of-directory headers exactly
      an unmatched one stops the sink. */
  lemma HeaderKeepsStack(s: Sink, h: string, start: Path, open: seq<Option<string>>)
    requires StackIs(s, start, open)
    ensures !OnHeader(s, h).sink.phase.Done? ==> StackIs(OnHeader(s, h).sink, start, OpenAfter(open, h))
    ensures h != "" && h[0] == 'E' ==> (OnHeader(s, h).sink.phase == Done(0) <==> open == [])
    ensures h != "" && h[0] == 'E' ==> OnHeader(s, h).out == ACK
  {
    var after := OnHeader(s, h).sink;
    if h != "" && h[0] == 'D' {
      var longer := open + [ParseDir(h)];
      assert longer[..|longer| - 1] == open;
      forall i | 0 <= i < |longer| ensures after.stack[i + 1] == Entered(start, longer[..i]) {
        assert longer[..i] == if i < |open| then open[..i] else open;
        assert open[..|open|] == open;
      }
    } else if h != "" && h[0] == 'E' && open != [] {
      var shorter := open[..|open| - 1];
      assert s.stack[|open|] == Entered(start, shorter);
      forall i | 0 <= i < |shorter| ensures after.stack[i + 1] == Entered(start, shorter[..i]) {
        assert shorter[..i] == open[..i];
      }
    }
  }

  /** The directories open after any input. */
  function OpenAfterAll(s: Sink, w: string, open: seq<Option<string>>): seq<Option<string>>
    decreases |w|
  {
    if w == "" then open
    else
      var now := if s.phase.Header? && w[0] == '\n' then OpenAfter(open, Strip(s.phase.line + "\n")) else open;
      OpenAfterAll(Feed(s, w[0]).sink, w[1..], now)
  }

  lemma {:induction false} StackDiscipline(s: Sink, w: string, start: Path, open: seq<Option<string>>)
    requires StackIs(s, start, open)
    ensures !FeedAll(s, w).sink.phase.Done? ==>
      StackIs(FeedAll(s, w).sink, start, OpenAfterAll(s, w, open))
    decreases |w|
  {
    hide OnHeader, OpenAfter, StackIs, Strip;
    if w != "" {
      var next := Feed(s, w[0]).sink;
      if next.phase.Done? {
        DoneFed(next, w[1..]);
      } else {
        FeedKeepsStack(s, w[0], start, open);
        var now := if s.phase.Header? && w[0] == '\n' then OpenAfter(open, Strip(s.phase.line + "\n")) else open;
        StackDiscipline(next, w[1..], start, now);
      }
    }
  }

  lemma FeedKeepsStack(s: Sink, b: char, start: Path, open: seq<Option<string>>)
    requires StackIs(s, start, open) && !Feed(s, b).sink.phase.Done?
    ensures StackIs(Feed(s, b).sink, start,
      if s.phase.Header? && b == '\n' then OpenAfter(open, Strip(s.phase.line + "\n")) else open)
  {
    hide OnHeader, OpenAfter, Strip;
    if s.phase.Header? && b == '\n' {
      HeaderKeepsStack(s, Strip(s.phase.line + "\n"), start, open);
    }
  }
}
