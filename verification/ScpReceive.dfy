/**
  The sink's reading loops over a channel that may deliver any number of bytes at a time.
  Whatever the chunking, they compute the byte-fed machine's session.
 */
module ScpReceive {
  import opened Options
  import opened Paths
  import opened Text
  import opened ScpSink
  import Tree

  function After(out: string, rest: Fed): Fed {
    Fed(rest.sink, out + rest.out)
  }

  lemma SessionAppend(s: Sink, v: string, w: string)
    ensures Session(s, v + w) == After(FeedAll(s, v).out, Session(FeedAll(s, v).sink, w))
  {
    FeedAllAppend(s, v, w);
  }

  /** A header line is read in one step. */
  lemma SessionHeader(s: Sink, line: string, w: string)
    requires s.phase == Header("") && '\n' !in line
    ensures
      var on := OnHeader(s.(phase := Header(line)), Strip(line + "\n"));
      Session(s, line + "\n" + w) == After(on.out, Session(on.sink, w))
  {
    hide OnHeader, Strip, FeedAll, Session;
    HeaderFed(s, line);
    SessionAppend(s, line + "\n", w);
  }

  /** A header cut off by the end of the input stops the sink. */
  lemma SessionCut(s: Sink, line: string)
    requires s.phase == Header("") && '\n' !in line
    ensures Session(s, line) == Fed(s.(phase := Done(0)), "")
  {
    LineFed(s, "", line);
    assert "" + line == line;
  }

  function Least(a: nat, b: nat): nat {
    if a <= b then a else b
  }

  /** The input left once `n` content bytes and the byte after them have been read. */
  function PastFile(r: string, n: nat): string {
    if n < |r| then r[n + 1..] else ""
  }

  /** A file's bytes are read in one step: as many as announced, or as many as there are. */
  lemma SessionFile(s: Sink, name: string, size: nat, r: string)
    requires s.phase == if size == 0 then Trailer(name, "") else Data(name, size, "")
    ensures
      var n := Least(size, |r|);
      Session(s, r) == After(ACK, Session(Save(s, name, r[..n]).sink, PastFile(r, n)))
  {
    hide Session, Save, Feed;
    var n := Least(size, |r|);
    if n > 0 {
      DataFed(s, name, size, "", r[..n]);
      assert "" + r[..n] == r[..n];
    }
    var got := FeedAll(s, r[..n]).sink;
    assert r == r[..n] + r[n..];
    SessionAppend(s, r[..n], r[n..]);
    SessionTrailer(s, got, name, size, r[..n], r[n..]);
    assert n < |r| ==> r[n..][1..] == r[n + 1..];
  }

  lemma SessionTrailer(s: Sink, got: Sink, name: string, size: nat, content: string, rest: string)
    requires |content| == size || (|content| < size && rest == "")
    requires got == s.(phase := if |content| == size then Trailer(name, content) else Data(name, size - |content|, content))
    ensures Session(got, rest) == After(ACK, Session(Save(s, name, content).sink, if rest == "" then "" else rest[1..]))
  {
  }

  /** A well-formed file header and the file behind it. */
  lemma CopySession(pre: string, s: Sink, h: string, rest: string)
    requires s.phase == Header("") && h != "" && h[0] == 'C' && ParseFile(h).Some?
    ensures
      var f, on := ParseFile(h).value, OnHeader(s, h);
      var n := Least(f.size, |rest|);
      After(pre + on.out, Session(on.sink, rest)) ==
        After(pre + ACK + ACK,
              Session(s.(tree := Tree.Mkfile(s.tree, Target(s, f.name), rest[..n])), PastFile(rest, n)))
  {
    var f, on := ParseFile(h).value, OnHeader(s, h);
    hide ParseFile, Session, Tree.Mkfile, JoinText;
    var n := Least(f.size, |rest|);
    SessionFile(on.sink, f.name, f.size, rest);
    var saved := s.(tree := Tree.Mkfile(s.tree, Target(s, f.name), rest[..n]));
    assert Save(on.sink, f.name, rest[..n]).sink == saved;
    assert pre + ACK + (ACK + Session(saved, PastFile(rest, n)).out) ==
           pre + ACK + ACK + Session(saved, PastFile(rest, n)).out;
  }

  class Receiver {
    const input: string
    var pos: nat
    var out: string
    var tree: Tree.Tree
    var dirStack: seq<Path>
    var currentBase: Path

    predicate Valid()
      reads this
    {
      pos <= |input|
    }

    constructor (input: string, tree: Tree.Tree)
      ensures Valid() && this.input == input && pos == 0 && out == "" && this.tree == tree
    {
      this.input := input;
      this.tree := tree;
      pos, out, dirStack, currentBase := 0, "", [], [];
    }

    function Unread(): string
      reads this
      requires Valid()
    {
      input[pos..]
    }

    function State(phase: Phase): Sink
      reads this
    {
      Sink(tree, currentBase, dirStack, phase)
    }

    /** At least one byte and at most `n`, or none at the end of the input. */
    method Read(n: nat) returns (data: string)
      requires Valid() && n > 0
      modifies this`pos
      ensures Valid() && data + Unread() == old(Unread())
      ensures |data| <= n
      ensures data == "" <==> old(Unread()) == ""
    {
      if pos == |input| { return ""; }
      var k: nat :| 1 <= k <= n && pos + k <= |input|;
      data := input[pos..pos + k];
      pos := pos + k;
    }

    method ReadHeader() returns (h: string, ghost line: string)
      requires Valid()
      modifies this`pos
      ensures Valid() && '\n' !in line
      ensures h != "" ==> h == Strip(line + "\n")
      ensures if old(Unread()) == line + "\n" + Unread() then h == Strip(line + "\n")
              else h == "" && old(Unread()) == line && Unread() == ""
      ensures h != "" ==> |Unread()| < old(|Unread()|)
    {
      var header := "";
      line := "";
      ghost var start := Unread();
      while header == "" || header[|header| - 1] != '\n'
        invariant Valid() && start == header + Unread()
        invariant '\n' !in line
        invariant header == line || (header == line + "\n")
        decreases |Unread()|, header == line
      {
        var c := Read(1);
        if c == "" {
          return "", header;
        }
        header := header + c;
        if c == "\n" { } else { line := header; }
      }
      h := Strip(header);
    }

    method ReadFileData(size: nat) returns (content: string)
      requires Valid()
      modifies this`pos
      ensures Valid() && old(Unread()) == content + Unread()
      ensures |content| == Least(size, |old(Unread())|)
    {
      content := "";
      var remaining := size;
      ghost var start := Unread();
      while remaining > 0
        invariant Valid() && start == content + Unread()
        invariant 0 <= remaining && |content| + remaining == size
      {
        var chunk := Read(Least(remaining, 8192));
        if chunk == "" { break; }
        content := content + chunk;
        remaining := remaining - |chunk|;
      }
    }

    /** `C`: a return code other than 0 ends the session. */
    method HandleCopyCommand(h: string) returns (rc: int)
      requires Valid() && h != "" && h[0] == 'C'
      modifies this`pos, this`out, this`tree
      ensures Valid() && |Unread()| <= old(|Unread()|)
      ensures
        var on := OnHeader(old(State(Header(""))), h);
        After(old(out) + on.out, Session(on.sink, old(Unread()))) ==
          if rc == 0 then After(out, Session(State(Header("")), Unread())) else Fed(State(Done(rc)), out)
    {
      ghost var state, rest := State(Header("")), Unread();
      var parsed := ParseFile(h);
      if parsed.None? {
        out := out + BAD_HEADER;
        DoneFed(State(Done(1)), Unread());
        return 1;
      }
      var f := parsed.value;
      CopySession(out, state, h, rest);
      hide Session, OnHeader, ParseFile, Tree.Mkfile, JoinText, Target;
      out := out + ACK;
      var content := ReadFileData(f.size);
      var _ := Read(1);
      assert content == rest[..|content|];
      assert Unread() == PastFile(rest, |content|);
      tree := Tree.Mkfile(tree, Target(State(Header("")), f.name), content);
      out := out + ACK;
      rc := 0;
    }

    method HandleDirCommand(h: string)
      requires h != "" && h[0] == 'D'
      modifies this`out, this`tree, this`dirStack, this`currentBase
      ensures Fed(State(Header("")), out) == After(old(out), OnHeader(old(State(Header(""))), h))
    {
      dirStack := dirStack + [currentBase];
      var parsed := ParseDir(h);
      if parsed.None? {
        out := out + BAD_DIRECTORY;
      } else {
        currentBase := JoinText(currentBase, parsed.value);
        tree := Tree.Mkdirs(tree, currentBase);
        out := out + ACK;
      }
    }

    method HandleEndDir(h: string) returns (stop: bool)
      requires h != "" && h[0] == 'E'
      modifies this`out, this`dirStack, this`currentBase
      ensures Fed(State(if stop then Done(0) else Header("")), out) ==
        After(old(out), OnHeader(old(State(Header(""))), h))
    {
      if dirStack != [] {
        currentBase := dirStack[|dirStack| - 1];
        dirStack := dirStack[..|dirStack| - 1];
      }
      out := out + ACK;
      stop := dirStack == [];
    }

    /** Returns the exit code; whatever the chunking of the reads, the outcome is that of
        the byte-fed machine on the unread input. */
    method ProcessSinkProtocol(path: Path) returns (code: int)
      requires Valid()
      modifies this
      ensures Valid()
      ensures After(old(out), Session(Sink(old(tree), path, [path], Header("")), old(Unread()))) ==
        Fed(State(Done(code)), out)
    {
      hide OnHeader, Session, Strip;
      currentBase := path;
      dirStack := [path];
      ghost var target := After(out, Session(State(Header("")), Unread()));
      while true
        invariant Valid()
        invariant target == After(out, Session(State(Header("")), Unread()))
        decreases |Unread()|
      {
        ghost var unread, state := Unread(), State(Header(""));
        var h, line := ReadHeader();
        if h == "" {
          EndOfHeaders(state, unread, line, Unread());
          return 0;
        }
        SessionHeader(state, line, Unread());
        PhaseIrrelevant(state, Header(line), h);
        ghost var on, rest := OnHeader(state, h), Unread();
        if h[0] == 'C' {
          var rc := HandleCopyCommand(h);
          if rc != 0 { return rc; }
        } else if h[0] == 'D' {
          HandleDirCommand(h);
        } else if h[0] == 'E' {
          var stop := HandleEndDir(h);
          if stop {
            DoneSession(on.sink, rest);
            return 0;
          }
        } else {
          PlainHeader(state, h);
          if h[0] == 'T' {
            out := out + ACK;
          } else {
            out := out + UnknownCommand(h);
            DoneSession(on.sink, rest);
            return 1;
          }
        }
      }
    }
  }

  lemma PhaseIrrelevant(s: Sink, p: Phase, h: string)
    ensures OnHeader(s.(phase := p), h) == OnHeader(s, h)
  {
  }

  lemma PlainHeader(s: Sink, h: string)
    requires h != "" && h[0] !in "CDE"
    ensures OnHeader(s, h) ==
      if h[0] == 'T' then Fed(s.(phase := Header("")), ACK) else Fed(s.(phase := Done(1)), UnknownCommand(h))
  {
  }

  /** A blank line, or the end of the input, ends the session normally. */
  lemma EndOfHeaders(s: Sink, unread: string, line: string, rest: string)
    requires s.phase == Header("") && '\n' !in line
    requires (unread == line + "\n" + rest && Strip(line + "\n") == "") || unread == line
    ensures Session(s, unread) == Fed(s.(phase := Done(0)), "")
  {
    if unread == line + "\n" + rest && Strip(line + "\n") == "" {
      SessionHeader(s, line, rest);
      DoneFed(s.(phase := Done(0)), rest);
    } else {
      SessionCut(s, line);
    }
  }

  lemma DoneSession(s: Sink, w: string)
    requires s.phase.Done?
    ensures Session(s, w) == Fed(s, "")
  {
    DoneFed(s, w);
  }
}
