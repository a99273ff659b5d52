/**
  Running a parsed chain: the emulator's loop against the list semantics of the POSIX
  shell (section 2.9.3, Lists, of the Shell Command Language).
 */
module ShellChain {
  import opened Options
  import opened Text
  import opened ShellParse

  /** What running one command gives: the new world, its output and its exit status. */
  datatype Reply<W> = Reply(world: W, out: string, err: string, rc: int)

  /** How pipelines and background jobs run is a parameter, and so is what a command waiting
      for input makes of a line, how the history records one and how variables expand. */
  datatype Shell<!W> = Shell(
    run: (W, string) -> Reply<W>,
    launch: (W, string) -> Reply<W>,
    answer: (W, string) -> Option<Reply<W>>,
    record: (W, string) -> W,
    expand: (W, string) -> string,
    maxOutput: nat)

  /** `ran` says, node by node, which ones were run. */
  datatype Progress<W> = Progress(world: W, out: string, err: string, rc: int, ran: seq<bool>, cut: bool)

  const NOTICE: string := "\n[output truncated]\n"
  const CUT_ERROR: string := "shell: maximum output size exceeded\n"

  const AND := Some("&&")
  const OR := Some("||")
  const SEMI := Some(";")

  /** Running one node, then cutting the output if it has grown too long. */
  function RunNode<W>(sh: Shell<W>, node: Command, p: Progress<W>): Progress<W> {
    var r := if node.op == Some("&") then sh.launch(p.world, node.line) else sh.run(p.world, node.line);
    var out, err := p.out + r.out, p.err + r.err;
    if |out| > sh.maxOutput then
      Progress(r.world, out[..sh.maxOutput] + NOTICE, err + CUT_ERROR, 1, p.ran + [true], true)
    else Progress(r.world, out, err, r.rc, p.ran + [true], false)
  }

  function Skipped<W>(p: Progress<W>): Progress<W> {
    p.(ran := p.ran + [false])
  }

  // ----- the emulator -----

  predicate ShouldSkipNode(op: Option<string>, lastRc: int) {
    if op == OR && lastRc != 0 then false
    else if op == SEMI || op == None then false
    else true
  }

  predicate NextShouldExecute(op: Option<string>, rc: int) {
    if op == AND then rc == 0 else if op == OR then rc != 0 else true
  }

  /** While it is not executing, the emulator resumes on a node it finds should be skipped. */
  function Emulate<W>(sh: Shell<W>, nodes: seq<Command>, p: Progress<W>, should: bool): Progress<W>
    decreases |nodes|
  {
    if nodes == [] then p
    else if !should && !ShouldSkipNode(nodes[0].op, p.rc) then Emulate(sh, nodes[1..], Skipped(p), false)
    else
      var q := RunNode(sh, nodes[0], p);
      if q.cut then q else Emulate(sh, nodes[1..], q, NextShouldExecute(nodes[0].op, q.rc))
  }

  // ----- POSIX lists -----

  /** A command is due at the start of a list, after `;`, after `&&` on success and after
      `||` on failure; a command that is not due leaves the status as it is. */
  predicate Due(prev: Option<string>, rc: int) {
    (prev == AND ==> rc == 0) && (prev == OR ==> rc != 0)
  }

  function Posix<W>(sh: Shell<W>, nodes: seq<Command>, p: Progress<W>, prev: Option<string>): Progress<W>
    decreases |nodes|
  {
    if nodes == [] then p
    else if !Due(prev, p.rc) then Posix(sh, nodes[1..], Skipped(p), nodes[0].op)
    else
      var q := RunNode(sh, nodes[0], p);
      if q.cut then q else Posix(sh, nodes[1..], q, nodes[0].op)
  }

  // ----- where they agree -----

  /** The emulator passes over a suppressed last node. */
  predicate LastPassed(op: Option<string>, rc: int) {
    op == None || op == SEMI || (op == OR && rc != 0)
  }

  /** The emulator passes over a suppressed node and resumes on the next one. */
  predicate Rejoins(op: Option<string>, next: Option<string>, rc: int) {
    || (op == SEMI && (next == AND || (next == OR && rc == 0)))
    || (op == OR && rc != 0 && next == AND)
  }

  /** Every node the POSIX semantics suppresses is the last one and passed over, or is
      followed by a node on which the emulator resumes. */
  predicate Tolerated<W>(sh: Shell<W>, nodes: seq<Command>, p: Progress<W>, prev: Option<string>)
    decreases |nodes|
  {
    if nodes == [] then true
    else if !Due(prev, p.rc) then
      (if |nodes| == 1 then LastPassed(nodes[0].op, p.rc) else Rejoins(nodes[0].op, nodes[1].op, p.rc))
      && Tolerated(sh, nodes[1..], Skipped(p), nodes[0].op)
    else
      var q := RunNode(sh, nodes[0], p);
      q.cut || Tolerated(sh, nodes[1..], q, nodes[0].op)
  }

  predicate ChainOps(nodes: seq<Command>) {
    && (forall i :: 0 <= i < |nodes| ==> nodes[i].op in {None, AND, OR, SEMI})
    && (forall i :: 0 <= i < |nodes| - 1 ==> nodes[i].op != None)
  }

  lemma ChainTail(nodes: seq<Command>)
    requires ChainOps(nodes) && nodes != []
    ensures ChainOps(nodes[1..])
  {
  }

  lemma {:induction false} EmulateExtends<W>(sh: Shell<W>, nodes: seq<Command>, p: Progress<W>, should: bool)
    ensures p.ran <= Emulate(sh, nodes, p, should).ran
    decreases |nodes|
  {
    hide RunNode;
    if nodes != [] {
      RunNodeRan(sh, nodes[0], p);
      if !should && !ShouldSkipNode(nodes[0].op, p.rc) {
        EmulateExtends(sh, nodes[1..], Skipped(p), false);
      } else {
        var q := RunNode(sh, nodes[0], p);
        EmulateExtends(sh, nodes[1..], q, NextShouldExecute(nodes[0].op, q.rc));
      }
    }
  }

  lemma {:induction false} PosixExtends<W>(sh: Shell<W>, nodes: seq<Command>, p: Progress<W>, prev: Option<string>)
    ensures p.ran <= Posix(sh, nodes, p, prev).ran
    decreases |nodes|
  {
    hide RunNode;
    if nodes != [] {
      RunNodeRan(sh, nodes[0], p);
      if !Due(prev, p.rc) {
        PosixExtends(sh, nodes[1..], Skipped(p), nodes[0].op);
      } else {
        PosixExtends(sh, nodes[1..], RunNode(sh, nodes[0], p), nodes[0].op);
      }
    }
  }

  lemma RunNodeRan<W>(sh: Shell<W>, node: Command, p: Progress<W>)
    ensures RunNode(sh, node, p).ran == p.ran + [true]
  {
  }

  /** One of them runs the next node and the other does not. */
  lemma Diverges<W>(sh: Shell<W>, nodes: seq<Command>, p: Progress<W>, should: bool, prev: Option<string>)
    requires nodes != []
    requires (should || ShouldSkipNode(nodes[0].op, p.rc)) != Due(prev, p.rc)
    ensures Emulate(sh, nodes, p, should) != Posix(sh, nodes, p, prev)
  {
    hide RunNode;
    RunNodeRan(sh, nodes[0], p);
    var q, k := RunNode(sh, nodes[0], p), |p.ran|;
    if Due(prev, p.rc) {
      EmulateExtends(sh, nodes[1..], Skipped(p), false);
      PosixExtends(sh, nodes[1..], q, nodes[0].op);
      RanAt(Posix(sh, nodes, p, prev).ran, p.ran, true);
      RanAt(Emulate(sh, nodes, p, should).ran, p.ran, false);
    } else {
      EmulateExtends(sh, nodes[1..], q, NextShouldExecute(nodes[0].op, q.rc));
      PosixExtends(sh, nodes[1..], Skipped(p), nodes[0].op);
      RanAt(Emulate(sh, nodes, p, should).ran, p.ran, true);
      RanAt(Posix(sh, nodes, p, prev).ran, p.ran, false);
    }
  }

  lemma RanAt(ran: seq<bool>, before: seq<bool>, b: bool)
    requires before + [b] <= ran
    ensures |before| < |ran| && ran[|before|] == b
  {
  }

  /** For every chain without `&`, the emulator does exactly what the POSIX semantics does,
      cut at the same place, if and only if every suppressed node is tolerated. */
  lemma {:induction false} AgreesIff<W>(sh: Shell<W>, nodes: seq<Command>, p: Progress<W>, prev: Option<string>)
    requires ChainOps(nodes) && (nodes != [] ==> prev in {None, AND, OR, SEMI})
    ensures Emulate(sh, nodes, p, NextShouldExecute(prev, p.rc)) == Posix(sh, nodes, p, prev) <==>
      Tolerated(sh, nodes, p, prev)
    decreases |nodes|
  {
    hide RunNode;
    assert NextShouldExecute(prev, p.rc) == Due(prev, p.rc);
    if nodes != [] {
      ChainTail(nodes);
      assert nodes[0].op in {None, AND, OR, SEMI};
      if Due(prev, p.rc) {
        AgreesIff(sh, nodes[1..], RunNode(sh, nodes[0], p), nodes[0].op);
      } else if ShouldSkipNode(nodes[0].op, p.rc) {
        Diverges(sh, nodes, p, false, prev);
        assert !LastPassed(nodes[0].op, p.rc);
        if |nodes| > 1 { assert !Rejoins(nodes[0].op, nodes[1].op, p.rc); }
      } else if |nodes| == 1 {
        assert nodes[1..] == [];
      } else {
        AfterSuppressed(sh, nodes, p);
      }
    }
  }

  /** The node after one that was suppressed and passed over: it is due, and the emulator is
      not executing. */
  lemma {:induction false} AfterSuppressed<W>(sh: Shell<W>, nodes: seq<Command>, p: Progress<W>)
    requires ChainOps(nodes) && |nodes| > 1 && !ShouldSkipNode(nodes[0].op, p.rc)
    ensures Emulate(sh, nodes[1..], Skipped(p), false) == Posix(sh, nodes[1..], Skipped(p), nodes[0].op) <==>
      Rejoins(nodes[0].op, nodes[1].op, p.rc) && Tolerated(sh, nodes[1..], Skipped(p), nodes[0].op)
    decreases |nodes|, 0
  {
    hide RunNode;
    var op, rest, s := nodes[0].op, nodes[1..], Skipped(p);
    assert nodes[0].op != None && nodes[1].op in {None, AND, OR, SEMI};
    assert rest[0] == nodes[1];
    assert Due(op, s.rc);
    ChainTail(nodes);
    ChainTail(rest);
    if ShouldSkipNode(rest[0].op, s.rc) {
      assert Rejoins(op, rest[0].op, p.rc);
      AgreesIff(sh, rest[1..], RunNode(sh, rest[0], s), rest[0].op);
    } else {
      Diverges(sh, rest, s, false, op);
    }
  }

  /** The node suppressed by the POSIX semantics, if any, is the last. */
  predicate OnlyLastSuppressed<W>(sh: Shell<W>, nodes: seq<Command>, p: Progress<W>, prev: Option<string>)
    decreases |nodes|
  {
    if nodes == [] then true
    else if !Due(prev, p.rc) then |nodes| == 1
    else
      var q := RunNode(sh, nodes[0], p);
      q.cut || OnlyLastSuppressed(sh, nodes[1..], q, nodes[0].op)
  }

  /** In particular, a chain ending without an operator in which nothing but possibly the
      last node is suppressed runs as POSIX prescribes. */
  lemma {:induction false} AgreesWithoutSuppression<W>(sh: Shell<W>, nodes: seq<Command>, p: Progress<W>, prev: Option<string>)
    requires ChainOps(nodes) && (nodes != [] ==> prev in {None, AND, OR, SEMI} && nodes[|nodes| - 1].op == None)
    requires OnlyLastSuppressed(sh, nodes, p, prev)
    ensures Emulate(sh, nodes, p, NextShouldExecute(prev, p.rc)) == Posix(sh, nodes, p, prev)
    decreases |nodes|
  {
    OnlyLastTolerated(sh, nodes, p, prev);
    AgreesIff(sh, nodes, p, prev);
  }

  lemma {:induction false} OnlyLastTolerated<W>(sh: Shell<W>, nodes: seq<Command>, p: Progress<W>, prev: Option<string>)
    requires ChainOps(nodes) && (nodes != [] ==> nodes[|nodes| - 1].op == None)
    requires OnlyLastSuppressed(sh, nodes, p, prev)
    ensures Tolerated(sh, nodes, p, prev)
    decreases |nodes|
  {
    hide RunNode;
    if nodes != [] {
      ChainTail(nodes);
      if |nodes| == 1 { assert nodes[1..] == []; }
      if Due(prev, p.rc) {
        var q := RunNode(sh, nodes[0], p);
        if !q.cut { OnlyLastTolerated(sh, nodes[1..], q, nodes[0].op); }
      }
    }
  }

  /** `a && b && c` with `a` failing: the emulator runs `b`. */
  lemma FailedAndRunsOn<W>(sh: Shell<W>, a: string, b: string, c: string, p: Progress<W>)
    requires sh.run(p.world, a).rc != 0 && |p.out + sh.run(p.world, a).out| <= sh.maxOutput && p.ran == []
    ensures [true, true] <= Emulate(sh, [Command(a, AND), Command(b, AND), Command(c, None)], p, true).ran
    ensures Posix(sh, [Command(a, AND), Command(b, AND), Command(c, None)], p, None).ran == [true, false, false]
  {
    var nodes := [Command(a, AND), Command(b, AND), Command(c, None)];
    var q := RunNode(sh, nodes[0], p);
    assert !q.cut && q.rc != 0 && q.ran == [true];
    var r := RunNode(sh, nodes[1], q);
    assert r.ran == [true, true];
    assert nodes[1..] == [nodes[1], nodes[2]] && nodes[1..][1..] == [nodes[2]] && [nodes[2]][1..] == [];
    EmulateExtends(sh, [nodes[2]], r, NextShouldExecute(AND, r.rc));
    var s := Skipped(q);
    assert Posix(sh, nodes, p, None) == Posix(sh, nodes[1..], q, AND) == Posix(sh, [nodes[2]], s, AND);
    assert Posix(sh, [nodes[2]], s, AND) == Posix(sh, [], Skipped(s), None);
  }

  /** `a || b ; c` with `a` succeeding: the emulator never runs `c`. */
  lemma SucceededOrNeverResumes<W>(sh: Shell<W>, a: string, b: string, c: string, p: Progress<W>)
    requires sh.run(p.world, a).rc == 0 && |p.out + sh.run(p.world, a).out| <= sh.maxOutput && p.ran == []
    ensures Emulate(sh, [Command(a, OR), Command(b, SEMI), Command(c, None)], p, true).ran == [true, false, false]
    ensures Posix(sh, [Command(a, OR), Command(b, SEMI), Command(c, None)], p, None).ran == [true, false, true]
  {
    var nodes := [Command(a, OR), Command(b, SEMI), Command(c, None)];
    var q := RunNode(sh, nodes[0], p);
    assert !q.cut && q.rc == 0 && q.ran == [true];
    assert nodes[1..] == [nodes[1], nodes[2]] && nodes[1..][1..] == [nodes[2]] && [nodes[2]][1..] == [];
    var s := Skipped(q);
    assert Emulate(sh, nodes, p, true) == Emulate(sh, nodes[1..], q, false) == Emulate(sh, [nodes[2]], s, false);
    assert Emulate(sh, [nodes[2]], s, false) == Emulate(sh, [], Skipped(s), false);
    assert Posix(sh, nodes, p, None) == Posix(sh, nodes[1..], q, OR) == Posix(sh, [nodes[2]], s, SEMI);
    RunNodeRan(sh, nodes[2], s);
    var r := RunNode(sh, nodes[2], s);
    assert Posix(sh, [nodes[2]], s, SEMI) == if r.cut then r else Posix(sh, [], r, None);
  }

  /** Standard output never exceeds the configured size by more than the notice. */
  lemma {:induction false} OutputBounded<W>(sh: Shell<W>, nodes: seq<Command>, p: Progress<W>, should: bool)
    requires |p.out| <= sh.maxOutput
    ensures |Emulate(sh, nodes, p, should).out| <= sh.maxOutput + |NOTICE|
    ensures Emulate(sh, nodes, p, should).cut ==>
      p.cut || (Emulate(sh, nodes, p, should).rc == 1 && |Emulate(sh, nodes, p, should).out| == sh.maxOutput + |NOTICE|)
    decreases |nodes|
  {
    if nodes != [] {
      if !should && !ShouldSkipNode(nodes[0].op, p.rc) {
        OutputBounded(sh, nodes[1..], Skipped(p), false);
      } else {
        var q := RunNode(sh, nodes[0], p);
        if !q.cut { OutputBounded(sh, nodes[1..], q, NextShouldExecute(nodes[0].op, q.rc)); }
      }
    }
  }

  // ----- what a chain returns -----

  /** The replies to the nodes that were run, each in the world its predecessor left: a node
      ended by "&" is started in the background, any other runs as a pipeline. */
  function Replies<W>(sh: Shell<W>, nodes: seq<Command>, ran: seq<bool>, world: W): seq<Reply<W>>
    decreases |nodes|
  {
    if nodes == [] || ran == [] then []
    else if !ran[0] then Replies(sh, nodes[1..], ran[1..], world)
    else
      var r := if nodes[0].op == Some("&") then sh.launch(world, nodes[0].line) else sh.run(world, nodes[0].line);
      [r] + Replies(sh, nodes[1..], ran[1..], r.world)
  }

  function Outs<W>(rs: seq<Reply<W>>): string {
    if rs == [] then "" else rs[0].out + Outs(rs[1..])
  }

  function Errs<W>(rs: seq<Reply<W>>): string {
    if rs == [] then "" else rs[0].err + Errs(rs[1..])
  }

  lemma RepliesOfRun<W>(sh: Shell<W>, nodes: seq<Command>, p: Progress<W>, later: seq<bool>)
    requires nodes != []
    ensures
      var q := RunNode(sh, nodes[0], p);
      var rs := Replies(sh, nodes, [true] + later, p.world);
      && rs != [] && rs[0].world == q.world && rs[1..] == Replies(sh, nodes[1..], later, q.world)
      && Outs(rs) == rs[0].out + Outs(rs[1..]) && Errs(rs) == rs[0].err + Errs(rs[1..])
      && q.ran == p.ran + [true]
      && (q.cut <==> |p.out + rs[0].out| > sh.maxOutput)
      && (!q.cut ==> q.out == p.out + rs[0].out && q.err == p.err + rs[0].err && q.rc == rs[0].rc)
      && (q.cut ==>
            && q.out == (p.out + rs[0].out)[..sh.maxOutput] + "\n[output truncated]\n"
            && q.err == p.err + rs[0].err + "shell: maximum output size exceeded\n" && q.rc == 1)
  {
    assert ([true] + later)[1..] == later;
  }

  lemma RepliesOfSkip<W>(sh: Shell<W>, nodes: seq<Command>, world: W, later: seq<bool>)
    requires nodes != []
    ensures Replies(sh, nodes, [false] + later, world) == Replies(sh, nodes[1..], later, world)
  {
    assert ([false] + later)[1..] == later;
  }

  /** From any point of a chain on: the output, the errors, the status and the world are those
      of the replies to the nodes run from there, in order, up to the cut. */
  ghost predicate Returns<W>(sh: Shell<W>, nodes: seq<Command>, p: Progress<W>, q: Progress<W>) {
    && p.ran <= q.ran && |q.ran| <= |p.ran| + |nodes|
    && var rs := Replies(sh, nodes, q.ran[|p.ran|..], p.world);
    && q.world == (if rs == [] then p.world else rs[|rs| - 1].world)
    && (if q.cut then
          && rs != [] && q.rc == 1 && |p.out + Outs(rs)| > sh.maxOutput
          && q.out == (p.out + Outs(rs))[..sh.maxOutput] + "\n[output truncated]\n"
          && q.err == p.err + Errs(rs) + "shell: maximum output size exceeded\n"
        else
          && |q.ran| == |p.ran| + |nodes| && q.out == p.out + Outs(rs) && q.err == p.err + Errs(rs)
          && q.rc == (if rs == [] then p.rc else rs[|rs| - 1].rc))
  }

  lemma RanSplit(before: seq<bool>, b: bool, all: seq<bool>)
    requires before + [b] <= all
    ensures all[|before|..] == [b] + all[|before| + 1..]
  {
    assert all[|before|] == (before + [b])[|before|];
  }

  lemma ReturnsSkip<W>(sh: Shell<W>, nodes: seq<Command>, p: Progress<W>, q: Progress<W>)
    requires nodes != [] && Returns(sh, nodes[1..], Skipped(p), q)
    ensures Returns(sh, nodes, p, q)
  {
    hide Outs, Errs, Replies;
    RanSplit(p.ran, false, q.ran);
    RepliesOfSkip(sh, nodes, p.world, q.ran[|p.ran| + 1..]);
  }

  lemma ReturnsRun<W>(sh: Shell<W>, nodes: seq<Command>, p: Progress<W>, q: Progress<W>)
    requires nodes != [] && |p.out| <= sh.maxOutput
    requires
      var r := RunNode(sh, nodes[0], p);
      if r.cut then q == r else Returns(sh, nodes[1..], r, q)
    ensures Returns(sh, nodes, p, q)
  {
    hide Outs, Errs, Replies, RunNode;
    var r := RunNode(sh, nodes[0], p);
    RunNodeRan(sh, nodes[0], p);
    if r.cut {
      RepliesOfRun(sh, nodes, p, []);
      assert q.ran[|p.ran|..] == [true] + [];
      NoReplies(sh, nodes[1..], r.world);
    } else {
      var later := q.ran[|p.ran| + 1..];
      RanSplit(p.ran, true, q.ran);
      RepliesOfRun(sh, nodes, p, later);
      Joined(p, Replies(sh, nodes, [true] + later, p.world));
    }
  }

  lemma NoReplies<W>(sh: Shell<W>, nodes: seq<Command>, world: W)
    ensures Replies(sh, nodes, [], world) == [] && Outs<W>([]) == "" && Errs<W>([]) == ""
  {
  }

  lemma Joined<W>(p: Progress<W>, rs: seq<Reply<W>>)
    requires rs != []
    ensures p.out + rs[0].out + Outs(rs[1..]) == p.out + Outs(rs)
    ensures p.err + rs[0].err + Errs(rs[1..]) == p.err + Errs(rs)
  {
  }

  lemma {:induction false} EmulateReturns<W>(sh: Shell<W>, nodes: seq<Command>, p: Progress<W>, should: bool)
    requires !p.cut && |p.out| <= sh.maxOutput
    ensures Returns(sh, nodes, p, Emulate(sh, nodes, p, should))
    decreases |nodes|
  {
    hide RunNode, Returns;
    if nodes == [] {
      NothingReturned(sh, p);
    } else if !should && !ShouldSkipNode(nodes[0].op, p.rc) {
      EmulateReturns(sh, nodes[1..], Skipped(p), false);
      ReturnsSkip(sh, nodes, p, Emulate(sh, nodes, p, should));
    } else {
      var q := RunNode(sh, nodes[0], p);
      if !q.cut {
        RunNodeFits(sh, nodes[0], p);
        EmulateReturns(sh, nodes[1..], q, NextShouldExecute(nodes[0].op, q.rc));
      }
      ReturnsRun(sh, nodes, p, Emulate(sh, nodes, p, should));
    }
  }

  lemma RunNodeFits<W>(sh: Shell<W>, node: Command, p: Progress<W>)
    requires !RunNode(sh, node, p).cut
    ensures |RunNode(sh, node, p).out| <= sh.maxOutput
  {
  }

  lemma NothingReturned<W>(sh: Shell<W>, p: Progress<W>)
    requires !p.cut
    ensures Returns(sh, [], p, p)
  {
  }

  /** The output of a chain is the outputs of the nodes that were run, in order, each run in
      the world its predecessor left; so are the errors, and the status is the last one's. A
      chain that is cut returns the first characters of that output and the notice, status 1
      and the complaint. */
  lemma ChainReturns<W>(sh: Shell<W>, nodes: seq<Command>, world: W, should: bool)
    ensures
      var q := Emulate(sh, nodes, Progress(world, "", "", 0, [], false), should);
      var rs := Replies(sh, nodes, q.ran, world);
      && |q.ran| <= |nodes| && q.world == (if rs == [] then world else rs[|rs| - 1].world)
      && (q.cut <==> |Outs(rs)| > sh.maxOutput)
      && (!q.cut ==>
            && |q.ran| == |nodes| && q.out == Outs(rs) && q.err == Errs(rs)
            && q.rc == (if rs == [] then 0 else rs[|rs| - 1].rc))
      && (q.cut ==>
            && q.out == Outs(rs)[..sh.maxOutput] + "\n[output truncated]\n"
            && q.err == Errs(rs) + "shell: maximum output size exceeded\n" && q.rc == 1)
  {
    hide Emulate, Outs, Errs, Replies;
    var p := Progress(world, "", "", 0, [], false);
    var q := Emulate(sh, nodes, p, should);
    EmulateReturns(sh, nodes, p, should);
    UncutFits(sh, nodes, p, should);
    assert q.ran[0..] == q.ran;
    var rs := Replies(sh, nodes, q.ran, world);
    assert "" + Outs(rs) == Outs(rs) && "" + Errs(rs) == Errs(rs);
  }

  lemma {:induction false} UncutFits<W>(sh: Shell<W>, nodes: seq<Command>, p: Progress<W>, should: bool)
    requires !p.cut && |p.out| <= sh.maxOutput
    ensures !Emulate(sh, nodes, p, should).cut ==> |Emulate(sh, nodes, p, should).out| <= sh.maxOutput
    decreases |nodes|
  {
    hide RunNode;
    if nodes != [] {
      if !should && !ShouldSkipNode(nodes[0].op, p.rc) {
        UncutFits(sh, nodes[1..], Skipped(p), false);
      } else {
        var q := RunNode(sh, nodes[0], p);
        if !q.cut {
          RunNodeFits(sh, nodes[0], p);
          UncutFits(sh, nodes[1..], q, NextShouldExecute(nodes[0].op, q.rc));
        }
      }
    }
  }

  // ----- the emulator object -----

  class ShellEmulator<W> {
    const shell: Shell<W>
    const maxDepth: nat
    var world: W

    constructor (shell: Shell<W>, maxDepth: nat, world: W)
      ensures this.shell == shell && this.maxDepth == maxDepth && this.world == world
    {
      this.shell, this.maxDepth, this.world := shell, maxDepth, world;
    }

    function Begin(): Progress<W>
      reads this`world
    {
      Progress(world, "", "", 0, [], false)
    }

    method ExecuteNodes(nodes: seq<Command>) returns (out: string, err: string, rc: int, ghost ran: seq<bool>)
      modifies this`world
      ensures
        var p := Emulate(shell, nodes, old(Begin()), true);
        world == p.world && out == p.out && err == p.err && rc == p.rc && ran == p.ran
    {
      out, err, rc, ran := "", "", 0, [];
      var should := true;
      ghost var begin := Begin();
      var i := 0;
      while i < |nodes|
        invariant 0 <= i <= |nodes|
        invariant Emulate(shell, nodes, begin, true) ==
          Emulate(shell, nodes[i..], Progress(world, out, err, rc, ran, false), should)
      {
        ghost var now := Progress(world, out, err, rc, ran, false);
        var node := nodes[i];
        assert nodes[i..][0] == node && nodes[i..][1..] == nodes[i + 1..];
        i := i + 1;
        if !should {
          if ShouldSkipNode(node.op, rc) {
            should := true;
          } else {
            ran := ran + [false];
            continue;
          }
        }
        var reply := if node.op == Some("&") then shell.launch(world, node.line) else shell.run(world, node.line);
        world := reply.world;
        out, err, rc, ran := out + reply.out, err + reply.err, reply.rc, ran + [true];
        if |out| > shell.maxOutput {
          out := out[..shell.maxOutput] + NOTICE;
          err := err + CUT_ERROR;
          rc := 1;
          return;
        }
        should := NextShouldExecute(node.op, rc);
      }
    }

    /** A line goes to the command that waits for input, if one does. Otherwise a blank line
        does nothing, any other is recorded and expanded, and then a chain that is too long
        is refused unrun. */
    method Execute(line: string) returns (out: string, err: string, rc: int)
      modifies this`world
      ensures
        var answer := shell.answer(old(world), line);
        var recorded := shell.record(old(world), Strip(line));
        var nodes := ParseChain(shell.expand(recorded, line));
        if answer.Some? then
          world == answer.value.world && (out, err, rc) == (answer.value.out, answer.value.err, answer.value.rc)
        else if Strip(line) == "" then
          world == old(world) && (out, err, rc) == ("", "", 0)
        else if |nodes| > maxDepth then
          world == recorded && (out, err, rc) == ("", TOO_DEEP, 1)
        else
          var p := Emulate(shell, nodes, Progress(recorded, "", "", 0, [], false), true);
          world == p.world && (out, err, rc) == (p.out, p.err, p.rc)
    {
      var answer := shell.answer(world, line);
      if answer.Some? {
        world := answer.value.world;
        return answer.value.out, answer.value.err, answer.value.rc;
      }
      if Strip(line) == "" { return "", "", 0; }
      world := shell.record(world, Strip(line));
      var nodes := ParseChainLoop(shell.expand(world, line));
      if |nodes| > maxDepth {
        return "", TOO_DEEP, 1;
      }
      ghost var ran;
      out, err, rc, ran := ExecuteNodes(nodes);
    }
  }

  const TOO_DEEP: string := "shell: maximum command chain depth exceeded\n"
}
