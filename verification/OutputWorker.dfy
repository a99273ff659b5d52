/**
  The batching output worker: emitters, the worker thread and the stopping thread share a
  bounded queue and a flag. Each step below is one atomic action of one of them.
 */
module OutputWorker {

  /** An event is not looked into. */
  type Event = string

  /** Where the worker stands: about to test its loop condition, to take an event, to
      decide whether to flush, or out of the loop. */
  datatype Pc = Top | Getting | Deciding | Exited

  datatype Config = Config(batchSize: int, batchTimeout: real)

  /** `checked` are the events whose emitter has seen the flag set but not yet queued them;
      `accepted` and `flushed` are histories. */
  datatype Worker = Worker(
    running: bool,
    queue: seq<Event>,
    batch: seq<Event>,
    lastFlush: real,
    pc: Pc,
    checked: seq<Event>,
    accepted: seq<Event>,
    flushed: seq<Event>,
    done: nat)

  const CAPACITY: nat := 10000

  function Started(now: real): Worker {
    Worker(true, [], [], now, Top, [], [], [], 0)
  }

  datatype Step =
    | EmitCheck(event: Event)
    | EmitPut(index: nat)
    | Emit(whole: Event)
    | Stop
    | Test
    | Get
    | Decide(now: real)

  function Put(w: Worker, e: Event): Worker {
    if |w.queue| < CAPACITY then w.(queue := w.queue + [e], accepted := w.accepted + [e]) else w
  }

  predicate FlushDue(c: Config, w: Worker, now: real) {
    |w.batch| >= c.batchSize || now - w.lastFlush >= c.batchTimeout || (!w.running && w.queue == [])
  }

  function Flush(w: Worker, now: real): Worker {
    w.(flushed := w.flushed + w.batch, done := w.done + |w.batch|, batch := [], lastFlush := now)
  }

  /** A step that is not possible in a state leaves it as it is. */
  function Apply(c: Config, w: Worker, s: Step): Worker {
    match s
    case EmitCheck(e) => if w.running then w.(checked := w.checked + [e]) else w
    case EmitPut(i) =>
      if i < |w.checked| then Put(w.(checked := w.checked[..i] + w.checked[i + 1..]), w.checked[i]) else w
    case Emit(e) => if w.running then Put(w, e) else w
    case Stop => w.(running := false)
    case Test =>
      if !w.pc.Top? then w else w.(pc := if w.running || w.queue != [] then Getting else Exited)
    case Get =>
      if !w.pc.Getting? then w
      else if w.queue == [] then w.(pc := Deciding)
      else w.(queue := w.queue[1..], batch := w.batch + [w.queue[0]], pc := Deciding)
    case Decide(now) =>
      if !w.pc.Deciding? then w
      else if w.batch != [] && FlushDue(c, w, now) then Flush(w, now).(pc := Top)
      else w.(pc := Top)
  }

  function Run(c: Config, w: Worker, steps: seq<Step>): Worker
    decreases |steps|
  {
    if steps == [] then w else Run(c, Apply(c, w, steps[0]), steps[1..])
  }

  /** The clock readings never go back. */
  ghost predicate Monotone(start: real, steps: seq<Step>) {
    && (forall i :: 0 <= i < |steps| && steps[i].Decide? ==> start <= steps[i].now)
    && (forall i, j :: 0 <= i < j < |steps| && steps[i].Decide? && steps[j].Decide? ==> steps[i].now <= steps[j].now)
  }

  function AtLeastOne(n: int): int {
    if n < 1 then 1 else n
  }

  ghost predicate Inv(c: Config, w: Worker) {
    && w.accepted == w.flushed + w.batch + w.queue
    && w.done == |w.flushed|
    && (w.pc.Deciding? ==> |w.batch| <= AtLeastOne(c.batchSize))
    && (!w.pc.Deciding? ==> |w.batch| < AtLeastOne(c.batchSize))
  }

  lemma ApplyInv(c: Config, w: Worker, s: Step)
    requires Inv(c, w)
    ensures Inv(c, Apply(c, w, s))
  {
  }

  /** Over every interleaving: accepted events are the flushed ones, the batch and the queue
      in order; each flushed event has been marked done once; between iterations fewer than
      the batch size are held. */
  lemma {:induction false} RunInv(c: Config, w: Worker, steps: seq<Step>)
    requires Inv(c, w)
    ensures Inv(c, Run(c, w, steps))
    decreases |steps|
  {
    hide Inv, Apply;
    if steps != [] {
      ApplyInv(c, w, steps[0]);
      RunInv(c, Apply(c, w, steps[0]), steps[1..]);
    }
  }

  /** Emitting is one action: nobody sits between the test of the flag and the queue. */
  ghost predicate Atomic(steps: seq<Step>) {
    forall i :: 0 <= i < |steps| ==> !steps[i].EmitCheck?
  }

  /** Once the worker has left its loop, the flag is down and the queue empty for good. */
  ghost predicate Closed(w: Worker) {
    w.checked == [] && (w.pc.Exited? ==> !w.running && w.queue == [])
  }

  lemma {:induction false} AtomicRunCloses(c: Config, w: Worker, steps: seq<Step>)
    requires Closed(w) && Atomic(steps)
    ensures Closed(Run(c, w, steps))
    decreases |steps|
  {
    if steps != [] {
      assert !steps[0].EmitCheck?;
      assert forall i :: 0 <= i < |steps[1..]| ==> steps[1..][i] == steps[i + 1];
      AtomicRunCloses(c, Apply(c, w, steps[0]), steps[1..]);
    }
  }

  /** With a timeout of zero or less nothing is held between iterations. */
  lemma {:induction false} ZeroTimeoutHoldsNothing(c: Config, w: Worker, was: real, steps: seq<Step>)
    requires c.batchTimeout <= 0.0 && Monotone(was, steps)
    requires w.lastFlush <= was && (!w.pc.Deciding? ==> w.batch == [])
    ensures !Run(c, w, steps).pc.Deciding? ==> Run(c, w, steps).batch == []
    decreases |steps|
  {
    if steps != [] {
      var s, rest := steps[0], steps[1..];
      assert forall i :: 0 <= i < |rest| ==> rest[i] == steps[i + 1];
      ZeroTimeoutHoldsNothing(c, Apply(c, w, s), if s.Decide? then s.now else was, rest);
    }
  }

  /** An atomic run in which the worker has left its loop with an accepted event unflushed. */
  ghost predicate Loses(c: Config, start: real, steps: seq<Step>) {
    && Atomic(steps) && Monotone(start, steps)
    && var w := Run(c, Started(start), steps);
    w.pc.Exited? && w.accepted != w.flushed
  }

  /** With atomic emission, and a batch size of at most one or no positive timeout, nothing
      accepted is unflushed when, and after, the worker leaves its loop. */
  lemma NothingLost(c: Config, start: real, steps: seq<Step>)
    requires c.batchSize <= 1 || c.batchTimeout <= 0.0
    requires Atomic(steps) && Monotone(start, steps)
    ensures
      var w := Run(c, Started(start), steps);
      w.pc.Exited? ==> w.accepted == w.flushed && w.done == |w.accepted|
  {
    RunInv(c, Started(start), steps);
    AtomicRunCloses(c, Started(start), steps);
    if c.batchTimeout <= 0.0 { ZeroTimeoutHoldsNothing(c, Started(start), start, steps); }
    var w := Run(c, Started(start), steps);
    if w.pc.Exited? {
      assert w.batch == [] && w.queue == [];
      assert w.flushed + [] + [] == w.flushed;
    }
  }

  /** Otherwise a batch can be abandoned: an event is taken, no flush is due, the plugin
      stops, and the loop ends. */
  lemma LargerBatchLoses(c: Config, start: real)
    requires c.batchSize > 1 && c.batchTimeout > 0.0
    ensures Loses(c, start, [Emit("e"), Test, Get, Decide(start), Stop, Test])
  {
    HeldAfter(c, start);
    hide Run, Apply, Atomic, Monotone;
    Abandoning(start);
    AbandoningRun(c, Started(start), start);
  }

  lemma Abandoning(start: real)
    ensures
      var steps := [Emit("e"), Test, Get, Decide(start), Stop, Test];
      Atomic(steps) && Monotone(start, steps)
  {
  }

  lemma AbandoningRun(c: Config, w: Worker, start: real)
    ensures Run(c, w, [Emit("e"), Test, Get, Decide(start), Stop, Test]) ==
      Apply(c, Apply(c, Apply(c, Apply(c, Apply(c, Apply(c, w, Emit("e")), Test), Get), Decide(start)), Stop), Test)
  {
    hide Run, Apply;
    var s2, s4 := [Decide(start), Stop, Test], [Stop, Test];
    var w2 := Apply(c, Apply(c, Apply(c, w, Emit("e")), Test), Get);
    RunStep(c, w, Emit("e"), [Test, Get] + s2);
    RunStep(c, Apply(c, w, Emit("e")), Test, [Get] + s2);
    RunStep(c, Apply(c, Apply(c, w, Emit("e")), Test), Get, s2);
    RunStep(c, w2, Decide(start), s4);
    RunStep(c, Apply(c, w2, Decide(start)), Stop, [Test]);
    RunStep(c, Apply(c, Apply(c, w2, Decide(start)), Stop), Test, []);
    RunNothing(c, Apply(c, Apply(c, Apply(c, w2, Decide(start)), Stop), Test));
    assert [Emit("e"), Test, Get, Decide(start), Stop, Test] == [Emit("e")] + ([Test, Get] + s2);
    assert [Test, Get] + s2 == [Test] + ([Get] + s2) && s2 == [Decide(start)] + s4 && s4 == [Stop] + [Test];
    assert [Test] == [Test] + [];
  }

  lemma HeldAfter(c: Config, start: real)
    requires c.batchSize > 1 && c.batchTimeout > 0.0
    ensures
      var w := Apply(c, Apply(c, Apply(c, Apply(c, Started(start), Emit("e")), Test), Get), Decide(start));
      var v := Apply(c, Apply(c, w, Stop), Test);
      v.pc.Exited? && v.accepted == ["e"] && v.flushed == []
  {
  }

  lemma RunStep(c: Config, w: Worker, s: Step, rest: seq<Step>)
    ensures Run(c, w, [s] + rest) == Run(c, Apply(c, w, s), rest)
  {
    assert ([s] + rest)[1..] == rest;
  }

  lemma RunNothing(c: Config, w: Worker)
    ensures Run(c, w, []) == w
  {
  }

  /** Events can be lost at the end of an atomic run exactly when the batch size exceeds one
      and the timeout is positive. */
  lemma LossIff(c: Config)
    ensures (exists start, steps :: Loses(c, start, steps)) <==> c.batchSize > 1 && c.batchTimeout > 0.0
  {
    if c.batchSize > 1 && c.batchTimeout > 0.0 {
      LargerBatchLoses(c, 0.0);
    } else {
      forall start, steps ensures !Loses(c, start, steps) {
        if Atomic(steps) && Monotone(start, steps) { NothingLost(c, start, steps); }
      }
    }
  }

  lemma {:induction false} RunAppend(c: Config, w: Worker, a: seq<Step>, b: seq<Step>)
    ensures Run(c, w, a + b) == Run(c, Run(c, w, a), b)
    decreases |a|
  {
    hide Apply;
    if a == [] {
      assert a + b == b;
    } else {
      assert (a + b)[1..] == a[1..] + b;
      RunAppend(c, Apply(c, w, a[0]), a[1..], b);
    }
  }

  /** How many steps come before the first stop; all of them when there is none. */
  function FirstStop(steps: seq<Step>): (k: nat)
    ensures k <= |steps| && (k < |steps| ==> steps[k] == Stop)
    ensures forall j :: 0 <= j < k ==> !steps[j].Stop?
  {
    if steps == [] || steps[0].Stop? then 0 else 1 + FirstStop(steps[1..])
  }

  /** The worker is about to test its condition, with an unfinished batch and nothing queued. */
  predicate HoldsOnly(w: Worker) {
    w.pc.Top? && w.queue == [] && w.batch != []
  }

  lemma {:induction false} RunningStays(c: Config, w: Worker, steps: seq<Step>)
    requires w.running && !w.pc.Exited? && w.checked == [] && Atomic(steps) && forall j :: 0 <= j < |steps| ==> !steps[j].Stop?
    ensures
      var v := Run(c, w, steps);
      v.running && !v.pc.Exited? && v.checked == []
    decreases |steps|
  {
    if steps != [] {
      assert !steps[0].Stop? && !steps[0].EmitCheck?;
      assert forall i :: 0 <= i < |steps[1..]| ==> steps[1..][i] == steps[i + 1];
      RunningStays(c, Apply(c, w, steps[0]), steps[1..]);
    }
  }

  /** Stopped with something queued, on its way, or nothing held: all of it is flushed. */
  ghost predicate Safe(w: Worker) {
    && !w.running && w.checked == []
    && (w.pc.Top? ==> w.batch == [] || w.queue != [])
    && (w.pc.Exited? ==> w.batch == [] && w.queue == [])
  }

  lemma {:induction false} SafeStays(c: Config, w: Worker, steps: seq<Step>)
    requires Safe(w) && Atomic(steps)
    ensures Safe(Run(c, w, steps))
    decreases |steps|
  {
    if steps != [] {
      assert !steps[0].EmitCheck?;
      assert forall i :: 0 <= i < |steps[1..]| ==> steps[1..][i] == steps[i + 1];
      SafeStays(c, Apply(c, w, steps[0]), steps[1..]);
    }
  }

  /** Stopped with only an unfinished batch, the worker leaves without it. */
  lemma {:induction false} HeldStays(c: Config, w: Worker, steps: seq<Step>)
    requires !w.running && w.checked == [] && w.queue == [] && w.batch != [] && (w.pc.Top? || w.pc.Exited?)
    requires Atomic(steps)
    ensures Run(c, w, steps).batch == w.batch
    decreases |steps|
  {
    if steps != [] {
      assert !steps[0].EmitCheck?;
      assert forall i :: 0 <= i < |steps[1..]| ==> steps[1..][i] == steps[i + 1];
      HeldStays(c, Apply(c, w, steps[0]), steps[1..]);
    }
  }

  /** In every atomic run that has left the loop, an accepted event is unflushed exactly when
      at the first stop the worker was about to test its condition with nothing queued and an
      unfinished batch. So an event that is still queued when the plugin stops is flushed. */
  lemma LostIff(c: Config, start: real, steps: seq<Step>)
    requires Atomic(steps) && Run(c, Started(start), steps).pc.Exited?
    ensures
      var k, w := FirstStop(steps), Run(c, Started(start), steps);
      && k < |steps|
      && (w.accepted != w.flushed <==> HoldsOnly(Run(c, Started(start), steps[..k])))
  {
    hide Run, Apply;
    var k, w := FirstStop(steps), Run(c, Started(start), steps);
    var before, after := steps[..k], steps[k..];
    assert steps == before + after;
    assert forall i :: 0 <= i < |before| ==> before[i] == steps[i];
    RunningStays(c, Started(start), before);
    var v := Run(c, Started(start), before);
    RunAppend(c, Started(start), before, after);
    RunNothing(c, v);
    assert after != [];
    var rest := after[1..];
    assert forall i :: 0 <= i < |rest| ==> rest[i] == steps[k + 1 + i];
    var stopped := v.(running := false);
    RunStop(c, v, after);
    RunInv(c, Started(start), steps);
    StartInv(c, start);
    AtomicRunCloses(c, Started(start), steps);
    if HoldsOnly(v) {
      HeldStays(c, stopped, rest);
    } else {
      SafeStays(c, stopped, rest);
    }
    UnflushedIff(c, w);
  }

  lemma RunStop(c: Config, w: Worker, steps: seq<Step>)
    requires steps != [] && steps[0].Stop?
    ensures Run(c, w, steps) == Run(c, w.(running := false), steps[1..])
  {
  }

  lemma StartInv(c: Config, start: real)
    ensures Inv(c, Started(start)) && Closed(Started(start))
  {
  }

  lemma UnflushedIff(c: Config, w: Worker)
    requires Inv(c, w) && w.queue == []
    ensures w.accepted != w.flushed <==> w.batch != []
  {
    assert w.flushed + w.batch + [] == w.flushed + w.batch;
    assert |w.flushed + w.batch| == |w.flushed| + |w.batch|;
  }

  /** Once the timeout since the last flush has passed, a decision leaves nothing held, and
      what was held is flushed. */
  lemma TimedOutFlushes(c: Config, w: Worker, now: real)
    requires w.pc.Deciding? && now - w.lastFlush >= c.batchTimeout
    ensures
      var v := Apply(c, w, Decide(now));
      v.batch == [] && v.flushed == w.flushed + w.batch && v.queue == w.queue
  {
  }

  /** What is held is flushed at a decision exactly when it fills a batch, the timeout since
      the last flush has passed, or the plugin has stopped with nothing queued; the flush is
      then the last one, and otherwise all stays as it is. */
  lemma DecisionExact(c: Config, w: Worker, now: real)
    requires w.pc.Deciding?
    ensures
      var v := Apply(c, w, Decide(now));
      var due := |w.batch| >= c.batchSize || now - w.lastFlush >= c.batchTimeout || (!w.running && w.queue == []);
      && v.pc.Top? && v.queue == w.queue && v.accepted == w.accepted && v.running == w.running
      && (if w.batch != [] && due then v.batch == [] && v.flushed == w.flushed + w.batch && v.lastFlush == now
          else v.batch == w.batch && v.flushed == w.flushed && v.lastFlush == w.lastFlush)
  {
  }

  /** A running worker with nothing queued still flushes what it holds once the timeout has
      passed. */
  lemma IdleFlushes(c: Config, w: Worker, now: real)
    requires w.pc.Top? && w.running && w.queue == [] && w.batch != [] && now - w.lastFlush >= c.batchTimeout
    ensures
      var v := Apply(c, Apply(c, Apply(c, w, Test), Get), Decide(now));
      v.pc.Top? && v.batch == [] && v.flushed == w.flushed + w.batch
  {
  }

  /** An emitter between its test and the queue offers its event once, running or not. */
  lemma OfferedOnce(c: Config, w: Worker, i: nat)
    requires i < |w.checked|
    ensures
      var v := Apply(c, w, EmitPut(i));
      && |v.checked| == |w.checked| - 1
      && (forall j :: 0 <= j < |v.checked| ==> v.checked[j] == if j < i then w.checked[j] else w.checked[j + 1])
      && v.accepted == (if |w.queue| < 10000 then w.accepted + [w.checked[i]] else w.accepted)
  {
  }

  /** An event offered in one action is accepted exactly when the plugin runs and fewer than
      10000 events are queued, and the queue never holds more. */
  lemma {:induction false} AcceptedIff(c: Config, start: real, steps: seq<Step>, e: Event)
    ensures
      var w := Run(c, Started(start), steps);
      && |w.queue| <= 10000
      && Apply(c, w, Emit(e)).accepted == if w.running && |w.queue| < 10000 then w.accepted + [e] else w.accepted
  {
    QueueBounded(c, Started(start), steps);
  }

  lemma {:induction false} QueueBounded(c: Config, w: Worker, steps: seq<Step>)
    requires |w.queue| <= 10000
    ensures |Run(c, w, steps).queue| <= 10000
    decreases |steps|
  {
    if steps != [] { QueueBounded(c, Apply(c, w, steps[0]), steps[1..]); }
  }

  /** An emitter between its test and the queue loses its event whatever the settings. */
  lemma SplitEmitLoses(c: Config, start: real)
    ensures
      var w := Run(c, Started(start), [EmitCheck("e"), Stop, Test, EmitPut(0)]);
      w.pc.Exited? && w.accepted == ["e"] && w.flushed == []
  {
  }

  // ----- the plugin object -----

  class OutputPlugin {
    const config: Config
    var running: bool
    var queue: seq<Event>
    var batch: seq<Event>
    var lastFlush: real
    var flushed: seq<Event>
    var done: nat
    ghost var accepted: seq<Event>

    ghost function State(pc: Pc): Worker
      reads this
    {
      Worker(running, queue, batch, lastFlush, pc, [], accepted, flushed, done)
    }

    /** Built and started, the worker beginning at `now`. */
    constructor (config: Config, now: real)
      ensures this.config == config && State(Top) == Started(now)
    {
      this.config, lastFlush := config, now;
      running, queue, batch, flushed, done, accepted := true, [], [], [], 0, [];
    }

    method EmitEvent(event: Event)
      modifies this
      ensures forall pc :: State(pc) == Apply(config, old(State(pc)), Emit(event))
    {
      if !running { return; }
      if |queue| < CAPACITY {
        queue := queue + [event];
        accepted := accepted + [event];
      }
    }

    method StopPlugin()
      modifies this`running
      ensures forall pc :: State(pc) == Apply(config, old(State(pc)), Stop)
    {
      running := false;
    }

    /** One turn of the worker's loop, undisturbed; `go` is false when it leaves the loop. */
    method WorkerTurn(now: real) returns (go: bool)
      modifies this
      ensures go ==>
        State(Top) ==
          Apply(config, Apply(config, Apply(config, old(State(Top)), Test), Get), Decide(now))
      ensures !go ==> State(Exited) == Apply(config, old(State(Top)), Test)
    {
      go := running || queue != [];
      if !go { return; }
      if queue != [] {
        batch := batch + [queue[0]];
        queue := queue[1..];
      }
      if batch == [] { return; }
      if |batch| >= config.batchSize || now - lastFlush >= config.batchTimeout || (!running && queue == []) {
        flushed := flushed + batch;
        var i := 0;
        ghost var before := done;
        while i < |batch|
          invariant 0 <= i <= |batch| && done == before + i
          modifies this`done
        {
          done := done + 1;
          i := i + 1;
        }
        batch := [];
        lastFlush := now;
      }
    }
  }
}
