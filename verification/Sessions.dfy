/**
  Session admission: the connection counts and their limits, the sliding-window rate
  limiter and its bans. Time is an input that never decreases.
 */
module Sessions {
  import opened Options
  import opened Text

  datatype Config = Config(maxSessions: int, maxPerIp: int, maxPerMinute: int, banDuration: real)

  datatype Manager = Manager(
    active: int,
    perIp: map<string, int>,
    sessions: map<string, string>,
    banned: map<string, real>,
    history: map<string, seq<real>>)

  datatype Verdict = Accepted | IpBanned | RateLimited | GlobalLimit | PerIpLimit

  const FRESH: Manager := Manager(0, map[], map[], map[], map[])

  function Count(m: Manager, ip: string): int {
    if ip in m.perIp then m.perIp[ip] else 0
  }

  function History(m: Manager, ip: string): seq<real> {
    if ip in m.history then m.history[ip] else []
  }

  /** The attempts less than a minute old. */
  function Recent(times: seq<real>, now: real): (r: seq<real>)
    ensures forall t :: t in r ==> t in times && now - t < 60.0
  {
    if times == [] then []
    else if now - times[0] < 60.0 then [times[0]] + Recent(times[1..], now)
    else Recent(times[1..], now)
  }

  function CanAccept(c: Config, m: Manager, ip: string, now: real): (Manager, Verdict) {
    if ip in m.banned && now < m.banned[ip] then (m, IpBanned)
    else
      var recent := Recent(History(m, ip), now);
      var n := m.(banned := m.banned - {ip}, history := m.history[ip := recent]);
      if |recent| >= c.maxPerMinute then
        (n.(banned := n.banned[ip := now + c.banDuration]), RateLimited)
      else
        var passed := n.(history := n.history[ip := recent + [now]]);
        (passed,
         if m.active >= c.maxSessions then GlobalLimit
         else if Count(m, ip) >= c.maxPerIp then PerIpLimit
         else Accepted)
  }

  /** The verdict was not the rate limiter's. */
  predicate Passes(v: Verdict) {
    !v.IpBanned? && !v.RateLimited?
  }

  function Register(m: Manager, ip: string, id: string): Manager {
    m.(active := m.active + 1, perIp := m.perIp[ip := Count(m, ip) + 1], sessions := m.sessions[id := ip])
  }

  function Max(a: int, b: int): int {
    if a >= b then a else b
  }

  function Unregister(m: Manager, id: string): Manager {
    if id !in m.sessions then m
    else
      var ip := m.sessions[id];
      var n := m.(sessions := m.sessions - {id}, active := Max(0, m.active - 1));
      if ip !in m.perIp then n
      else
        var left := Max(0, m.perIp[ip] - 1);
        n.(perIp := if left == 0 then m.perIp - {ip} else m.perIp[ip := left])
  }

  function Ban(m: Manager, ip: string, now: real, duration: real): Manager {
    m.(banned := m.banned[ip := now + duration])
  }

  /** A connection is checked and, if accepted, registered, in one step. */
  function Connect(c: Config, m: Manager, ip: string, id: string, now: real): Manager {
    var (n, v) := CanAccept(c, m, ip, now);
    if v.Accepted? then Register(n, ip, id) else n
  }

  // ----- the counts -----

  function SessionsOf(m: Manager, ip: string): set<string> {
    set s | s in m.sessions && m.sessions[s] == ip
  }

  /** Every counter equals the number of sessions it counts, and none is kept at zero. */
  ghost predicate Counted(m: Manager) {
    && m.active == |m.sessions|
    && (forall ip :: Count(m, ip) == |SessionsOf(m, ip)|)
    && (forall ip :: ip in m.perIp ==> m.perIp[ip] > 0)
  }

  ghost predicate WithinLimits(c: Config, m: Manager) {
    && m.active <= Max(0, c.maxSessions)
    && (forall ip :: ip in m.perIp ==> m.perIp[ip] <= c.maxPerIp)
  }

  lemma SessionsKeysSize(m: Manager)
    ensures |m.sessions| == |m.sessions.Keys|
  {
  }

  lemma RegisterFresh(m: Manager, ip: string, id: string)
    requires Counted(m) && id !in m.sessions
    ensures Counted(Register(m, ip, id))
  {
    var n := Register(m, ip, id);
    forall i ensures Count(n, i) == |SessionsOf(n, i)| {
      RegisterOne(m, ip, id, i);
    }
    assert n.sessions.Keys == m.sessions.Keys + {id};
    SessionsKeysSize(m);
    SessionsKeysSize(n);
    assert Count(m, ip) == |SessionsOf(m, ip)|;
  }

  lemma RegisterOne(m: Manager, ip: string, id: string, i: string)
    requires id !in m.sessions && Count(m, i) == |SessionsOf(m, i)|
    ensures Count(Register(m, ip, id), i) == |SessionsOf(Register(m, ip, id), i)|
  {
    var n := Register(m, ip, id);
    if i == ip {
      assert SessionsOf(n, i) == SessionsOf(m, i) + {id};
    } else {
      assert SessionsOf(n, i) == SessionsOf(m, i);
    }
  }

  /** Registering keeps the counts right exactly when the session id is not in use. */
  lemma RegisterCountedIff(m: Manager, ip: string, id: string)
    requires Counted(m)
    ensures Counted(Register(m, ip, id)) <==> id !in m.sessions
  {
    if id in m.sessions {
      var n := Register(m, ip, id);
      assert n.sessions.Keys == m.sessions.Keys;
      SessionsKeysSize(m);
      SessionsKeysSize(n);
    } else {
      RegisterFresh(m, ip, id);
    }
  }

  /** Unregistering, repeated or unknown ids included, keeps the counts right, and the
      clamps at zero never act. */
  lemma UnregisterCounted(m: Manager, id: string)
    requires Counted(m)
    ensures Counted(Unregister(m, id))
    ensures id in m.sessions ==> m.active >= 1 && m.sessions[id] in m.perIp && m.perIp[m.sessions[id]] >= 1
    ensures Unregister(m, id).sessions == m.sessions - {id}
  {
    if id in m.sessions {
      var ip := m.sessions[id];
      var n := Unregister(m, id);
      assert id in SessionsOf(m, ip);
      assert Count(m, ip) == |SessionsOf(m, ip)|;
      assert n.sessions.Keys == m.sessions.Keys - {id};
      assert |n.sessions| == |n.sessions.Keys| == |m.sessions.Keys| - 1;
      forall i ensures Count(n, i) == |SessionsOf(n, i)| {
        assert Count(m, i) == |SessionsOf(m, i)|;
        if i == ip {
          assert SessionsOf(n, i) == SessionsOf(m, i) - {id};
        } else {
          assert SessionsOf(n, i) == SessionsOf(m, i);
        }
      }
    }
  }

  lemma SameCounts(m: Manager, n: Manager)
    requires m.active == n.active && m.perIp == n.perIp && m.sessions == n.sessions
    ensures Counted(m) <==> Counted(n)
  {
    forall ip ensures Count(m, ip) == Count(n, ip) && SessionsOf(m, ip) == SessionsOf(n, ip) {
    }
  }

  lemma AcceptKeepsCounts(c: Config, m: Manager, ip: string, now: real)
    ensures
      var (n, v) := CanAccept(c, m, ip, now);
      && n.active == m.active && n.perIp == m.perIp && n.sessions == m.sessions
      && (v.Accepted? ==> m.active < c.maxSessions && Count(m, ip) < c.maxPerIp)
  {
  }

  lemma ConnectCounted(c: Config, m: Manager, ip: string, id: string, now: real)
    requires Counted(m) && WithinLimits(c, m) && id !in m.sessions
    ensures Counted(Connect(c, m, ip, id, now)) && WithinLimits(c, Connect(c, m, ip, id, now))
    ensures Connect(c, m, ip, id, now).sessions ==
      if CanAccept(c, m, ip, now).1.Accepted? then m.sessions[id := ip] else m.sessions
  {
    hide CanAccept, Counted;
    var (n, v) := CanAccept(c, m, ip, now);
    AcceptKeepsCounts(c, m, ip, now);
    SameCounts(m, n);
    if v.Accepted? {
      RegisterCountedIff(n, ip, id);
    }
  }

  // ----- runs -----

  datatype Step =
    | ConnectStep(ip: string, id: string)
    | DisconnectStep(id: string)
    | BanStep(ip: string, duration: real)

  datatype Timed = Timed(now: real, step: Step)

  /** The manager and the log of attempts that passed the rate limiter. */
  datatype Trace = Trace(m: Manager, passed: seq<(string, real)>)

  function Apply(c: Config, t: Trace, s: Timed): Trace {
    match s.step
    case ConnectStep(ip, id) =>
      Trace(Connect(c, t.m, ip, id, s.now),
            if Passes(CanAccept(c, t.m, ip, s.now).1) then t.passed + [(ip, s.now)] else t.passed)
    case DisconnectStep(id) => t.(m := Unregister(t.m, id))
    case BanStep(ip, duration) => t.(m := Ban(t.m, ip, s.now, duration))
  }

  function Run(c: Config, t: Trace, steps: seq<Timed>): Trace
    decreases |steps|
  {
    if steps == [] then t else Run(c, Apply(c, t, steps[0]), steps[1..])
  }

  ghost predicate Monotone(start: real, steps: seq<Timed>)
    decreases |steps|
  {
    steps == [] || (start <= steps[0].now && Monotone(steps[0].now, steps[1..]))
  }

  /** Every connection brings a session id that is not in use. */
  ghost predicate FreshIds(c: Config, t: Trace, steps: seq<Timed>)
    decreases |steps|
  {
    steps == [] ||
    ((steps[0].step.ConnectStep? ==> steps[0].step.id !in t.m.sessions) &&
     FreshIds(c, Apply(c, t, steps[0]), steps[1..]))
  }

  /** With fresh session ids, in every run the counters are exact and both limits hold. */
  lemma {:induction false} RunsStayWithinLimits(c: Config, t: Trace, steps: seq<Timed>)
    requires Counted(t.m) && WithinLimits(c, t.m) && FreshIds(c, t, steps)
    ensures Counted(Run(c, t, steps).m) && WithinLimits(c, Run(c, t, steps).m)
    decreases |steps|
  {
    hide Connect, Counted, WithinLimits, CanAccept;
    if steps != [] {
      var s := steps[0];
      match s.step {
        case ConnectStep(ip, id) => ConnectCounted(c, t.m, ip, id, s.now);
        case DisconnectStep(id) => UnregisterCounted(t.m, id); UnregisterWithin(c, t.m, id);
        case BanStep(ip, duration) => BanCounted(c, t.m, ip, s.now, duration);
      }
      RunsStayWithinLimits(c, Apply(c, t, s), steps[1..]);
    }
  }

  lemma UnregisterWithin(c: Config, m: Manager, id: string)
    requires Counted(m) && WithinLimits(c, m)
    ensures WithinLimits(c, Unregister(m, id))
  {
  }

  lemma BanCounted(c: Config, m: Manager, ip: string, now: real, duration: real)
    requires Counted(m) && WithinLimits(c, m)
    ensures Counted(Ban(m, ip, now, duration)) && WithinLimits(c, Ban(m, ip, now, duration))
  {
    SameCounts(m, Ban(m, ip, now, duration));
  }

  // ----- the rate limiter -----

  /** The times at which one address passed. */
  function Times(passed: seq<(string, real)>, ip: string): seq<real> {
    if passed == [] then []
    else
      var last := passed[|passed| - 1];
      var before := Times(passed[..|passed| - 1], ip);
      if last.0 == ip then before + [last.1] else before
  }

  ghost predicate Ordered(p: seq<real>) {
    forall i, j :: 0 <= i < j < |p| ==> p[i] <= p[j]
  }

  /** Passing attempts `limit` apart in the log are a minute apart in time. */
  ghost predicate Spaced(p: seq<real>, limit: int) {
    && (limit <= 0 ==> p == [])
    && (limit > 0 ==> forall i, j :: 0 <= i && i + limit <= j < |p| ==> p[i] + 60.0 <= p[j])
  }

  /** What the limiter remembers of one address: the tail of its passing times, all dropped
      ones at least a minute old. */
  ghost predicate Remembers(c: Config, h: seq<real>, p: seq<real>, now: real) {
    && Ordered(p) && Spaced(p, c.maxPerMinute)
    && (forall i :: 0 <= i < |p| ==> p[i] <= now)
    && |h| <= |p| && h == p[|p| - |h|..]
    && (forall i :: 0 <= i < |p| - |h| ==> p[i] + 60.0 <= now)
  }

  lemma {:induction false} RecentIsTail(h: seq<real>, now: real)
    requires Ordered(h)
    ensures |Recent(h, now)| <= |h|
    ensures Recent(h, now) == h[|h| - |Recent(h, now)|..]
    ensures forall i :: 0 <= i < |h| - |Recent(h, now)| ==> h[i] + 60.0 <= now
  {
    if h != [] {
      RecentIsTail(h[1..], now);
      if now - h[0] < 60.0 {
        RecentAll(h, now);
      }
    }
  }

  lemma {:induction false} RecentAll(h: seq<real>, now: real)
    requires Ordered(h) && (h != [] ==> now - h[0] < 60.0)
    ensures Recent(h, now) == h
  {
    if h != [] { RecentAll(h[1..], now); }
  }

  lemma PruneRemembers(c: Config, h: seq<real>, p: seq<real>, was: real, now: real)
    requires Remembers(c, h, p, was) && was <= now
    ensures Remembers(c, Recent(h, now), p, now)
  {
    RecentIsTail(h, now);
    var r, k := Recent(h, now), |p| - |h|;
    assert forall i :: 0 <= i < |h| ==> h[i] == p[k + i];
    forall i | 0 <= i < |p| - |r| ensures p[i] + 60.0 <= now {
      if i >= k { assert p[i] == h[i - k]; }
    }
    assert r == p[|p| - |r|..];
  }

  lemma PassRemembers(c: Config, r: seq<real>, p: seq<real>, now: real)
    requires Remembers(c, r, p, now) && |r| < c.maxPerMinute
    ensures Remembers(c, r + [now], p + [now], now)
  {
  }

  /** Every address's history is what the limiter should remember of it. */
  ghost predicate AllRemembered(c: Config, t: Trace, now: real) {
    forall ip :: Remembers(c, History(t.m, ip), Times(t.passed, ip), now)
  }

  lemma TimesAppend(passed: seq<(string, real)>, ip: string, now: real, q: string)
    ensures Times(passed + [(ip, now)], q) == if q == ip then Times(passed, q) + [now] else Times(passed, q)
  {
  }

  lemma LaterRemembers(c: Config, h: seq<real>, p: seq<real>, was: real, now: real)
    requires Remembers(c, h, p, was) && was <= now
    ensures Remembers(c, h, p, now)
  {
  }

  lemma AcceptHistory(c: Config, m: Manager, ip: string, now: real, q: string)
    ensures
      var (n, v) := CanAccept(c, m, ip, now);
      var recent := Recent(History(m, ip), now);
      && History(n, q) ==
         (if q != ip || v.IpBanned? then History(m, q) else if v.RateLimited? then recent else recent + [now])
      && (Passes(v) ==> |recent| < c.maxPerMinute)
  {
  }

  lemma ApplyRemembers(c: Config, t: Trace, was: real, s: Timed)
    requires AllRemembered(c, t, was) && was <= s.now
    ensures AllRemembered(c, Apply(c, t, s), s.now)
  {
    hide CanAccept, Remembers, Recent, Times;
    var u := Apply(c, t, s);
    forall q ensures Remembers(c, History(u.m, q), Times(u.passed, q), s.now) {
      assert Remembers(c, History(t.m, q), Times(t.passed, q), was);
      LaterRemembers(c, History(t.m, q), Times(t.passed, q), was, s.now);
      if s.step.ConnectStep? {
        var ip := s.step.ip;
        AcceptHistory(c, t.m, ip, s.now, q);
        TimesAppend(t.passed, ip, s.now, q);
        PruneRemembers(c, History(t.m, q), Times(t.passed, q), was, s.now);
        if q == ip && Passes(CanAccept(c, t.m, ip, s.now).1) {
          PassRemembers(c, Recent(History(t.m, q), s.now), Times(t.passed, q), s.now);
        }
      }
    }
  }

  lemma {:induction false} RunRemembers(c: Config, t: Trace, was: real, steps: seq<Timed>) returns (now: real)
    requires AllRemembered(c, t, was) && Monotone(was, steps)
    ensures AllRemembered(c, Run(c, t, steps), now)
    decreases |steps|
  {
    hide AllRemembered, Apply;
    if steps == [] {
      now := was;
    } else {
      ApplyRemembers(c, t, was, steps[0]);
      now := RunRemembers(c, Apply(c, t, steps[0]), steps[0].now, steps[1..]);
    }
  }

  /** How many passing attempts fall in the minute starting at `a`. */
  function InWindow(p: seq<real>, a: real): (n: nat)
    ensures n <= |p|
  {
    if p == [] then 0 else (if a <= p[0] < a + 60.0 then 1 else 0) + InWindow(p[1..], a)
  }

  lemma {:induction false} InWindowAppend(p: seq<real>, q: seq<real>, a: real)
    ensures InWindow(p + q, a) == InWindow(p, a) + InWindow(q, a)
    decreases |p|
  {
    if p == [] {
      assert p + q == q;
    } else {
      assert (p + q)[1..] == p[1..] + q;
      InWindowAppend(p[1..], q, a);
    }
  }

  lemma {:induction false} PastWindow(p: seq<real>, a: real)
    requires forall i :: 0 <= i < |p| ==> a + 60.0 <= p[i]
    ensures InWindow(p, a) == 0
    decreases |p|
  {
    if p != [] { PastWindow(p[1..], a); }
  }

  lemma {:induction false} WindowBound(p: seq<real>, limit: int, a: real)
    requires Ordered(p) && Spaced(p, limit)
    ensures InWindow(p, a) <= Max(0, limit)
    decreases |p|
  {
    if |p| > limit {
      if p != [] && p[0] < a {
        WindowBound(p[1..], limit, a);
      } else if p != [] {
        PastWindow(p[limit..], a);
        InWindowAppend(p[..limit], p[limit..], a);
        assert p == p[..limit] + p[limit..];
      }
    }
  }

  /** With a clock that never goes back, any minute of any run holds at most the configured
      number of attempts of one address that pass the rate limiter. */
  lemma RateLimitHolds(c: Config, start: real, steps: seq<Timed>, ip: string, a: real)
    requires Monotone(start, steps)
    ensures InWindow(Times(Run(c, Trace(FRESH, []), steps).passed, ip), a) <= Max(0, c.maxPerMinute)
  {
    hide Run, Monotone;
    var t0 := Trace(FRESH, []);
    assert AllRemembered(c, t0, start);
    var now := RunRemembers(c, t0, start, steps);
    var t := Run(c, t0, steps);
    assert Remembers(c, History(t.m, ip), Times(t.passed, ip), now);
    WindowBound(Times(t.passed, ip), c.maxPerMinute, a);
  }

  // ----- exactly who is accepted -----

  /** How many of the times are less than a minute before `now`. */
  function WithinMinute(times: seq<real>, now: real): nat {
    if times == [] then 0 else (if now - times[0] < 60.0 then 1 else 0) + WithinMinute(times[1..], now)
  }

  lemma {:induction false} RecentCounts(times: seq<real>, now: real)
    ensures |Recent(times, now)| == WithinMinute(times, now)
  {
    if times != [] { RecentCounts(times[1..], now); }
  }

  lemma {:induction false} WithinMinuteAppend(a: seq<real>, b: seq<real>, now: real)
    ensures WithinMinute(a + b, now) == WithinMinute(a, now) + WithinMinute(b, now)
    decreases |a|
  {
    if a == [] {
      assert a + b == b;
    } else {
      assert (a + b)[1..] == a[1..] + b;
      WithinMinuteAppend(a[1..], b, now);
    }
  }

  lemma {:induction false} OldAreOutside(times: seq<real>, now: real)
    requires forall i :: 0 <= i < |times| ==> times[i] + 60.0 <= now
    ensures WithinMinute(times, now) == 0
  {
    if times != [] { OldAreOutside(times[1..], now); }
  }

  /** What the limiter remembers counts what has passed in the last minute. */
  lemma RememberedCounts(c: Config, h: seq<real>, p: seq<real>, was: real, now: real)
    requires Remembers(c, h, p, was) && was <= now
    ensures |Recent(h, now)| == WithinMinute(p, now)
  {
    var k := |p| - |h|;
    assert p == p[..k] + h;
    RecentCounts(h, now);
    OldAreOutside(p[..k], now);
    WithinMinuteAppend(p[..k], h, now);
  }

  /** The clock does not go back during the steps, nor between them and `now`. */
  ghost predicate Later(start: real, steps: seq<Timed>, now: real)
    decreases |steps|
  {
    if steps == [] then start <= now else start <= steps[0].now && Later(steps[0].now, steps[1..], now)
  }

  lemma {:induction false} RunRemembersUntil(c: Config, t: Trace, was: real, steps: seq<Timed>, now: real) returns (at: real)
    requires AllRemembered(c, t, was) && Later(was, steps, now)
    ensures at <= now && AllRemembered(c, Run(c, t, steps), at)
    decreases |steps|
  {
    hide AllRemembered, Apply;
    if steps == [] {
      at := was;
    } else {
      ApplyRemembers(c, t, was, steps[0]);
      at := RunRemembersUntil(c, Apply(c, t, steps[0]), steps[0].now, steps[1..], now);
    }
  }

  /** An address has a ban that lasts past `now`. */
  predicate Banned(m: Manager, ip: string, now: real) {
    ip in m.banned && now < m.banned[ip]
  }

  /** In every run with fresh session ids and a clock that never goes back, an attempt is
      accepted exactly when no ban of its address lasts past it, fewer than the allowed number
      of the address's passing attempts are less than a minute old, fewer than the allowed
      number of sessions are open, and fewer than the allowed number are the address's. A
      refusal says which of them, in that order, fails first. */
  lemma AcceptedIff(c: Config, start: real, steps: seq<Timed>, ip: string, now: real)
    requires FreshIds(c, Trace(FRESH, []), steps) && Later(start, steps, now)
    ensures
      var t := Run(c, Trace(FRESH, []), steps);
      var recent, verdict := WithinMinute(Times(t.passed, ip), now), CanAccept(c, t.m, ip, now).1;
      && (verdict.Accepted? <==>
            && !Banned(t.m, ip, now) && recent < c.maxPerMinute
            && |t.m.sessions| < c.maxSessions && |SessionsOf(t.m, ip)| < c.maxPerIp)
      && (verdict.IpBanned? <==> Banned(t.m, ip, now))
      && (verdict.RateLimited? <==> !Banned(t.m, ip, now) && recent >= c.maxPerMinute)
      && (verdict.GlobalLimit? <==>
            !Banned(t.m, ip, now) && recent < c.maxPerMinute && |t.m.sessions| >= c.maxSessions)
      && (verdict.PerIpLimit? <==>
            && !Banned(t.m, ip, now) && recent < c.maxPerMinute
            && |t.m.sessions| < c.maxSessions && |SessionsOf(t.m, ip)| >= c.maxPerIp)
  {
    hide Run, FreshIds, Later, Remembers, Recent, WithinMinute, Times, SessionsOf, WithinLimits;
    var t0 := Trace(FRESH, []);
    var t := Run(c, t0, steps);
    FreshCounted(c);
    RunsStayWithinLimits(c, t0, steps);
    FreshRemembered(c, start);
    var at := RunRemembersUntil(c, t0, start, steps, now);
    assert Remembers(c, History(t.m, ip), Times(t.passed, ip), at);
    RememberedCounts(c, History(t.m, ip), Times(t.passed, ip), at, now);
    assert Count(t.m, ip) == |SessionsOf(t.m, ip)|;
  }

  lemma FreshCounted(c: Config)
    ensures Counted(FRESH) && WithinLimits(c, FRESH)
  {
    assert forall ip :: SessionsOf(FRESH, ip) == {};
  }

  lemma FreshRemembered(c: Config, start: real)
    ensures AllRemembered(c, Trace(FRESH, []), start)
  {
  }

  // ----- bans -----

  /** As long as a ban lasts until `until`, every attempt of the address before then is
      turned away without changing anything. Bans by hand may lengthen it, or shorten it down
      to `until`. */
  lemma {:induction false} NothingAcceptedDuringBan(c: Config, t: Trace, steps: seq<Timed>, ip: string, until: real)
    requires ip in t.m.banned && until <= t.m.banned[ip]
    requires forall s :: s in steps ==> s.now < until
    requires forall s :: s in steps && s.step.BanStep? && s.step.ip == ip ==> until <= s.now + s.step.duration
    ensures ip in Run(c, t, steps).m.banned && until <= Run(c, t, steps).m.banned[ip]
    ensures Times(Run(c, t, steps).passed, ip) == Times(t.passed, ip)
    ensures forall now :: now < until ==> CanAccept(c, Run(c, t, steps).m, ip, now) == (Run(c, t, steps).m, IpBanned)
    decreases |steps|
  {
    hide Recent, Times;
    if steps != [] {
      var s, u := steps[0], Apply(c, t, steps[0]);
      assert s in steps;
      if s.step.ConnectStep? {
        TimesAppend(t.passed, s.step.ip, s.now, ip);
      }
      assert ip in u.m.banned && until <= u.m.banned[ip];
      assert Times(u.passed, ip) == Times(t.passed, ip);
      NothingAcceptedDuringBan(c, u, steps[1..], ip, until);
    }
  }

  /** A ban by hand lasts for exactly its duration, replaces an earlier one of the address, and
      touches nothing else. */
  lemma BanExact(m: Manager, ip: string, now: real, duration: real, q: string, at: real)
    ensures
      var n := Ban(m, ip, now, duration);
      && (Banned(n, q, at) <==> if q == ip then at < now + duration else Banned(m, q, at))
      && n.(banned := m.banned) == m
  {
  }

  /** Every ban outlives by a minute what the limiter remembers. */
  ghost predicate BansOutlive(m: Manager) {
    forall ip :: ip in m.banned ==> forall x :: x in History(m, ip) ==> x + 60.0 <= m.banned[ip]
  }

  ghost predicate HistoriesPast(m: Manager, now: real) {
    forall ip :: forall x :: x in History(m, ip) ==> x <= now
  }

  lemma ApplyOutlives(c: Config, t: Trace, was: real, s: Timed)
    requires c.banDuration >= 60.0 && BansOutlive(t.m) && HistoriesPast(t.m, was) && was <= s.now
    requires !s.step.BanStep?
    ensures BansOutlive(Apply(c, t, s).m) && HistoriesPast(Apply(c, t, s).m, s.now)
  {
    var u := Apply(c, t, s).m;
    if s.step.ConnectStep? {
      var ip := s.step.ip;
      var (n, v) := CanAccept(c, t.m, ip, s.now);
      assert u.banned == n.banned && u.history == n.history;
      forall q
        ensures forall x :: x in History(u, q) ==> x <= s.now
        ensures q in u.banned ==> forall x :: x in History(u, q) ==> x + 60.0 <= u.banned[q]
      {
        AcceptHistory(c, t.m, ip, s.now, q);
        assert History(u, q) == History(n, q);
        assert forall x :: x in History(t.m, q) ==> x <= was;
        assert q in t.m.banned ==> forall x :: x in History(t.m, q) ==> x + 60.0 <= t.m.banned[q];
      }
    } else {
      assert u.banned == t.m.banned && u.history == t.m.history;
      forall q
        ensures forall x :: x in History(u, q) ==> x <= s.now
        ensures q in u.banned ==> forall x :: x in History(u, q) ==> x + 60.0 <= u.banned[q]
      {
        assert History(u, q) == History(t.m, q);
        assert forall x :: x in History(t.m, q) ==> x <= was;
      }
    }
  }

  lemma {:induction false} RunOutlives(c: Config, t: Trace, was: real, steps: seq<Timed>)
    requires c.banDuration >= 60.0 && BansOutlive(t.m) && HistoriesPast(t.m, was) && Monotone(was, steps)
    requires forall s :: s in steps ==> !s.step.BanStep?
    ensures BansOutlive(Run(c, t, steps).m)
    decreases |steps|
  {
    hide BansOutlive, HistoriesPast, Apply;
    if steps != [] {
      assert steps[0] in steps;
      ApplyOutlives(c, t, was, steps[0]);
      RunOutlives(c, Apply(c, t, steps[0]), steps[0].now, steps[1..]);
    }
  }

  /** Without bans by hand, when bans last at least a minute and the limit is positive, the
      first attempt after a ban has ended is never rejected by the rate limiter. */
  lemma FirstAfterBanPasses(c: Config, start: real, steps: seq<Timed>, ip: string, now: real)
    requires c.banDuration >= 60.0 && c.maxPerMinute > 0 && Monotone(start, steps)
    requires forall s :: s in steps ==> !s.step.BanStep?
    requires
      var m := Run(c, Trace(FRESH, []), steps).m;
      ip in m.banned && m.banned[ip] <= now
    ensures Passes(CanAccept(c, Run(c, Trace(FRESH, []), steps).m, ip, now).1)
  {
    hide Run, Monotone;
    var t0 := Trace(FRESH, []);
    RunOutlives(c, t0, start, steps);
    var m := Run(c, t0, steps).m;
    var h := History(m, ip);
    forall i | 0 <= i < |h| ensures h[i] + 60.0 <= now {
      assert h[i] in h;
    }
    RecentNone(h, now);
  }

  lemma {:induction false} RecentNone(h: seq<real>, now: real)
    requires forall i :: 0 <= i < |h| ==> h[i] + 60.0 <= now
    ensures Recent(h, now) == []
  {
    if h != [] { RecentNone(h[1..], now); }
  }

  lemma {:induction false} RecentSame(h: seq<real>, x: real, now: real)
    requires (forall i :: 0 <= i < |h| ==> h[i] == x) && now - x < 60.0
    ensures Recent(h, now) == h
  {
    if h != [] {
      RecentSame(h[1..], x, now);
    }
  }

  /** Attempts of one address at one instant, each with an id of its own. */
  function Burst(ip: string, now: real, n: nat): seq<Timed> {
    if n == 0 then [] else [Timed(now, ConnectStep(ip, Decimal(n)))] + Burst(ip, now, n - 1)
  }

  lemma {:induction false} BurstIsRun(ip: string, now: real, n: nat)
    ensures Monotone(now, Burst(ip, now, n))
    ensures forall s :: s in Burst(ip, now, n) ==> s.now == now && !s.step.BanStep?
  {
    if n > 0 { BurstIsRun(ip, now, n - 1); }
  }

  /** The open sessions have numbers above `n`. */
  ghost predicate NumberedAbove(m: Manager, n: nat) {
    forall id :: id in m.sessions ==> exists k: nat :: k > n && id == Decimal(k)
  }

  lemma ConnectNumbered(c: Config, m: Manager, ip: string, now: real, n: nat)
    requires n > 0 && NumberedAbove(m, n)
    ensures Decimal(n) !in m.sessions
    ensures NumberedAbove(Connect(c, m, ip, Decimal(n), now), n - 1)
  {
    hide CanAccept;
    if Decimal(n) in m.sessions {
      var k: nat :| k > n && Decimal(n) == Decimal(k);
      DecimalInjective(n, k);
    }
    AcceptKeepsCounts(c, m, ip, now);
    forall id | id in Connect(c, m, ip, Decimal(n), now).sessions ensures exists k: nat :: k > n - 1 && id == Decimal(k) {
      if id in m.sessions {
        var k: nat :| k > n && id == Decimal(k);
      } else {
        assert id == Decimal(n);
      }
    }
  }

  lemma {:induction false} BurstIsFresh(c: Config, t: Trace, ip: string, now: real, n: nat)
    requires NumberedAbove(t.m, n)
    ensures FreshIds(c, t, Burst(ip, now, n))
    decreases n
  {
    hide Connect, NumberedAbove;
    if n > 0 {
      var s := Timed(now, ConnectStep(ip, Decimal(n)));
      ConnectNumbered(c, t.m, ip, now, n);
      assert Burst(ip, now, n)[0] == s && Burst(ip, now, n)[1..] == Burst(ip, now, n - 1);
      BurstIsFresh(c, Apply(c, t, s), ip, now, n - 1);
    }
  }

  /** One attempt more than the limit at an instant ends in a ban from that instant. */
  lemma {:induction false} BurstBans(c: Config, t: Trace, ip: string, now: real, n: nat)
    requires ip !in t.m.banned && forall i :: 0 <= i < |History(t.m, ip)| ==> History(t.m, ip)[i] == now
    requires n > 0 && |History(t.m, ip)| + n == Max(0, c.maxPerMinute) + 1
    ensures
      var m := Run(c, t, Burst(ip, now, n)).m;
      && ip in m.banned && m.banned[ip] == now + c.banDuration
      && |History(m, ip)| >= c.maxPerMinute && forall i :: 0 <= i < |History(m, ip)| ==> History(m, ip)[i] == now
    decreases n
  {
    hide Recent;
    var s := Timed(now, ConnectStep(ip, Decimal(n)));
    var u := Apply(c, t, s);
    RecentSame(History(t.m, ip), now, now);
    assert Burst(ip, now, n)[0] == s && Burst(ip, now, n)[1..] == Burst(ip, now, n - 1);
    AcceptHistory(c, t.m, ip, now, ip);
    if n > 1 {
      BurstBans(c, u, ip, now, n - 1);
    } else {
      assert Run(c, u, Burst(ip, now, 0)) == u;
    }
  }

  /** A run with fresh session ids and without bans by hand in which the first attempt after a
      ban has ended is rejected by the rate limiter once more. */
  ghost predicate BansAgain(c: Config, ip: string, start: real, steps: seq<Timed>, now: real) {
    && Monotone(start, steps + [Timed(now, ConnectStep(ip, ""))])
    && FreshIds(c, Trace(FRESH, []), steps)
    && (forall s :: s in steps ==> !s.step.BanStep?)
    && var m := Run(c, Trace(FRESH, []), steps).m;
    ip in m.banned && m.banned[ip] <= now && CanAccept(c, m, ip, now).1 == RateLimited
  }

  lemma {:induction false} MonotonePrefix(start: real, steps: seq<Timed>, last: Timed)
    ensures Monotone(start, steps + [last]) <==>
      Monotone(start, steps) && (if steps == [] then start else steps[|steps| - 1].now) <= last.now
    decreases |steps|
  {
    if steps == [] {
      assert steps + [last] == [last] && [last][1..] == [];
    } else {
      assert (steps + [last])[1..] == steps[1..] + [last];
      MonotonePrefix(steps[0].now, steps[1..], last);
    }
  }

  /** Bans shorter than a minute, negative ones included, or a limit of nothing: one attempt
      over the limit at an instant, and the first attempt after the ban is banned again. */
  lemma ShortBanRepeats(c: Config, ip: string)
    requires c.banDuration < 60.0 || c.maxPerMinute <= 0
    ensures
      var steps := Burst(ip, 0.0, Max(0, c.maxPerMinute) + 1);
      BansAgain(c, ip, 0.0, steps, if c.banDuration > 0.0 then c.banDuration else 0.0)
  {
    hide Run, Recent;
    var n := Max(0, c.maxPerMinute) + 1;
    var steps, now := Burst(ip, 0.0, n), if c.banDuration > 0.0 then c.banDuration else 0.0;
    BurstIsRun(ip, 0.0, n);
    BurstIsFresh(c, Trace(FRESH, []), ip, 0.0, n);
    BurstBans(c, Trace(FRESH, []), ip, 0.0, n);
    MonotonePrefix(0.0, steps, Timed(now, ConnectStep(ip, "")));
    assert steps != [] && steps[|steps| - 1] in steps;
    var m := Run(c, Trace(FRESH, []), steps).m;
    if c.banDuration < 60.0 { RecentSame(History(m, ip), 0.0, now); }
  }

  /** The first attempt after a ban can be rejected by the limiter exactly when bans are
      shorter than a minute or the limit lets nothing through. */
  lemma BansAgainIff(c: Config, ip: string)
    ensures (exists start, steps, now :: BansAgain(c, ip, start, steps, now)) <==> c.banDuration < 60.0 || c.maxPerMinute <= 0
  {
    hide Run, Monotone;
    if c.banDuration < 60.0 || c.maxPerMinute <= 0 {
      ShortBanRepeats(c, ip);
    } else {
      forall start, steps, now ensures !BansAgain(c, ip, start, steps, now) {
        if BansAgain(c, ip, start, steps, now) {
          MonotonePrefix(start, steps, Timed(now, ConnectStep(ip, "")));
          FirstAfterBanPasses(c, start, steps, ip, now);
        }
      }
    }
  }

  // ----- the manager object -----

  class SessionManager {
    const config: Config
    var activeSessions: int
    var sessionsPerIp: map<string, int>
    var sessions: map<string, string>
    var bannedIps: map<string, real>
    var connectionHistory: map<string, seq<real>>

    ghost function State(): Manager
      reads this
    {
      Manager(activeSessions, sessionsPerIp, sessions, bannedIps, connectionHistory)
    }

    constructor (config: Config)
      ensures this.config == config && State() == FRESH
    {
      this.config := config;
      activeSessions, sessionsPerIp, sessions, bannedIps, connectionHistory := 0, map[], map[], map[], map[];
    }

    method CanAcceptIp(ip: string, now: real) returns (v: Verdict)
      modifies this`bannedIps, this`connectionHistory
      ensures (State(), v) == CanAccept(config, old(State()), ip, now)
    {
      if ip in bannedIps {
        if now < bannedIps[ip] { return IpBanned; }
        bannedIps := bannedIps - {ip};
      }
      assert bannedIps == old(bannedIps) - {ip};
      var history := if ip in connectionHistory then connectionHistory[ip] else [];
      history := Recent(history, now);
      connectionHistory := connectionHistory[ip := history];
      if |history| >= config.maxPerMinute {
        bannedIps := bannedIps[ip := now + config.banDuration];
        return RateLimited;
      }
      connectionHistory := connectionHistory[ip := connectionHistory[ip] + [now]];
      if activeSessions >= config.maxSessions { return GlobalLimit; }
      var perIp := if ip in sessionsPerIp then sessionsPerIp[ip] else 0;
      v := if perIp >= config.maxPerIp then PerIpLimit else Accepted;
    }

    method RegisterSession(ip: string, id: string)
      modifies this
      ensures State() == Register(old(State()), ip, id)
    {
      activeSessions := activeSessions + 1;
      sessionsPerIp := sessionsPerIp[ip := (if ip in sessionsPerIp then sessionsPerIp[ip] else 0) + 1];
      sessions := sessions[id := ip];
    }

    method UnregisterSession(id: string)
      modifies this
      ensures State() == Unregister(old(State()), id)
    {
      if id !in sessions { return; }
      var ip := sessions[id];
      sessions := sessions - {id};
      activeSessions := Max(0, activeSessions - 1);
      if ip in sessionsPerIp {
        sessionsPerIp := sessionsPerIp[ip := Max(0, sessionsPerIp[ip] - 1)];
        if sessionsPerIp[ip] == 0 {
          sessionsPerIp := sessionsPerIp - {ip};
        }
      }
    }

    method BanIp(ip: string, now: real, duration: Option<real>)
      modifies this`bannedIps
      ensures State() == Ban(old(State()), ip, now, if duration.Some? then duration.value else config.banDuration)
    {
      var d := if duration.Some? then duration.value else config.banDuration;
      bannedIps := bannedIps[ip := now + d];
    }

    /** The server's connection callback: check, then register. */
    method ConnectionMade(ip: string, id: string, now: real) returns (accepted: bool)
      modifies this
      ensures State() == Connect(config, old(State()), ip, id, now)
      ensures accepted <==> CanAccept(config, old(State()), ip, now).1.Accepted?
    {
      var v := CanAcceptIp(ip, now);
      accepted := v.Accepted?;
      if accepted {
        RegisterSession(ip, id);
      }
    }
  }
}
