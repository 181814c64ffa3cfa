/**
  Two promises of the rate limiter over whole runs, each with the exact configurations that keep it:
  how many requests one client gets through in a window, and that waiting for Retry-After is enough.
 */
module RateLimiterBounds {
  import opened RateLimiter

  // ---------------------------------------------------------------- counting admissions

  predicate Counts(e: Event, x: string, a: int, b: int) {
    e.ip == x && e.decision == Admit && a <= e.now <= b
  }

  /** How many requests from `x` were admitted at instants in [a, b]. */
  function AdmittedIn(events: seq<Event>, x: string, a: int, b: int): nat {
    if events == [] then 0 else
      AdmittedIn(events[..|events| - 1], x, a, b) + if Counts(events[|events| - 1], x, a, b) then 1 else 0
  }

  /** How many attempts a phase allows; a negative setting allows none. */
  function Allowed(cfg: Config): nat {
    if cfg.maxAttempts < 0 then 0 else cfg.maxAttempts
  }

  /** No interval as long as the window holds more than twice the allowed admissions of one client that is not evicted. */
  ghost predicate KeepsSlidingBound(cfg: Config) {
    forall states, events, x, a, b ::
      IsRun(cfg, states, events) && NeverEvicted(cfg, states, events, x) && b - a <= cfg.window ==>
        AdmittedIn(events, x, a, b) <= 2 * Allowed(cfg)
  }

  // ---------------------------------------------------------------- the bound holds

  /**
    What an entry last touched at `t` knows about the `n` admissions counted so far in [a, b]:
    a phase that began before `a` has all of them among its attempts; one that began at `a` has at
    most one earlier phase behind it and then only through a lock; one that began after `a` has at
    most one full phase behind it, or is locked past `b`, or began past `b`.
   */
  ghost predicate PhaseBound(cfg: Config, e: Entry, n: int, t: int, a: int, b: int) {
    && 0 <= e.attempts <= cfg.maxAttempts
    && e.windowStart <= t
    && n <= 2 * cfg.maxAttempts
    && (t < a ==> n == 0)
    && (e.windowStart < a ==> n <= e.attempts && (n > 0 ==> a - e.windowStart <= cfg.window))
    && (e.windowStart == a ==>
          n <= e.attempts || (n <= cfg.maxAttempts + e.attempts && e.lockedUntil == a + cfg.lockout))
    && (e.windowStart > a ==> n <= cfg.maxAttempts + e.attempts || (e.lockedUntil != 0 && e.lockedUntil > b) || e.windowStart > b)
  }

  lemma PhaseBoundStep(cfg: Config, e: Entry, n: int, t: int, now: int, a: int, b: int)
    requires cfg.maxAttempts >= 0 && cfg.lockout > 0 && cfg.lockout >= cfg.window >= 0 && b - a <= cfg.window
    requires 0 < now && t <= now && 0 <= n
    requires PhaseBound(cfg, e, n, t, a, b)
    ensures var r := Touch(cfg, e, now);
            PhaseBound(cfg, r.0, n + if r.1 == Admit && a <= now <= b then 1 else 0, now, a, b)
  {
  }

  lemma PhaseBoundLater(cfg: Config, e: Entry, n: int, t: int, now: int, a: int, b: int)
    requires t <= now && PhaseBound(cfg, e, n, t, a, b) && (now < a || t >= a || n == 0)
    ensures PhaseBound(cfg, e, n, now, a, b)
  {
  }

  lemma {:induction false} PhaseBoundOnRun(cfg: Config, events: seq<Event>, x: string, a: int, b: int)
    requires cfg.maxAttempts >= 0 && cfg.lockout > 0 && cfg.lockout >= cfg.window >= 0 && b - a <= cfg.window
    requires Clock(events)
    requires forall i :: 0 <= i < |events| && events[i].ip == x ==> events[i].decision == UnboundedDecision(cfg, events, i)
    ensures var u := Unbounded(cfg, events);
            if x in u then PhaseBound(cfg, u[x], AdmittedIn(events, x, a, b), events[|events| - 1].now, a, b)
            else AdmittedIn(events, x, a, b) == 0
    ensures events == [] ==> x !in Unbounded(cfg, events)
    decreases |events|
  {
    if events != [] {
      var n := |events| - 1;
      var pre, e := events[..n], events[n];
      forall i | 0 <= i < n && pre[i].ip == x
        ensures pre[i].decision == UnboundedDecision(cfg, pre, i)
      {
        assert pre[..i] == events[..i];
        assert events[i].decision == UnboundedDecision(cfg, events, i);
      }
      PhaseBoundOnRun(cfg, pre, x, a, b);
      assert e.ip == x ==> e.decision == UnboundedDecision(cfg, events, n);
      PhaseBoundEvent(cfg, Unbounded(cfg, pre), AdmittedIn(pre, x, a, b), if n == 0 then 0 else events[n - 1].now, e, x, a, b);
    }
  }

  lemma PhaseBoundEvent(cfg: Config, u: Table, k: nat, last: int, e: Event, x: string, a: int, b: int)
    requires cfg.maxAttempts >= 0 && cfg.lockout > 0 && cfg.lockout >= cfg.window >= 0 && b - a <= cfg.window
    requires 0 < e.now && last <= e.now
    requires if x in u then PhaseBound(cfg, u[x], k, last, a, b) else k == 0
    requires e.ip == x ==> e.decision == Touch(cfg, EntryFor(u, x, e.now), e.now).1
    ensures var u' := u[e.ip := Touch(cfg, EntryFor(u, e.ip, e.now), e.now).0];
            var k' := k + if Counts(e, x, a, b) then 1 else 0;
            if x in u' then PhaseBound(cfg, u'[x], k', e.now, a, b) else k' == 0
  {
    if e.ip == x {
      if x in u {
        PhaseBoundStep(cfg, u[x], k, last, e.now, a, b);
      } else {
        PhaseBoundStep(cfg, Fresh(e.now), 0, e.now, e.now, a, b);
      }
    } else if x in u {
      PhaseBoundLater(cfg, u[x], k, last, e.now, a, b);
    }
  }

  lemma {:induction false} CountZero(events: seq<Event>, x: string, a: int, b: int)
    requires b < a || forall i :: 0 <= i < |events| ==> events[i].decision != Admit
    ensures AdmittedIn(events, x, a, b) == 0
    decreases |events|
  {
    if events != [] {
      CountZero(events[..|events| - 1], x, a, b);
    }
  }

  lemma SlidingBoundHolds(cfg: Config, states: seq<State>, events: seq<Event>, x: string, a: int, b: int)
    requires cfg.lockout > 0 && cfg.lockout >= cfg.window
    requires IsRun(cfg, states, events) && NeverEvicted(cfg, states, events, x) && b - a <= cfg.window
    ensures AdmittedIn(events, x, a, b) <= 2 * Allowed(cfg)
  {
    if cfg.window < 0 {
      CountZero(events, x, a, b);
    } else if cfg.maxAttempts < 0 {
      NothingAdmitted(cfg, states, events, x, a, b);
    } else {
      SimilarOnRun(cfg, states, events, x);
      PhaseBoundOnRun(cfg, events, x, a, b);
    }
  }

  lemma NothingAdmitted(cfg: Config, states: seq<State>, events: seq<Event>, x: string, a: int, b: int)
    requires cfg.maxAttempts <= 0 && IsRun(cfg, states, events)
    ensures AdmittedIn(events, x, a, b) == 0
  {
    forall i | 0 <= i < |events|
      ensures events[i].decision != Admit
    {
      DegenerateDecision(cfg, states, events, i);
    }
    CountZero(events, x, a, b);
  }

  // ---------------------------------------------------------------- runs of a single client

  /** The entry of a client that sent requests at `times` to an unbounded limiter. */
  function After(cfg: Config, times: seq<int>): Entry
    requires times != []
  {
    var n := |times| - 1;
    Touch(cfg, if n == 0 then Fresh(times[n]) else After(cfg, times[..n]), times[n]).0
  }

  /** The entry that its next request, at instant `t`, finds. */
  function Before(cfg: Config, times: seq<int>, t: int): Entry {
    if times == [] then Fresh(t) else After(cfg, times)
  }

  function Answer(cfg: Config, times: seq<int>, t: int): Decision {
    Touch(cfg, Before(cfg, times, t), t).1
  }

  /** The events of that client. */
  function Client(cfg: Config, x: string, times: seq<int>): seq<Event> {
    seq(|times|, i requires 0 <= i < |times| => Event(x, times[i], Answer(cfg, times[..i], times[i])))
  }

  function Admissions(cfg: Config, times: seq<int>, a: int, b: int): nat {
    if times == [] then 0 else
      var pre, t := times[..|times| - 1], times[|times| - 1];
      Admissions(cfg, pre, a, b) + if Answer(cfg, pre, t) == Admit && a <= t <= b then 1 else 0
  }

  predicate Ticks(times: seq<int>) {
    && (forall i :: 0 <= i < |times| ==> 0 < times[i])
    && (forall i, j :: 0 <= i <= j < |times| ==> times[i] <= times[j])
  }

  lemma ClientPrefix(cfg: Config, x: string, times: seq<int>, n: nat)
    requires n <= |times|
    ensures Client(cfg, x, times)[..n] == Client(cfg, x, times[..n])
  {
    forall i | 0 <= i < n
      ensures Client(cfg, x, times)[i] == Client(cfg, x, times[..n])[i]
    {
      assert times[..n][..i] == times[..i];
    }
  }

  lemma {:induction false} ClientUnbounded(cfg: Config, x: string, times: seq<int>)
    ensures Unbounded(cfg, Client(cfg, x, times)) == if times == [] then map[] else map[x := After(cfg, times)]
    decreases |times|
  {
    if times != [] {
      var n := |times| - 1;
      ClientPrefix(cfg, x, times, n);
      ClientUnbounded(cfg, x, times[..n]);
    }
  }

  lemma {:induction false} ClientAdmissions(cfg: Config, x: string, times: seq<int>, a: int, b: int)
    ensures AdmittedIn(Client(cfg, x, times), x, a, b) == Admissions(cfg, times, a, b)
    decreases |times|
  {
    if times != [] {
      var n := |times| - 1;
      ClientPrefix(cfg, x, times, n);
      ClientAdmissions(cfg, x, times[..n], a, b);
    }
  }

  lemma SmallTable(t: Table, x: string)
    requires t.Keys <= {x}
    ensures |t| <= 1
  {
    if t.Keys != {} {
      assert t.Keys == {x};
    }
  }

  /** One more request of the only client: the real limiter evicts nothing and answers as the unbounded one. */
  lemma ClientStep(cfg: Config, x: string, states: seq<State>, times: seq<int>, t: int) returns (s': State)
    requires IsRun(cfg, states, Client(cfg, x, times))
    requires NeverEvicted(cfg, states, Client(cfg, x, times), x)
    requires states[|times|].entries.Keys <= {x}
    requires times != [] ==> times[|times| - 1] <= t
    ensures Next(cfg, states[|times|], x, t, s', Answer(cfg, times, t))
    ensures x in s'.entries && s'.entries.Keys <= {x}
  {
    var s := states[|times|];
    var kept := Kept(cfg, s, t);
    var r := Touch(cfg, EntryFor(kept, x, t), t);
    s' := State(kept[x := r.0], s.reqCount + 1);
    SmallTable(kept, x);
    assert Room(kept, x, t, kept);
    assert Next(cfg, s, x, t, s', r.1);
    SimilarOnRun(cfg, states, Client(cfg, x, times), x);
    ClientUnbounded(cfg, x, times);
    SimilarStep(cfg, s, Unbounded(cfg, Client(cfg, x, times)), x, x,
                if times == [] then t else times[|times| - 1], t, s', r.1);
  }

  /** The client's events are a run of the real limiter in which it is never evicted. */
  lemma {:induction false} ClientRuns(cfg: Config, x: string, times: seq<int>) returns (states: seq<State>)
    requires Ticks(times)
    ensures IsRun(cfg, states, Client(cfg, x, times))
    ensures NeverEvicted(cfg, states, Client(cfg, x, times), x)
    ensures states[|times|].entries.Keys <= {x}
    decreases |times|
  {
    var events := Client(cfg, x, times);
    if times == [] {
      return [State(map[], 0)];
    }
    var n := |times| - 1;
    var ps := ClientRuns(cfg, x, times[..n]);
    var s' := ClientStep(cfg, x, ps, times[..n], times[n]);
    states := ps + [s'];
    ClientPrefix(cfg, x, times, n);
    forall i | 0 <= i < |events|
      ensures StepAt(cfg, states, events, i) && !EvictedAt(cfg, states, events, i, x)
    {
      if i < n {
        var pre := Client(cfg, x, times[..n]);
        assert events[i] == pre[i];
        assert StepAt(cfg, ps, pre, i) && !EvictedAt(cfg, ps, pre, i, x);
      }
    }
  }

  // ---------------------------------------------------------------- the bound fails otherwise

  /** The instants `times` followed by `k` requests at instant `t`. */
  function Then(times: seq<int>, k: nat, t: int): seq<int> {
    if k == 0 then times else Then(times, k - 1, t) + [t]
  }

  lemma {:induction false} ThenTicks(times: seq<int>, k: nat, t: int)
    requires Ticks(times) && 0 < t && (times != [] ==> times[|times| - 1] <= t)
    ensures Ticks(Then(times, k, t)) && |Then(times, k, t)| == |times| + k
    ensures Then(times, k, t) != [] ==> Then(times, k, t)[|times| + k - 1] <= t
  {
    if k > 0 {
      ThenTicks(times, k - 1, t);
    }
  }

  lemma OneMore(cfg: Config, times: seq<int>, t: int, a: int, b: int)
    ensures After(cfg, times + [t]) == Touch(cfg, Before(cfg, times, t), t).0
    ensures Admissions(cfg, times + [t], a, b)
         == Admissions(cfg, times, a, b) + if Answer(cfg, times, t) == Admit && a <= t <= b then 1 else 0
  {
    assert (times + [t])[..|times|] == times;
  }

  lemma TouchAdmits(cfg: Config, e: Entry, t: int)
    requires !Locked(e, t) && cfg.maxAttempts > if t - e.windowStart > cfg.window then 0 else e.attempts
    ensures Touch(cfg, e, t) == (if t - e.windowStart > cfg.window then Entry(1, t, e.lockedUntil) else e.(attempts := e.attempts + 1), Admit)
  {
  }

  /** One request more that is admitted. */
  lemma AdmitsOneMore(cfg: Config, times: seq<int>, e: Entry, t: int, a: int, b: int)
    requires e == Before(cfg, times, t) && !Locked(e, t) && cfg.maxAttempts > if t - e.windowStart > cfg.window then 0 else e.attempts
    ensures After(cfg, times + [t]) == if t - e.windowStart > cfg.window then Entry(1, t, e.lockedUntil) else e.(attempts := e.attempts + 1)
    ensures Admissions(cfg, times + [t], a, b) == Admissions(cfg, times, a, b) + if a <= t <= b then 1 else 0
  {
    OneMore(cfg, times, t, a, b);
    TouchAdmits(cfg, e, t);
  }

  /** `k` requests in a row that fit in the attempts left are all admitted. */
  lemma {:induction false} Burst(cfg: Config, times: seq<int>, e: Entry, k: nat, t: int, a: int, b: int)
    requires cfg.window >= 0 && 1 <= k <= cfg.maxAttempts
    requires e == Before(cfg, times, t)
    requires !Locked(e, t) && (t - e.windowStart > cfg.window || e.attempts == 0)
    ensures Then(times, k, t) != []
    ensures After(cfg, Then(times, k, t)) == Entry(k, if t - e.windowStart > cfg.window then t else e.windowStart, e.lockedUntil)
    ensures Admissions(cfg, Then(times, k, t), a, b) == Admissions(cfg, times, a, b) + if a <= t <= b then k else 0
    decreases k
  {
    var before := Then(times, k - 1, t);
    if k > 1 {
      Burst(cfg, times, e, k - 1, t, a, b);
      AdmitsOneMore(cfg, before, After(cfg, before), t, a, b);
    } else {
      assert before == times;
      AdmitsOneMore(cfg, times, e, t, a, b);
    }
    assert Then(times, k, t) == before + [t];
  }

  /** maxAttempts requests that are admitted and then the one that is refused and locks the client. */
  function Volley(cfg: Config, times: seq<int>, t: int): seq<int>
    requires cfg.maxAttempts >= 0
  {
    Then(times, cfg.maxAttempts, t) + [t]
  }

  lemma VolleyTicks(cfg: Config, times: seq<int>, t: int)
    requires cfg.maxAttempts >= 0
    requires Ticks(times) && 0 < t && (times != [] ==> times[|times| - 1] <= t)
    ensures Ticks(Volley(cfg, times, t))
    ensures var v := Volley(cfg, times, t); v != [] && v[|v| - 1] == t
  {
    ThenTicks(times, cfg.maxAttempts, t);
  }

  lemma VolleyAdmits(cfg: Config, times: seq<int>, e: Entry, t: int, a: int, b: int)
    requires cfg.window >= 0 && cfg.maxAttempts >= 1
    requires e == Before(cfg, times, t) && e.windowStart <= t
    requires !Locked(e, t) && (t - e.windowStart > cfg.window || e.attempts == 0)
    ensures Volley(cfg, times, t) != []
    ensures After(cfg, Volley(cfg, times, t)) == Entry(0, t, t + cfg.lockout)
    ensures Answer(cfg, Then(times, cfg.maxAttempts, t), t) == Refuse(WholeSeconds(cfg.lockout))
    ensures Admissions(cfg, Volley(cfg, times, t), a, b)
         == Admissions(cfg, times, a, b) + if a <= t <= b then cfg.maxAttempts else 0
  {
    var burst := Then(times, cfg.maxAttempts, t);
    Burst(cfg, times, e, cfg.maxAttempts, t, a, b);
    assert Before(cfg, burst, t) == After(cfg, burst);
    OneMore(cfg, burst, t, a, b);
  }

  lemma BoundFailsWithoutLockout(cfg: Config) returns (times: seq<int>)
    requires cfg.maxAttempts >= 1 && cfg.window >= 0 && cfg.lockout <= 0
    ensures Ticks(times) && Admissions(cfg, times, 1, 1) == 3 * cfg.maxAttempts
  {
    var v1 := Volley(cfg, [], 1);
    var v2 := Volley(cfg, v1, 1);
    var locked := Entry(0, 1, 1 + cfg.lockout);
    VolleyAdmits(cfg, [], Fresh(1), 1, 1, 1);
    VolleyAdmits(cfg, v1, locked, 1, 1, 1);
    VolleyAdmits(cfg, v2, locked, 1, 1, 1);
    VolleyTicks(cfg, [], 1);
    VolleyTicks(cfg, v1, 1);
    VolleyTicks(cfg, v2, 1);
    times := Volley(cfg, v2, 1);
  }

  /**
    Lock the client at instant 1, fill the phase that starts there at the last instant of its
    window, lock it again one instant later and fill the next phase when that lock ends.
   */
  function ShortLockoutTimes(cfg: Config): seq<int>
    requires cfg.maxAttempts >= 0
  {
    var a := 1 + cfg.window;
    Volley(cfg, Volley(cfg, Then(Volley(cfg, [], 1), cfg.maxAttempts, a), a + 1), a + 1 + cfg.lockout)
  }

  lemma ShortLockoutTicks(cfg: Config)
    requires cfg.maxAttempts >= 1 && 0 < cfg.lockout < cfg.window
    ensures Ticks(ShortLockoutTimes(cfg))
  {
    var a := 1 + cfg.window;
    var locked := Volley(cfg, [], 1);
    var late := Then(locked, cfg.maxAttempts, a);
    VolleyTicks(cfg, [], 1);
    ThenTicks(locked, cfg.maxAttempts, a);
    VolleyTicks(cfg, late, a + 1);
    VolleyTicks(cfg, Volley(cfg, late, a + 1), a + 1 + cfg.lockout);
  }

  lemma LateBurst(cfg: Config, a: int, b: int)
    requires cfg.maxAttempts >= 1 && 0 < cfg.lockout < cfg.window && a == 1 + cfg.window <= b
    ensures var late := Then(Volley(cfg, [], 1), cfg.maxAttempts, a);
            && late != []
            && After(cfg, late) == Entry(cfg.maxAttempts, 1, 1 + cfg.lockout)
            && Admissions(cfg, late, a, b) == cfg.maxAttempts
  {
    VolleyAdmits(cfg, [], Fresh(1), 1, a, b);
    Burst(cfg, Volley(cfg, [], 1), Entry(0, 1, 1 + cfg.lockout), cfg.maxAttempts, a, a, b);
  }

  lemma BoundFailsWithShortLockout(cfg: Config)
    requires cfg.maxAttempts >= 1 && 0 < cfg.lockout < cfg.window
    ensures Admissions(cfg, ShortLockoutTimes(cfg), 1 + cfg.window, 1 + cfg.window + cfg.window) == 3 * cfg.maxAttempts
  {
    var a := 1 + cfg.window;
    var b := a + cfg.window;
    LateBurst(cfg, a, b);
    TwoVolleys(cfg, Then(Volley(cfg, [], 1), cfg.maxAttempts, a), a, b);
  }

  lemma TwoVolleys(cfg: Config, late: seq<int>, a: int, b: int)
    requires cfg.maxAttempts >= 1 && 0 < cfg.lockout < cfg.window && a == 1 + cfg.window && b == a + cfg.window
    requires late != [] && After(cfg, late) == Entry(cfg.maxAttempts, 1, 1 + cfg.lockout)
    ensures Admissions(cfg, Volley(cfg, Volley(cfg, late, a + 1), a + 1 + cfg.lockout), a, b)
         == Admissions(cfg, late, a, b) + 2 * cfg.maxAttempts
  {
    VolleyFrom(cfg, late, Entry(cfg.maxAttempts, 1, 1 + cfg.lockout), a + 1, a, b);
    VolleyFrom(cfg, Volley(cfg, late, a + 1), Entry(0, a + 1, a + 1 + cfg.lockout), a + 1 + cfg.lockout, a, b);
  }

  /** A volley at an instant of the interval, from a given entry. */
  lemma VolleyFrom(cfg: Config, times: seq<int>, e: Entry, t: int, a: int, b: int)
    requires cfg.window >= 0 && cfg.maxAttempts >= 1 && times != [] && After(cfg, times) == e && a <= t <= b
    requires e.windowStart <= t && !Locked(e, t) && (t - e.windowStart > cfg.window || e.attempts == 0)
    ensures Volley(cfg, times, t) != [] && After(cfg, Volley(cfg, times, t)) == Entry(0, t, t + cfg.lockout)
    ensures Admissions(cfg, Volley(cfg, times, t), a, b) == Admissions(cfg, times, a, b) + cfg.maxAttempts
  {
    VolleyAdmits(cfg, times, e, t, a, b);
  }

  /** What every entry of every run looks like; without a window nothing is ever locked. */
  ghost predicate Plausible(cfg: Config, t: Table, now: int) {
    forall x :: x in t ==>
      && 0 <= t[x].attempts && t[x].windowStart <= now
      && (cfg.window < 0 && cfg.maxAttempts >= 1 ==> t[x].lockedUntil == 0)
  }

  lemma {:induction false} PlausibleOnRun(cfg: Config, states: seq<State>, events: seq<Event>, i: nat)
    requires IsRun(cfg, states, events) && i <= |events|
    ensures Plausible(cfg, states[i].entries, if i == 0 then 0 else events[i - 1].now)
    decreases i
  {
    if i > 0 {
      var e := events[i - 1];
      PlausibleOnRun(cfg, states, events, i - 1);
      assert StepAt(cfg, states, events, i - 1);
      var room := StepRoom(cfg, states[i - 1], e.ip, e.now, states[i], e.decision);
    }
  }

  /** No attempts allowed: nothing is admitted.  No window: nothing is refused. */
  lemma DegenerateDecision(cfg: Config, states: seq<State>, events: seq<Event>, i: nat)
    requires IsRun(cfg, states, events) && i < |events|
    ensures cfg.maxAttempts < 1 ==> events[i].decision != Admit
    ensures cfg.window < 0 && cfg.maxAttempts >= 1 ==> events[i].decision == Admit
  {
    PlausibleOnRun(cfg, states, events, i);
    assert StepAt(cfg, states, events, i);
    var room := StepRoom(cfg, states[i], events[i].ip, events[i].now, states[i + 1], events[i].decision);
  }

  /**
    Sliding bound, exactly.  In every run, every interval no longer than the window holds at most
    twice the allowed admissions of a client that is not evicted, if and only if the lockout is
    positive and at least as long as the window (or nothing is admitted, or there is no window).
   */
  lemma SlidingBound(cfg: Config)
    ensures KeepsSlidingBound(cfg)
       <==> cfg.maxAttempts <= 0 || cfg.window < 0 || (cfg.lockout > 0 && cfg.lockout >= cfg.window)
  {
    if cfg.maxAttempts <= 0 || cfg.window < 0 || (cfg.lockout > 0 && cfg.lockout >= cfg.window) {
      forall states, events: seq<Event>, x, a, b |
        IsRun(cfg, states, events) && NeverEvicted(cfg, states, events, x) && b - a <= cfg.window
        ensures AdmittedIn(events, x, a, b) <= 2 * Allowed(cfg)
      {
        if cfg.maxAttempts <= 0 {
          NothingAdmitted(cfg, states, events, x, a, b);
        } else if cfg.window < 0 {
          CountZero(events, x, a, b);
        } else {
          SlidingBoundHolds(cfg, states, events, x, a, b);
        }
      }
    } else {
      var states, events, a, b := SlidingBoundFails(cfg, "client");
      assert AdmittedIn(events, "client", a, b) > 2 * Allowed(cfg);
    }
  }

  /** With a shorter lockout any client can get 3 * maxAttempts requests through in an interval no longer than the window. */
  lemma SlidingBoundFails(cfg: Config, x: string) returns (states: seq<State>, events: seq<Event>, a: int, b: int)
    requires cfg.maxAttempts >= 1 && cfg.window >= 0 && (cfg.lockout <= 0 || cfg.lockout < cfg.window)
    ensures IsRun(cfg, states, events) && NeverEvicted(cfg, states, events, x) && b - a <= cfg.window
    ensures AdmittedIn(events, x, a, b) == 3 * cfg.maxAttempts
  {
    var times;
    if cfg.lockout <= 0 {
      times := BoundFailsWithoutLockout(cfg);
      a, b := 1, 1;
    } else {
      ShortLockoutTicks(cfg);
      BoundFailsWithShortLockout(cfg);
      times := ShortLockoutTimes(cfg);
      a, b := 1 + cfg.window, 1 + cfg.window + cfg.window;
    }
    states := ClientRuns(cfg, x, times);
    events := Client(cfg, x, times);
    ClientAdmissions(cfg, x, times, a, b);
  }

  // ---------------------------------------------------------------- waiting for Retry-After

  /** Request `j` is the next one from the client refused at `i`, and it came after the seconds it was told to wait. */
  ghost predicate Waited(events: seq<Event>, i: nat, j: nat) {
    && i < j < |events|
    && events[i].ip == events[j].ip
    && events[i].decision.Refuse?
    && (forall k :: i < k < j ==> events[k].ip != events[i].ip)
    && events[j].now >= events[i].now + events[i].decision.retryAfter * SECOND
  }

  ghost predicate HonoursRetryAfter(cfg: Config) {
    forall states, events: seq<Event>, i: nat, j: nat ::
      IsRun(cfg, states, events) && Waited(events, i, j) ==> events[j].decision == Admit
  }

  /** While an entry is locked it has no attempts on it. */
  ghost predicate LockedAreClean(t: Table, now: int) {
    forall x :: x in t && Locked(t[x], now) ==> t[x].attempts == 0
  }

  lemma {:induction false} LockedAreCleanOnRun(cfg: Config, states: seq<State>, events: seq<Event>, i: nat, now: int)
    requires IsRun(cfg, states, events) && i <= |events|
    requires i > 0 ==> events[i - 1].now <= now
    ensures LockedAreClean(states[i].entries, now)
    decreases i
  {
    if i > 0 {
      var e := events[i - 1];
      LockedAreCleanOnRun(cfg, states, events, i - 1, e.now);
      assert StepAt(cfg, states, events, i - 1);
      var room := StepRoom(cfg, states[i - 1], e.ip, e.now, states[i], e.decision);
    }
  }

  /** Until it asks again, a client keeps the entry it was left with or loses it altogether. */
  lemma {:induction false} SilentEntry(cfg: Config, states: seq<State>, events: seq<Event>, x: string, i: nat, j: nat)
    requires IsRun(cfg, states, events) && i < j <= |events|
    requires x in states[i + 1].entries
    requires forall k :: i < k < j ==> events[k].ip != x
    ensures x in states[j].entries ==> states[j].entries[x] == states[i + 1].entries[x]
    decreases j
  {
    if i + 1 < j {
      SilentEntry(cfg, states, events, x, i, j - 1);
      assert StepAt(cfg, states, events, j - 1);
      var room := StepRoom(cfg, states[j - 1], events[j - 1].ip, events[j - 1].now, states[j], events[j - 1].decision);
    }
  }

  lemma WaitingIsEnough(cfg: Config, states: seq<State>, events: seq<Event>, i: nat, j: nat)
    requires cfg.maxAttempts >= 1 && (cfg.lockout <= 0 || cfg.lockout % SECOND == 0)
    requires IsRun(cfg, states, events) && Waited(events, i, j)
    ensures events[j].decision == Admit
  {
    var x := events[i].ip;
    LockedAreCleanOnRun(cfg, states, events, i, events[i].now);
    assert StepAt(cfg, states, events, i);
    var room := StepRoom(cfg, states[i], x, events[i].now, states[i + 1], events[i].decision);
    var left := states[i + 1].entries[x];
    assert left.attempts == 0 && !Locked(left, events[j].now);
    SilentEntry(cfg, states, events, x, i, j);
    assert StepAt(cfg, states, events, j);
    var room' := StepRoom(cfg, states[j], x, events[j].now, states[j + 1], events[j].decision);
  }

  /**
    Retry-After, exactly.  Over every run, a client that keeps silent for the seconds it was told to
    wait is admitted on its next request, if and only if the limiter admits anything at all and the
    lockout is a whole number of seconds (or none, or there is no window to exceed): the answer that
    starts a lockout truncates it to seconds.
   */
  lemma RetryAfterIsHonoured(cfg: Config)
    ensures HonoursRetryAfter(cfg)
       <==> cfg.maxAttempts >= 1 && (cfg.window < 0 || cfg.lockout <= 0 || cfg.lockout % SECOND == 0)
  {
    if cfg.maxAttempts < 1 {
      EarlyReturnNeverAdmits(cfg, "client");
    } else if cfg.window < 0 || cfg.lockout <= 0 || cfg.lockout % SECOND == 0 {
      forall states, events: seq<Event>, i: nat, j: nat | IsRun(cfg, states, events) && Waited(events, i, j)
        ensures events[j].decision == Admit
      {
        if cfg.window < 0 {
          DegenerateDecision(cfg, states, events, j);
        } else {
          WaitingIsEnough(cfg, states, events, i, j);
        }
      }
    } else {
      EarlyReturnIsRefused(cfg, "client");
    }
  }

  lemma EarlyReturnNeverAdmits(cfg: Config, x: string)
    requires cfg.maxAttempts < 1
    ensures !HonoursRetryAfter(cfg)
  {
    var wait := if cfg.lockout > 0 then cfg.lockout else 0;
    var times := [1, 1 + wait];
    var states := ClientRuns(cfg, x, times);
    var events := Client(cfg, x, times);
    assert times[..0] == [] && times[..1] == [1];
    assert After(cfg, [1]) == Entry(0, 1, 1 + cfg.lockout);
    assert WholeSeconds(cfg.lockout) * SECOND <= wait;
    assert Waited(events, 0, 1) && events[1].decision != Admit;
  }

  lemma EarlyReturnIsRefused(cfg: Config, x: string)
    requires cfg.maxAttempts >= 1 && cfg.window >= 0 && cfg.lockout > 0 && cfg.lockout % SECOND != 0
    ensures !HonoursRetryAfter(cfg)
  {
    VolleyAdmits(cfg, [], Fresh(1), 1, 1, 1);
    VolleyTicks(cfg, [], 1);
    var burst := Then([], cfg.maxAttempts, 1);
    var locked := Volley(cfg, [], 1);
    var back := 1 + WholeSeconds(cfg.lockout) * SECOND;
    var times := locked + [back];
    var states := ClientRuns(cfg, x, times);
    var events := Client(cfg, x, times);
    var i := |burst|;
    assert times[..i] == burst && times[..i + 1] == locked;
    assert Waited(events, i, i + 1) && events[i + 1].decision != Admit;
  }
}
