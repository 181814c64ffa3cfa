/**
  The per-IP rate limiter of internal/middleware/rate_limit.go.

  The handler holds one mutex for a whole request, so every matching request is one atomic step.
  Instants and durations are nanoseconds; instant 0 is Go's zero time, which `lockedUntil` holds
  while an entry has never been locked.  Go ranges over a map in no fixed order, so the loops of
  `prune` and `evictOldest` pick the next key freely and the step is a relation, not a function.
 */
module RateLimiter {

  const MAX_IPS := 100
  const PRUNE_EVERY := 100
  const SECOND := 1_000_000_000

  datatype Config = Config(maxAttempts: int, window: int, lockout: int)

  datatype Entry = Entry(attempts: int, windowStart: int, lockedUntil: int)

  datatype Decision = Admit | Refuse(retryAfter: int)

  type Table = map<string, Entry>

  datatype State = State(entries: Table, reqCount: nat)

  // ---------------------------------------------------------------- one request

  predicate Locked(e: Entry, now: int) {
    e.lockedUntil != 0 && now < e.lockedUntil
  }

  predicate Expired(cfg: Config, e: Entry, now: int) {
    !Locked(e, now) && now - e.windowStart > cfg.window
  }

  /** `int(d.Seconds())`: truncation toward zero. */
  function WholeSeconds(d: int): int {
    if d >= 0 then d / SECOND else -((-d) / SECOND)
  }

  function Fresh(now: int): Entry {
    Entry(0, now, 0)
  }

  /** What one request does to its own entry. */
  function Touch(cfg: Config, e: Entry, now: int): (Entry, Decision) {
    if Locked(e, now) then
      (e, Refuse(WholeSeconds(e.lockedUntil - now) + 1))
    else
      var f := if now - e.windowStart > cfg.window then e.(attempts := 0, windowStart := now) else e;
      if f.attempts >= cfg.maxAttempts then
        (Entry(0, now, now + cfg.lockout), Refuse(WholeSeconds(cfg.lockout)))
      else
        (f.(attempts := f.attempts + 1), Admit)
  }

  function EntryFor(t: Table, ip: string, now: int): Entry {
    if ip in t then t[ip] else Fresh(now)
  }

  function Pruned(cfg: Config, t: Table, now: int): Table {
    map ip | ip in t && !Expired(cfg, t[ip], now) :: t[ip]
  }

  predicate AllLocked(t: Table, now: int) {
    forall ip :: ip in t ==> Locked(t[ip], now)
  }

  predicate IsOldest(t: Table, now: int, victim: string) {
    && victim in t
    && !Locked(t[victim], now)
    && forall ip :: ip in t ==> Locked(t[ip], now) || t[victim].windowStart <= t[ip].windowStart
  }

  /** The empty string marks "no candidate" in `evictOldest`, so an entry stored under "" survives being chosen. */
  function Drop(t: Table, victim: string): Table {
    if victim == "" then t else t - {victim}
  }

  ghost predicate Evicts(t: Table, now: int, t': Table) {
    if AllLocked(t, now) then t' == t
    else exists victim :: IsOldest(t, now, victim) && t' == Drop(t, victim)
  }

  /** The table after making room for `ip`. */
  ghost predicate Room(t: Table, ip: string, now: int, t': Table) {
    if ip in t || |t| < MAX_IPS then t' == t else Evicts(t, now, t')
  }

  /** The table a request sees once the periodic prune has run. */
  function Kept(cfg: Config, s: State, now: int): Table {
    if (s.reqCount + 1) % PRUNE_EVERY == 0 then Pruned(cfg, s.entries, now) else s.entries
  }

  ghost predicate Next(cfg: Config, s: State, ip: string, now: int, s': State, d: Decision) {
    && s'.reqCount == s.reqCount + 1
    && exists room: Table ::
         && Room(Kept(cfg, s, now), ip, now, room)
         && s'.entries == room[ip := Touch(cfg, EntryFor(room, ip, now), now).0]
         && d == Touch(cfg, EntryFor(room, ip, now), now).1
  }

  /** The limiter object of the middleware. */
  class Limiter {
    const cfg: Config
    var entries: Table
    var reqCount: nat

    ghost function Snapshot(): State
      reads this
    {
      State(entries, reqCount)
    }

    constructor (cfg: Config)
      ensures this.cfg == cfg && Snapshot() == State(map[], 0)
    {
      this.cfg := cfg;
      entries := map[];
      reqCount := 0;
    }

    method Prune(now: int)
      modifies this`entries
      ensures entries == Pruned(cfg, old(entries), now)
    {
      var todo := entries.Keys;
      while todo != {}
        invariant todo <= old(entries).Keys
        invariant entries == map ip | ip in old(entries) && (ip in todo || !Expired(cfg, old(entries)[ip], now)) :: old(entries)[ip]
        decreases todo
      {
        var ip :| ip in todo;
        todo := todo - {ip};
        var entry := entries[ip];
        var expired := true;
        if entry.lockedUntil != 0 && now < entry.lockedUntil {
          expired := false;
        }
        if now - entry.windowStart <= cfg.window {
          expired := false;
        }
        if expired {
          entries := entries - {ip};
        }
      }
    }

    method EvictOldest(now: int)
      modifies this`entries
      ensures Evicts(old(entries), now, entries)
    {
      var oldestIP, oldestTime, first := "", 0, true;
      var todo := entries.Keys;
      while todo != {}
        invariant todo <= entries.Keys
        invariant first ==> oldestIP == "" && forall ip :: ip in entries && ip !in todo ==> Locked(entries[ip], now)
        invariant !first ==> oldestIP in entries && !Locked(entries[oldestIP], now) && oldestTime == entries[oldestIP].windowStart
        invariant !first ==> forall ip :: ip in entries && ip !in todo ==> Locked(entries[ip], now) || oldestTime <= entries[ip].windowStart
        decreases todo
      {
        var ip :| ip in todo;
        todo := todo - {ip};
        var entry := entries[ip];
        if entry.lockedUntil != 0 && now < entry.lockedUntil {
          continue;
        }
        if first || entry.windowStart < oldestTime {
          oldestIP, oldestTime, first := ip, entry.windowStart, false;
        }
      }
      assert !first ==> IsOldest(entries, now, oldestIP);
      if oldestIP != "" {
        entries := entries - {oldestIP};
      }
    }

    /** Find the entry of `ip`, making room for a new one when it has none. */
    method Lookup(ip: string, now: int) returns (entry: Entry, ghost room: Table)
      modifies this`entries
      ensures Room(old(entries), ip, now, room)
      ensures entry == EntryFor(room, ip, now) && entries == room[ip := entry]
    {
      if ip in entries {
        return entries[ip], entries;
      }
      if |entries| >= MAX_IPS {
        EvictOldest(now);
      }
      room := entries;
      entry := Entry(0, now, 0);
      entries := entries[ip := entry];
    }

    /** Check the lock, the window and the attempts of the entry just found. */
    method Decide(ip: string, found: Entry, now: int) returns (d: Decision)
      requires ip in entries && entries[ip] == found
      modifies this`entries
      ensures entries == old(entries)[ip := Touch(cfg, found, now).0]
      ensures d == Touch(cfg, found, now).1
    {
      var entry := found;
      if entry.lockedUntil != 0 && now < entry.lockedUntil {
        return Refuse(WholeSeconds(entry.lockedUntil - now) + 1);
      }
      if now - entry.windowStart > cfg.window {
        entry := entry.(attempts := 0, windowStart := now);
      }
      if entry.attempts >= cfg.maxAttempts {
        entry := Entry(0, now, now + cfg.lockout);
        d := Refuse(WholeSeconds(cfg.lockout));
      } else {
        entry := entry.(attempts := entry.attempts + 1);
        d := Admit;
      }
      entries := entries[ip := entry];
    }

    method Handle(ip: string, now: int) returns (d: Decision)
      modifies this
      ensures Next(cfg, old(Snapshot()), ip, now, Snapshot(), d)
    {
      reqCount := reqCount + 1;
      if reqCount % PRUNE_EVERY == 0 {
        Prune(now);
      }
      assert entries == Kept(cfg, old(Snapshot()), now);
      var entry, room := Lookup(ip, now);
      d := Decide(ip, entry, now);
      assert entries == room[ip := Touch(cfg, entry, now).0];
    }
  }

  // ---------------------------------------------------------------- runs

  datatype Event = Event(ip: string, now: int, decision: Decision)

  ghost predicate Clock(events: seq<Event>) {
    && (forall i :: 0 <= i < |events| ==> 0 < events[i].now)
    && (forall i, j :: 0 <= i <= j < |events| ==> events[i].now <= events[j].now)
  }

  ghost predicate StepAt(cfg: Config, states: seq<State>, events: seq<Event>, i: nat)
    requires |states| == |events| + 1 && i < |events|
  {
    Next(cfg, states[i], events[i].ip, events[i].now, states[i + 1], events[i].decision)
  }

  /** A run from the empty table, over a clock that never goes back. */
  ghost predicate IsRun(cfg: Config, states: seq<State>, events: seq<Event>) {
    && |states| == |events| + 1
    && states[0] == State(map[], 0)
    && Clock(events)
    && forall i :: 0 <= i < |events| ==> StepAt(cfg, states, events, i)
  }

  /** `x` was in the table after pruning and eviction took it away. */
  ghost predicate EvictedAt(cfg: Config, states: seq<State>, events: seq<Event>, i: nat, x: string)
    requires |states| == |events| + 1 && i < |events|
  {
    x in Kept(cfg, states[i], events[i].now) && x !in states[i + 1].entries
  }

  ghost predicate NeverEvicted(cfg: Config, states: seq<State>, events: seq<Event>, x: string)
    requires |states| == |events| + 1
  {
    forall i :: 0 <= i < |events| ==> !EvictedAt(cfg, states, events, i, x)
  }

  lemma RunPrefix(cfg: Config, states: seq<State>, events: seq<Event>)
    requires IsRun(cfg, states, events) && events != []
    ensures IsRun(cfg, states[..|events|], events[..|events| - 1])
    ensures forall x :: NeverEvicted(cfg, states, events, x) ==> NeverEvicted(cfg, states[..|events|], events[..|events| - 1], x)
  {
    var n := |events| - 1;
    var pStates, pEvents := states[..|events|], events[..n];
    forall i | 0 <= i < n
      ensures StepAt(cfg, pStates, pEvents, i)
    {
      assert StepAt(cfg, states, events, i);
    }
    forall x | NeverEvicted(cfg, states, events, x)
      ensures NeverEvicted(cfg, pStates, pEvents, x)
    {
      forall i | 0 <= i < n
        ensures !EvictedAt(cfg, pStates, pEvents, i, x)
      {
        assert !EvictedAt(cfg, states, events, i, x);
      }
    }
  }

  /** The room chosen by a step, as a witness. */
  lemma StepRoom(cfg: Config, s: State, ip: string, now: int, s': State, d: Decision) returns (room: Table)
    requires Next(cfg, s, ip, now, s', d)
    ensures Room(Kept(cfg, s, now), ip, now, room)
    ensures s'.entries == room[ip := Touch(cfg, EntryFor(room, ip, now), now).0]
    ensures d == Touch(cfg, EntryFor(room, ip, now), now).1
    ensures forall x :: x in room ==> x in Kept(cfg, s, now) && room[x] == Kept(cfg, s, now)[x]
    ensures ip in room <==> ip in Kept(cfg, s, now)
  {
    room :| && Room(Kept(cfg, s, now), ip, now, room)
            && s'.entries == room[ip := Touch(cfg, EntryFor(room, ip, now), now).0]
            && d == Touch(cfg, EntryFor(room, ip, now), now).1;
  }

  // ---------------------------------------------------------------- what a request does, on the columns

  /** The entry is locked at `now`. */
  predicate HeldUntil(e: Entry, now: int) {
    e.lockedUntil != 0 && now < e.lockedUntil
  }

  /** What survives a prune: the locked entries and those still inside their window, as they were. */
  lemma PruneKeepsExactly(cfg: Config, t: Table, now: int, ip: string)
    ensures ip in Pruned(cfg, t, now) <==> ip in t && (HeldUntil(t[ip], now) || now - t[ip].windowStart <= cfg.window)
    ensures ip in Pruned(cfg, t, now) ==> Pruned(cfg, t, now)[ip] == t[ip]
  {
  }

  /**
    What one request decides and leaves behind, given the entry it finds.  A locked client stays as it
    is; else a phase older than the window is over, and a client whose attempts in the phase are used
    up is locked from now on.
   */
  lemma StepEffect(cfg: Config, s: State, ip: string, now: int, s': State, d: Decision)
    requires Next(cfg, s, ip, now, s', d)
    ensures ip in s'.entries
    ensures var e := EntryFor(Kept(cfg, s, now), ip, now);
            var e' := s'.entries[ip];
            var over := now - e.windowStart > cfg.window;
            && (d == Admit <==> !HeldUntil(e, now) && cfg.maxAttempts > if over then 0 else e.attempts)
            && (d == Admit ==> e' == if over then Entry(1, now, e.lockedUntil) else e.(attempts := e.attempts + 1))
            && (d.Refuse? && HeldUntil(e, now) ==> e' == e)
            && (d.Refuse? && !HeldUntil(e, now) ==> e' == Entry(0, now, now + cfg.lockout))
  {
    var room := StepRoom(cfg, s, ip, now, s', d);
  }

  /**
    Retry-After in every run.  A request that starts a lock is told the whole seconds of the lockout;
    one that meets a lock is told the first whole second after its end.
   */
  lemma RetryAfterSeconds(cfg: Config, states: seq<State>, events: seq<Event>, i: nat)
    requires IsRun(cfg, states, events) && i < |events| && events[i].decision.Refuse?
    ensures events[i].ip in states[i + 1].entries
    ensures var r, now, until := events[i].decision.retryAfter, events[i].now, states[i + 1].entries[events[i].ip].lockedUntil;
            if events[i].ip in states[i].entries && HeldUntil(states[i].entries[events[i].ip], now) then
              && until == states[i].entries[events[i].ip].lockedUntil
              && (r - 1) * 1_000_000_000 <= until - now < r * 1_000_000_000
            else
              && until == now + cfg.lockout
              && (cfg.lockout >= 0 ==> r * 1_000_000_000 <= cfg.lockout < (r + 1) * 1_000_000_000)
              && (cfg.lockout < 0 ==> (r - 1) * 1_000_000_000 < cfg.lockout <= r * 1_000_000_000)
  {
    var e := events[i];
    assert StepAt(cfg, states, events, i);
    var room := StepRoom(cfg, states[i], e.ip, e.now, states[i + 1], e.decision);
    if e.ip in states[i].entries && HeldUntil(states[i].entries[e.ip], e.now) {
      SecondsRead(states[i].entries[e.ip].lockedUntil - e.now);
    } else {
      SecondsRead(cfg.lockout);
    }
  }

  /** Truncation toward zero. */
  lemma SecondsRead(d: int)
    ensures d >= 0 ==> WholeSeconds(d) * 1_000_000_000 <= d < (WholeSeconds(d) + 1) * 1_000_000_000
    ensures d < 0 ==> (WholeSeconds(d) - 1) * 1_000_000_000 < d <= WholeSeconds(d) * 1_000_000_000
  {
  }

  lemma {:induction false} RequestsCounted(cfg: Config, states: seq<State>, events: seq<Event>, i: nat)
    requires IsRun(cfg, states, events) && i <= |events|
    ensures states[i].reqCount == i
    decreases i
  {
    if i > 0 {
      RequestsCounted(cfg, states, events, i - 1);
      assert StepAt(cfg, states, events, i - 1);
    }
  }

  /**
    When entries go, in every run: every hundredth request drops those that are neither locked nor
    inside their window, and a request that finds fewer than a hundred entries drops no other.
   */
  lemma EntriesGoExactlyWhen(cfg: Config, states: seq<State>, events: seq<Event>, i: nat, x: string)
    requires IsRun(cfg, states, events) && i < |events| && x in states[i].entries && x != events[i].ip
    ensures var e, now := states[i].entries[x], events[i].now;
            && ((i + 1) % 100 == 0 && !HeldUntil(e, now) && now - e.windowStart > cfg.window ==> x !in states[i + 1].entries)
            && (|states[i].entries| < 100 && ((i + 1) % 100 != 0 || HeldUntil(e, now) || now - e.windowStart <= cfg.window) ==>
                  x in states[i + 1].entries && states[i + 1].entries[x] == e)
  {
    var e := events[i];
    assert StepAt(cfg, states, events, i);
    RequestsCounted(cfg, states, events, i);
    var room := StepRoom(cfg, states[i], e.ip, e.now, states[i + 1], e.decision);
    KeptSize(cfg, states[i], e.now);
  }

  lemma KeptSize(cfg: Config, s: State, now: int)
    ensures |Kept(cfg, s, now)| <= |s.entries|
  {
    KeysSubset(Kept(cfg, s, now).Keys, s.entries.Keys);
  }

  lemma {:induction false} KeysSubset(a: set<string>, b: set<string>)
    requires a <= b
    ensures |a| <= |b|
    decreases |a|
  {
    if a != {} {
      var x :| x in a;
      KeysSubset(a - {x}, b - {x});
    }
  }

  // ---------------------------------------------------------------- pruning is invisible

  /** The table of a limiter that neither prunes nor evicts. */
  function Unbounded(cfg: Config, events: seq<Event>): Table {
    if events == [] then map[] else
      var e := events[|events| - 1];
      var t := Unbounded(cfg, events[..|events| - 1]);
      t[e.ip := Touch(cfg, EntryFor(t, e.ip, e.now), e.now).0]
  }

  /** What that limiter answers to request `i`. */
  function UnboundedDecision(cfg: Config, events: seq<Event>, i: nat): Decision
    requires i < |events|
  {
    Touch(cfg, EntryFor(Unbounded(cfg, events[..i]), events[i].ip, events[i].now), events[i].now).1
  }

  /** The two limiters agree on `x` at instant `t` up to stale locks and entries that have expired. */
  ghost predicate Similar(cfg: Config, s: Table, u: Table, x: string, t: int) {
    if x !in u then x !in s
    else if x !in s then Expired(cfg, u[x], t)
    else
      && s[x].attempts == u[x].attempts
      && s[x].windowStart == u[x].windowStart
      && (s[x].lockedUntil == u[x].lockedUntil || (!Locked(s[x], t) && !Locked(u[x], t)))
  }

  lemma SimilarStep(cfg: Config, s: State, u: Table, x: string, ip: string, t: int, now: int, s': State, d: Decision)
    requires Next(cfg, s, ip, now, s', d) && t <= now
    requires Similar(cfg, s.entries, u, x, t)
    requires x in Kept(cfg, s, now) ==> x in s'.entries
    ensures var r := Touch(cfg, EntryFor(u, ip, now), now);
            && Similar(cfg, s'.entries, u[ip := r.0], x, now)
            && (ip == x ==> d == r.1)
  {
    var room := StepRoom(cfg, s, ip, now, s', d);
    assert Similar(cfg, Kept(cfg, s, now), u, x, now);
  }

  lemma {:induction false} SimilarOnRun(cfg: Config, states: seq<State>, events: seq<Event>, x: string)
    requires IsRun(cfg, states, events) && NeverEvicted(cfg, states, events, x)
    ensures Similar(cfg, states[|events|].entries, Unbounded(cfg, events), x, if events == [] then 0 else events[|events| - 1].now)
    ensures forall i :: 0 <= i < |events| && events[i].ip == x ==> events[i].decision == UnboundedDecision(cfg, events, i)
    decreases |events|
  {
    if events != [] {
      var n := |events| - 1;
      var e := events[n];
      RunPrefix(cfg, states, events);
      SimilarOnRun(cfg, states[..|events|], events[..n], x);
      assert StepAt(cfg, states, events, n) && !EvictedAt(cfg, states, events, n, x);
      SimilarStep(cfg, states[n], Unbounded(cfg, events[..n]), x, e.ip,
                  if n == 0 then 0 else events[n - 1].now, e.now, states[n + 1], e.decision);
      forall i | 0 <= i < |events| && events[i].ip == x
        ensures events[i].decision == UnboundedDecision(cfg, events, i)
      {
        if i < n {
          assert events[..n][..i] == events[..i];
          assert events[..n][i].decision == UnboundedDecision(cfg, events[..n], i);
        }
      }
    }
  }

  /**
    Pruning is invisible: in every run in which no entry is evicted, every answer, Retry-After
    included, is the one an unbounded limiter that never prunes would give.
   */
  lemma PruningIsInvisible(cfg: Config, states: seq<State>, events: seq<Event>)
    requires IsRun(cfg, states, events)
    requires forall x :: NeverEvicted(cfg, states, events, x)
    ensures forall i :: 0 <= i < |events| ==> events[i].decision == UnboundedDecision(cfg, events, i)
  {
    forall i | 0 <= i < |events|
      ensures events[i].decision == UnboundedDecision(cfg, events, i)
    {
      SimilarOnRun(cfg, states, events, events[i].ip);
    }
  }

  // ---------------------------------------------------------------- a lockout is never forgotten

  lemma LockSurvivesStep(cfg: Config, s: State, x: string, ip: string, now: int, s': State, d: Decision)
    requires Next(cfg, s, ip, now, s', d)
    requires x in s.entries && Locked(s.entries[x], now)
    ensures x in s'.entries && s'.entries[x] == s.entries[x]
    ensures ip == x ==> d == Refuse(WholeSeconds(s.entries[x].lockedUntil - now) + 1)
  {
    var room := StepRoom(cfg, s, ip, now, s', d);
  }

  /**
    Once `x` is locked until T, nothing other clients do makes the limiter forget it: up to T the
    entry stays as it is and every request from `x` is refused with the seconds still to wait.
   */
  lemma {:induction false} LockoutIsNeverForgotten(cfg: Config, states: seq<State>, events: seq<Event>, x: string, i: nat, j: nat)
    requires IsRun(cfg, states, events) && i <= j < |events|
    requires x in states[i].entries && Locked(states[i].entries[x], events[j].now)
    ensures x in states[j + 1].entries && states[j + 1].entries[x] == states[i].entries[x]
    ensures events[j].ip == x ==>
              events[j].decision == Refuse(WholeSeconds(states[i].entries[x].lockedUntil - events[j].now) + 1)
    decreases j
  {
    if i < j {
      LockoutIsNeverForgotten(cfg, states, events, x, i, j - 1);
    }
    assert StepAt(cfg, states, events, j);
    LockSurvivesStep(cfg, states[j], x, events[j].ip, events[j].now, states[j + 1], events[j].decision);
  }

  // ---------------------------------------------------------------- the size of the table

  /** The step leaves more than MAX_IPS entries and more than it found after pruning. */
  ghost predicate GrowsPast(cfg: Config, s: State, now: int, s': State) {
    |s'.entries| > 100 && |s'.entries| > |Kept(cfg, s, now)|
  }

  lemma StepGrowth(cfg: Config, s: State, ip: string, now: int, s': State, d: Decision)
    requires Next(cfg, s, ip, now, s', d)
    requires GrowsPast(cfg, s, now, s')
    ensures ip !in Kept(cfg, s, now) && |Kept(cfg, s, now)| >= 100
    ensures AllLocked(Kept(cfg, s, now), now) || IsOldest(Kept(cfg, s, now), now, "")
  {
    var kept := Kept(cfg, s, now);
    var room := StepRoom(cfg, s, ip, now, s', d);
    if ip !in kept && |kept| >= MAX_IPS && !AllLocked(kept, now) {
      var victim :| IsOldest(kept, now, victim) && room == Drop(kept, victim);
      if victim != "" {
        assert false;
      }
    }
  }

  /**
    A request can push the table past MAX_IPS exactly when its IP is not tracked, the table is full,
    and either every tracked entry is locked or the entry of the empty IP is an oldest unlocked one
    (`evictOldest` takes "" for "nothing found" and then deletes nothing).
   */
  lemma TableGrowsExactlyWhen(cfg: Config, s: State, ip: string, now: int)
    ensures (exists s', d :: Next(cfg, s, ip, now, s', d) && GrowsPast(cfg, s, now, s'))
       <==> (var kept := Kept(cfg, s, now);
             ip !in kept && |kept| >= 100 && (AllLocked(kept, now) || IsOldest(kept, now, "")))
  {
    var kept := Kept(cfg, s, now);
    if s', d :| Next(cfg, s, ip, now, s', d) && GrowsPast(cfg, s, now, s') {
      StepGrowth(cfg, s, ip, now, s', d);
    }
    if ip !in kept && |kept| >= MAX_IPS && (AllLocked(kept, now) || IsOldest(kept, now, "")) {
      var r := Touch(cfg, EntryFor(kept, ip, now), now);
      var s' := State(kept[ip := r.0], s.reqCount + 1);
      if !AllLocked(kept, now) {
        assert kept == Drop(kept, "");
      }
      assert Room(kept, ip, now, kept);
      assert Next(cfg, s, ip, now, s', r.1) && GrowsPast(cfg, s, now, s');
    }
  }

  lemma {:induction false} OnlyRequestedIps(cfg: Config, states: seq<State>, events: seq<Event>, i: nat, x: string)
    requires IsRun(cfg, states, events) && i <= |events| && (forall j :: 0 <= j < i ==> events[j].ip != x)
    ensures x !in states[i].entries
    decreases i
  {
    if i > 0 {
      OnlyRequestedIps(cfg, states, events, i - 1, x);
      assert StepAt(cfg, states, events, i - 1);
      var e := events[i - 1];
      var room := StepRoom(cfg, states[i - 1], e.ip, e.now, states[i], e.decision);
    }
  }

  /** In a run without requests from the empty IP, the table grows past MAX_IPS only when every tracked entry is locked. */
  lemma GrowthNeedsAllLocked(cfg: Config, states: seq<State>, events: seq<Event>, i: nat)
    requires IsRun(cfg, states, events) && i < |events| && (forall j :: 0 <= j < i ==> events[j].ip != "")
    requires GrowsPast(cfg, states[i], events[i].now, states[i + 1])
    ensures AllLocked(Kept(cfg, states[i], events[i].now), events[i].now)
  {
    OnlyRequestedIps(cfg, states, events, i, "");
    assert StepAt(cfg, states, events, i);
    StepGrowth(cfg, states[i], events[i].ip, events[i].now, states[i + 1], events[i].decision);
  }

  // ---------------------------------------------------------------- a run that grows the table

  /** Client 0 sends no address; the others are told apart by the length of theirs. */
  function Address(i: nat): (ip: string)
    ensures |ip| == i
  {
    seq(i, _ => 'x')
  }

  /** Client 0 comes first, everyone else an instant later. */
  function Arrival(i: nat): int {
    if i == 0 then 1 else 2
  }

  function Arrivals(n: nat): seq<Event> {
    seq(n, i requires 0 <= i => Event(Address(i), Arrival(i), Admit))
  }

  /** The table once the first `n` clients have come, when none is pruned or evicted. */
  function Crowd(n: nat): Table {
    if n == 0 then map[] else Crowd(n - 1)[Address(n - 1) := Entry(1, Arrival(n - 1), 0)]
  }

  lemma {:induction false} CrowdRows(n: nat, ip: string)
    ensures ip in Crowd(n) <==> |ip| < n && ip == Address(|ip|)
    ensures ip in Crowd(n) ==> Crowd(n)[ip] == Entry(1, Arrival(|ip|), 0)
  {
    if n > 0 {
      CrowdRows(n - 1, ip);
    }
  }

  lemma {:induction false} CrowdSize(n: nat)
    ensures |Crowd(n)| == n
  {
    if n > 0 {
      CrowdSize(n - 1);
      CrowdRows(n - 1, Address(n - 1));
    }
  }

  lemma CrowdIsKept(cfg: Config, n: nat)
    requires cfg.window >= 1
    ensures Kept(cfg, State(Crowd(n), n), Arrival(n)) == Crowd(n)
  {
    forall ip | ip in Crowd(n)
      ensures !Expired(cfg, Crowd(n)[ip], Arrival(n))
    {
      CrowdRows(n, ip);
    }
  }

  lemma FullCrowdHasEmptyOldest(n: nat)
    requires n >= 1
    ensures IsOldest(Crowd(n), Arrival(n), "")
  {
    CrowdRows(n, "");
    assert Address(0) == "";
    forall ip | ip in Crowd(n)
      ensures Crowd(n)[""].windowStart <= Crowd(n)[ip].windowStart
    {
      CrowdRows(n, ip);
    }
  }

  lemma NextArrival(cfg: Config, n: nat)
    requires cfg.window >= 1 && cfg.maxAttempts >= 1
    ensures Next(cfg, State(Crowd(n), n), Address(n), Arrival(n), State(Crowd(n + 1), n + 1), Admit)
  {
    CrowdIsKept(cfg, n);
    CrowdSize(n);
    CrowdRows(n, Address(n));
    if n >= MAX_IPS {
      FullCrowdHasEmptyOldest(n);
      assert Crowd(n) == Drop(Crowd(n), "");
    }
    assert Room(Crowd(n), Address(n), Arrival(n), Crowd(n));
  }

  /**
    The table does outgrow its bound with no entry locked: after one request without an address, new
    addresses are all taken in, however many come before the first window ends.  A request has no
    address when its RemoteAddr is empty or only a port, which a TCP listener does not hand over.
   */
  lemma TableOutgrowsBound(cfg: Config, n: nat) returns (states: seq<State>, events: seq<Event>)
    requires cfg.window >= 1 && cfg.maxAttempts >= 1
    ensures IsRun(cfg, states, events) && |events| == n
    ensures |states[n].entries| == n && forall ip :: ip in states[n].entries ==> states[n].entries[ip].lockedUntil == 0
  {
    events := Arrivals(n);
    states := seq(n + 1, i requires 0 <= i => State(Crowd(i), i));
    forall i | 0 <= i < n
      ensures StepAt(cfg, states, events, i)
    {
      NextArrival(cfg, i);
    }
    CrowdSize(n);
    forall ip | ip in Crowd(n)
      ensures Crowd(n)[ip].lockedUntil == 0
    {
      CrowdRows(n, ip);
    }
  }
}
