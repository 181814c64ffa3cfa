/**
  The per-project crawl scheduler of internal/crawler/scheduler.go.  Every operation holds the mutex
  from start to end, StartProject even while it waits for the old goroutine, so operations are atomic
  with respect to each other; only goroutines run beside them.  A goroutine is known by the order in
  which it was started; it leaves its loop only after its context was cancelled.  A ticker with an
  interval that is not positive panics, cancelled or not, which ends the process with all its
  goroutines; an operation that waits for such a goroutine does not live to see it gone.
 */
module CrawlScheduler {
  import opened Basics

  datatype Goroutine = Goroutine(project: string, interval: int, cancelled: bool, exited: bool)

  type World = seq<Goroutine>

  /** The four maps; a cancel function or done channel is named by the goroutine it belongs to. */
  datatype Sched = Sched(
    timers: map<string, int>, intervals: map<string, int>,
    cancelFuncs: map<string, nat>, doneChans: map<string, nat>,
    world: World)

  // ---------------------------------------------------------------- what goroutines do meanwhile

  /** Some cancelled goroutines leave; nothing else changes. */
  ghost predicate Leaves(w: World, w': World) {
    && |w'| == |w|
    && forall i :: 0 <= i < |w| ==> w'[i] == w[i] || (w[i].cancelled && w[i].interval > 0 && w'[i] == w[i].(exited := true))
  }

  function Cancel(w: World, g: nat): World {
    if g < |w| then w[g := w[g].(cancelled := true)] else w
  }

  ghost function CancelAll(w: World, gs: set<nat>): World {
    seq(|w|, i requires 0 <= i < |w| => if i in gs then w[i].(cancelled := true) else w[i])
  }

  // ---------------------------------------------------------------- the invariant

  predicate Registered(s: Sched, name: string, g: nat) {
    && g < |s.world| && s.world[g].project == name && !s.world[g].cancelled && !s.world[g].exited
    && name in s.intervals && s.intervals[name] == s.world[g].interval
    && name in s.doneChans && s.doneChans[name] == g
  }

  predicate SameKeys(s: Sched) {
    s.timers.Keys == s.intervals.Keys == s.cancelFuncs.Keys == s.doneChans.Keys
  }

  /** A name's cancel function and done channel belong to one goroutine of that project, not cancelled and not gone. */
  ghost predicate NamesAreRegistered(s: Sched) {
    forall name :: name in s.cancelFuncs ==> Registered(s, name, s.cancelFuncs[name])
  }

  /** A goroutine that is not cancelled is the registered one of its project; one that is gone was cancelled. */
  predicate Accounted(s: Sched, g: nat)
    requires g < |s.world|
  {
    && (!s.world[g].cancelled ==> s.world[g].project in s.cancelFuncs && s.cancelFuncs[s.world[g].project] == g)
    && (s.world[g].exited ==> s.world[g].cancelled)
  }

  ghost predicate Valid(s: Sched) {
    SameKeys(s) && NamesAreRegistered(s) && forall g :: 0 <= g < |s.world| ==> Accounted(s, g)
  }

  /** Cancelled or not, the goroutine is still running. */
  predicate Live(w: World, g: nat, name: string) {
    g < |w| && w[g].project == name && !w[g].exited
  }

  // ---------------------------------------------------------------- operations

  datatype Op = Start(name: string, interval: int) | Stop(name: string) | StopAll | Run | Panic

  const EMPTY: Sched := Sched(map[], map[], map[], map[], [])

  ghost predicate StartsAfter(s: Sched, name: string, w: World) {
    && Leaves(if name in s.cancelFuncs then Cancel(s.world, s.cancelFuncs[name]) else s.world, w)
    && (name in s.cancelFuncs && name in s.doneChans && s.doneChans[name] < |w| ==> w[s.doneChans[name]].exited)
  }

  /** A new goroutine, registered under its project, in the world `w`. */
  function Started(s: Sched, name: string, interval: int, w: World): Sched {
    Sched(s.timers[name := interval], s.intervals[name := interval],
          s.cancelFuncs[name := |w|], s.doneChans[name := |w|], w + [Goroutine(name, interval, false, false)])
  }

  /** A goroutine that was started with an interval its ticker does not take. */
  predicate Doomed(w: World) {
    exists g :: 0 <= g < |w| && w[g].interval <= 0
  }

  ghost predicate Next(s: Sched, op: Op, s': Sched) {
    match op
    case Start(name, interval) =>
      exists w: World :: StartsAfter(s, name, w) && s' == Started(s, name, interval, w)
    case Stop(name) =>
      s' == Sched(s.timers - {name}, s.intervals - {name}, s.cancelFuncs - {name}, s.doneChans - {name},
                  if name in s.cancelFuncs then Cancel(s.world, s.cancelFuncs[name]) else s.world)
    case StopAll =>
      s' == Sched(map[], map[], map[], map[], CancelAll(s.world, s.cancelFuncs.Values))
    case Run =>
      Leaves(s.world, s'.world) && s' == s.(world := s'.world)
    case Panic =>
      Doomed(s.world) && s' == EMPTY      // the process starts again
  }

  lemma StopKeepsValid(s: Sched, name: string, s': Sched)
    requires Valid(s) && Next(s, Stop(name), s')
    ensures Valid(s')
  {
    forall n | n in s'.cancelFuncs
      ensures Registered(s', n, s'.cancelFuncs[n])
    {
      assert Registered(s, n, s.cancelFuncs[n]);
      if name in s.cancelFuncs {
        assert Registered(s, name, s.cancelFuncs[name]);
      }
    }
    forall g | 0 <= g < |s'.world|
      ensures Accounted(s', g)
    {
      assert Accounted(s, g);
    }
  }

  lemma StopAllKeepsValid(s: Sched, s': Sched)
    requires Valid(s) && Next(s, StopAll, s')
    ensures Valid(s') && forall g :: 0 <= g < |s'.world| ==> s'.world[g].cancelled
  {
    forall g | 0 <= g < |s'.world|
      ensures s'.world[g].cancelled && Accounted(s', g)
    {
      assert Accounted(s, g);
      if !s.world[g].cancelled {
        assert s.cancelFuncs[s.world[g].project] == g;
        assert g in s.cancelFuncs.Values;
      }
    }
  }

  lemma RunKeepsValid(s: Sched, s': Sched)
    requires Valid(s) && Next(s, Run, s')
    ensures Valid(s')
  {
    forall n | n in s'.cancelFuncs
      ensures Registered(s', n, s'.cancelFuncs[n])
    {
      assert Registered(s, n, s.cancelFuncs[n]);
    }
    forall g | 0 <= g < |s'.world|
      ensures Accounted(s', g)
    {
      assert Accounted(s, g);
    }
  }

  lemma StepKeepsValid(s: Sched, op: Op, s': Sched)
    requires Valid(s) && Next(s, op, s')
    ensures Valid(s')
  {
    match op {
      case Start(name, interval) => StartKeepsValid(s, name, interval, s');
      case Stop(name) => StopKeepsValid(s, name, s');
      case StopAll => StopAllKeepsValid(s, s');
      case Run => RunKeepsValid(s, s');
      case Panic =>
    }
  }

  /** By the time the new goroutine starts, the others of the project are all cancelled and the rest are as they were. */
  lemma WorldAtStart(s: Sched, name: string, w: World, g: nat)
    requires Valid(s) && StartsAfter(s, name, w) && g < |s.world|
    ensures |w| == |s.world| && w[g].project == s.world[g].project
    ensures w[g].exited ==> w[g].cancelled
    ensures w[g].project == name ==> w[g].cancelled
    ensures w[g].project != name && !s.world[g].cancelled ==> w[g] == s.world[g]
    ensures s.world[g].cancelled ==> w[g].cancelled
  {
    assert Accounted(s, g);
    if name in s.cancelFuncs {
      assert Registered(s, name, s.cancelFuncs[name]);
    }
  }

  lemma StartedAccounts(s: Sched, name: string, interval: int, w: World, g: nat)
    requires Valid(s) && StartsAfter(s, name, w) && g < |Started(s, name, interval, w).world|
    ensures Accounted(Started(s, name, interval, w), g)
  {
    if g < |s.world| {
      WorldAtStart(s, name, w, g);
      assert Accounted(s, g);
    }
  }

  lemma StartedRegisters(s: Sched, name: string, interval: int, w: World, n: string)
    requires Valid(s) && StartsAfter(s, name, w) && n in Started(s, name, interval, w).cancelFuncs
    ensures Registered(Started(s, name, interval, w), n, Started(s, name, interval, w).cancelFuncs[n])
  {
    if n != name {
      assert Registered(s, n, s.cancelFuncs[n]);
      WorldAtStart(s, name, w, s.cancelFuncs[n]);
    }
  }

  lemma StartedIsValid(s: Sched, name: string, interval: int, w: World)
    requires Valid(s) && StartsAfter(s, name, w)
    ensures Valid(Started(s, name, interval, w))
  {
    var s' := Started(s, name, interval, w);
    forall g | 0 <= g < |s'.world|
      ensures Accounted(s', g)
    {
      StartedAccounts(s, name, interval, w, g);
    }
    forall n | n in s'.cancelFuncs
      ensures Registered(s', n, s'.cancelFuncs[n])
    {
      StartedRegisters(s, name, interval, w, n);
    }
  }

  lemma StartKeepsValid(s: Sched, name: string, interval: int, s': Sched)
    requires Valid(s) && Next(s, Start(name, interval), s')
    ensures Valid(s')
    ensures ReplacedIsGone(s, Start(name, interval), s')
  {
    var w: World :| StartsAfter(s, name, w) && s' == Started(s, name, interval, w);
    StartedIsValid(s, name, interval, w);
    if name in s.cancelFuncs {
      assert Registered(s, name, s.cancelFuncs[name]);
    }
  }

  lemma PutAfterDelete<V>(m: map<string, V>, name: string, v: V)
    ensures (m - {name})[name := v] == m[name := v]
  {
  }

  lemma StartIsNext(s: Sched, name: string, interval: int, w: World)
    requires Valid(s) && StartsAfter(s, name, w)
    ensures var s' := Started(s, name, interval, w);
            Next(s, Start(name, interval), s') && Valid(s') && ReplacedIsGone(s, Start(name, interval), s')
  {
    StartKeepsValid(s, name, interval, Started(s, name, interval, w));
  }

  /** The registered goroutine of `name`, if any, is gone and forgotten. */
  ghost predicate Retired(s: Sched, name: string, s': Sched) {
    && StartsAfter(s, name, s'.world)
    && s' == Sched(s.timers - {name}, s.intervals, s.cancelFuncs - {name}, s.doneChans - {name}, s'.world)
  }

  lemma StartAfterRetire(s: Sched, name: string, interval: int, s1: Sched)
    requires Valid(s) && Retired(s, name, s1)
    ensures var s' := Started(s1, name, interval, s1.world);
            Next(s, Start(name, interval), s') && Valid(s') && ReplacedIsGone(s, Start(name, interval), s')
  {
    PutAfterDelete(s.cancelFuncs, name, |s1.world|);
    PutAfterDelete(s.doneChans, name, |s1.world|);
    PutAfterDelete(s.timers, name, interval);
    StartIsNext(s, name, interval, s1.world);
  }

  ghost predicate IsRun(states: seq<Sched>, ops: seq<Op>) {
    && |states| == |ops| + 1
    && states[0] == EMPTY
    && forall i :: 0 <= i < |ops| ==> Next(states[i], ops[i], states[i + 1])
  }

  /** If the operation replaced a registered goroutine, that one has exited. */
  ghost predicate ReplacedIsGone(s: Sched, op: Op, s': Sched) {
    op.Start? && op.name in s.cancelFuncs ==>
      s.cancelFuncs[op.name] < |s'.world| && s'.world[s.cancelFuncs[op.name]].exited
  }

  /** A project's goroutines that are not cancelled are one, the registered one. */
  ghost predicate OneUncancelled(s: Sched) {
    forall g, h :: 0 <= g < h < |s.world| && s.world[g].project == s.world[h].project ==>
      s.world[g].cancelled || s.world[h].cancelled
  }

  lemma ValidMeansOne(s: Sched)
    requires Valid(s)
    ensures OneUncancelled(s)
  {
    forall g, h | 0 <= g < h < |s.world| && s.world[g].project == s.world[h].project
      ensures s.world[g].cancelled || s.world[h].cancelled
    {
      assert Accounted(s, g) && Accounted(s, h);
    }
  }

  /**
    Over every run of starts, stops, goroutine exits and panics: between operations the four maps have
    equal keys, and each project has at most one goroutine that is not cancelled, the registered one.
    A start that replaces a registered goroutine begins the new one only after the old one has exited.
   */
  lemma {:induction false} SchedulerInvariant(states: seq<Sched>, ops: seq<Op>)
    requires IsRun(states, ops)
    ensures forall i :: 0 <= i < |states| ==> Valid(states[i]) && OneUncancelled(states[i])
    ensures forall i :: 0 <= i < |ops| ==> ReplacedIsGone(states[i], ops[i], states[i + 1])
    decreases |ops|
  {
    var n := |ops|;
    if n > 0 {
      SchedulerInvariant(states[..n], ops[..n - 1]);
      assert states[..n][n - 1] == states[n - 1];
      StepKeepsValid(states[n - 1], ops[n - 1], states[n]);
      if ops[n - 1].Start? {
        StartKeepsValid(states[n - 1], ops[n - 1].name, ops[n - 1].interval, states[n]);
      }
      forall i | 0 <= i < n
        ensures ReplacedIsGone(states[i], ops[i], states[i + 1])
      {
        if i < n - 1 {
          assert ReplacedIsGone(states[..n][i], ops[..n - 1][i], states[..n][i + 1]);
        }
      }
    }
    ValidMeansOne(states[n]);
  }

  // ---------------------------------------------------------------- intervals

  /** Since the process last began, some project was started with an interval that is not positive. */
  ghost predicate BadStart(ops: seq<Op>) {
    exists i :: 0 <= i < |ops| && ops[i].Start? && ops[i].interval <= 0 && forall j :: i < j < |ops| ==> !ops[j].Panic?
  }

  ghost predicate SameIntervals(w: World, w': World) {
    |w'| == |w| && forall g :: 0 <= g < |w| ==> w'[g].interval == w[g].interval
  }

  lemma StartDooms(s: Sched, name: string, interval: int, w: World)
    requires StartsAfter(s, name, w)
    ensures Doomed(Started(s, name, interval, w).world) <==> Doomed(s.world) || interval <= 0
  {
    assert SameIntervals(s.world, w);
    var all := w + [Goroutine(name, interval, false, false)];
    assert all[|w|].interval == interval;
    if Doomed(s.world) {
      var g :| 0 <= g < |s.world| && s.world[g].interval <= 0;
      assert all[g].interval == w[g].interval;
    }
    if Doomed(all) {
      var g :| 0 <= g < |all| && all[g].interval <= 0;
      assert g < |w| ==> s.world[g].interval <= 0;
    }
  }

  lemma StepDooms(s: Sched, op: Op, s': Sched)
    requires Next(s, op, s')
    ensures Doomed(s'.world) <==> !op.Panic? && (Doomed(s.world) || (op.Start? && op.interval <= 0))
  {
    if op.Start? {
      var w: World :| StartsAfter(s, op.name, w) && s' == Started(s, op.name, op.interval, w);
      StartDooms(s, op.name, op.interval, w);
    } else if !op.Panic? {
      assert SameIntervals(s.world, s'.world);
    }
  }

  /** The process can panic exactly when some project was started with an interval that is not positive. */
  lemma {:induction false} PanicsExactlyWhen(states: seq<Sched>, ops: seq<Op>)
    requires IsRun(states, ops)
    ensures Next(states[|ops|], Panic, EMPTY) <==> BadStart(ops)
    decreases |ops|
  {
    var n := |ops|;
    if n > 0 {
      PanicsExactlyWhen(states[..n], ops[..n - 1]);
      StepDooms(states[n - 1], ops[n - 1], states[n]);
      BadStartNext(ops[..n - 1], ops[n - 1]);
      assert ops[..n - 1] + [ops[n - 1]] == ops;
    }
  }

  lemma BadStartNext(ops: seq<Op>, op: Op)
    ensures BadStart(ops + [op]) <==> !op.Panic? && (BadStart(ops) || (op.Start? && op.interval <= 0))
  {
    var all := ops + [op];
    if BadStart(all) {
      var i :| 0 <= i < |all| && all[i].Start? && all[i].interval <= 0 && forall j :: i < j < |all| ==> !all[j].Panic?;
      assert all[|ops|] == op;
      if i < |ops| {
        assert forall j :: i < j < |ops| ==> ops[j] == all[j];
        assert ops[i].Start?;
      }
    }
    if !op.Panic? && op.Start? && op.interval <= 0 {
      assert all[|ops|].Start?;
    }
    if !op.Panic? && BadStart(ops) {
      var i :| 0 <= i < |ops| && ops[i].Start? && ops[i].interval <= 0 && forall j :: i < j < |ops| ==> !ops[j].Panic?;
      assert all[i].Start?;
    }
  }

  // ---------------------------------------------------------------- duplicates

  /** Every goroutine of the project still running is the registered one. */
  ghost predicate OnlyRegistered(s: Sched, name: string) {
    forall g: nat :: Live(s.world, g, name) ==> name in s.cancelFuncs && s.cancelFuncs[name] == g
  }

  /** The only goroutine of the project still running is `g`. */
  ghost predicate OnlyLive(w: World, name: string, g: nat) {
    forall h: nat :: Live(w, h, name) <==> h == g
  }

  lemma StartLeavesOnlyNew(s: Sched, name: string, interval: int, s': Sched)
    requires Valid(s) && Next(s, Start(name, interval), s') && OnlyRegistered(s, name)
    ensures OnlyLive(s'.world, name, |s.world|)
  {
    var w: World :| StartsAfter(s, name, w) && s' == Started(s, name, interval, w);
    assert |w| == |s.world|;
    forall g: nat | g < |s.world|
      ensures !Live(s'.world, g, name)
    {
      OthersAreGone(s, name, w, g);
      assert s'.world[g] == w[g];
    }
  }

  lemma OthersAreGone(s: Sched, name: string, w: World, g: nat)
    requires Valid(s) && StartsAfter(s, name, w) && OnlyRegistered(s, name) && g < |s.world|
    ensures !Live(w, g, name)
  {
    WorldAtStart(s, name, w, g);
    if name in s.cancelFuncs {
      assert Registered(s, name, s.cancelFuncs[name]);
    }
    assert Live(w, g, name) ==> Live(s.world, g, name);
  }

  /** The goroutine a start would wait for panics instead of leaving. */
  predicate WaitIsDeadly(s: Sched, name: string) {
    name in s.cancelFuncs && s.cancelFuncs[name] < |s.world| && s.world[s.cancelFuncs[name]].interval <= 0
  }

  lemma DeadlyWaitNeverEnds(s: Sched, name: string, w: World)
    requires Valid(s) && WaitIsDeadly(s, name)
    ensures !StartsAfter(s, name, w)
  {
    assert Registered(s, name, s.cancelFuncs[name]);
  }

  /** A start waits for the registered goroutine only: any other one of the project may run on. */
  lemma StartLeavesStraggler(s: Sched, name: string, interval: int, g: nat) returns (s': Sched)
    requires Valid(s) && Live(s.world, g, name) && !(name in s.cancelFuncs && s.cancelFuncs[name] == g) && !WaitIsDeadly(s, name)
    ensures Next(s, Start(name, interval), s') && Live(s'.world, g, name)
  {
    var w := s.world;
    if name in s.cancelFuncs {
      var r := s.cancelFuncs[name];
      assert Registered(s, name, r);
      w := Cancel(s.world, r);
      w := w[r := w[r].(exited := true)];
    }
    assert StartsAfter(s, name, w);
    s' := Started(s, name, interval, w);
    assert s'.world[g] == w[g];
  }

  /**
    A start prevents duplicates exactly when no goroutine of an earlier, stopped registration is
    still running: then, and only then, the new goroutine is surely the only live one of its project.
    (A start that waits for a goroutine with a bad interval does not get to start anything.)
   */
  lemma StartIsAlone(s: Sched, name: string, interval: int)
    requires Valid(s)
    ensures (forall s' :: Next(s, Start(name, interval), s') ==> OnlyLive(s'.world, name, |s.world|))
       <==> OnlyRegistered(s, name) || WaitIsDeadly(s, name)
  {
    if WaitIsDeadly(s, name) {
      forall w: World
        ensures !StartsAfter(s, name, w)
      {
        DeadlyWaitNeverEnds(s, name, w);
      }
    } else if OnlyRegistered(s, name) {
      forall s' | Next(s, Start(name, interval), s')
        ensures OnlyLive(s'.world, name, |s.world|)
      {
        StartLeavesOnlyNew(s, name, interval, s');
      }
    } else {
      var g: nat :| Live(s.world, g, name) && !(name in s.cancelFuncs && s.cancelFuncs[name] == g);
      var s' := StartLeavesStraggler(s, name, interval, g);
      assert g < |s.world|;
    }
  }

  /** Stop followed by start does not wait: two goroutines of one project can run at once, one of them cancelled. */
  lemma StopThenStartOverlaps(name: string, interval: int) returns (states: seq<Sched>, ops: seq<Op>)
    ensures IsRun(states, ops) && |ops| == 3
    ensures Live(states[3].world, 0, name) && Live(states[3].world, 1, name)
  {
    var old1, new1 := Goroutine(name, interval, true, false), Goroutine(name, interval, false, false);
    var m, m0, m1 := map[name := interval], map[name := 0 as nat], map[name := 1 as nat];
    var s1 := Sched(m, m, m0, m0, [new1]);
    var s2 := Sched(map[], map[], map[], map[], [old1]);
    var s3 := Sched(m, m, m1, m1, [old1, new1]);
    assert StartsAfter(EMPTY, name, []) && [] + [new1] == [new1];
    assert Next(EMPTY, Start(name, interval), s1);
    assert Next(s1, Stop(name), s2);
    assert StartsAfter(s2, name, s2.world) && s2.world + [new1] == s3.world;
    assert Next(s2, Start(name, interval), s3);
    states, ops := [EMPTY, s1, s2, s3], [Start(name, interval), Stop(name), Start(name, interval)];
  }

  lemma CancelNone(w: World)
    ensures CancelAll(w, {}) == w
  {
  }

  lemma CancelOneMore(w: World, gs: set<nat>, g: nat)
    requires g < |w|
    ensures Cancel(CancelAll(w, gs), g) == CancelAll(w, gs + {g})
  {
  }

  /** Halfway through cancelling all of `funcs`: `left` are still to be called, `done` have been. */
  ghost predicate Cancelling(funcs: map<string, nat>, w: World, left: map<string, nat>, now: World, done: set<nat>) {
    && (forall n :: n in funcs ==> funcs[n] < |w|)
    && (forall n :: n in left ==> n in funcs && left[n] == funcs[n])
    && (forall n :: n in funcs && n !in left ==> funcs[n] in done)
    && done <= funcs.Values
    && now == CancelAll(w, done)
  }

  lemma CancelNext(funcs: map<string, nat>, w: World, left: map<string, nat>, now: World, done: set<nat>, name: string)
    requires Cancelling(funcs, w, left, now, done) && name in left
    ensures Cancelling(funcs, w, left - {name}, Cancel(now, left[name]), done + {left[name]})
  {
    CancelOneMore(w, done, left[name]);
  }

  // ---------------------------------------------------------------- the scheduler object

  class Scheduler {
    var timers: map<string, int>
    var intervals: map<string, int>
    var cancelFuncs: map<string, nat>
    var doneChans: map<string, nat>
    var started: nat               // goroutines started so far
    ghost var world: World

    constructor ()
      ensures State() == EMPTY && Consistent()
    {
      timers, intervals, cancelFuncs, doneChans := map[], map[], map[], map[];
      world, started := [], 0;
    }

    ghost function State(): Sched
      reads this
    {
      Sched(timers, intervals, cancelFuncs, doneChans, world)
    }

    ghost predicate Consistent()
      reads this
    {
      started == |world| && Valid(State())
    }

    /** Block until goroutine `g` is gone; others that are cancelled may leave meanwhile. */
    ghost method Await(g: nat)
      requires g < |world| && world[g].cancelled && world[g].interval > 0
      modifies this`world
      ensures Leaves(old(world), world) && world[g].exited
    {
      assert Leaves(world, world[g := world[g].(exited := true)]);
      var w: World :| Leaves(world, w) && w[g].exited;
      world := w;
    }

    /** Cancel the registered goroutine, if any, wait for it, and forget it. */
    method Retire(name: string)
      requires Valid(State()) && !WaitIsDeadly(State(), name)
      modifies this`world, this`timers, this`cancelFuncs, this`doneChans
      ensures Retired(old(State()), name, State()) && |world| == |old(world)|
    {
      if name in cancelFuncs {
        assert Registered(State(), name, cancelFuncs[name]);
        world := Cancel(world, cancelFuncs[name]);
        if name in doneChans {
          Await(doneChans[name]);
        }
        cancelFuncs := cancelFuncs - {name};
        doneChans := doneChans - {name};
      }
      if name in timers {
        timers := timers - {name};
      }
    }

    /** What is left of the scheduler when a ticker panics: the process starts again with nothing. */
    method Die()
      modifies this
      ensures State() == EMPTY && Consistent()
    {
      timers, intervals, cancelFuncs, doneChans := map[], map[], map[], map[];
      world, started := [], 0;
    }

    /**
      Any interval is accepted here; one that is not positive panics later, in the goroutine.  Waiting
      for a goroutine that was started with one ends in that panic.
     */
    method StartProject(name: string, interval: int) returns (died: bool)
      requires Consistent()
      modifies this
      ensures Consistent() && died == WaitIsDeadly(old(State()), name)
      ensures died ==> Next(old(State()), Panic, State())
      ensures !died ==> Next(old(State()), Start(name, interval), State()) && ReplacedIsGone(old(State()), Start(name, interval), State())
    {
      ghost var s := State();
      if name in cancelFuncs {
        assert Registered(s, name, cancelFuncs[name]);
        if intervals[name] <= 0 {        // how the wait for it would end
          Die();
          return true;
        }
      }
      ghost var s1 := StartNew(name, interval);
      StartAfterRetire(s, name, interval, s1);
      return false;
    }

    method StartNew(name: string, interval: int) returns (ghost s1: Sched)
      requires Consistent() && !WaitIsDeadly(State(), name)
      modifies this
      ensures Retired(old(State()), name, s1)
      ensures State() == Started(s1, name, interval, s1.world) && started == |world|
    {
      Retire(name);
      s1 := State();
      Register(name, interval);
    }

    method Register(name: string, interval: int)
      requires started == |world|
      modifies this
      ensures State() == Started(old(State()), name, interval, old(world)) && started == |world|
    {
      var g := Spawn(name, interval);
      cancelFuncs := cancelFuncs[name := g];
      intervals := intervals[name := interval];
      doneChans := doneChans[name := g];
      timers := timers[name := interval];
    }

    /** A new context, done channel and goroutine; the result names them. */
    method Spawn(name: string, interval: int) returns (g: nat)
      requires started == |world|
      modifies this`world, this`started
      ensures g == |old(world)| && world == old(world) + [Goroutine(name, interval, false, false)] && started == |world|
    {
      g := started;
      started := started + 1;
      world := world + [Goroutine(name, interval, false, false)];
    }

    method StopProject(name: string)
      requires Consistent()
      modifies this
      ensures Next(old(State()), Stop(name), State()) && Consistent()
    {
      ghost var s := State();
      if name in cancelFuncs {
        world := Cancel(world, cancelFuncs[name]);
        cancelFuncs := cancelFuncs - {name};
      }
      if name in timers {
        timers := timers - {name};
      }
      intervals := intervals - {name};
      doneChans := doneChans - {name};
      StopKeepsValid(s, name, State());
    }

    /** Call and drop every cancel function, in any order. */
    method CancelEach()
      requires forall n :: n in cancelFuncs ==> cancelFuncs[n] < |world|
      modifies this`world, this`cancelFuncs
      ensures cancelFuncs == map[] && world == CancelAll(old(world), old(cancelFuncs).Values)
    {
      ghost var funcs, w := cancelFuncs, world;
      ghost var done: set<nat> := {};
      CancelNone(world);
      while cancelFuncs != map[]
        invariant Cancelling(funcs, w, cancelFuncs, world, done)
        decreases cancelFuncs.Keys
      {
        var name :| name in cancelFuncs;
        CancelNext(funcs, w, cancelFuncs, world, done, name);
        done := done + {cancelFuncs[name]};
        world := Cancel(world, cancelFuncs[name]);
        cancelFuncs := cancelFuncs - {name};
      }
      assert done == funcs.Values;
    }

    method StopAll()
      requires Consistent()
      modifies this
      ensures Next(old(State()), Op.StopAll, State()) && Consistent()
      ensures forall g :: 0 <= g < |world| ==> world[g].cancelled
    {
      ghost var s := State();
      assert forall n :: n in s.cancelFuncs ==> Registered(s, n, s.cancelFuncs[n]);
      CancelEach();
      var todo := timers.Keys;
      while todo != {}
        invariant timers.Keys == todo
        invariant started == |world| && cancelFuncs == map[] && world == CancelAll(s.world, s.cancelFuncs.Values)
        decreases todo
      {
        var name :| name in todo;
        timers := timers - {name};
        todo := todo - {name};
      }
      intervals := map[];
      doneChans := map[];
      StopAllKeepsValid(s, State());
    }

    /** A project is running exactly when it has a goroutine that is not cancelled. */
    method Running(name: string) returns (running: bool)
      requires Consistent()
      ensures running <==> exists g :: 0 <= g < |world| && world[g].project == name && !world[g].cancelled
    {
      running := name in cancelFuncs;
      if running {
        assert Registered(State(), name, cancelFuncs[name]);
        assert world[cancelFuncs[name]].project == name;
      }
      forall g | 0 <= g < |world| && world[g].project == name && !world[g].cancelled
        ensures running
      {
        assert Accounted(State(), g);
      }
    }
  }
}
