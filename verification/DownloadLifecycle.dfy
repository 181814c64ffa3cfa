/**
  One file from row to disk: DownloadFile of internal/service/file_service.go, the row updates of
  internal/db/repo_file.go and the retry worker of cmd/mibeehive.

  The state is the row, the two paths on disk, where the file's one downloader is in its code, where
  the zombie cleanup is and what an administrator's retry has done so far.  A step is one database
  statement, one file-system call or one chunk written, so the cleanup, resets, crashes and
  cancellations fall between any two of them.  Whether bytes are a valid archive is an arbitrary
  predicate.

  A download is begun by the crawler that created the row, by the retry worker, or by the request of
  an administrator.  Worker and cleanup are one goroutine (cmd/mibeehive/init.go), so the cleanup
  never looks at a file while the worker downloads it.
 */
module DownloadLifecycle {
  import opened Basics

  const MAX_RETRIES := 3

  datatype Status = Pending | Downloading | Complete | Errored | FailedPermanent

  datatype Row = Row(status: Status, retryCount: int, sizeBytes: int)

  /** Contents of a path, with the size its downloader was told to expect (0 when unknown). */
  datatype Blob = Blob(bytes: string, wanted: int)

  datatype Phase =
    | Idle
    | Queued(wanted: int)                                              // before the status is set
    | Attempt(n: nat, wanted: int)                                     // before attempt n
    | Writing(n: nat, wanted: int, written: string, linked: bool)      // linked: the open file is still at the temp path
    | Checked(wanted: int)                                             // the attempt succeeded
    | Verified(wanted: int)                                            // the archive was accepted
    | Renamed
    | Failing                                                          // about to be charged
    | Marking                                                          // charged out, not yet marked

  datatype Cleanup = Off | Picked | Found(size: int) | Missing | Cleared

  /**
    Whether the retry worker is the one downloading; the size it read if the file is on its list; the
    size read by an administrator's request that has still to reset the row; the size for a download
    that a crawl or a request is about to begin.
   */
  datatype Callers = Callers(byWorker: bool, listed: Option<int>, seen: Option<int>, waiting: Option<int>)

  const NOBODY := Callers(false, None, None, None)

  /** The worker has the file on its list or is downloading it. */
  predicate WorkerHas(s: State) {
    s.callers.listed.Some? || (s.callers.byWorker && s.phase != Idle)
  }

  datatype State = State(row: Row, temp: Option<Blob>, final: Option<Blob>, phase: Phase, cleanup: Cleanup, callers: Callers)

  type Validator = string -> bool

  datatype Action =
    | Enlist | Start                              // the worker lists the file; it comes to it
    | Begin                                       // the download that was waiting: the crawl's or the request's
    | LookUp | ResetRetry | DropRequest           // an administrator's retry: read the row, reset it; or the request ends there
    | Decline                                     // cancelled or no disk space before anything was done
    | SetDownloading
    | BeginWrite | Write(chunk: string) | EndWrite
    | FailAttempt | FailClient | Cancel           // retried error; 4xx answer; cancelled between attempts
    | Verify | Reject                             // Reject: a check or the rename failed
    | Rename | SetComplete
    | Charge | Mark
    | LoseStatement                               // a database statement of the downloader fails
    | Crash
    | Unlink                                      // the temp path is removed from outside the attempt
    | Pick | Stat(found: bool) | Adopt | Clear | Reset | SkipCleanup

  predicate SizeOk(bytes: string, wanted: int) {
    |bytes| > 0 && (wanted > 0 ==> |bytes| == wanted)
  }

  /** When an action can happen. */
  predicate Enabled(valid: Validator, s: State, a: Action) {
    match a
    case Enlist =>
      && !WorkerHas(s) && s.cleanup == Off
      && (s.row.status == Pending || s.row.status == Errored) && s.row.retryCount < MAX_RETRIES
    case Start => s.phase == Idle && s.callers.listed.Some? && s.callers.waiting == None
    case Begin => s.phase == Idle && s.callers.waiting.Some?
    case LookUp => s.callers.seen == None && (s.row.status == Errored || s.row.status == FailedPermanent)
    case ResetRetry => s.callers.seen.Some? && s.callers.waiting == None
    case DropRequest => s.callers.seen.Some?
    case Decline => s.phase.Queued?
    case SetDownloading => s.phase.Queued?
    case BeginWrite => s.phase.Attempt?
    case Write(_) => s.phase.Writing?
    case EndWrite => s.phase.Writing? && SizeOk(s.phase.written, s.phase.wanted)
    case FailAttempt => s.phase.Attempt? || s.phase.Writing?
    case FailClient => s.phase.Attempt?
    case Cancel => s.phase.Attempt? && s.phase.n > 0
    case Verify => s.phase.Checked? && s.temp.Some? && |s.temp.value.bytes| > 0 && valid(s.temp.value.bytes)
    case Reject => s.phase.Checked? || s.phase.Verified?
    case Rename => s.phase.Verified? && s.temp.Some?
    case SetComplete => s.phase == Renamed
    case Charge => s.phase == Failing
    case Mark => s.phase == Marking
    case LoseStatement => s.phase.Queued? || s.phase == Renamed || s.phase == Failing || s.phase == Marking
    case Crash => true
    case Unlink => true
    case Pick => s.cleanup == Off && s.row.status == Downloading && !WorkerHas(s)
    case Stat(found) => s.cleanup == Picked && (found ==> s.final.Some? && |s.final.value.bytes| > 0)
    case Adopt => s.cleanup.Found?
    case Clear => s.cleanup == Missing
    case Reset => s.cleanup == Cleared
    case SkipCleanup => s.cleanup.Found? || s.cleanup == Cleared
  }

  /** The temp path with nothing at it; a file being written goes on without a name. */
  function Unlinked(s: State): State {
    s.(temp := None, phase := if s.phase.Writing? then s.phase.(linked := false) else s.phase)
  }

  /** What the action does. */
  function Apply(s: State, a: Action): State {
    match a
    case Enlist => s.(callers := s.callers.(listed := Some(s.row.sizeBytes)))
    case Start =>
      if s.callers.listed.Some?
      then s.(phase := Queued(s.callers.listed.value), callers := s.callers.(byWorker := true, listed := None)) else s
    case Begin =>
      if s.callers.waiting.Some?
      then s.(phase := Queued(s.callers.waiting.value), callers := s.callers.(byWorker := false, waiting := None)) else s
    case LookUp => s.(callers := s.callers.(seen := Some(s.row.sizeBytes)))
    case ResetRetry =>
      s.(row := s.row.(status := Pending, retryCount := 0), callers := s.callers.(seen := None, waiting := s.callers.seen))
    case DropRequest => s.(callers := s.callers.(seen := None))
    case Decline => s.(phase := Idle)
    case SetDownloading =>
      if s.phase.Queued? then s.(row := s.row.(status := Downloading), phase := Attempt(0, s.phase.wanted)) else s
    case BeginWrite =>
      if s.phase.Attempt?
      then s.(temp := Some(Blob("", s.phase.wanted)), phase := Writing(s.phase.n, s.phase.wanted, "", true)) else s
    case Write(chunk) =>
      if s.phase.Writing? then
        var written := s.phase.written + chunk;
        s.(temp := if s.phase.linked then Some(Blob(written, s.phase.wanted)) else s.temp,
           phase := s.phase.(written := written))
      else s
    case EndWrite => if s.phase.Writing? then s.(phase := Checked(s.phase.wanted)) else s
    case FailAttempt =>
      if s.phase.Attempt? || s.phase.Writing?
      then s.(temp := None, phase := if s.phase.n + 1 < MAX_RETRIES then Attempt(s.phase.n + 1, s.phase.wanted) else Failing)
      else s
    case FailClient => s.(phase := Failing)
    case Cancel => s.(temp := None, phase := Idle)
    case Verify => if s.phase.Checked? then s.(phase := Verified(s.phase.wanted)) else s
    case Reject => s.(phase := Failing)
    case Rename => s.(final := s.temp, temp := None, phase := Renamed)
    case SetComplete => s.(row := s.row.(status := Complete), phase := Idle)
    case Charge =>
      s.(row := s.row.(retryCount := s.row.retryCount + 1, status := Errored),
         phase := if s.row.retryCount + 1 >= MAX_RETRIES then Marking else Idle)
    case Mark => s.(row := s.row.(status := FailedPermanent), phase := Idle)
    case LoseStatement => s.(phase := Idle)
    case Crash => s.(phase := Idle, cleanup := Off, callers := NOBODY)
    case Unlink => Unlinked(s)
    case Pick => s.(cleanup := Picked)
    case Stat(found) => s.(cleanup := if found && s.final.Some? then Found(|s.final.value.bytes|) else Missing)
    case Adopt =>
      if s.cleanup.Found? then s.(row := s.row.(status := Complete, sizeBytes := s.cleanup.size), cleanup := Off) else s
    case Clear => Unlinked(s).(cleanup := Cleared)
    case Reset => s.(row := s.row.(status := Pending, retryCount := 0), cleanup := Off)
    case SkipCleanup => s.(cleanup := Off)
  }

  predicate Next(valid: Validator, s: State, a: Action, s': State) {
    Enabled(valid, s, a) && s' == Apply(s, a)
  }

  /** A row just inserted, nothing on disk, the crawl about to download it. */
  function Created(size: int): State {
    State(Row(Pending, 0, size), None, None, Idle, Off, NOBODY.(waiting := Some(size)))
  }

  ghost predicate IsRun(valid: Validator, states: seq<State>, actions: seq<Action>) {
    && |states| == |actions| + 1
    && forall i :: 0 <= i < |actions| ==> Next(valid, states[i], actions[i], states[i + 1])
  }

  // ---------------------------------------------------------------- crash safety

  /** The bytes passed the size check of their download and the archive check. */
  predicate Good(valid: Validator, b: Blob) {
    SizeOk(b.bytes, b.wanted) && valid(b.bytes)
  }

  /** Inductive: what is at the temp path is what the phase says, and the final path holds only good bytes. */
  predicate Safe(valid: Validator, s: State) {
    && (s.final.Some? ==> Good(valid, s.final.value))
    && (s.row.status == Complete || s.phase == Renamed || s.cleanup.Found? ==> s.final.Some?)
    && match s.phase
       case Writing(_, wanted, written, linked) => s.temp == if linked then Some(Blob(written, wanted)) else None
       case Checked(wanted) => s.temp.Some? ==> s.temp.value.wanted == wanted && SizeOk(s.temp.value.bytes, wanted)
       case Verified(wanted) => s.temp.Some? ==> s.temp.value.wanted == wanted && Good(valid, s.temp.value)
       case _ => true
  }

  lemma StepKeepsSafe(valid: Validator, s: State, a: Action, s': State)
    requires Safe(valid, s) && Next(valid, s, a, s')
    ensures Safe(valid, s')
    ensures s.final.Some? ==> s'.final.Some?
  {
  }

  /**
    Crash-safe completion: in every interleaving of one downloader per file with crashes,
    cancellations, failing statements and cleanups, the final path is absent or holds bytes that
    passed the size and archive checks, and status complete means it is there.
   */
  lemma {:induction false} CrashSafeCompletion(valid: Validator, size: int, states: seq<State>, actions: seq<Action>)
    requires IsRun(valid, states, actions) && states[0] == Created(size)
    ensures forall i :: 0 <= i < |states| ==>
              && Safe(valid, states[i])
              && (states[i].final.Some? ==> Good(valid, states[i].final.value))
              && (states[i].row.status == Complete ==> states[i].final.Some?)
    decreases |actions|
  {
    var n := |actions|;
    if n > 0 {
      CrashSafeCompletion(valid, size, states[..n], actions[..n - 1]);
      assert states[..n][n - 1] == states[n - 1];
      StepKeepsSafe(valid, states[n - 1], actions[n - 1], states[n]);
    }
  }

  /** With a size known from the start, every size in sight is that size. */
  predicate Sized(size: int, s: State) {
    && s.row.sizeBytes == size
    && (s.final.Some? ==> |s.final.value.bytes| == size)
    && (s.cleanup.Found? ==> s.cleanup.size == size)
    && (s.callers.listed.Some? ==> s.callers.listed.value == size)
    && (s.callers.seen.Some? ==> s.callers.seen.value == size)
    && (s.callers.waiting.Some? ==> s.callers.waiting.value == size)
    && match s.phase
       case Queued(wanted) => wanted == size
       case Attempt(_, wanted) => wanted == size
       case Writing(_, wanted, _, _) => wanted == size
       case Checked(wanted) => wanted == size
       case Verified(wanted) => wanted == size
       case _ => true
  }

  lemma StepKeepsSized(valid: Validator, size: int, s: State, a: Action, s': State)
    requires size > 0 && Safe(valid, s) && Sized(size, s) && Next(valid, s, a, s')
    ensures Sized(size, s')
  {
    match a {
      case Rename =>
      case Stat(_) =>
      case FailAttempt =>
      case _ =>
    }
  }

  /** A file whose size was known when its row was created never ends up with another size on disk or in the row. */
  lemma {:induction false} KnownSizeIsKept(valid: Validator, size: int, states: seq<State>, actions: seq<Action>)
    requires size > 0 && IsRun(valid, states, actions) && states[0] == Created(size)
    ensures forall i :: 0 <= i < |states| ==> Safe(valid, states[i]) && Sized(size, states[i])
    decreases |actions|
  {
    var n := |actions|;
    if n > 0 {
      KnownSizeIsKept(valid, size, states[..n], actions[..n - 1]);
      assert states[..n][n - 1] == states[n - 1];
      StepKeepsSafe(valid, states[n - 1], actions[n - 1], states[n]);
      StepKeepsSized(valid, size, states[n - 1], actions[n - 1], states[n]);
    }
  }

  // ---------------------------------------------------------------- the retry budget

  predicate Busy(s: State) {
    s.phase != Idle && s.phase != Marking
  }

  /** Inductive in every run, however the bookkeeping is interleaved. */
  predicate Budgeted(s: State) {
    && 0 <= s.row.retryCount <= MAX_RETRIES
    && (s.row.status == Pending ==> s.row.retryCount == 0)
    && (s.row.status == Downloading ==> s.row.retryCount <= 2)
    && (s.row.status == Errored ==> s.row.retryCount >= 1)
    && (Busy(s) ==> s.row.retryCount <= 2)
    && (s.row.status == Errored && s.phase == Marking ==> s.row.retryCount == MAX_RETRIES)
    && (s.callers.waiting.Some? ==> s.row.retryCount <= if Busy(s) then 0 else 1)
    && (Busy(s) && !s.callers.byWorker ==> s.row.retryCount <= 1)
    && (s.phase == Marking ==> s.callers.byWorker)
    && (s.callers.listed.Some? ==> s.row.retryCount <= 2 && (s.phase != Idle ==> !s.callers.byWorker))
    && (WorkerHas(s) ==> s.cleanup == Off)
  }

  /** The rest of the intended counts: permanently failed means 3, errored at most 2 unless the mark is still to come. */
  predicate Settled(s: State) {
    && (s.row.status == FailedPermanent ==> s.row.retryCount == MAX_RETRIES)
    && (s.row.status == Errored && s.phase != Marking ==> s.row.retryCount <= 2)
  }

  /** The mark after the last charge is lost, or it comes after an administrator's retry took the charges back. */
  predicate Unsettles(s: State, a: Action) {
    s.phase == Marking
    && ((s.row.status == Errored && (a == Crash || a == LoseStatement)) || (a == Mark && s.row.retryCount != MAX_RETRIES))
  }

  lemma StepKeepsBudget(valid: Validator, s: State, a: Action, s': State)
    requires Budgeted(s) && Next(valid, s, a, s')
    ensures Budgeted(s')
    ensures Settled(s) ==> (Settled(s') <==> !Unsettles(s, a))
    ensures s.phase == Marking && s'.row.retryCount != s.row.retryCount ==> a == ResetRetry
  {
  }

  lemma {:induction false} BudgetOnRun(valid: Validator, states: seq<State>, actions: seq<Action>, i: nat)
    requires IsRun(valid, states, actions) && Budgeted(states[0]) && i < |states|
    ensures Budgeted(states[i])
    decreases i
  {
    if i > 0 {
      BudgetOnRun(valid, states, actions, i - 1);
      StepKeepsBudget(valid, states[i - 1], actions[i - 1], states[i]);
    }
  }

  lemma {:induction false} SettledOnRun(valid: Validator, states: seq<State>, actions: seq<Action>, i: nat)
    requires IsRun(valid, states, actions) && Budgeted(states[0]) && Settled(states[0]) && i < |states|
    requires forall k :: 0 <= k < i ==> !Unsettles(states[k], actions[k])
    ensures Settled(states[i])
    decreases i
  {
    if i > 0 {
      SettledOnRun(valid, states, actions, i - 1);
      BudgetOnRun(valid, states, actions, i - 1);
      StepKeepsBudget(valid, states[i - 1], actions[i - 1], states[i]);
    }
  }

  /**
    Retry budget.  In every run pending files have no failures on them, downloading ones at most 2,
    errored ones between 1 and 3, and no download is ever under way on an exhausted file.  Errored
    means at most 2 and permanently failed means 3 throughout, exactly in the runs in which no mark
    is lost after the third charge and none comes after a reset; and only an administrator's retry
    resets a file between its charge and its mark.
   */
  lemma RetryBudget(valid: Validator, size: int, states: seq<State>, actions: seq<Action>)
    requires IsRun(valid, states, actions) && states[0] == Created(size)
    ensures forall i :: 0 <= i < |states| ==> Budgeted(states[i])
    ensures (forall i :: 0 <= i < |states| ==> Settled(states[i]))
       <==> (forall i :: 0 <= i < |actions| ==> !Unsettles(states[i], actions[i]))
    ensures forall i :: 0 <= i < |actions| && states[i].phase == Marking && states[i + 1].row.retryCount != states[i].row.retryCount ==>
              actions[i] == ResetRetry
  {
    forall i | 0 <= i < |states|
      ensures Budgeted(states[i])
      ensures i < |actions| && states[i].phase == Marking && states[i + 1].row.retryCount != states[i].row.retryCount ==>
                actions[i] == ResetRetry
    {
      BudgetOnRun(valid, states, actions, i);
      if i < |actions| {
        StepKeepsBudget(valid, states[i], actions[i], states[i + 1]);
      }
    }
    if forall i :: 0 <= i < |actions| ==> !Unsettles(states[i], actions[i]) {
      forall i | 0 <= i < |states|
        ensures Settled(states[i])
      {
        SettledOnRun(valid, states, actions, i);
      }
    }
    if forall i :: 0 <= i < |states| ==> Settled(states[i]) {
      forall i | 0 <= i < |actions|
        ensures !Unsettles(states[i], actions[i])
      {
        assert Settled(states[i]) && Settled(states[i + 1]);
        StepKeepsBudget(valid, states[i], actions[i], states[i + 1]);
      }
    }
  }

  // ---------------------------------------------------------------- runs written as lists of actions

  /** The actions lead from `s` to `s'`. */
  predicate Path(valid: Validator, s: State, actions: seq<Action>, s': State)
    decreases |actions|
  {
    if actions == [] then s' == s
    else Enabled(valid, s, actions[0]) && Path(valid, Apply(s, actions[0]), actions[1..], s')
  }

  lemma {:induction false} Join(valid: Validator, a: State, x: seq<Action>, b: State, y: seq<Action>, c: State)
    requires Path(valid, a, x, b) && Path(valid, b, y, c)
    ensures Path(valid, a, x + y, c)
    decreases |x|
  {
    if x == [] {
      assert x + y == y;
    } else {
      assert (x + y)[0] == x[0] && (x + y)[1..] == x[1..] + y;
      Join(valid, Apply(a, x[0]), x[1..], b, y, c);
    }
  }

  lemma One(valid: Validator, s: State, a: Action)
    requires Enabled(valid, s, a)
    ensures Path(valid, s, [a], Apply(s, a))
  {
    assert [a][1..] == [];
  }

  lemma Then(valid: Validator, s: State, x: seq<Action>, t: State, a: Action)
    requires Path(valid, s, x, t) && Enabled(valid, t, a)
    ensures Path(valid, s, x + [a], Apply(t, a))
  {
    One(valid, t, a);
    Join(valid, s, x, t, [a], Apply(t, a));
  }

  lemma {:induction false} PathIsRun(valid: Validator, s: State, actions: seq<Action>, s': State) returns (states: seq<State>)
    requires Path(valid, s, actions, s')
    ensures IsRun(valid, states, actions) && states[0] == s && states[|actions|] == s'
    decreases |actions|
  {
    if actions == [] {
      return [s];
    }
    var rest := PathIsRun(valid, Apply(s, actions[0]), actions[1..], s');
    states := [s] + rest;
    forall i | 0 <= i < |actions|
      ensures Next(valid, states[i], actions[i], states[i + 1])
    {
      if i > 0 {
        assert Next(valid, rest[i - 1], actions[1..][i - 1], rest[i]);
      }
    }
  }

  // ---------------------------------------------------------------- runs worth knowing

  /** A download that the server refuses with a 4xx answer charges the file once. */
  lemma RefusedDownload(valid: Validator, s: State, begin: Action) returns (x: seq<Action>)
    requires (begin == Start || begin == Begin) && Enabled(valid, s, begin)
    ensures Path(valid, s, x, Apply(s, begin).(row := s.row.(status := Errored, retryCount := s.row.retryCount + 1),
                                               phase := if s.row.retryCount + 1 >= MAX_RETRIES then Marking else Idle))
  {
    var s1 := Apply(s, begin);
    var s2 := Apply(s1, SetDownloading);
    One(valid, s, begin);
    Then(valid, s, [begin], s1, SetDownloading);
    Then(valid, s, [begin] + [SetDownloading], s2, FailClient);
    x := [begin] + [SetDownloading] + [FailClient] + [Charge];
    Then(valid, s, [begin] + [SetDownloading] + [FailClient], Apply(s2, FailClient), Charge);
  }

  /** The worker lists the file, comes to it and is refused. */
  lemma WorkerRefused(valid: Validator, s: State) returns (x: seq<Action>)
    requires Enabled(valid, s, Enlist) && s.phase == Idle && s.callers.waiting == None
    ensures Path(valid, s, x, s.(row := s.row.(status := Errored, retryCount := s.row.retryCount + 1),
                                 phase := if s.row.retryCount + 1 >= MAX_RETRIES then Marking else Idle,
                                 callers := s.callers.(byWorker := true)))
  {
    var s1 := Apply(s, Enlist);
    One(valid, s, Enlist);
    var y := RefusedDownload(valid, s1, Start);
    Join(valid, s, [Enlist], s1, y, s.(row := s.row.(status := Errored, retryCount := s.row.retryCount + 1),
                                       phase := if s.row.retryCount + 1 >= MAX_RETRIES then Marking else Idle,
                                       callers := s.callers.(byWorker := true)));
    x := [Enlist] + y;
  }

  /** The row with `n` failures, nothing on disk and nothing under way, the worker having tried last. */
  function Failed(size: int, n: nat): State {
    State(Row(Errored, n, size), None, None, Idle, Off, NOBODY.(byWorker := n > 1))
  }

  /** The crawl and the worker are each refused once. */
  lemma TwiceRefused(valid: Validator, size: int) returns (x: seq<Action>)
    ensures Path(valid, Created(size), x, Failed(size, 2))
  {
    var x1 := RefusedDownload(valid, Created(size), Begin);
    var x2 := WorkerRefused(valid, Failed(size, 1));
    Join(valid, Created(size), x1, Failed(size, 1), x2, Failed(size, 2));
    x := x1 + x2;
  }

  /** The third refusal, charged and not yet marked. */
  lemma ChargedOut(valid: Validator, size: int) returns (x: seq<Action>)
    ensures Path(valid, Created(size), x, Failed(size, 3).(phase := Marking))
  {
    var x2 := TwiceRefused(valid, size);
    var x3 := WorkerRefused(valid, Failed(size, 2));
    Join(valid, Created(size), x2, Failed(size, 2), x3, Failed(size, 3).(phase := Marking));
    x := x2 + x3;
  }

  /**
    A crash between the third charge and its mark leaves a file that is not marked as failed for
    good and that the worker will never start again.
   */
  lemma CrashStrandsFile(valid: Validator, size: int) returns (states: seq<State>, actions: seq<Action>)
    ensures IsRun(valid, states, actions) && states[0] == Created(size)
    ensures var s := states[|actions|];
            && s.row.status == Errored && s.row.retryCount == 3 && s.phase == Idle
            && !Enabled(valid, s, Enlist) && !Enabled(valid, s, Start)
  {
    var s3 := Failed(size, 3).(phase := Marking);
    var x := ChargedOut(valid, size);
    Then(valid, Created(size), x, s3, Crash);
    actions := x + [Crash];
    states := PathIsRun(valid, Created(size), actions, Apply(s3, Crash));
  }

  /**
    An administrator's retry that falls between the worker's third charge and its mark: the request
    sees the file errored and resets it, and the mark then leaves it failed for good with no failures.
   */
  lemma MarkAfterReset(valid: Validator, size: int) returns (states: seq<State>, actions: seq<Action>)
    ensures IsRun(valid, states, actions) && states[0] == Created(size)
    ensures var s := states[|actions|]; s.row == Row(FailedPermanent, 0, size) && s.phase == Idle
  {
    var s3 := Failed(size, 3).(phase := Marking);
    var x := ChargedOut(valid, size);
    var y := RetryThenMark(valid, s3);
    var s4 := s3.(row := Row(FailedPermanent, 0, size), phase := Idle, callers := s3.callers.(waiting := Some(size)));
    Join(valid, Created(size), x, s3, y, s4);
    actions := x + y;
    states := PathIsRun(valid, Created(size), actions, s4);
  }

  lemma RetryThenMark(valid: Validator, s: State) returns (x: seq<Action>)
    requires s.phase == Marking && s.row.status == Errored && s.callers.seen == None && s.callers.waiting == None
    ensures Path(valid, s, x, s.(row := Row(FailedPermanent, 0, s.row.sizeBytes), phase := Idle,
                                 callers := s.callers.(waiting := Some(s.row.sizeBytes))))
  {
    var s1 := Apply(s, LookUp);
    var s2 := Apply(s1, ResetRetry);
    One(valid, s, LookUp);
    Then(valid, s, [LookUp], s1, ResetRetry);
    Then(valid, s, [LookUp] + [ResetRetry], s2, Mark);
    x := [LookUp] + [ResetRetry] + [Mark];
  }

  /** Opening the temp file and writing `bytes` to it. */
  lemma WritePath(valid: Validator, s: State, bytes: string)
    requires s.phase.Attempt?
    ensures Path(valid, s, [BeginWrite] + [Write(bytes)],
                 s.(temp := Some(Blob(bytes, s.phase.wanted)), phase := Writing(s.phase.n, s.phase.wanted, bytes, true)))
  {
    One(valid, s, BeginWrite);
    Then(valid, s, [BeginWrite], Apply(s, BeginWrite), Write(bytes));
    assert "" + bytes == bytes;
  }

  /** A whole transfer of `bytes`, from the open attempt to the renamed file. */
  lemma Transfer(valid: Validator, s: State, bytes: string) returns (x: seq<Action>)
    requires s.phase.Attempt? && SizeOk(bytes, s.phase.wanted) && valid(bytes)
    ensures Path(valid, s, x, s.(final := Some(Blob(bytes, s.phase.wanted)), temp := None, phase := Renamed))
  {
    var s2 := s.(temp := Some(Blob(bytes, s.phase.wanted)), phase := Writing(s.phase.n, s.phase.wanted, bytes, true));
    var s3 := s2.(phase := Checked(s.phase.wanted));
    x := [BeginWrite] + [Write(bytes)];
    WritePath(valid, s, bytes);
    Then(valid, s, x, s2, EndWrite);
    Then(valid, s, x + [EndWrite], s3, Verify);
    Then(valid, s, x + [EndWrite] + [Verify], s3.(phase := Verified(s.phase.wanted)), Rename);
    x := x + [EndWrite] + [Verify] + [Rename];
  }

  /** A waiting download begins and the cleanup looks at its final path before there is anything to complete. */
  lemma LookDuring(valid: Validator, s: State, found: bool) returns (x: seq<Action>)
    requires Enabled(valid, s, Begin) && s.cleanup == Off && s.callers.listed == None
    requires found ==> s.final.Some? && |s.final.value.bytes| > 0
    ensures Path(valid, s, x, s.(row := s.row.(status := Downloading), phase := Attempt(0, s.callers.waiting.value),
                                 cleanup := if found then Found(|s.final.value.bytes|) else Missing,
                                 callers := s.callers.(byWorker := false, waiting := None)))
  {
    var s1 := Apply(s, Begin);
    var s2 := Apply(s1, SetDownloading);
    x := [Begin];
    One(valid, s, Begin);
    Then(valid, s, x, s1, SetDownloading);
    Then(valid, s, x + [SetDownloading], s2, Pick);
    Then(valid, s, x + [SetDownloading] + [Pick], s2.(cleanup := Picked), Stat(found));
    x := x + [SetDownloading] + [Pick] + [Stat(found)];
  }

  /** First half: a cleanup that looked too early puts a file that its crawl did complete back to pending. */
  lemma LateReset(valid: Validator, size: int, a: string) returns (x: seq<Action>)
    requires size <= 0 && |a| > 0 && valid(a)
    ensures Path(valid, Created(size), x, Created(size).(final := Some(Blob(a, size)), callers := NOBODY))
  {
    var s0 := Created(size);
    var s1 := State(Row(Downloading, 0, size), None, None, Attempt(0, size), Missing, NOBODY);
    var s2 := State(Row(Downloading, 0, size), None, Some(Blob(a, size)), Renamed, Missing, NOBODY);
    x := LookDuring(valid, s0, false);
    var y := Transfer(valid, s1, a);
    Join(valid, s0, x, s1, y, s2);
    var z := ResetAfterComplete(valid, s2);
    Join(valid, s0, x + y, s2, z, s0.(final := Some(Blob(a, size)), callers := NOBODY));
    x := x + y + z;
  }

  lemma ResetAfterComplete(valid: Validator, s: State) returns (x: seq<Action>)
    requires s.phase == Renamed && s.temp == None && s.cleanup == Missing
    ensures Path(valid, s, x, s.(row := s.row.(status := Pending, retryCount := 0), phase := Idle, cleanup := Off))
  {
    var s1 := s.(row := s.row.(status := Complete), phase := Idle);
    One(valid, s, SetComplete);
    x := [SetComplete];
    Then(valid, s, x, s1, Clear);
    Then(valid, s, x + [Clear], s1.(cleanup := Cleared), Reset);
    x := x + [Clear] + [Reset];
  }

  /** An administrator resets a failed file; its download is about to begin. */
  lemma Retried(valid: Validator, s: State) returns (x: seq<Action>)
    requires s.row.status == Errored && s.callers.seen == None && s.callers.waiting == None
    ensures Path(valid, s, x, s.(row := s.row.(status := Pending, retryCount := 0), callers := s.callers.(waiting := Some(s.row.sizeBytes))))
  {
    One(valid, s, LookUp);
    Then(valid, s, [LookUp], Apply(s, LookUp), ResetRetry);
    x := [LookUp] + [ResetRetry];
  }

  /** Second half: an administrator's retry replaces the file while a cleanup holds the size it measured before. */
  lemma StaleAdopt(valid: Validator, size: int, a: string, b: string) returns (x: seq<Action>)
    requires size <= 0 && |a| > 0 && |b| > 0 && valid(b)
    ensures Path(valid, State(Row(Errored, 1, size), None, Some(Blob(a, size)), Idle, Off, NOBODY.(byWorker := true)), x,
                 State(Row(Complete, 0, |a|), None, Some(Blob(b, size)), Renamed, Off, NOBODY))
  {
    var s0 := State(Row(Errored, 1, size), None, Some(Blob(a, size)), Idle, Off, NOBODY.(byWorker := true));
    var s1 := State(Row(Pending, 0, size), None, Some(Blob(a, size)), Idle, Off, Callers(true, None, None, Some(size)));
    var s2 := State(Row(Downloading, 0, size), None, Some(Blob(a, size)), Attempt(0, size), Found(|a|), NOBODY);
    var s3 := State(Row(Downloading, 0, size), None, Some(Blob(b, size)), Renamed, Found(|a|), NOBODY);
    x := Retried(valid, s0);
    var y := LookDuring(valid, s1, true);
    Join(valid, s0, x, s1, y, s2);
    var z := Transfer(valid, s2, b);
    Join(valid, s0, x + y, s2, z, s3);
    Then(valid, s0, x + y + z, s3, Adopt);
    x := x + y + z + [Adopt];
  }

  /**
    When the size was not known beforehand, the row can record another size than the file has: the
    cleanup stores the size it saw before a concurrent retry replaced the file.
   */
  lemma UnknownSizeCanDrift(valid: Validator, size: int, a: string, b: string) returns (states: seq<State>, actions: seq<Action>)
    requires size <= 0 && |a| > 0 && |b| > 0 && valid(a) && valid(b)
    ensures IsRun(valid, states, actions) && states[0] == Created(size)
    ensures var s := states[|actions|];
            && s.row.status == Complete && s.row.sizeBytes == |a| && s.final == Some(Blob(b, size))
            && (|a| != |b| ==> !RowSizeHolds(s))
  {
    var s0 := Created(size);
    var s1 := s0.(final := Some(Blob(a, size)), callers := NOBODY);
    var s2 := State(Row(Errored, 1, size), None, Some(Blob(a, size)), Idle, Off, NOBODY.(byWorker := true));
    var s3 := State(Row(Complete, 0, |a|), None, Some(Blob(b, size)), Renamed, Off, NOBODY);
    var x := LateReset(valid, size, a);
    var y := WorkerRefused(valid, s1);
    var z := StaleAdopt(valid, size, a, b);
    Join(valid, s0, x, s1, y, s2);
    Join(valid, s0, x + y, s2, z, s3);
    actions := x + y + z;
    states := PathIsRun(valid, s0, actions, s3);
  }

  /** A size on record is the size of the file at the final path. */
  predicate RowSizeHolds(s: State) {
    s.row.sizeBytes > 0 && s.final.Some? ==> |s.final.value.bytes| == s.row.sizeBytes
  }

  ghost predicate KeepsRowSize(valid: Validator, size: int) {
    forall states, actions, i :: IsRun(valid, states, actions) && states[0] == Created(size) && 0 <= i < |states| ==>
      RowSizeHolds(states[i])
  }

  ghost predicate OneLength(valid: Validator, n: int) {
    forall b: string :: |b| > 0 && valid(b) ==> |b| == n
  }

  lemma {:induction false} OneLengthIsKept(valid: Validator, n: int, size: int, states: seq<State>, actions: seq<Action>, i: nat)
    requires size <= 0 && OneLength(valid, n) && IsRun(valid, states, actions) && states[0] == Created(size) && i < |states|
    ensures var s := states[i];
            && Safe(valid, s)
            && (s.row.sizeBytes > 0 ==> s.row.sizeBytes == n)
            && (s.cleanup.Found? ==> s.cleanup.size == n)
            && (s.final.Some? ==> |s.final.value.bytes| == n)
    decreases i
  {
    if i > 0 {
      OneLengthIsKept(valid, n, size, states, actions, i - 1);
      StepKeepsSafe(valid, states[i - 1], actions[i - 1], states[i]);
    }
  }

  /**
    In every run a size on record is that of the file, exactly when the size was known from the start
    or all contents that would be accepted have the same length.
   */
  lemma RowSizeTheorem(valid: Validator, size: int)
    ensures KeepsRowSize(valid, size) <==>
            size > 0 || forall a: string, b: string :: |a| > 0 && |b| > 0 && valid(a) && valid(b) ==> |a| == |b|
  {
    if size <= 0 && exists a: string, b: string :: |a| > 0 && |b| > 0 && valid(a) && valid(b) && |a| != |b| {
      var a: string, b: string :| |a| > 0 && |b| > 0 && valid(a) && valid(b) && |a| != |b|;
      var states, actions := UnknownSizeCanDrift(valid, size, a, b);
      assert !RowSizeHolds(states[|actions|]);
    } else {
      forall states, actions, i | IsRun(valid, states, actions) && states[0] == Created(size) && 0 <= i < |states|
        ensures RowSizeHolds(states[i])
      {
        if size > 0 {
          KnownSizeIsKept(valid, size, states, actions);
          assert Sized(size, states[i]);
        } else {
          var n := LengthOfAny(valid);
          OneLengthIsKept(valid, n, size, states, actions, i);
        }
      }
    }
  }

  lemma LengthOfAny(valid: Validator) returns (n: int)
    requires forall a: string, b: string :: |a| > 0 && |b| > 0 && valid(a) && valid(b) ==> |a| == |b|
    ensures OneLength(valid, n)
  {
    if a: string :| |a| > 0 && valid(a) {
      n := |a|;
    } else {
      n := 0;
    }
  }

  // ---------------------------------------------------------------- charges over all files

  function Remaining(files: seq<State>): int {
    if files == [] then 0 else MAX_RETRIES - files[0].row.retryCount + Remaining(files[1..])
  }

  lemma {:induction false} RemainingUpdate(files: seq<State>, i: nat, s: State)
    requires i < |files|
    ensures Remaining(files[i := s]) == Remaining(files) + files[i].row.retryCount - s.row.retryCount
    decreases |files|
  {
    if i == 0 {
      assert files[i := s][1..] == files[1..];
    } else {
      assert files[i := s][1..] == files[1..][i - 1 := s];
      RemainingUpdate(files[1..], i - 1, s);
    }
  }

  lemma {:induction false} RemainingBound(files: seq<State>)
    requires forall i :: 0 <= i < |files| ==> Budgeted(files[i])
    ensures 0 <= Remaining(files) <= MAX_RETRIES * |files|
    decreases |files|
  {
    if files != [] {
      RemainingBound(files[1..]);
    }
  }

  datatype Event = Event(file: nat, action: Action)

  ghost predicate SystemStep(valid: Validator, files: seq<State>, e: Event, files': seq<State>) {
    && e.file < |files|
    && Enabled(valid, files[e.file], e.action)
    && files' == files[e.file := Apply(files[e.file], e.action)]
  }

  predicate IsReset(a: Action) {
    a == ResetRetry || a == Reset
  }

  function Charges(events: seq<Event>): nat {
    if events == [] then 0 else Charges(events[..|events| - 1]) + if events[|events| - 1].action == Charge then 1 else 0
  }

  /**
    Over any run of all files together with no reset in it, every charge lowers the total remaining
    budget by one and nothing raises it, so there are at most three charges per file.
   */
  lemma {:induction false} ChargesAreBounded(valid: Validator, runs: seq<seq<State>>, events: seq<Event>)
    requires |runs| == |events| + 1 && (forall i :: 0 <= i < |runs[0]| ==> Budgeted(runs[0][i]))
    requires forall j :: 0 <= j < |events| ==> SystemStep(valid, runs[j], events[j], runs[j + 1])
    requires forall j :: 0 <= j < |events| ==> !IsReset(events[j].action)
    ensures |runs[|events|]| == |runs[0]| && forall i :: 0 <= i < |runs[0]| ==> Budgeted(runs[|events|][i])
    ensures Charges(events) + Remaining(runs[|events|]) == Remaining(runs[0])
    ensures Charges(events) <= MAX_RETRIES * |runs[0]|
    decreases |events|
  {
    var n := |events|;
    if n > 0 {
      ChargesAreBounded(valid, runs[..n], events[..n - 1]);
      assert runs[..n][n - 1] == runs[n - 1] && runs[..n][0] == runs[0];
      var e := events[n - 1];
      assert SystemStep(valid, runs[n - 1], e, runs[n]);
      StepKeepsBudget(valid, runs[n - 1][e.file], e.action, runs[n][e.file]);
      RemainingUpdate(runs[n - 1], e.file, runs[n][e.file]);
    }
    RemainingBound(runs[0]);
    RemainingBound(runs[n]);
  }

  // ---------------------------------------------------------------- the code as it runs alone

  datatype Try = NoAnswer | ClientError | Broken(partial: string) | Body(bytes: string)

  /** What the network, the disk, the context and the database do to one call of DownloadFile. */
  datatype Io = Io(
    ready: bool,                 // directory and disk space are fine and the slot was free
    setsDownloading: bool, setsComplete: bool, charges: bool, marks: bool, renames: bool,
    cancelled: nat -> bool,      // the context is done in the pause before attempt n
    answers: nat -> Try)

  // ---------------------------------------------------------------- how a call turns out, from what it meets

  /** The answer is a whole body, not empty and of the size expected if one is. */
  predicate Passes(answer: Try, wanted: int) {
    answer.Body? && |answer.bytes| > 0 && (wanted > 0 ==> |answer.bytes| == wanted)
  }

  /** The answer is one that is tried again: none, a broken transfer, or a body that does not pass. */
  predicate IsRetried(answer: Try, wanted: int) {
    answer != ClientError && !Passes(answer, wanted)
  }

  /** Attempt n is made: it is one of three, those before it were all to be tried again and no pause up to it was cancelled. */
  ghost predicate Reached(io: Io, wanted: int, n: nat) {
    n < 3 && (forall m: nat :: m < n ==> IsRetried(io.answers(m), wanted)) && (forall m: nat :: 1 <= m <= n ==> !io.cancelled(m))
  }

  /** Attempt n brings the file. */
  ghost predicate Brings(io: Io, wanted: int, n: nat) {
    Reached(io, wanted, n) && Passes(io.answers(n), wanted)
  }

  /** The pause before attempt n is cancelled. */
  ghost predicate StopsBefore(io: Io, wanted: int, n: nat) {
    1 <= n < 3 && Reached(io, wanted, n - 1) && IsRetried(io.answers(n - 1), wanted) && io.cancelled(n)
  }

  /** The row after a failure: one more on the count and errored, or failed for good at the third; as it was if the charge is lost. */
  function Charged(row: Row, io: Io): Row {
    if !io.charges then row
    else Row(if row.retryCount + 1 >= 3 && io.marks then FailedPermanent else Errored, row.retryCount + 1, row.sizeBytes)
  }

  /** The call succeeds: everything is in order and some attempt brings valid bytes. */
  ghost predicate Succeeds(valid: Validator, io: Io, wanted: int) {
    && io.ready && io.setsDownloading && io.renames && io.setsComplete
    && exists n: nat :: Brings(io, wanted, n) && valid(io.answers(n).bytes)
  }

  /** Bytes reached the final path but the row could not be completed. */
  ghost predicate HalfDone(valid: Validator, io: Io, wanted: int) {
    && io.ready && io.setsDownloading && io.renames && !io.setsComplete
    && exists n: nat :: Brings(io, wanted, n) && valid(io.answers(n).bytes)
  }

  /** The row after a call. */
  ghost function RowAfter(valid: Validator, io: Io, wanted: int, row: Row): Row {
    if !io.ready || !io.setsDownloading then row
    else if Succeeds(valid, io, wanted) then row.(status := Complete)
    else if HalfDone(valid, io, wanted) || exists n: nat :: StopsBefore(io, wanted, n) then row.(status := Downloading)
    else Charged(row.(status := Downloading), io)
  }

  lemma OneBringer(io: Io, wanted: int, n: nat, m: nat)
    requires Brings(io, wanted, n)
    ensures Brings(io, wanted, m) ==> m == n
    ensures !StopsBefore(io, wanted, m)
  {
  }

  /** The attempts ended for good: a refusal, or all three tried in vain. */
  ghost predicate Fails(io: Io, wanted: int) {
    exists n: nat :: Reached(io, wanted, n) && (io.answers(n) == ClientError || (n == 2 && IsRetried(io.answers(n), wanted)))
  }

  lemma FailureIsFinal(io: Io, wanted: int, n: nat)
    requires Fails(io, wanted)
    ensures !Brings(io, wanted, n) && !StopsBefore(io, wanted, n)
  {
  }

  /** The bytes are accepted and get to the final path. */
  predicate Places(valid: Validator, io: Io, bytes: string) {
    valid(bytes) && io.renames
  }

  /** Where the attempts are: about to make attempt n, or at an end. */
  ghost predicate AttemptsAt(io: Io, wanted: int, end: Phase, n: nat, temp: Option<Blob>) {
    match end
    case Attempt(k, w) =>
      && w == wanted && k < 3 && (forall m: nat :: m < k ==> IsRetried(io.answers(m), wanted))
      && (forall m: nat :: 1 <= m < k ==> !io.cancelled(m))
    case Checked(w) => w == wanted && Brings(io, wanted, n) && temp == Some(Blob(io.answers(n).bytes, wanted))
    case Idle => StopsBefore(io, wanted, n)
    case Failing => Fails(io, wanted)
    case _ => false
  }

  lemma AttemptMade(io: Io, wanted: int, n: nat, next: Phase, temp: Option<Blob>)
    requires AttemptsAt(io, wanted, Attempt(n, wanted), n, temp) && (n > 0 ==> !io.cancelled(n))
    requires next == Checked(wanted) || next == Failing || next == Attempt(n + 1, wanted)
    requires next == Checked(wanted) <==> Passes(io.answers(n), wanted)
    requires next == Checked(wanted) ==> temp == Some(Blob(io.answers(n).bytes, wanted))
    requires next.Attempt? <==> IsRetried(io.answers(n), wanted) && n < 2
    ensures AttemptsAt(io, wanted, next, n, temp)
  {
    assert Reached(io, wanted, n);
  }

  lemma StoppedHere(io: Io, wanted: int, n: nat, temp: Option<Blob>)
    requires n > 0 && AttemptsAt(io, wanted, Attempt(n, wanted), n, temp) && io.cancelled(n)
    ensures AttemptsAt(io, wanted, Idle, n, None)
  {
    assert Reached(io, wanted, n - 1);
  }

  class Download {
    var row: Row
    var temp: Option<Blob>
    var final: Option<Blob>
    const byWorker: bool

    constructor (size: int, byWorker: bool)
      ensures row == Created(size).row && temp == None && final == None && this.byWorker == byWorker
    {
      this.byWorker := byWorker;
      row := Row(Pending, 0, size);
      temp, final := None, None;
    }

    ghost function At(phase: Phase): State
      reads this
    {
      State(row, temp, final, phase, Off, NOBODY.(byWorker := byWorker))
    }

    /** retry_count + 1 and status error, then the permanent mark when the count is used up. */
    method UpdateError(valid: Validator, io: Io) returns (ghost x: seq<Action>)
      modifies this`row
      ensures Path(valid, old(At(Failing)), x, At(Idle))
      ensures row == Charged(old(row), io)
    {
      ghost var s0 := At(Failing);
      if !io.charges {
        One(valid, s0, LoseStatement);
        return [LoseStatement];
      }
      One(valid, s0, Charge);
      x := [Charge];
      row := row.(retryCount := row.retryCount + 1, status := Errored);
      if row.retryCount >= MAX_RETRIES {
        if !io.marks {
          Then(valid, s0, x, At(Marking), LoseStatement);
          return x + [LoseStatement];
        }
        Then(valid, s0, x, At(Marking), Mark);
        x := x + [Mark];
        row := row.(status := FailedPermanent);
      }
    }

    /** One attempt: nothing, a client error, a broken transfer or a body of some size; a failed one leaves no temp file. */
    method DownloadAttempt(valid: Validator, wanted: int, n: nat, answer: Try) returns (next: Phase, ghost x: seq<Action>)
      modifies this`temp
      ensures Path(valid, old(At(Attempt(n, wanted))), x, At(next))
      ensures next == Checked(wanted) || next == Failing || (next == Attempt(n + 1, wanted) && n + 1 < MAX_RETRIES)
      ensures next == Checked(wanted) ==> temp.Some? && temp.value.wanted == wanted && SizeOk(temp.value.bytes, wanted)
      ensures next == Checked(wanted) <==> Passes(answer, wanted)
      ensures next == Checked(wanted) ==> temp == Some(Blob(answer.bytes, wanted))
      ensures next.Attempt? <==> IsRetried(answer, wanted) && n < 2
    {
      ghost var s0 := At(Attempt(n, wanted));
      next := if n + 1 < MAX_RETRIES then Attempt(n + 1, wanted) else Failing;
      if answer == ClientError {
        One(valid, s0, FailClient);
        return Failing, [FailClient];
      }
      if answer == NoAnswer {
        One(valid, s0, FailAttempt);
        temp := None;
        return next, [FailAttempt];
      }
      var bytes := if answer.Body? then answer.bytes else answer.partial;
      WritePath(valid, s0, bytes);
      x := [BeginWrite] + [Write(bytes)];
      temp := Some(Blob(bytes, wanted));
      ghost var s2 := At(Writing(n, wanted, bytes, true));
      if answer.Broken? || |bytes| == 0 || (wanted > 0 && |bytes| != wanted) {
        Then(valid, s0, x, s2, FailAttempt);
        temp := None;
        return next, x + [FailAttempt];
      }
      Then(valid, s0, x, s2, EndWrite);
      return Checked(wanted), x + [EndWrite];
    }

    /** Up to MAX_RETRIES attempts with pauses between them. */
    method Attempts(valid: Validator, wanted: int, io: Io) returns (end: Phase, ghost x: seq<Action>, ghost n: nat)
      modifies this`temp
      ensures Path(valid, old(At(Attempt(0, wanted))), x, At(end))
      ensures !end.Attempt? && AttemptsAt(io, wanted, end, n, temp)
    {
      ghost var s0 := At(Attempt(0, wanted));
      end, x, n := Attempt(0, wanted), [], 0;
      while end.Attempt?
        invariant Path(valid, s0, x, At(end))
        invariant AttemptsAt(io, wanted, end, n, temp)
        decreases if end.Attempt? then MAX_RETRIES - end.n else 0
      {
        ghost var s1 := At(end);
        n := end.n;
        if end.n > 0 && io.cancelled(end.n) {
          Then(valid, s0, x, s1, Cancel);
          StoppedHere(io, wanted, n, temp);
          temp := None;
          return Idle, x + [Cancel], n;
        }
        ghost var y;
        ghost var before := temp;
        end, y := DownloadAttempt(valid, wanted, end.n, io.answers(end.n));
        assert AttemptsAt(io, wanted, Attempt(n, wanted), n, before);
        AttemptMade(io, wanted, n, end, temp);
        Join(valid, s0, x, s1, y, At(end));
        x := x + y;
      }
    }

    /** Verify, rename and mark complete. */
    method Publish(valid: Validator, wanted: int, io: Io) returns (ok: bool, ghost x: seq<Action>)
      requires temp.Some? && temp.value.wanted == wanted && SizeOk(temp.value.bytes, wanted)
      modifies this
      ensures Path(valid, old(At(Checked(wanted))), x, At(Idle))
      ensures ok == (Places(valid, io, old(temp).value.bytes) && io.setsComplete)
      ensures final == if Places(valid, io, old(temp).value.bytes) then old(temp) else old(final)
      ensures row == if !Places(valid, io, old(temp).value.bytes) then Charged(old(row), io)
                     else if io.setsComplete then old(row).(status := Complete) else old(row)
    {
      ghost var s0 := At(Checked(wanted));
      if |temp.value.bytes| == 0 || !valid(temp.value.bytes) {
        ok, x := Blame(valid, io, s0, [], s0);
        return;
      }
      if !io.renames {
        One(valid, s0, Verify);
        ok, x := Blame(valid, io, s0, [Verify], At(Verified(wanted)));
        return;
      }
      ok, x := Finish(valid, wanted, io);
    }

    /** The bytes are good and the rename goes through. */
    method Finish(valid: Validator, wanted: int, io: Io) returns (ok: bool, ghost x: seq<Action>)
      requires temp.Some? && |temp.value.bytes| > 0 && valid(temp.value.bytes)
      modifies this
      ensures Path(valid, old(At(Checked(wanted))), x, At(Idle))
      ensures ok == io.setsComplete && final == old(temp)
      ensures row == if io.setsComplete then old(row).(status := Complete) else old(row)
    {
      ghost var s0, s1 := At(Checked(wanted)), At(Verified(wanted));
      One(valid, s0, Verify);
      Then(valid, s0, [Verify], s1, Rename);
      x := [Verify] + [Rename];
      final, temp := temp, None;
      ghost var s2 := At(Renamed);
      if !io.setsComplete {
        Then(valid, s0, x, s2, LoseStatement);
        return false, x + [LoseStatement];
      }
      Then(valid, s0, x, s2, SetComplete);
      row := row.(status := Complete);
      return true, x + [SetComplete];
    }

    /** A check or the rename failed: charge the file. */
    method Blame(valid: Validator, io: Io, ghost s0: State, ghost before: seq<Action>, ghost s1: State)
      returns (ok: bool, ghost x: seq<Action>)
      requires Path(valid, s0, before, s1) && Enabled(valid, s1, Reject) && s1.(phase := Failing) == At(Failing)
      modifies this`row
      ensures !ok && Path(valid, s0, x, At(Idle))
      ensures row == Charged(old(row), io)
    {
      Then(valid, s0, before, s1, Reject);
      ghost var y := UpdateError(valid, io);
      Join(valid, s0, before + [Reject], s1.(phase := Failing), y, At(Idle));
      return false, before + [Reject] + y;
    }

    /**
      The whole call, undisturbed: its effect is a run of the step system from "queued" back to "idle".
      It succeeds exactly when everything is in order and some attempt brings valid bytes of the
      expected size; then these are at the final path.  RowAfter says what becomes of the row.
     */
    method DownloadFile(valid: Validator, wanted: int, io: Io) returns (ok: bool, ghost x: seq<Action>, ghost n: nat)
      modifies this
      ensures Path(valid, old(At(Queued(wanted))), x, At(Idle))
      ensures ok <==> Succeeds(valid, io, wanted)
      ensures row == RowAfter(valid, io, wanted, old(row))
      ensures Succeeds(valid, io, wanted) || HalfDone(valid, io, wanted) ==>
                Brings(io, wanted, n) && valid(io.answers(n).bytes) && final == Some(Blob(io.answers(n).bytes, wanted))
      ensures !Succeeds(valid, io, wanted) && !HalfDone(valid, io, wanted) ==> final == old(final)
    {
      ghost var s0 := At(Queued(wanted));
      n := 0;
      if !io.ready {
        One(valid, s0, Decline);
        return false, [Decline], n;
      }
      if !io.setsDownloading {
        One(valid, s0, LoseStatement);
        return false, [LoseStatement], n;
      }
      One(valid, s0, SetDownloading);
      row := row.(status := Downloading);
      ghost var s1, y := At(Attempt(0, wanted)), [];
      ok, y, n := Fetch(valid, wanted, io);
      Join(valid, s0, [SetDownloading], s1, y, At(Idle));
      x := [SetDownloading] + y;
    }

    /** The attempts and what follows them, for a row already set to downloading. */
    method Fetch(valid: Validator, wanted: int, io: Io) returns (ok: bool, ghost x: seq<Action>, ghost n: nat)
      requires io.ready && io.setsDownloading && row.status == Downloading
      modifies this
      ensures Path(valid, old(At(Attempt(0, wanted))), x, At(Idle))
      ensures ok <==> Succeeds(valid, io, wanted)
      ensures row == RowAfter(valid, io, wanted, old(row))
      ensures Succeeds(valid, io, wanted) || HalfDone(valid, io, wanted) ==>
                Brings(io, wanted, n) && valid(io.answers(n).bytes) && final == Some(Blob(io.answers(n).bytes, wanted))
      ensures !Succeeds(valid, io, wanted) && !HalfDone(valid, io, wanted) ==> final == old(final)
    {
      ghost var s0 := At(Attempt(0, wanted));
      var end;
      end, x, n := Attempts(valid, wanted, io);
      ghost var s1, y := At(end), [];
      ok := false;
      if end == Failing {
        y := UpdateError(valid, io);
        FailureRow(valid, io, wanted, s0.row);
      } else if end == Checked(wanted) {
        ok, y := Publish(valid, wanted, io);
        BroughtRow(valid, io, wanted, n, s0.row);
      } else {
        StoppedRow(valid, io, wanted, n, s0.row);
      }
      Join(valid, s0, x, s1, y, At(Idle));
      x := x + y;
    }
  }

  lemma FailureRow(valid: Validator, io: Io, wanted: int, row: Row)
    requires io.ready && io.setsDownloading && row.status == Downloading && Fails(io, wanted)
    ensures !Succeeds(valid, io, wanted) && !HalfDone(valid, io, wanted)
    ensures RowAfter(valid, io, wanted, row) == Charged(row, io)
  {
    forall n: nat
      ensures !Brings(io, wanted, n) && !StopsBefore(io, wanted, n)
    {
      FailureIsFinal(io, wanted, n);
    }
  }

  lemma StoppedRow(valid: Validator, io: Io, wanted: int, n: nat, row: Row)
    requires io.ready && io.setsDownloading && row.status == Downloading && StopsBefore(io, wanted, n)
    ensures !Succeeds(valid, io, wanted) && !HalfDone(valid, io, wanted)
    ensures RowAfter(valid, io, wanted, row) == row
  {
    forall m: nat
      ensures !Brings(io, wanted, m)
    {
      if Brings(io, wanted, m) {
        OneBringer(io, wanted, m, n);
      }
    }
  }

  lemma BroughtRow(valid: Validator, io: Io, wanted: int, n: nat, row: Row)
    requires io.ready && io.setsDownloading && row.status == Downloading && Brings(io, wanted, n)
    ensures Succeeds(valid, io, wanted) <==> valid(io.answers(n).bytes) && io.renames && io.setsComplete
    ensures HalfDone(valid, io, wanted) <==> valid(io.answers(n).bytes) && io.renames && !io.setsComplete
    ensures !valid(io.answers(n).bytes) || !io.renames ==> RowAfter(valid, io, wanted, row) == Charged(row, io)
    ensures HalfDone(valid, io, wanted) ==> RowAfter(valid, io, wanted, row) == row
  {
    forall m: nat
      ensures (Brings(io, wanted, m) ==> m == n) && !StopsBefore(io, wanted, m)
    {
      OneBringer(io, wanted, n, m);
    }
  }

  // ---------------------------------------------------------------- the cleanup over the whole table

  datatype Stored = Stored(row: Row, temp: Option<Blob>, final: Option<Blob>)

  function Resting(f: Stored): State {
    State(f.row, f.temp, f.final, Idle, Off, NOBODY)
  }

  /** What happens to one stuck file: its record is read, its path can be looked at, the update goes through. */
  datatype Luck = Luck(scans: bool, stats: bool, updates: bool)

  /**
    A file stuck in downloading becomes complete when its final path is seen to have contents, else
    pending with its temp file gone; without the update the row stays stuck.
   */
  function Recovered(f: Stored, luck: Luck): Stored {
    if f.row.status != Downloading || !luck.scans then f
    else if luck.stats && f.final.Some? && |f.final.value.bytes| > 0
    then if luck.updates then f.(row := f.row.(status := Complete, sizeBytes := |f.final.value.bytes|)) else f
    else Stored(if luck.updates then f.row.(status := Pending, retryCount := 0) else f.row, None, f.final)
  }

  /**
    What becomes of a stuck file: complete, with the size of the file, exactly when its record and its
    path could be read, there is something at the path and the update went through; pending with no
    failures exactly when the record was read, nothing was seen there and the update went through.
   */
  lemma RecoveredReads(f: Stored, luck: Luck)
    requires f.row.status == Downloading
    ensures var f' := Recovered(f, luck);
            var seen := luck.stats && f.final.Some? && |f.final.value.bytes| > 0;
            && f'.final == f.final
            && (f'.row.status == Complete <==> luck.scans && luck.updates && seen)
            && (f'.row.status == Complete ==> f'.row == Row(Complete, f.row.retryCount, |f.final.value.bytes|))
            && (f'.row.status == Pending <==> luck.scans && luck.updates && !seen)
            && (f'.row.status == Pending ==> f'.row == Row(Pending, 0, f.row.sizeBytes))
            && (!luck.scans || !luck.updates ==> f'.row == f.row)
            && f'.temp == if luck.scans && !seen then None else f.temp
  {
  }

  /** Recovery of a stuck file is a run of the step system, however it goes. */
  lemma RecoveryIsPath(valid: Validator, f: Stored, luck: Luck) returns (x: seq<Action>)
    requires f.row.status == Downloading
    ensures Path(valid, Resting(f), x, Resting(Recovered(f, luck)))
  {
    if !luck.scans {
      return [];
    }
    var s := Resting(f);
    var found := luck.stats && f.final.Some? && |f.final.value.bytes| > 0;
    One(valid, s, Pick);
    Then(valid, s, [Pick], Apply(s, Pick), Stat(found));
    var s2 := Apply(Apply(s, Pick), Stat(found));
    var y := EndOfRecovery(valid, s2, luck.updates);
    Join(valid, s, [Pick] + [Stat(found)], s2, y, Resting(Recovered(f, luck)));
    x := [Pick] + [Stat(found)] + y;
  }

  lemma EndOfRecovery(valid: Validator, s: State, updates: bool) returns (x: seq<Action>)
    requires s.phase == Idle && (s.cleanup.Found? || s.cleanup == Missing)
    ensures Path(valid, s, x,
                 if s.cleanup.Found? then
                   s.(row := if updates then s.row.(status := Complete, sizeBytes := s.cleanup.size) else s.row, cleanup := Off)
                 else
                   s.(row := if updates then s.row.(status := Pending, retryCount := 0) else s.row, temp := None, cleanup := Off))
  {
    if s.cleanup.Found? {
      One(valid, s, if updates then Adopt else SkipCleanup);
      x := [if updates then Adopt else SkipCleanup];
    } else {
      One(valid, s, Clear);
      Then(valid, s, [Clear], s.(temp := None, cleanup := Cleared), if updates then Reset else SkipCleanup);
      x := [Clear] + [if updates then Reset else SkipCleanup];
    }
  }

  lemma OneFewer(counted: set<int>, todo: set<int>, id: int)
    requires id in todo
    ensures |counted * todo| == |counted * (todo - {id})| + if id in counted then 1 else 0
  {
    var left := todo - {id};
    assert counted * todo == if id in counted then counted * left + {id} else counted * left;
  }

  class FileRepo {
    var files: map<int, Stored>

    constructor ()
      ensures files == map[]
    {
      files := map[];
    }

    method RecoverOne(id: int, luck: Luck) returns (updated: bool)
      requires id in files && files[id].row.status == Downloading && luck.scans
      modifies this
      ensures files == old(files)[id := Recovered(old(files)[id], luck)] && updated == luck.updates
    {
      var f := files[id];
      if luck.stats && f.final.Some? && |f.final.value.bytes| > 0 {
        if luck.updates {
          f := f.(row := f.row.(status := Complete, sizeBytes := |f.final.value.bytes|));
        }
      } else {
        f := f.(temp := None);
        if luck.updates {
          f := f.(row := f.row.(status := Pending, retryCount := 0));
        }
      }
      files := files[id := f];
      return luck.updates;
    }

    /**
      Collect the stuck files first, then recover them one by one.  Every stuck file ends as Recovered
      says and nothing else changes; the count is that of the updates that went through, and stuck
      afterwards are exactly the files whose record could not be read or whose update failed.
     */
    method ResetZombieDownloads(queries: bool, luck: int -> Luck) returns (ok: bool, resetCount: nat)
      modifies this
      ensures ok == queries && (!ok ==> files == old(files) && resetCount == 0)
      ensures ok ==> AllAsRecovered(old(files), files, luck) && resetCount == |Updated(old(files), luck)|
      ensures ok ==> forall id :: id in files ==>
                (files[id].row.status == Downloading <==>
                 old(files)[id].row.status == Downloading && !(luck(id).scans && luck(id).updates))
    {
      if !queries {
        return false, 0;
      }
      ghost var before := files;
      var zombies := set id | id in files && files[id].row.status == Downloading && luck(id).scans;
      resetCount := RecoverAll(zombies, luck);
      assert Updated(before, luck) == set id | id in zombies && luck(id).updates;
      return true, resetCount;
    }

    method RecoverAll(zombies: set<int>, luck: int -> Luck) returns (resetCount: nat)
      requires forall id :: id in zombies ==> id in files && files[id].row.status == Downloading && luck(id).scans
      modifies this
      ensures files.Keys == old(files).Keys
      ensures forall id :: id in old(files) ==> files[id] == if id in zombies then Recovered(old(files)[id], luck(id)) else old(files)[id]
      ensures resetCount == |set id | id in zombies && luck(id).updates|
    {
      ghost var counted := set id | id in zombies && luck(id).updates;
      var todo := zombies;
      resetCount := 0;
      assert counted * todo == counted;
      while todo != {}
        invariant todo <= zombies && resetCount + |counted * todo| == |counted|
        invariant files.Keys == old(files).Keys
        invariant forall id :: id in old(files) ==>
                    files[id] == if id in zombies && id !in todo then Recovered(old(files)[id], luck(id)) else old(files)[id]
        decreases todo
      {
        ghost var some := Member(todo);
        var id :| id in todo;
        OneFewer(counted, todo, id);
        todo := todo - {id};
        var updated := RecoverOne(id, luck(id));
        if updated {
          resetCount := resetCount + 1;
        }
      }
      assert counted * todo == {};
    }
  }

  /** Every file is as recovery leaves it. */
  ghost predicate AllAsRecovered(before: map<int, Stored>, after: map<int, Stored>, luck: int -> Luck) {
    after.Keys == before.Keys && forall id :: id in before ==> after[id] == Recovered(before[id], luck(id))
  }

  /** The stuck files whose update goes through. */
  function Updated(files: map<int, Stored>, luck: int -> Luck): set<int> {
    set id | id in files && files[id].row.status == Downloading && luck(id).scans && luck(id).updates
  }
}
