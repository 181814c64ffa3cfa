/**
  Crawls of internal/crawler/manager.go: the per-project try-lock of TriggerCrawl and the
  check-then-insert of processAssets.  Any number of callers (ticks of any scheduled goroutine,
  restarts, manual triggers) run beside each other; a step is one lock operation or one statement.
  Project names and ids are in one-to-one correspondence and do not change during a run.
 */
module CrawlExclusion {
  import opened Basics

  /** A row of the files table; `crawled` tells rows made by crawls from uploads. */
  datatype FileRow = FileRow(projectId: int, filename: string, crawled: bool)

  datatype Phase =
    | Waiting                                      // called, lock not tried yet
    | Fetching                                     // lock held, releases not known yet
    | Body(todo: seq<string>)                      // lock held, assets still to look at
    | Checked(file: string, todo: seq<string>)     // no row was found for `file`; about to insert it
    | Done

  datatype Crawl = Crawl(project: string, phase: Phase)

  /** The mutexes that are held and by which crawl, the crawls so far, and the files table. */
  datatype State = State(locks: map<string, nat>, crawls: seq<Crawl>, rows: seq<FileRow>)

  type Ids = string -> int

  ghost predicate OneToOne(ids: Ids) {
    forall a, b :: ids(a) == ids(b) ==> a == b
  }

  predicate InBody(c: Crawl) {
    c.phase.Fetching? || c.phase.Body? || c.phase.Checked?
  }

  predicate HasRow(rows: seq<FileRow>, projectId: int, filename: string) {
    exists i :: 0 <= i < |rows| && rows[i].projectId == projectId && rows[i].filename == filename
  }

  // ---------------------------------------------------------------- steps

  datatype Step =
    | Trigger(project: string)
    | TryLock(c: nat)
    | Fetched(c: nat, assets: seq<string>)
    | Skip(c: nat)                        // filtered out, or the lookup failed
    | Find(c: nat)
    | Insert(c: nat, stored: bool)        // stored: the insert succeeded
    | Finish(c: nat)                      // any return: the deferred unlock
    | Upload(row: FileRow)
    | DeleteRow(i: nat)
    | Restart                             // the process dies and comes back

  function SetPhase(s: State, c: nat, p: Phase): State
    requires c < |s.crawls|
  {
    s.(crawls := s.crawls[c := s.crawls[c].(phase := p)])
  }

  ghost predicate Next(ids: Ids, s: State, step: Step, s': State) {
    match step
    case Trigger(project) => s' == s.(crawls := s.crawls + [Crawl(project, Waiting)])
    case TryLock(c) =>
      && c < |s.crawls| && s.crawls[c].phase == Waiting
      && s' == if s.crawls[c].project in s.locks then SetPhase(s, c, Done)
               else SetPhase(s, c, Fetching).(locks := s.locks[s.crawls[c].project := c])
    case Fetched(c, assets) =>
      && c < |s.crawls| && s.crawls[c].phase == Fetching
      && s' == SetPhase(s, c, Body(assets))
    case Skip(c) =>
      && c < |s.crawls| && s.crawls[c].phase.Body? && s.crawls[c].phase.todo != []
      && s' == SetPhase(s, c, Body(s.crawls[c].phase.todo[1..]))
    case Find(c) =>
      && c < |s.crawls| && s.crawls[c].phase.Body? && s.crawls[c].phase.todo != []
      && (var file, rest := s.crawls[c].phase.todo[0], s.crawls[c].phase.todo[1..];
          s' == SetPhase(s, c, if HasRow(s.rows, ids(s.crawls[c].project), file) then Body(rest) else Checked(file, rest)))
    case Insert(c, stored) =>
      && c < |s.crawls| && s.crawls[c].phase.Checked?
      && s' == SetPhase(s, c, Body(s.crawls[c].phase.todo))
                 .(rows := if stored then s.rows + [FileRow(ids(s.crawls[c].project), s.crawls[c].phase.file, true)] else s.rows)
    case Finish(c) =>
      && c < |s.crawls| && InBody(s.crawls[c])
      && s' == SetPhase(s, c, Done).(locks := s.locks - {s.crawls[c].project})
    case Upload(row) => !row.crawled && s' == s.(rows := s.rows + [row])
    case DeleteRow(i) => i < |s.rows| && s' == s.(rows := s.rows[..i] + s.rows[i + 1..])
    case Restart => s' == State(map[], [], s.rows)
  }

  ghost predicate Trace(ids: Ids, states: seq<State>, steps: seq<Step>) {
    |states| == |steps| + 1 && forall i :: 0 <= i < |steps| ==> Next(ids, states[i], steps[i], states[i + 1])
  }

  ghost predicate IsRun(ids: Ids, states: seq<State>, steps: seq<Step>) {
    Trace(ids, states, steps) && states[0] == State(map[], [], [])
  }

  // ---------------------------------------------------------------- exclusion

  /** Whoever is in the body of a crawl holds the lock of its project. */
  predicate Holds(s: State, c: nat)
    requires c < |s.crawls|
  {
    InBody(s.crawls[c]) ==> s.crawls[c].project in s.locks && s.locks[s.crawls[c].project] == c
  }

  /** No two rows made by crawls are about the same file of the same project. */
  predicate UniqueRows(rows: seq<FileRow>) {
    forall i, j :: 0 <= i < j < |rows| && rows[i].crawled && rows[j].crawled ==>
      rows[i].projectId != rows[j].projectId || rows[i].filename != rows[j].filename
  }

  /** Between its check and its insert, nobody inserts a crawled row for the same file. */
  predicate StillAbsent(ids: Ids, s: State, c: nat)
    requires c < |s.crawls|
  {
    s.crawls[c].phase.Checked? ==>
      forall i :: 0 <= i < |s.rows| && s.rows[i].crawled ==>
        s.rows[i].projectId != ids(s.crawls[c].project) || s.rows[i].filename != s.crawls[c].phase.file
  }

  ghost predicate Safe(ids: Ids, s: State) {
    && (forall c :: 0 <= c < |s.crawls| ==> Holds(s, c))
    && (forall c :: 0 <= c < |s.crawls| ==> StillAbsent(ids, s, c))
    && UniqueRows(s.rows)
  }

  lemma StepKeepsHolds(ids: Ids, s: State, step: Step, s': State, c: nat)
    requires (forall d :: 0 <= d < |s.crawls| ==> Holds(s, d)) && Next(ids, s, step, s') && c < |s'.crawls|
    ensures Holds(s', c)
  {
    if c < |s.crawls| {
      assert Holds(s, c);
    }
    if step.Finish? {
      assert Holds(s, step.c);
    }
  }

  lemma InsertKeepsUnique(ids: Ids, s: State, c: nat, stored: bool, s': State)
    requires Safe(ids, s) && Next(ids, s, Insert(c, stored), s')
    ensures UniqueRows(s'.rows)
  {
    assert StillAbsent(ids, s, c);
  }

  /** Only the lock holder of a project adds crawled rows to it. */
  lemma InsertKeepsAbsent(ids: Ids, s: State, c: nat, stored: bool, s': State, d: nat)
    requires OneToOne(ids) && Safe(ids, s) && Next(ids, s, Insert(c, stored), s') && d < |s'.crawls|
    ensures StillAbsent(ids, s', d)
  {
    assert StillAbsent(ids, s, d) && Holds(s, c) && Holds(s, d);
    if d != c && s.crawls[d].phase.Checked? {
      assert s.crawls[d].project != s.crawls[c].project;
      assert ids(s.crawls[d].project) != ids(s.crawls[c].project);
    }
  }

  lemma OtherStepsKeepAbsent(ids: Ids, s: State, step: Step, s': State, d: nat)
    requires Safe(ids, s) && Next(ids, s, step, s') && !step.Insert? && d < |s'.crawls|
    ensures StillAbsent(ids, s', d)
  {
    if d < |s.crawls| {
      assert StillAbsent(ids, s, d);
    }
  }

  lemma StepKeepsSafe(ids: Ids, s: State, step: Step, s': State)
    requires OneToOne(ids) && Safe(ids, s) && Next(ids, s, step, s')
    ensures Safe(ids, s')
  {
    forall c | 0 <= c < |s'.crawls|
      ensures Holds(s', c) && StillAbsent(ids, s', c)
    {
      StepKeepsHolds(ids, s, step, s', c);
      if step.Insert? {
        InsertKeepsAbsent(ids, s, step.c, step.stored, s', c);
      } else {
        OtherStepsKeepAbsent(ids, s, step, s', c);
      }
    }
    if step.Insert? {
      InsertKeepsUnique(ids, s, step.c, step.stored, s');
    }
  }

  ghost predicate OneBodyPerProject(s: State) {
    forall c, d :: 0 <= c < d < |s.crawls| && InBody(s.crawls[c]) && InBody(s.crawls[d]) ==>
      s.crawls[c].project != s.crawls[d].project
  }

  lemma SafeMeansExclusion(ids: Ids, s: State)
    requires Safe(ids, s)
    ensures OneBodyPerProject(s)
  {
    forall c, d | 0 <= c < d < |s.crawls| && InBody(s.crawls[c]) && InBody(s.crawls[d])
      ensures s.crawls[c].project != s.crawls[d].project
    {
      assert Holds(s, c) && Holds(s, d);
    }
  }

  /**
    In no interleaving are two crawls of one project in their bodies at once, and therefore the
    check-then-insert never makes two crawled rows with the same project and file name.
   */
  lemma {:induction false} CrawlsExclude(ids: Ids, states: seq<State>, steps: seq<Step>)
    requires OneToOne(ids) && IsRun(ids, states, steps)
    ensures forall i :: 0 <= i < |states| ==>
              Safe(ids, states[i]) && OneBodyPerProject(states[i]) && UniqueRows(states[i].rows)
    decreases |steps|
  {
    var n := |steps|;
    if n > 0 {
      CrawlsExclude(ids, states[..n], steps[..n - 1]);
      assert states[..n][n - 1] == states[n - 1];
      StepKeepsSafe(ids, states[n - 1], steps[n - 1], states[n]);
    }
    SafeMeansExclusion(ids, states[n]);
  }

  // ---------------------------------------------------------------- one crawl body

  /** The rows after looking at the assets in turn, when every statement succeeds. */
  function Processed(rows: seq<FileRow>, projectId: int, wanted: string -> bool, assets: seq<string>): seq<FileRow>
    decreases |assets|
  {
    if assets == [] then rows
    else if !wanted(assets[0]) || HasRow(rows, projectId, assets[0]) then Processed(rows, projectId, wanted, assets[1..])
    else Processed(rows + [FileRow(projectId, assets[0], true)], projectId, wanted, assets[1..])
  }

  lemma {:induction false} ProcessedExtends(rows: seq<FileRow>, projectId: int, wanted: string -> bool, assets: seq<string>)
    ensures rows <= Processed(rows, projectId, wanted, assets)
    ensures forall f :: HasRow(Processed(rows, projectId, wanted, assets), projectId, f)
                   <==> HasRow(rows, projectId, f) || (f in assets && wanted(f))
    decreases |assets|
  {
    if assets != [] {
      var f0, rest := assets[0], assets[1..];
      assert assets == [f0] + rest;
      if !wanted(f0) || HasRow(rows, projectId, f0) {
        ProcessedExtends(rows, projectId, wanted, rest);
      } else {
        var more := rows + [FileRow(projectId, f0, true)];
        ProcessedExtends(more, projectId, wanted, rest);
        forall f
          ensures HasRow(more, projectId, f) <==> HasRow(rows, projectId, f) || f == f0
        {
          RowAdded(rows, projectId, f0, f);
        }
      }
    }
  }

  lemma RowAdded(rows: seq<FileRow>, projectId: int, f0: string, f: string)
    ensures HasRow(rows + [FileRow(projectId, f0, true)], projectId, f) <==> HasRow(rows, projectId, f) || f == f0
  {
    var more := rows + [FileRow(projectId, f0, true)];
    if HasRow(rows, projectId, f) {
      var i :| 0 <= i < |rows| && rows[i].projectId == projectId && rows[i].filename == f;
      assert more[i] == rows[i];
    }
    if f == f0 {
      assert more[|rows|].filename == f;
    }
  }

  lemma {:induction false} NothingNew(rows: seq<FileRow>, projectId: int, wanted: string -> bool, assets: seq<string>)
    requires forall f :: f in assets && wanted(f) ==> HasRow(rows, projectId, f)
    ensures Processed(rows, projectId, wanted, assets) == rows
    decreases |assets|
  {
    if assets != [] {
      assert assets[0] in assets;
      NothingNew(rows, projectId, wanted, assets[1..]);
    }
  }

  /** Processing the same releases again, or any part of them, adds no row, however the table grew in between. */
  lemma ReprocessingAddsNoRow(rows: seq<FileRow>, projectId: int, wanted: string -> bool, assets: seq<string>,
                              later: seq<FileRow>, again: seq<string>)
    requires Processed(rows, projectId, wanted, assets) <= later
    requires forall f :: f in again ==> f in assets
    ensures Processed(later, projectId, wanted, again) == later
  {
    ProcessedExtends(rows, projectId, wanted, assets);
    var first := Processed(rows, projectId, wanted, assets);
    forall f | f in again && wanted(f)
      ensures HasRow(later, projectId, f)
    {
      assert HasRow(first, projectId, f);
      var i :| 0 <= i < |first| && first[i].projectId == projectId && first[i].filename == f;
      assert later[i] == first[i];
    }
    NothingNew(later, projectId, wanted, again);
  }

  // ---------------------------------------------------------------- crawling again, among everything else

  /** Every wanted file of `files` has a row. */
  ghost predicate HaveRows(rows: seq<FileRow>, projectId: int, wanted: string -> bool, files: seq<string>) {
    forall f :: f in files && wanted(f) ==> HasRow(rows, projectId, f)
  }

  lemma RowsStay(ids: Ids, s: State, step: Step, s': State, projectId: int, f: string)
    requires Next(ids, s, step, s') && !step.DeleteRow? && HasRow(s.rows, projectId, f)
    ensures HasRow(s'.rows, projectId, f)
  {
    var i :| 0 <= i < |s.rows| && s.rows[i].projectId == projectId && s.rows[i].filename == f;
    assert s'.rows[i] == s.rows[i];
  }

  lemma {:induction false} HaveRowsStay(ids: Ids, states: seq<State>, steps: seq<Step>, i: nat, j: nat,
                                        projectId: int, wanted: string -> bool, files: seq<string>)
    requires IsRun(ids, states, steps) && i <= j < |states| && (forall n :: i <= n < j ==> !steps[n].DeleteRow?)
    requires HaveRows(states[i].rows, projectId, wanted, files)
    ensures HaveRows(states[j].rows, projectId, wanted, files)
    decreases j
  {
    if i < j {
      HaveRowsStay(ids, states, steps, i, j - 1, projectId, wanted, files);
      forall f | f in files && wanted(f)
        ensures HasRow(states[j].rows, projectId, f)
      {
        RowsStay(ids, states[j - 1], steps[j - 1], states[j], projectId, f);
      }
    }
  }

  /** In this step no row and no crawl goes away, and crawl `c` looks for a file exactly if it is wanted. */
  ghost predicate Regular(wanted: string -> bool, s: State, step: Step, c: nat) {
    && !step.DeleteRow? && !step.Restart?
    && (c < |s.crawls| && s.crawls[c].phase.Body? && s.crawls[c].phase.todo != [] ==>
          (step == Skip(c) ==> !wanted(s.crawls[c].phase.todo[0])) && (step == Find(c) ==> wanted(s.crawls[c].phase.todo[0])))
  }

  /** Crawl `c` of `project` has still to look at what has no row yet. */
  ghost predicate Covering(ids: Ids, wanted: string -> bool, s: State, c: nat, project: string, assets: seq<string>) {
    && c < |s.crawls| && s.crawls[c].project == project
    && match s.crawls[c].phase
       case Body(todo) => forall f :: f in assets && wanted(f) ==> HasRow(s.rows, ids(project), f) || f in todo
       case Checked(file, todo) => forall f :: f in assets && wanted(f) ==> HasRow(s.rows, ids(project), f) || f == file || f in todo
       case Done => true
       case _ => false
  }

  lemma InsertedHasRow(rows: seq<FileRow>, row: FileRow)
    ensures HasRow(rows + [row], row.projectId, row.filename)
  {
    assert (rows + [row])[|rows|] == row;
  }

  lemma StepKeepsCovering(ids: Ids, wanted: string -> bool, s: State, step: Step, s': State, c: nat, project: string, assets: seq<string>)
    requires Next(ids, s, step, s') && Regular(wanted, s, step, c) && step != Insert(c, false)
    requires Covering(ids, wanted, s, c, project, assets)
    ensures Covering(ids, wanted, s', c, project, assets)
  {
    forall f | HasRow(s.rows, ids(project), f)
      ensures HasRow(s'.rows, ids(project), f)
    {
      RowsStay(ids, s, step, s', ids(project), f);
    }
    var phase := s.crawls[c].phase;
    if step == Insert(c, true) {
      InsertedHasRow(s.rows, FileRow(ids(project), phase.file, true));
    }
    if phase.Body? && phase.todo != [] {
      assert phase.todo == [phase.todo[0]] + phase.todo[1..];
    }
  }

  /** From the answer of the source at step i, crawl `c` went over all of `assets` by state j, and no statement of it failed. */
  ghost predicate CrawledAll(wanted: string -> bool, states: seq<State>, steps: seq<Step>, c: nat, assets: seq<string>, i: nat, j: nat)
    requires |states| == |steps| + 1
  {
    && i < j < |states| && steps[i] == Fetched(c, assets)
    && (forall n :: i < n < j ==> Regular(wanted, states[n], steps[n], c) && steps[n] != Insert(c, false))
    && c < |states[j].crawls| && states[j].crawls[c].phase == Body([])
  }

  lemma {:induction false} CoveringOnRun(ids: Ids, wanted: string -> bool, states: seq<State>, steps: seq<Step>,
                                         c: nat, assets: seq<string>, i: nat, j: nat)
    requires IsRun(ids, states, steps) && i < j < |states| && steps[i] == Fetched(c, assets) && c < |states[i].crawls|
    requires forall n :: i < n < j ==> Regular(wanted, states[n], steps[n], c) && steps[n] != Insert(c, false)
    ensures Covering(ids, wanted, states[j], c, states[i].crawls[c].project, assets)
    decreases j
  {
    if i + 1 < j {
      CoveringOnRun(ids, wanted, states, steps, c, assets, i, j - 1);
      StepKeepsCovering(ids, wanted, states[j - 1], steps[j - 1], states[j], c, states[i].crawls[c].project, assets);
    } else {
      assert Next(ids, states[i], steps[i], states[j]);
    }
  }

  /** Crawl `c` of `project` has only files left to look at that have a row if wanted, and is not about to insert. */
  ghost predicate Idling(ids: Ids, wanted: string -> bool, s: State, c: nat, project: string) {
    && c < |s.crawls| && s.crawls[c].project == project
    && (s.crawls[c].phase == Done
        || (s.crawls[c].phase.Body? && HaveRows(s.rows, ids(project), wanted, s.crawls[c].phase.todo)))
  }

  lemma StepKeepsIdling(ids: Ids, wanted: string -> bool, s: State, step: Step, s': State, c: nat, project: string)
    requires Next(ids, s, step, s') && Regular(wanted, s, step, c) && Idling(ids, wanted, s, c, project)
    ensures Idling(ids, wanted, s', c, project)
  {
    forall f | HasRow(s.rows, ids(project), f)
      ensures HasRow(s'.rows, ids(project), f)
    {
      RowsStay(ids, s, step, s', ids(project), f);
    }
    if step == Find(c) {
      assert s.crawls[c].phase.todo[0] in s.crawls[c].phase.todo;
    }
  }

  lemma {:induction false} IdlingOnRun(ids: Ids, wanted: string -> bool, states: seq<State>, steps: seq<Step>,
                                       c: nat, again: seq<string>, k: nat, m: nat)
    requires IsRun(ids, states, steps) && k < m < |states| && steps[k] == Fetched(c, again) && c < |states[k].crawls|
    requires HaveRows(states[k].rows, ids(states[k].crawls[c].project), wanted, again)
    requires forall n :: k < n < m ==> Regular(wanted, states[n], steps[n], c)
    ensures Idling(ids, wanted, states[m], c, states[k].crawls[c].project)
    decreases m
  {
    if k + 1 < m {
      IdlingOnRun(ids, wanted, states, steps, c, again, k, m - 1);
      StepKeepsIdling(ids, wanted, states[m - 1], steps[m - 1], states[m], c, states[k].crawls[c].project);
    } else {
      assert Next(ids, states[k], steps[k], states[m]);
    }
  }

  /**
    In every interleaving: once a crawl of a project has gone over `assets` and as long as no row is
    deleted, a later crawl of that project that is given the same assets or part of them reaches no
    insert, whatever other crawls and uploads do.
   */
  lemma RecrawlAddsNoRow(ids: Ids, wanted: string -> bool, states: seq<State>, steps: seq<Step>,
                         b: nat, assets: seq<string>, i: nat, j: nat, c: nat, again: seq<string>, k: nat, m: nat)
    requires IsRun(ids, states, steps) && CrawledAll(wanted, states, steps, b, assets, i, j)
    requires j <= k < m < |steps| && (forall n :: j <= n < k ==> !steps[n].DeleteRow?)
    requires steps[k] == Fetched(c, again) && (forall f :: f in again ==> f in assets)
    requires b < |states[i].crawls| && c < |states[k].crawls| && states[i].crawls[b].project == states[k].crawls[c].project
    requires forall n :: k < n < m ==> Regular(wanted, states[n], steps[n], c)
    ensures !(steps[m].Insert? && steps[m].c == c)
  {
    var projectId := ids(states[i].crawls[b].project);
    CoveringOnRun(ids, wanted, states, steps, b, assets, i, j);
    assert HaveRows(states[j].rows, projectId, wanted, assets);
    HaveRowsStay(ids, states, steps, j, k, projectId, wanted, assets);
    IdlingOnRun(ids, wanted, states, steps, c, again, k, m);
    assert Next(ids, states[m], steps[m], states[m + 1]);
  }

  // ---------------------------------------------------------------- the loop over the assets

  /** The steps lead from `s` to `s'`. */
  ghost predicate Path(ids: Ids, s: State, steps: seq<Step>, s': State) {
    exists states :: Trace(ids, states, steps) && states[0] == s && states[|steps|] == s'
  }

  lemma Then(ids: Ids, s: State, x: seq<Step>, t: State, step: Step, t': State)
    requires Path(ids, s, x, t) && Next(ids, t, step, t')
    ensures Path(ids, s, x + [step], t')
  {
    var states :| Trace(ids, states, x) && states[0] == s && states[|x|] == t;
    assert Trace(ids, states + [t'], x + [step]);
  }

  /** The rows after one asset: looked for unless it is filtered out or the lookup fails, and stored unless the insert fails. */
  function Looked(rows: seq<FileRow>, projectId: int, file: string, look: bool, stored: bool): seq<FileRow> {
    if look && stored && !HasRow(rows, projectId, file) then rows + [FileRow(projectId, file, true)] else rows
  }

  /** Crawl `c` of state `s` with `todo` still to look at and the rows as given. */
  function During(s: State, c: nat, todo: seq<string>, rows: seq<FileRow>): State
    requires c < |s.crawls|
  {
    SetPhase(s, c, Body(todo)).(rows := rows)
  }

  /** Looking at one asset: skipped, found, or not found and inserted. */
  lemma AssetPath(ids: Ids, s: State, c: nat, x: seq<Step>, todo: seq<string>, rows: seq<FileRow>, look: bool, stored: bool)
    returns (y: seq<Step>)
    requires c < |s.crawls| && todo != [] && Path(ids, s, x, During(s, c, todo, rows))
    ensures var projectId := ids(s.crawls[c].project);
            Path(ids, s, y, During(s, c, todo[1..], Looked(rows, projectId, todo[0], look, stored)))
  {
    var projectId := ids(s.crawls[c].project);
    var t := During(s, c, todo, rows);
    if !look {
      Then(ids, s, x, t, Skip(c), During(s, c, todo[1..], rows));
      y := x + [Skip(c)];
    } else if HasRow(rows, projectId, todo[0]) {
      Then(ids, s, x, t, Find(c), During(s, c, todo[1..], rows));
      y := x + [Find(c)];
    } else {
      var t1 := SetPhase(s, c, Checked(todo[0], todo[1..])).(rows := rows);
      Then(ids, s, x, t, Find(c), t1);
      Then(ids, s, x + [Find(c)], t1, Insert(c, stored),
           During(s, c, todo[1..], if stored then rows + [FileRow(projectId, todo[0], true)] else rows));
      y := x + [Find(c)] + [Insert(c, stored)];
    }
  }

  /** What the statements about asset i do: the lookup and the insert may fail, the download may fail. */
  datatype Luck = Luck(finds: nat -> bool, creates: nat -> bool, downloads: nat -> bool)

  /** One crawl body: the project, its filter, what the source listed and how the statements fare. */
  datatype Job = Job(projectId: int, wanted: string -> bool, releases: seq<string>, luck: Luck)

  predicate Looks(job: Job, i: nat)
    requires i < |job.releases|
  {
    job.wanted(job.releases[i]) && job.luck.finds(i)
  }

  /** The rows after the first `n` assets. */
  function RowsAfter(rows: seq<FileRow>, job: Job, n: nat): seq<FileRow>
    requires n <= |job.releases|
  {
    if n == 0 then rows
    else Looked(RowsAfter(rows, job, n - 1), job.projectId, job.releases[n - 1], Looks(job, n - 1), job.luck.creates(n - 1))
  }

  /** The assets among `at` whose download succeeds, in order. */
  function Downloaded(job: Job, at: seq<nat>): seq<string>
    requires forall k :: 0 <= k < |at| ==> at[k] < |job.releases|
  {
    if at == [] then [] else
      var k := at[|at| - 1];
      Downloaded(job, at[..|at| - 1]) + if job.luck.downloads(k) then [job.releases[k]] else []
  }

  /** The new rows are those of the assets numbered `at`, in order. */
  ghost predicate NewRows(job: Job, before: seq<FileRow>, after: seq<FileRow>, at: seq<nat>, n: nat) {
    && |after| == |before| + |at| && before <= after && n <= |job.releases|
    && (forall k :: 0 <= k < |at| ==> at[k] < n && after[|before| + k] == FileRow(job.projectId, job.releases[at[k]], true))
    && (forall k, l :: 0 <= k < l < |at| ==> at[k] < at[l])
  }

  /** The assets numbered `at` are those that were wanted, looked up and stored, and had no row, old or new, before them. */
  ghost predicate ExactlyNew(job: Job, before: seq<FileRow>, at: seq<nat>, n: nat)
    requires n <= |job.releases|
  {
    forall k: nat :: k < n ==>
      (k in at <==>
       && job.wanted(job.releases[k]) && job.luck.finds(k) && job.luck.creates(k)
       && !HasRow(before, job.projectId, job.releases[k])
       && forall l: nat :: l < k && l in at ==> job.releases[l] != job.releases[k])
  }

  lemma NewHasRow(job: Job, before: seq<FileRow>, after: seq<FileRow>, at: seq<nat>, n: nat, f: string)
    requires NewRows(job, before, after, at, n)
    ensures HasRow(after, job.projectId, f) <==>
            HasRow(before, job.projectId, f) || exists l: nat :: l < n && l in at && job.releases[l] == f
  {
    if i :| 0 <= i < |after| && after[i].projectId == job.projectId && after[i].filename == f {
      if i < |before| {
        assert before[i] == after[i];
      } else {
        assert at[i - |before|] in at && job.releases[at[i - |before|]] == f;
      }
    }
    if i :| 0 <= i < |before| && before[i].projectId == job.projectId && before[i].filename == f {
      assert after[i] == before[i];
    }
    if l: nat :| l < n && l in at && job.releases[l] == f {
      var k :| 0 <= k < |at| && at[k] == l;
      assert after[|before| + k].filename == f;
    }
  }

  /** Asset number `n` gets a row. */
  predicate Adds(job: Job, rows: seq<FileRow>, n: nat)
    requires n < |job.releases|
  {
    Looks(job, n) && job.luck.creates(n) && !HasRow(rows, job.projectId, job.releases[n])
  }

  /** One asset more: it is new or it is not. */
  lemma OneMoreAsset(job: Job, before: seq<FileRow>, rows: seq<FileRow>, at: seq<nat>, n: nat)
    requires n < |job.releases| && NewRows(job, before, rows, at, n) && ExactlyNew(job, before, at, n)
    ensures ExactlyNew(job, before, if Adds(job, rows, n) then at + [n] else at, n + 1)
  {
    NewHasRow(job, before, rows, at, n, job.releases[n]);
    assert n !in at;
  }

  /** What the loop keeps after `n` assets. */
  ghost predicate LoopAt(job: Job, before: seq<FileRow>, rows: seq<FileRow>, at: seq<nat>, n: nat, fetched: seq<string>) {
    && NewRows(job, before, rows, at, n) && ExactlyNew(job, before, at, n)
    && rows == RowsAfter(before, job, n) && fetched == Downloaded(job, at)
  }

  lemma LoopStep(job: Job, before: seq<FileRow>, rows: seq<FileRow>, at: seq<nat>, n: nat, fetched: seq<string>)
    requires n < |job.releases| && LoopAt(job, before, rows, at, n, fetched)
    ensures !Adds(job, rows, n) ==> LoopAt(job, before, rows, at, n + 1, fetched)
    ensures Adds(job, rows, n) ==>
              LoopAt(job, before, rows + [FileRow(job.projectId, job.releases[n], true)], at + [n], n + 1,
                     fetched + if job.luck.downloads(n) then [job.releases[n]] else [])
  {
    OneMoreAsset(job, before, rows, at, n);
    OneMoreDownloaded(job, at, n);
    if Adds(job, rows, n) {
      NewRowsGrow(job, before, rows, at, n);
    }
  }

  lemma NewRowsGrow(job: Job, before: seq<FileRow>, rows: seq<FileRow>, at: seq<nat>, n: nat)
    requires n < |job.releases| && NewRows(job, before, rows, at, n)
    ensures NewRows(job, before, rows + [FileRow(job.projectId, job.releases[n], true)], at + [n], n + 1)
  {
  }

  lemma OneMoreDownloaded(job: Job, at: seq<nat>, k: nat)
    requires k < |job.releases| && forall i :: 0 <= i < |at| ==> at[i] < |job.releases|
    ensures Downloaded(job, at + [k]) == Downloaded(job, at) + if job.luck.downloads(k) then [job.releases[k]] else []
  {
    assert (at + [k])[..|at|] == at;
  }

  lemma {:induction false} RowsAfterAppends(rows: seq<FileRow>, job: Job, n: nat)
    requires n <= |job.releases|
    ensures var after := RowsAfter(rows, job, n);
            && rows <= after
            && forall j :: |rows| <= j < |after| ==>
                 after[j].projectId == job.projectId && after[j].crawled && after[j].filename in job.releases && job.wanted(after[j].filename)
    ensures UniqueRows(rows) ==> UniqueRows(RowsAfter(rows, job, n))
  {
    if n > 0 {
      RowsAfterAppends(rows, job, n - 1);
    }
  }

  ghost predicate NoFailure(luck: Luck) {
    forall i: nat :: luck.finds(i) && luck.creates(i)
  }

  lemma {:induction false} RowsAfterIsProcessed(rows: seq<FileRow>, job: Job, n: nat)
    requires n <= |job.releases| && NoFailure(job.luck)
    ensures Processed(RowsAfter(rows, job, n), job.projectId, job.wanted, job.releases[n..])
         == Processed(rows, job.projectId, job.wanted, job.releases)
  {
    if n == 0 {
      assert job.releases[0..] == job.releases;
    } else {
      RowsAfterIsProcessed(rows, job, n - 1);
      var todo := job.releases[n - 1..];
      assert todo[0] == job.releases[n - 1] && todo[1..] == job.releases[n..];
    }
  }

  /** The body is a path of the step system for the crawl `c` that runs it. */
  lemma {:induction false} RowsAfterIsPath(ids: Ids, s: State, c: nat, job: Job, n: nat) returns (x: seq<Step>)
    requires n <= |job.releases|
    requires c < |s.crawls| && s.crawls[c].phase == Body(job.releases) && ids(s.crawls[c].project) == job.projectId
    ensures Path(ids, s, x, During(s, c, job.releases[n..], RowsAfter(s.rows, job, n)))
  {
    if n == 0 {
      assert Trace(ids, [s], []) && job.releases[0..] == job.releases;
      assert During(s, c, job.releases, s.rows) == s;
      x := [];
    } else {
      x := RowsAfterIsPath(ids, s, c, job, n - 1);
      var todo := job.releases[n - 1..];
      assert todo[0] == job.releases[n - 1] && todo[1..] == job.releases[n..];
      x := AssetPath(ids, s, c, x, todo, RowsAfter(s.rows, job, n - 1), Looks(job, n - 1), job.luck.creates(n - 1));
    }
  }

  class CrawlManager {
    var rows: seq<FileRow>

    constructor ()
      ensures rows == []
    {
      rows := [];
    }

    /**
      The loop over the releases.  It only appends rows, crawled ones of this project for wanted
      assets that had none; with no failing statement it leaves exactly Processed; and it reports the
      assets of the new rows whose download succeeded, in order.  Undisturbed, it is a path of the step system
      for the crawl `c` whose body it is.
     */
    method ProcessAssets(job: Job, ghost ids: Ids, ghost s: State, ghost c: nat)
      returns (newAssets: seq<string>, downloaded: nat, ghost x: seq<Step>, ghost at: seq<nat>)
      requires s.rows == rows
      requires c < |s.crawls| && s.crawls[c].phase == Body(job.releases) && ids(s.crawls[c].project) == job.projectId
      modifies this
      ensures old(rows) <= rows
      ensures forall i :: |old(rows)| <= i < |rows| ==>
                && rows[i].projectId == job.projectId && rows[i].crawled
                && rows[i].filename in job.releases && job.wanted(rows[i].filename)
      ensures UniqueRows(old(rows)) ==> UniqueRows(rows)
      ensures NoFailure(job.luck) ==> rows == Processed(old(rows), job.projectId, job.wanted, job.releases)
      ensures NewRows(job, old(rows), rows, at, |job.releases|) && ExactlyNew(job, old(rows), at, |job.releases|)
      ensures newAssets == Downloaded(job, at) && downloaded == |newAssets|
      ensures Path(ids, s, x, SetPhase(s, c, Body([])).(rows := rows))
    {
      newAssets, downloaded, at := Loop(job);
      var n := |job.releases|;
      assert job.releases[n..] == [];
      RowsAfterAppends(old(rows), job, n);
      if NoFailure(job.luck) {
        RowsAfterIsProcessed(old(rows), job, n);
      }
      x := RowsAfterIsPath(ids, s, c, job, n);
    }

    method Loop(job: Job) returns (newAssets: seq<string>, downloaded: nat, ghost at: seq<nat>)
      modifies this
      ensures rows == RowsAfter(old(rows), job, |job.releases|)
      ensures NewRows(job, old(rows), rows, at, |job.releases|) && ExactlyNew(job, old(rows), at, |job.releases|)
      ensures newAssets == Downloaded(job, at) && downloaded == |newAssets|
    {
      newAssets, downloaded, at := [], 0, [];
      var i: nat := 0;
      while i < |job.releases|
        invariant 0 <= i <= |job.releases|
        invariant LoopAt(job, old(rows), rows, at, i, newAssets) && downloaded == |newAssets|
      {
        var asset := job.releases[i];
        var k := i;
        LoopStep(job, old(rows), rows, at, k, newAssets);
        i := i + 1;
        if !job.wanted(asset) {
          continue;
        }
        if !job.luck.finds(k) {
          continue;
        }
        if HasRow(rows, job.projectId, asset) {
          continue;
        }
        if !job.luck.creates(k) {
          continue;
        }
        rows := rows + [FileRow(job.projectId, asset, true)];
        at := at + [k];
        if !job.luck.downloads(k) {
          continue;
        }
        downloaded := downloaded + 1;
        newAssets := newAssets + [asset];
      }
    }
  }
}
