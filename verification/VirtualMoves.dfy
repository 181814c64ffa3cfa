/**
  Moves and deletes of virtual nodes beside each other: MoveNode, checkCycle and SoftDeleteNode of
  internal/service/virtual_index.go and the cascade of internal/db/repo_virtual.go as the statements
  they send.  Neither the service nor the repository takes a lock or opens a transaction, so
  statements of other requests fall between any two of them.
 */
module VirtualMoves {
  import opened Basics
  import opened VirtualForest

  datatype Outcome = Moved | Refused(error: MoveError) | Failed    // Failed: a statement did not go through

  datatype Phase =
    | Climbing(cur: int, depth: nat)     // in the cycle check, about to look at `cur`
    | Fetching                           // the check passed or there is none; about to read the node
    | Writing                            // about to write parent_id
    | Finished(outcome: Outcome)

  datatype Move = Move(id: int, parent: Option<int>, phase: Phase)

  datatype DeletePhase =
    | Looking                                            // about to read the node
    | Collecting(ids: seq<int>, queue: seq<int>)         // in the subtree walk
    | Hiding(ids: seq<int>, k: nat)                      // the first k of ids have been hidden
    | Broken                                             // no such node, or a statement did not go through

  datatype Delete = Delete(root: int, phase: DeletePhase)

  datatype State = State(nodes: Table, moves: seq<Move>, deletes: seq<Delete>)

  const INITIAL := State(map[], [], [])

  // ---------------------------------------------------------------- steps

  datatype Step =
    | Begin(id: int, parent: Option<int>)
    | Read(m: nat)                                // SELECT parent_id, one ancestor of the new parent
    | Fetch(m: nat)                               // SELECT the node to move
    | Write(m: nat)                               // UPDATE parent_id
    | Fail(m: nat)
    | Insert(id: int, node: Node)                 // the id AUTOINCREMENT hands out
    | Edit(id: int, name: string, order: int)
    | BeginDelete(root: int)
    | Look(c: nat)                                // SELECT the node to delete
    | Select(c: nat, children: seq<int>)          // SELECT the children of the node at the head of the queue
    | Hide(c: nat)                                // UPDATE status of the next node
    | FailDelete(c: nat)

  function First(parent: Option<int>): Phase {
    if parent.Some? then Climbing(parent.value, 0) else Fetching
  }

  function AfterRead(t: Table, id: int, cur: int, depth: nat): Phase {
    if cur == id then Finished(Refused(CircularRef))
    else if cur !in t then Finished(Refused(NodeNotFound(cur)))
    else if t[cur].parent == None then Fetching
    else if depth + 1 < MAX_TREE_DEPTH then Climbing(t[cur].parent.value, depth + 1)
    else Finished(Refused(TooDeep))
  }

  /** The foreign key lets a parent be written only if it exists. */
  predicate ForeignKey(t: Table, id: int, parent: Option<int>) {
    parent.Some? ==> parent.value in t.Keys + {id}
  }

  ghost predicate Enabled(s: State, step: Step) {
    match step
    case Begin(_, _) => true
    case Read(m) => m < |s.moves| && s.moves[m].phase.Climbing?
    case Fetch(m) => m < |s.moves| && s.moves[m].phase == Fetching
    case Write(m) => m < |s.moves| && s.moves[m].phase == Writing
    case Fail(m) => m < |s.moves| && !s.moves[m].phase.Finished?
    case Insert(id, _) => id !in s.nodes
    case Edit(_, _, _) => true
    case BeginDelete(_) => true
    case Look(c) => c < |s.deletes| && s.deletes[c].phase == Looking
    case Select(c, children) =>
      && c < |s.deletes| && s.deletes[c].phase.Collecting? && s.deletes[c].phase.queue != []
      && forall x :: x in children <==> ChildOf(s.nodes, x, s.deletes[c].phase.queue[0])
    case Hide(c) => c < |s.deletes| && s.deletes[c].phase.Hiding? && s.deletes[c].phase.k < |s.deletes[c].phase.ids|
    case FailDelete(c) => c < |s.deletes|
  }

  function SetPhase(s: State, m: nat, p: Phase): State {
    if m < |s.moves| then s.(moves := s.moves[m := s.moves[m].(phase := p)]) else s
  }

  function SetDelete(s: State, c: nat, p: DeletePhase): State {
    if c < |s.deletes| then s.(deletes := s.deletes[c := s.deletes[c].(phase := p)]) else s
  }

  function HideRow(t: Table, id: int): Table {
    if id in t then t[id := t[id].(visible := false)] else t
  }

  /** The walk goes on while the queue is not empty. */
  function Collected(ids: seq<int>, queue: seq<int>): DeletePhase {
    if queue == [] then Hiding(ids, 0) else Collecting(ids, queue)
  }

  function Apply(s: State, step: Step): State {
    match step
    case Begin(id, parent) => s.(moves := s.moves + [Move(id, parent, First(parent))])
    case Read(m) =>
      if m < |s.moves| && s.moves[m].phase.Climbing?
      then SetPhase(s, m, AfterRead(s.nodes, s.moves[m].id, s.moves[m].phase.cur, s.moves[m].phase.depth)) else s
    case Fetch(m) =>
      if m < |s.moves|
      then SetPhase(s, m, if s.moves[m].id in s.nodes then Writing else Finished(Refused(NodeNotFound(s.moves[m].id)))) else s
    case Write(m) =>
      if m >= |s.moves| then s
      else if ForeignKey(s.nodes, s.moves[m].id, s.moves[m].parent)
      then SetPhase(s, m, Finished(Moved)).(nodes := Reparented(s.nodes, s.moves[m].id, s.moves[m].parent))
      else SetPhase(s, m, Finished(Failed))
    case Fail(m) => SetPhase(s, m, Finished(Failed))
    case Insert(id, n) => if ForeignKey(s.nodes, id, n.parent) then s.(nodes := s.nodes[id := n]) else s
    case Edit(id, name, order) =>
      if id in s.nodes then s.(nodes := s.nodes[id := s.nodes[id].(name := name, order := order)]) else s
    case BeginDelete(root) => s.(deletes := s.deletes + [Delete(root, Looking)])
    case Look(c) =>
      if c < |s.deletes| then SetDelete(s, c, if s.deletes[c].root in s.nodes then Collecting([], [s.deletes[c].root]) else Broken) else s
    case Select(c, children) =>
      if c < |s.deletes| && s.deletes[c].phase.Collecting? && s.deletes[c].phase.queue != [] then
        var ids, queue := s.deletes[c].phase.ids, s.deletes[c].phase.queue;
        SetDelete(s, c, Collected(ids + [queue[0]], queue[1..] + children))
      else s
    case Hide(c) =>
      if c < |s.deletes| && s.deletes[c].phase.Hiding? && s.deletes[c].phase.k < |s.deletes[c].phase.ids| then
        var ids, k := s.deletes[c].phase.ids, s.deletes[c].phase.k;
        SetDelete(s, c, Hiding(ids, k + 1)).(nodes := HideRow(s.nodes, ids[k]))
      else s
    case FailDelete(c) => SetDelete(s, c, Broken)
  }

  ghost predicate IsRun(states: seq<State>, steps: seq<Step>) {
    && |states| == |steps| + 1
    && states[0] == INITIAL
    && forall i :: 0 <= i < |steps| ==> Enabled(states[i], steps[i]) && states[i + 1] == Apply(states[i], steps[i])
  }

  // ---------------------------------------------------------------- when a statement closes a cycle

  /** The row becomes its own ancestor: it is inserted as its own parent, or written under its own subtree as it is now. */
  ghost predicate ClosesCycle(s: State, step: Step) {
    match step
    case Insert(id, n) => n.parent == Some(id)
    case Write(m) =>
      && m < |s.moves| && s.moves[m].id in s.nodes && s.moves[m].parent.Some?
      && ForeignKey(s.nodes, s.moves[m].id, s.moves[m].parent)
      && Below(s.nodes, s.moves[m].parent.value, s.moves[m].id)
    case _ => false
  }

  /** Whatever other requests do, a statement makes an acyclic index cyclic exactly when it closes a cycle. */
  lemma StepKeepsForest(s: State, step: Step)
    requires Acyclic(s.nodes) && Closed(s.nodes) && Enabled(s, step)
    ensures Acyclic(Apply(s, step).nodes) <==> !ClosesCycle(s, step)
  {
    match step {
      case Insert(id, n) =>
        if ForeignKey(s.nodes, id, n.parent) {
          CreateTheorem(s.nodes, id, n);
        }
      case Write(m) =>
        if s.moves[m].id in s.nodes && ForeignKey(s.nodes, s.moves[m].id, s.moves[m].parent) {
          ReparentingTheorem(s.nodes, s.moves[m].id, s.moves[m].parent);
        }
      case Edit(_, _, _) => SameParentsSameForest(s.nodes, Apply(s, step).nodes);
      case Hide(_) => SameParentsSameForest(s.nodes, Apply(s, step).nodes);
      case _ =>
    }
  }

  lemma {:induction false} ClosedOnRun(states: seq<State>, steps: seq<Step>, i: nat)
    requires IsRun(states, steps) && i < |states|
    ensures Closed(states[i].nodes)
    decreases i
  {
    if i > 0 {
      ClosedOnRun(states, steps, i - 1);
    }
  }

  lemma {:induction false} ForestOnRun(states: seq<State>, steps: seq<Step>, i: nat)
    requires IsRun(states, steps) && i < |states|
    requires forall k :: 0 <= k < i ==> !ClosesCycle(states[k], steps[k])
    ensures Acyclic(states[i].nodes)
    decreases i
  {
    if i > 0 {
      ForestOnRun(states, steps, i - 1);
      ClosedOnRun(states, steps, i - 1);
      StepKeepsForest(states[i - 1], steps[i - 1]);
    }
  }

  /** In every interleaving, parents exist throughout, and the index is a forest throughout exactly when no statement closes a cycle. */
  lemma ForestExactlyWhen(states: seq<State>, steps: seq<Step>)
    requires IsRun(states, steps)
    ensures forall i :: 0 <= i < |states| ==> Closed(states[i].nodes)
    ensures (forall i :: 0 <= i < |states| ==> Acyclic(states[i].nodes))
       <==> (forall i :: 0 <= i < |steps| ==> !ClosesCycle(states[i], steps[i]))
  {
    forall i | 0 <= i < |states|
      ensures Closed(states[i].nodes)
    {
      ClosedOnRun(states, steps, i);
    }
    if forall i :: 0 <= i < |steps| ==> !ClosesCycle(states[i], steps[i]) {
      forall i | 0 <= i < |states|
        ensures Acyclic(states[i].nodes)
      {
        ForestOnRun(states, steps, i);
      }
    }
    if forall i :: 0 <= i < |states| ==> Acyclic(states[i].nodes) {
      forall i | 0 <= i < |steps|
        ensures !ClosesCycle(states[i], steps[i])
      {
        assert Acyclic(states[i].nodes) && Acyclic(states[i + 1].nodes);
        StepKeepsForest(states[i], steps[i]);
      }
    }
  }

  // ---------------------------------------------------------------- what the check knows

  /** `cur` is on the way up from `p`, and `id` was not met before it. */
  ghost predicate Reached(t: Table, p: int, id: int, cur: int) {
    exists k: nat :: Up(t, p, k) == Some(cur) && !Meets(t, p, id, k)
  }

  /** What a move has established, while nobody writes a parent: `id` can be above `p` only beyond `cur`, later not at all. */
  ghost predicate Sound(t: Table, mv: Move) {
    mv.parent.Some? ==>
      match mv.phase
      case Climbing(cur, _) =>
        cur == mv.parent.value
        || (mv.parent.value in t && (Below(t, mv.parent.value, mv.id) ==> Reached(t, mv.parent.value, mv.id, cur)))
      case Finished(_) => true
      case _ => mv.parent.value in t && !Below(t, mv.parent.value, mv.id)
  }

  lemma ReadKeepsSound(t: Table, mv: Move)
    requires mv.parent.Some? && mv.phase.Climbing? && Sound(t, mv)
    ensures Sound(t, mv.(phase := AfterRead(t, mv.id, mv.phase.cur, mv.phase.depth)))
  {
    var p, id, cur := mv.parent.value, mv.id, mv.phase.cur;
    if cur != id && cur in t && Below(t, p, id) {
      assert Up(t, p, 0) == Some(p) && !Meets(t, p, id, 0);
      assert Reached(t, p, id, cur);
      var k: nat :| Up(t, p, k) == Some(cur) && !Meets(t, p, id, k);
      var h: nat :| Up(t, p, h) == Some(id);
      assert !Meets(t, p, id, k + 1);
      assert h > k;
      UpDefined(t, p, k + 1, h);
    }
  }

  lemma SameChainsKeepSound(t: Table, t': Table, mv: Move)
    requires Sound(t, mv) && mv.parent.Some? && t.Keys <= t'.Keys
    requires mv.parent.value in t ==> forall k: nat :: Up(t', mv.parent.value, k) == Up(t, mv.parent.value, k)
    ensures Sound(t', mv)
  {
    var p, id := mv.parent.value, mv.id;
    if p in t {
      assert Below(t', p, id) ==> Below(t, p, id);
      if mv.phase.Climbing? && Reached(t, p, id, mv.phase.cur) {
        var k: nat :| Up(t, p, k) == Some(mv.phase.cur) && !Meets(t, p, id, k);
        assert Up(t', p, k) == Some(mv.phase.cur) && !Meets(t', p, id, k);
      }
    }
  }

  lemma InsertKeepsSound(t: Table, id: int, n: Node, mv: Move)
    requires Closed(t) && id !in t && Sound(t, mv)
    ensures Sound(t[id := n], mv)
  {
    if mv.parent.Some? {
      forall k: nat | mv.parent.value in t
        ensures Up(t[id := n], mv.parent.value, k) == Up(t, mv.parent.value, k)
      {
        ChainStaysInside(t, t[id := n], id, mv.parent.value, k);
      }
      SameChainsKeepSound(t, t[id := n], mv);
    }
  }

  lemma EditKeepsSound(t: Table, t': Table, mv: Move)
    requires t'.Keys == t.Keys && (forall y :: y in t ==> t'[y].parent == t[y].parent) && Sound(t, mv)
    ensures Sound(t', mv)
  {
    if mv.parent.Some? {
      forall k: nat
        ensures Up(t', mv.parent.value, k) == Up(t, mv.parent.value, k)
      {
        SameParentsSameChains(t, t', mv.parent.value, k);
      }
      SameChainsKeepSound(t, t', mv);
    }
  }

  /** Moving a node to the root only cuts chains short. */
  lemma {:induction false} ChainsCutShort(t: Table, x: int, p: int, k: nat)
    requires Up(Reparented(t, x, None), p, k).Some?
    ensures Up(t, p, k) == Up(Reparented(t, x, None), p, k)
    decreases k
  {
    if k > 0 {
      ChainsCutShort(t, x, p, k - 1);
    }
  }

  lemma RootMoveKeepsSound(t: Table, x: int, mv: Move)
    requires Sound(t, mv)
    ensures Sound(Reparented(t, x, None), mv)
  {
    var t' := Reparented(t, x, None);
    if mv.parent.Some? {
      var p, id := mv.parent.value, mv.id;
      if h: nat :| Up(t', p, h) == Some(id) {
        ChainsCutShort(t, x, p, h);
        assert Below(t, p, id);
        if mv.phase.Climbing? && Reached(t, p, id, mv.phase.cur) {
          var k: nat :| Up(t, p, k) == Some(mv.phase.cur) && !Meets(t, p, id, k);
          assert k <= h;
          UpDefined(t', p, k, h);
          ChainsCutShort(t, x, p, k);
          StillNotMet(t, x, p, id, k);
        }
      }
    }
  }

  lemma StillNotMet(t: Table, x: int, p: int, id: int, k: nat)
    requires !Meets(t, p, id, k)
    ensures !Meets(Reparented(t, x, None), p, id, k)
  {
    if d: nat :| d < k && Up(Reparented(t, x, None), p, d) == Some(id) {
      ChainsCutShort(t, x, p, d);
    }
  }

  // ---------------------------------------------------------------- moves that do not overlap

  /** A step that may change a chain of ancestors: a move under another node. */
  ghost predicate Relinks(s: State, step: Step) {
    step.Write? && step.m < |s.moves| && s.moves[step.m].parent.Some?
  }

  /** Move m reads at step i and writes at step j, and at step k in between another node is moved under a parent. */
  ghost predicate Overlap(states: seq<State>, steps: seq<Step>, i: nat, k: nat, j: nat)
    requires |states| == |steps| + 1
  {
    i < k < j < |steps| && steps[i].Read? && steps[j] == Write(steps[i].m) && Relinks(states[k], steps[k])
  }

  ghost predicate NoOverlap(states: seq<State>, steps: seq<Step>)
    requires |states| == |steps| + 1
  {
    forall i: nat, k: nat, j: nat :: !Overlap(states, steps, i, k, j)
  }

  /** A move under a parent that is past its first phase has read something. */
  lemma {:induction false} FirstRead(states: seq<State>, steps: seq<Step>, i: nat, m: nat) returns (k: nat)
    requires IsRun(states, steps) && i < |states| && m < |states[i].moves|
    requires var mv := states[i].moves[m]; mv.parent.Some? && !mv.phase.Finished? && mv.phase != First(mv.parent)
    ensures k < i && steps[k] == Read(m)
    decreases i
  {
    var s, step := states[i - 1], steps[i - 1];
    assert states[i] == Apply(s, step);
    if step == Read(m) {
      k := i - 1;
    } else {
      k := FirstRead(states, steps, i - 1, m);
    }
  }

  lemma StepKeepsSound(s: State, step: Step, m: nat)
    requires Closed(s.nodes) && Enabled(s, step) && m < |s.moves| && Sound(s.nodes, s.moves[m])
    requires !Relinks(s, step) || s.moves[m].phase == First(s.moves[m].parent)
    ensures var s' := Apply(s, step); m < |s'.moves| && Sound(s'.nodes, s'.moves[m])
  {
    var s' := Apply(s, step);
    match step {
      case Read(n) =>
        if n == m && s.moves[m].parent.Some? {
          ReadKeepsSound(s.nodes, s.moves[m]);
        }
      case Write(n) =>
        if s.moves[n].parent == None {
          RootMoveKeepsSound(s.nodes, s.moves[n].id, s.moves[m]);
        }
      case Insert(id, n) => InsertKeepsSound(s.nodes, id, n, s.moves[m]);
      case Edit(_, _, _) => EditKeepsSound(s.nodes, s'.nodes, s.moves[m]);
      case Hide(_) => EditKeepsSound(s.nodes, s'.nodes, s.moves[m]);
      case _ =>
    }
  }

  lemma {:induction false} SoundUntilWrite(states: seq<State>, steps: seq<Step>, j: nat, i: nat, m: nat)
    requires IsRun(states, steps) && NoOverlap(states, steps)
    requires i <= j < |steps| && steps[j] == Write(m) && m < |states[i].moves|
    ensures Sound(states[i].nodes, states[i].moves[m])
    decreases i
  {
    if i > 0 {
      var s, step := states[i - 1], steps[i - 1];
      assert states[i] == Apply(s, step) && Enabled(s, step);
      if m < |s.moves| {
        SoundUntilWrite(states, steps, j, i - 1, m);
        ClosedOnRun(states, steps, i - 1);
        var mv := s.moves[m];
        if Relinks(s, step) && mv.phase != First(mv.parent) && mv.parent.Some? && !mv.phase.Finished? {
          var k := FirstRead(states, steps, i - 1, m);
          assert Overlap(states, steps, k, i - 1, j);
        } else if !Relinks(s, step) || mv.phase == First(mv.parent) {
          StepKeepsSound(s, step, m);
        }
      }
    }
  }

  /**
    If no node is moved under a parent between another move's reads and its write, and no row is
    inserted as its own parent, the index is a forest at every moment.  Inserts, edits, deletes,
    moves to the root and failing statements may fall anywhere.
   */
  lemma MovesApartKeepForest(states: seq<State>, steps: seq<Step>)
    requires IsRun(states, steps) && NoOverlap(states, steps)
    requires forall i :: 0 <= i < |steps| && steps[i].Insert? ==> steps[i].node.parent != Some(steps[i].id)
    ensures forall i :: 0 <= i < |states| ==> Acyclic(states[i].nodes) && Closed(states[i].nodes)
  {
    forall i | 0 <= i < |steps|
      ensures !ClosesCycle(states[i], steps[i])
    {
      if steps[i].Write? {
        assert Enabled(states[i], steps[i]);
        SoundUntilWrite(states, steps, i, i, steps[i].m);
      }
    }
    ForestExactlyWhen(states, steps);
  }

  // ---------------------------------------------------------------- runs written as lists of steps

  ghost predicate Path(s: State, steps: seq<Step>, s': State)
    decreases |steps|
  {
    if steps == [] then s' == s else Enabled(s, steps[0]) && Path(Apply(s, steps[0]), steps[1..], s')
  }

  lemma {:induction false} PathJoin(a: State, x: seq<Step>, b: State, y: seq<Step>, c: State)
    requires Path(a, x, b) && Path(b, y, c)
    ensures Path(a, x + y, c)
    decreases |x|
  {
    if x == [] {
      assert x + y == y;
    } else {
      assert (x + y)[0] == x[0] && (x + y)[1..] == x[1..] + y;
      PathJoin(Apply(a, x[0]), x[1..], b, y, c);
    }
  }

  lemma Then(s: State, x: seq<Step>, t: State, step: Step, t': State)
    requires Path(s, x, t) && Enabled(t, step) && Apply(t, step) == t'
    ensures Path(s, x + [step], t')
  {
    assert [step][1..] == [];
    PathJoin(s, x, t, [step], t');
  }

  lemma {:induction false} PathStates(s: State, steps: seq<Step>, s': State) returns (states: seq<State>)
    requires Path(s, steps, s')
    ensures |states| == |steps| + 1 && states[0] == s && states[|steps|] == s'
    ensures forall i :: 0 <= i < |steps| ==> Enabled(states[i], steps[i]) && states[i + 1] == Apply(states[i], steps[i])
    decreases |steps|
  {
    if steps == [] {
      return [s];
    }
    var rest := PathStates(Apply(s, steps[0]), steps[1..], s');
    states := [s] + rest;
    forall i | 0 <= i < |steps|
      ensures Enabled(states[i], steps[i]) && states[i + 1] == Apply(states[i], steps[i])
    {
      if i > 0 {
        assert steps[1..][i - 1] == steps[i] && rest[i - 1] == states[i];
      }
    }
  }

  // ---------------------------------------------------------------- two moves that overlap

  function TwoMoves(p: Phase, q: Phase): seq<Move> {
    [Move(1, Some(2), p), Move(2, Some(1), q)]
  }

  /** Two roots, and a move of each under the other about to begin its check. */
  lemma BothBegin(a: Node, b: Node) returns (x: seq<Step>)
    requires a.parent == None && b.parent == None
    ensures Path(INITIAL, x, State(map[1 := a, 2 := b], TwoMoves(Climbing(2, 0), Climbing(1, 0)), []))
    ensures forall i :: 0 <= i < |x| && x[i].Insert? ==> x[i].node.parent == None
  {
    var s0, t := INITIAL, map[1 := a, 2 := b];
    Then(s0, [], s0, Insert(1, a), State(map[1 := a], [], []));
    x := [] + [Insert(1, a)];
    Then(s0, x, State(map[1 := a], [], []), Insert(2, b), State(t, [], []));
    x := x + [Insert(2, b)];
    Then(s0, x, State(t, [], []), Begin(1, Some(2)), State(t, [Move(1, Some(2), Climbing(2, 0))], []));
    x := x + [Begin(1, Some(2))];
    Then(s0, x, State(t, [Move(1, Some(2), Climbing(2, 0))], []), Begin(2, Some(1)), State(t, TwoMoves(Climbing(2, 0), Climbing(1, 0)), []));
    x := x + [Begin(2, Some(1))];
  }

  lemma BothCheck(t: Table) returns (x: seq<Step>)
    requires 1 in t && 2 in t && t[1].parent == None && t[2].parent == None
    ensures Path(State(t, TwoMoves(Climbing(2, 0), Climbing(1, 0)), []), x, State(t, TwoMoves(Writing, Writing), []))
    ensures OwnSteps(x)
  {
    var s0 := State(t, TwoMoves(Climbing(2, 0), Climbing(1, 0)), []);
    var s1, s2 := State(t, TwoMoves(Fetching, Climbing(1, 0)), []), State(t, TwoMoves(Fetching, Fetching), []);
    var s3 := State(t, TwoMoves(Writing, Fetching), []);
    Then(s0, [], s0, Read(0), s1);
    x := [] + [Read(0)];
    Then(s0, x, s1, Read(1), s2);
    x := x + [Read(1)];
    Then(s0, x, s2, Fetch(0), s3);
    x := x + [Fetch(0)];
    Then(s0, x, s3, Fetch(1), State(t, TwoMoves(Writing, Writing), []));
    x := x + [Fetch(1)];
  }

  lemma BothWrite(a: Node, b: Node) returns (x: seq<Step>)
    ensures Path(State(map[1 := a, 2 := b], TwoMoves(Writing, Writing), []), x,
                 State(map[1 := a.(parent := Some(2)), 2 := b.(parent := Some(1))], TwoMoves(Finished(Moved), Finished(Moved)), []))
    ensures OwnSteps(x)
  {
    var s0 := State(map[1 := a, 2 := b], TwoMoves(Writing, Writing), []);
    var s1 := State(map[1 := a.(parent := Some(2)), 2 := b], TwoMoves(Finished(Moved), Writing), []);
    Then(s0, [], s0, Write(0), s1);
    x := [] + [Write(0)];
    Then(s0, x, s1, Write(1),
         State(map[1 := a.(parent := Some(2)), 2 := b.(parent := Some(1))], TwoMoves(Finished(Moved), Finished(Moved)), []));
    x := x + [Write(1)];
  }

  /** Two moves that overlap can both pass the check and together close a cycle. */
  lemma OverlappingMovesMakeCycle(a: Node, b: Node) returns (states: seq<State>, steps: seq<Step>)
    requires a.parent == None && b.parent == None
    ensures IsRun(states, steps)
    ensures forall i :: 0 <= i < |steps| && steps[i].Insert? ==> steps[i].node.parent == None
    ensures var s := states[|steps|];
            s.moves == TwoMoves(Finished(Moved), Finished(Moved)) && OnCycle(s.nodes, 1)
  {
    var s0, t := INITIAL, map[1 := a, 2 := b];
    var t' := map[1 := a.(parent := Some(2)), 2 := b.(parent := Some(1))];
    var x := BothBegin(a, b);
    var y := BothCheck(t);
    var z := BothWrite(a, b);
    PathJoin(s0, x, State(t, TwoMoves(Climbing(2, 0), Climbing(1, 0)), []), y, State(t, TwoMoves(Writing, Writing), []));
    PathJoin(s0, x + y, State(t, TwoMoves(Writing, Writing), []), z, State(t', TwoMoves(Finished(Moved), Finished(Moved)), []));
    steps := x + y + z;
    states := PathStates(s0, steps, State(t', TwoMoves(Finished(Moved), Finished(Moved)), []));
    assert Up(t', 1, 0) == Some(1) && Up(t', 1, 1) == Some(2);
    assert Up(t', 1, 2) == t'[2].parent;
  }

  // ---------------------------------------------------------------- the service, one call on its own

  /** A move with no other request in sight. */
  function Alone(t: Table, id: int, parent: Option<int>, phase: Phase): State {
    State(t, [Move(id, parent, phase)], [])
  }

  predicate OwnSteps(x: seq<Step>) {
    forall i :: 0 <= i < |x| ==> x[i].Read? || x[i].Fetch? || x[i].Write?
  }

  class VirtualIndexService {
    const repo: VirtualRepo

    constructor (repo: VirtualRepo)
      ensures this.repo == repo
    {
      this.repo := repo;
    }

    /** Follow the ancestors of the new parent, at most MAX_TREE_DEPTH of them, looking for the node to move. */
    method CheckCycle(id: int, newParent: int) returns (r: Option<MoveError>, ghost x: seq<Step>)
      ensures Checked(repo.nodes, id, newParent, r)
      ensures OwnSteps(x)
      ensures Path(Alone(repo.nodes, id, Some(newParent), Climbing(newParent, 0)), x,
                   Alone(repo.nodes, id, Some(newParent), if r == None then Fetching else Finished(Refused(r.value))))
    {
      var cur := newParent;
      var depth: nat := 0;
      ghost var t := repo.nodes;
      ghost var s0 := Alone(t, id, Some(newParent), Climbing(newParent, 0));
      x := [];
      while depth < MAX_TREE_DEPTH
        invariant depth <= MAX_TREE_DEPTH
        invariant Up(repo.nodes, newParent, depth) == Some(cur)
        invariant !Meets(repo.nodes, newParent, id, depth)
        invariant OwnSteps(x)
        invariant Path(s0, x, Alone(t, id, Some(newParent), if depth < MAX_TREE_DEPTH then Climbing(cur, depth) else Finished(Refused(TooDeep))))
      {
        Then(s0, x, Alone(t, id, Some(newParent), Climbing(cur, depth)), Read(0),
             Alone(t, id, Some(newParent), AfterRead(t, id, cur, depth)));
        x := x + [Read(0)];
        if cur == id {
          return Some(CircularRef), x;
        }
        assert !Meets(repo.nodes, newParent, id, depth + 1);
        if cur !in repo.nodes {
          return Some(NodeNotFound(cur)), x;
        }
        if repo.nodes[cur].parent == None {
          assert Up(repo.nodes, newParent, depth + 1) == None;
          return None, x;
        }
        cur := repo.nodes[cur].parent.value;
        depth := depth + 1;
      }
      return Some(TooDeep), x;
    }

    /**
      A move that no other request disturbs either changes one parent and leaves the forest acyclic,
      or changes nothing; its statements are a path of the step system.
     */
    method MoveNode(id: int, newParent: Option<int>) returns (r: Option<MoveError>, ghost x: seq<Step>)
      modifies repo
      ensures OwnSteps(x)
      ensures Path(old(Alone(repo.nodes, id, newParent, First(newParent))), x,
                   Alone(repo.nodes, id, newParent, Finished(if r == None then Moved else Refused(r.value))))
      ensures repo.nodes == if r == None then Reparented(old(repo.nodes), id, newParent) else old(repo.nodes)
      ensures Acyclic(old(repo.nodes)) && Closed(old(repo.nodes)) ==> Acyclic(repo.nodes) && Closed(repo.nodes)
      ensures newParent == None ==> (r == None <==> id in old(repo.nodes))
      ensures newParent.Some? && newParent.value in old(repo.nodes) && id in old(repo.nodes) && Closed(old(repo.nodes)) ==>
                (r == None <==> !Below(old(repo.nodes), newParent.value, id)
                                && Up(old(repo.nodes), newParent.value, 50) == None)
      ensures newParent.Some? && r == Some(CircularRef) ==> Below(old(repo.nodes), newParent.value, id)
    {
      ghost var t := repo.nodes;
      ghost var s0 := Alone(t, id, newParent, First(newParent));
      x := [];
      if newParent.Some? {
        r, x := CheckCycle(id, newParent.value);
        MoveAnswers(t, id, newParent.value, r);
        if r.Some? {
          return;
        }
      }
      Then(s0, x, Alone(t, id, newParent, Fetching), Fetch(0),
           Alone(t, id, newParent, if id in t then Writing else Finished(Refused(NodeNotFound(id)))));
      x := x + [Fetch(0)];
      if id !in repo.nodes {
        return Some(NodeNotFound(id)), x;
      }
      Then(s0, x, Alone(t, id, newParent, Writing), Write(0),
           Alone(Reparented(t, id, newParent), id, newParent, Finished(Moved)));
      x := x + [Write(0)];
      if Acyclic(t) {
        ReparentingTheorem(t, id, newParent);
      }
      repo.nodes := Reparented(repo.nodes, id, newParent);
      return None, x;
    }
  }

  lemma MoveAnswers(t: Table, id: int, p: int, r: Option<MoveError>)
    requires Checked(t, id, p, r)
    ensures r == None ==> p in t && !Below(t, p, id)
    ensures p in t && Closed(t) ==> (r == None <==> !Below(t, p, id) && Up(t, p, MAX_TREE_DEPTH) == None)
    ensures r == Some(CircularRef) ==> Below(t, p, id)
  {
    if r == None {
      ClearIsOutside(t, p, id, MAX_TREE_DEPTH);
    } else {
      OneAnswer(t, id, p, r);
    }
    if p in t && Closed(t) {
      CheckTheorem(t, id, p);
    }
  }
}
