/**
  What a delete hides when other requests run beside it: the subtree walk reads one node's children at
  a time and the rows are hidden one by one, so moves, inserts and other deletes fall in between.
 */
module VirtualDeletes {
  import opened Basics
  import opened VirtualForest
  import opened VirtualMoves

  // ---------------------------------------------------------------- what the walk collects

  predicate Walked(d: Delete) {
    d.phase.Collecting? || d.phase.Hiding?
  }

  /** The nodes the walk has met so far. */
  function Known(d: Delete): seq<int> {
    match d.phase
    case Collecting(ids, queue) => ids + queue
    case Hiding(ids, _) => ids
    case _ => []
  }

  /** Those among them whose children it has read. */
  function Visited(d: Delete): seq<int> {
    match d.phase
    case Collecting(ids, _) => ids
    case Hiding(ids, _) => ids
    case _ => []
  }

  /** Step `n` reads the children of `p` for delete `c`. */
  ghost predicate Reads(states: seq<State>, steps: seq<Step>, c: nat, n: nat, p: int)
    requires |states| == |steps| + 1
  {
    && n < |steps| && steps[n].Select? && steps[n].c == c
    && c < |states[n].deletes| && states[n].deletes[c].phase.Collecting?
    && states[n].deletes[c].phase.queue != [] && states[n].deletes[c].phase.queue[0] == p
  }

  /** Step `n` finds `x` among the children it reads. */
  ghost predicate Finds(states: seq<State>, steps: seq<Step>, c: nat, n: nat, x: int)
    requires |states| == |steps| + 1
  {
    exists p :: Reads(states, steps, c, n, p) && ChildOf(states[n].nodes, x, p)
  }

  ghost predicate NotBegun(s: State, c: nat) {
    c >= |s.deletes| || s.deletes[c].phase == Looking
  }

  lemma {:induction false} NothingReadYet(states: seq<State>, steps: seq<Step>, c: nat, j: nat, n: nat, p: int)
    requires IsRun(states, steps) && n < j < |states| && NotBegun(states[j], c)
    ensures !Reads(states, steps, c, n, p)
    decreases j
  {
    assert Enabled(states[j - 1], steps[j - 1]) && states[j] == Apply(states[j - 1], steps[j - 1]);
    assert NotBegun(states[j - 1], c);
    if n < j - 1 {
      NothingReadYet(states, steps, c, j - 1, n, p);
    }
  }

  lemma KnownStep(s: State, step: Step, s': State, c: nat, x: int)
    requires Enabled(s, step) && s' == Apply(s, step) && c < |s.deletes| && c < |s'.deletes| && Walked(s.deletes[c]) && Walked(s'.deletes[c])
    ensures s'.deletes[c].root == s.deletes[c].root
    ensures x in Known(s'.deletes[c]) <==>
            x in Known(s.deletes[c])
            || (step.Select? && step.c == c && s.deletes[c].phase.Collecting? && ChildOf(s.nodes, x, s.deletes[c].phase.queue[0]))
  {
    if step.Select? && step.c == c {
      var ids, queue := s.deletes[c].phase.ids, s.deletes[c].phase.queue;
      assert (ids + [queue[0]]) + (queue[1..] + step.children) == (ids + queue) + step.children;
      assert (ids + [queue[0]]) + [] == ids + [queue[0]];
    }
  }

  /**
    Exactly what a delete is going to hide, whatever runs beside it: its root, and every node that was
    a child of a collected node at the moment that node's children were read.
   */
  lemma {:induction false} CollectedExactly(states: seq<State>, steps: seq<Step>, c: nat, j: nat, x: int)
    requires IsRun(states, steps) && j < |states| && c < |states[j].deletes| && Walked(states[j].deletes[c])
    ensures x in Known(states[j].deletes[c])
       <==> x == states[j].deletes[c].root || exists n: nat :: n < j && Finds(states, steps, c, n, x)
    decreases j
  {
    var s, step := states[j - 1], steps[j - 1];
    assert Enabled(s, step) && states[j] == Apply(s, step);
    assert c < |s.deletes|;
    if s.deletes[c].phase == Looking {
      assert step == Look(c) && Known(states[j].deletes[c]) == [s.deletes[c].root];
      forall n: nat | n < j
        ensures !Finds(states, steps, c, n, x)
      {
        if n < j - 1 {
          forall p
            ensures !Reads(states, steps, c, n, p)
          {
            NothingReadYet(states, steps, c, j - 1, n, p);
          }
        }
      }
    } else {
      CollectedExactly(states, steps, c, j - 1, x);
      KnownStep(s, step, states[j], c, x);
      if x in Known(states[j].deletes[c]) && x !in Known(s.deletes[c]) {
        assert Reads(states, steps, c, j - 1, s.deletes[c].phase.queue[0]);
        assert Finds(states, steps, c, j - 1, x);
      }
    }
  }

  lemma {:induction false} WasRead(states: seq<State>, steps: seq<Step>, c: nat, j: nat, p: int) returns (n: nat)
    requires IsRun(states, steps) && j < |states| && c < |states[j].deletes| && p in Visited(states[j].deletes[c])
    ensures n < j && Reads(states, steps, c, n, p)
    decreases j
  {
    var s, step := states[j - 1], steps[j - 1];
    assert Enabled(s, step) && states[j] == Apply(s, step);
    if c < |s.deletes| && p in Visited(s.deletes[c]) {
      n := WasRead(states, steps, c, j - 1, p);
    } else {
      n := j - 1;
    }
  }

  // ---------------------------------------------------------------- what stays in place is hidden

  /** From state i to state j the row is there and has the same parent. */
  ghost predicate KeepsParent(states: seq<State>, i: nat, j: nat, y: int)
    requires i <= j < |states|
  {
    forall n :: i <= n <= j ==> y in states[n].nodes && y in states[i].nodes && states[n].nodes[y].parent == states[i].nodes[y].parent
  }

  /** A node that hangs below the root when the delete begins, by links that nobody changes during the walk, is collected. */
  lemma {:induction false} InPlaceIsCollected(states: seq<State>, steps: seq<Step>, c: nat, i: nat, j: nat, x: int, k: nat)
    requires IsRun(states, steps) && i <= j < |states| && NotBegun(states[i], c)
    requires c < |states[j].deletes| && states[j].deletes[c].phase.Hiding?
    requires Up(states[i].nodes, x, k) == Some(states[j].deletes[c].root)
    requires forall m: nat :: m < k && Up(states[i].nodes, x, m).Some? ==> KeepsParent(states, i, j, Up(states[i].nodes, x, m).value)
    ensures x in states[j].deletes[c].phase.ids
    decreases k
  {
    var t := states[i].nodes;
    if k > 0 {
      UpDefined(t, x, 1, k);
      var p := Up(t, x, 1).value;
      UpAdd(t, x, 1, p, k - 1);
      forall m: nat | m < k - 1 && Up(t, p, m).Some?
        ensures KeepsParent(states, i, j, Up(t, p, m).value)
      {
        UpAdd(t, x, 1, p, m);
      }
      InPlaceIsCollected(states, steps, c, i, j, p, k - 1);
      var n := WasRead(states, steps, c, j, p);
      if n < i {
        NothingReadYet(states, steps, c, i, n, p);
      }
      assert Up(t, x, 0) == Some(x);
      assert KeepsParent(states, i, j, x);
      assert ChildOf(states[n].nodes, x, p);
      assert Finds(states, steps, c, n, x);
    }
    CollectedExactly(states, steps, c, j, x);
  }

  // ---------------------------------------------------------------- deletes beside inserts, edits and deletes

  predicate NoMoves(steps: seq<Step>, i: nat, j: nat) {
    forall n :: i <= n < j && n < |steps| ==> !steps[n].Write?
  }

  lemma {:induction false} ParentStays(states: seq<State>, steps: seq<Step>, i: nat, j: nat, y: int)
    requires IsRun(states, steps) && i <= j < |states| && NoMoves(steps, i, j) && y in states[i].nodes
    ensures y in states[j].nodes && states[j].nodes[y].parent == states[i].nodes[y].parent
    decreases j
  {
    if i < j {
      ParentStays(states, steps, i, j - 1, y);
      assert Enabled(states[j - 1], steps[j - 1]) && states[j] == Apply(states[j - 1], steps[j - 1]);
    }
  }

  lemma {:induction false} ChainInTable(t: Table, x: int, k: nat, m: nat)
    requires m < k && Up(t, x, k).Some?
    ensures Up(t, x, m).Some? && Up(t, x, m).value in t
  {
    UpDefined(t, x, m + 1, k);
  }

  lemma BelowIsCollected(states: seq<State>, steps: seq<Step>, c: nat, i: nat, j: nat, x: int)
    requires IsRun(states, steps) && i <= j < |states| && NotBegun(states[i], c) && NoMoves(steps, i, j)
    requires c < |states[j].deletes| && states[j].deletes[c].phase.Hiding?
    requires Below(states[i].nodes, x, states[j].deletes[c].root)
    ensures x in states[j].deletes[c].phase.ids
  {
    var t := states[i].nodes;
    var k: nat :| Up(t, x, k) == Some(states[j].deletes[c].root);
    forall m: nat | m < k && Up(t, x, m).Some?
      ensures KeepsParent(states, i, j, Up(t, x, m).value)
    {
      ChainInTable(t, x, k, m);
      forall n | i <= n <= j
        ensures Up(t, x, m).value in states[n].nodes && states[n].nodes[Up(t, x, m).value].parent == t[Up(t, x, m).value].parent
      {
        ParentStays(states, steps, i, n, Up(t, x, m).value);
      }
    }
    InPlaceIsCollected(states, steps, c, i, j, x, k);
  }

  lemma {:induction false} SameRoot(states: seq<State>, steps: seq<Step>, c: nat, m: nat, j: nat)
    requires IsRun(states, steps) && m <= j < |states| && c < |states[m].deletes|
    ensures c < |states[j].deletes| && states[j].deletes[c].root == states[m].deletes[c].root
    decreases j
  {
    if m < j {
      SameRoot(states, steps, c, m, j - 1);
      assert Enabled(states[j - 1], steps[j - 1]) && states[j] == Apply(states[j - 1], steps[j - 1]);
    }
  }

  lemma {:induction false} CollectedIsBelow(states: seq<State>, steps: seq<Step>, c: nat, i: nat, m: nat, j: nat, x: int)
    requires IsRun(states, steps) && i <= m <= j < |states| && NotBegun(states[i], c) && NoMoves(steps, i, j)
    requires c < |states[m].deletes| && Walked(states[m].deletes[c]) && x in Known(states[m].deletes[c])
    ensures Below(states[j].nodes, x, states[m].deletes[c].root)
    decreases m
  {
    var root := states[m].deletes[c].root;
    CollectedExactly(states, steps, c, m, x);
    if x == root {
      assert Up(states[j].nodes, x, 0) == Some(root);
    } else {
      var n: nat :| n < m && Finds(states, steps, c, n, x);
      var p :| Reads(states, steps, c, n, p) && ChildOf(states[n].nodes, x, p);
      if n < i {
        NothingReadYet(states, steps, c, i, n, p);
      }
      SameRoot(states, steps, c, n, m);
      assert states[n].deletes[c].phase.queue[0] in Known(states[n].deletes[c]);
      CollectedIsBelow(states, steps, c, i, n, j, p);
      ParentStays(states, steps, n, j, x);
      BelowParent(states[j].nodes, x, p, root);
    }
  }

  /**
    As long as nobody moves a node during the walk, a delete collects everything that is below its root
    when it begins and nothing that is not below it when the walk ends, through inserts, edits and
    other deletes.
   */
  lemma CollectedBetween(states: seq<State>, steps: seq<Step>, c: nat, i: nat, j: nat, x: int)
    requires IsRun(states, steps) && i <= j < |states| && NotBegun(states[i], c) && NoMoves(steps, i, j)
    requires c < |states[j].deletes| && states[j].deletes[c].phase.Hiding?
    ensures Below(states[i].nodes, x, states[j].deletes[c].root) ==> x in states[j].deletes[c].phase.ids
    ensures x in states[j].deletes[c].phase.ids ==> Below(states[j].nodes, x, states[j].deletes[c].root)
  {
    if Below(states[i].nodes, x, states[j].deletes[c].root) {
      BelowIsCollected(states, steps, c, i, j, x);
    }
    if x in states[j].deletes[c].phase.ids {
      CollectedIsBelow(states, steps, c, i, j, j, x);
    }
  }

  // ---------------------------------------------------------------- hiding

  lemma {:induction false} KnownInTable(states: seq<State>, steps: seq<Step>, c: nat, j: nat, x: int)
    requires IsRun(states, steps) && j < |states| && c < |states[j].deletes| && x in Known(states[j].deletes[c])
    ensures x in states[j].nodes
    decreases j
  {
    var s, step := states[j - 1], steps[j - 1];
    assert Enabled(s, step) && states[j] == Apply(s, step);
    if c < |s.deletes| && Walked(s.deletes[c]) {
      KnownStep(s, step, states[j], c, x);
      if x in Known(s.deletes[c]) {
        KnownInTable(states, steps, c, j - 1, x);
      }
    }
  }

  /** The rows a delete has got to are hidden, and stay hidden. */
  lemma {:induction false} HiddenSoFar(states: seq<State>, steps: seq<Step>, c: nat, j: nat, q: nat)
    requires IsRun(states, steps) && j < |states| && c < |states[j].deletes| && states[j].deletes[c].phase.Hiding?
    requires q < states[j].deletes[c].phase.k <= |states[j].deletes[c].phase.ids|
    ensures var x := states[j].deletes[c].phase.ids[q]; x in states[j].nodes && !states[j].nodes[x].visible
    decreases j
  {
    var s, step := states[j - 1], steps[j - 1];
    assert Enabled(s, step) && states[j] == Apply(s, step);
    var ids := states[j].deletes[c].phase.ids;
    if step == Hide(c) && s.deletes[c].phase.k == q {
      KnownInTable(states, steps, c, j - 1, ids[q]);
    } else {
      HiddenSoFar(states, steps, c, j - 1, q);
    }
  }

  lemma {:induction false} HidingGoesOn(states: seq<State>, steps: seq<Step>, c: nat, j: nat, m: nat)
    requires IsRun(states, steps) && j <= m < |states| && c < |states[j].deletes| && states[j].deletes[c].phase.Hiding?
    ensures c < |states[m].deletes| && states[m].deletes[c].root == states[j].deletes[c].root
    ensures states[m].deletes[c].phase == Broken
            || (states[m].deletes[c].phase.Hiding? && states[m].deletes[c].phase.ids == states[j].deletes[c].phase.ids)
    decreases m
  {
    if j < m {
      assert Enabled(states[m - 1], steps[m - 1]) && states[m] == Apply(states[m - 1], steps[m - 1]);
      HidingGoesOn(states, steps, c, j, m - 1);
    }
  }

  /**
    A delete that begins at state i, has walked by state j and has finished by state m: if nobody moved
    a node during the walk, every node that was below its root when it began is hidden.
   */
  lemma DeleteHidesSubtree(states: seq<State>, steps: seq<Step>, c: nat, i: nat, j: nat, m: nat, x: int)
    requires IsRun(states, steps) && i <= j <= m < |states| && NotBegun(states[i], c) && NoMoves(steps, i, j)
    requires c < |states[j].deletes| && states[j].deletes[c].phase.Hiding? && c < |states[m].deletes|
    requires states[m].deletes[c].phase.Hiding? && states[m].deletes[c].phase.k == |states[m].deletes[c].phase.ids|
    requires Below(states[i].nodes, x, states[m].deletes[c].root)
    ensures x in states[m].nodes && !states[m].nodes[x].visible
  {
    HidingGoesOn(states, steps, c, j, m);
    CollectedBetween(states, steps, c, i, j, x);
    var ids := states[m].deletes[c].phase.ids;
    var q :| 0 <= q < |ids| && ids[q] == x;
    HiddenSoFar(states, steps, c, m, q);
  }

  // ---------------------------------------------------------------- a delete that goes astray

  function Kid(n: Node, p: int): Node {
    n.(parent := Some(p))
  }

  /** The delete of node 1 has met its child 2, which then moves to the root and is given a child of its own. */
  lemma ChildMovesAway(a: Node) returns (x: seq<Step>)
    requires a.parent == None
    ensures Path(INITIAL, x, State(map[1 := a, 2 := a], [Move(2, None, Finished(Moved))], [Delete(1, Collecting([1], [2]))]))
  {
    var t, d := map[1 := a, 2 := Kid(a, 1)], [Delete(1, Collecting([1], [2]))];
    x := WalkBegins(a);
    assert Kid(a, 1).(parent := None) == a;
    assert Reparented(t, 2, None) == map[1 := a, 2 := a];
    var y := MoveToRoot(t, 2, d);
    PathJoin(INITIAL, x, State(t, [], d), y, State(map[1 := a, 2 := a], [Move(2, None, Finished(Moved))], d));
    x := x + y;
  }

  lemma MoveToRoot(t: Table, id: int, d: seq<Delete>) returns (x: seq<Step>)
    requires id in t
    ensures Path(State(t, [], d), x, State(Reparented(t, id, None), [Move(id, None, Finished(Moved))], d))
  {
    var s0, s1, s2 := State(t, [], d), State(t, [Move(id, None, Fetching)], d), State(t, [Move(id, None, Writing)], d);
    Then(s0, [], s0, Begin(id, None), s1);
    x := [] + [Begin(id, None)];
    Then(s0, x, s1, Fetch(0), s2);
    x := x + [Fetch(0)];
    Then(s0, x, s2, Write(0), State(Reparented(t, id, None), [Move(id, None, Finished(Moved))], d));
    x := x + [Write(0)];
  }

  /** One round of the walk when the queue holds one node. */
  lemma SelectOnly(t: Table, moves: seq<Move>, root: int, ids: seq<int>, q: int, children: seq<int>)
    requires forall x :: x in children <==> ChildOf(t, x, q)
    ensures var s := State(t, moves, [Delete(root, Collecting(ids, [q]))]);
            Enabled(s, Select(0, children)) && Apply(s, Select(0, children)) == State(t, moves, [Delete(root, Collected(ids + [q], children))])
  {
    assert [q][1..] + children == children;
  }

  lemma WalkBegins(a: Node) returns (x: seq<Step>)
    requires a.parent == None
    ensures Path(INITIAL, x, State(map[1 := a, 2 := Kid(a, 1)], [], [Delete(1, Collecting([1], [2]))]))
  {
    var t := map[1 := a, 2 := Kid(a, 1)];
    Then(INITIAL, [], INITIAL, Insert(1, a), State(map[1 := a], [], []));
    x := [] + [Insert(1, a)];
    Then(INITIAL, x, State(map[1 := a], [], []), Insert(2, Kid(a, 1)), State(t, [], []));
    x := x + [Insert(2, Kid(a, 1))];
    var y := DeleteBegins(t);
    PathJoin(INITIAL, x, State(t, [], []), y, State(t, [], [Delete(1, Collecting([1], [2]))]));
    x := x + y;
  }

  lemma DeleteBegins(t: Table) returns (x: seq<Step>)
    requires t.Keys == {1, 2} && t[1].parent == None && t[2].parent == Some(1)
    ensures Path(State(t, [], []), x, State(t, [], [Delete(1, Collecting([1], [2]))]))
  {
    var s0, s1 := State(t, [], []), State(t, [], [Delete(1, Looking)]);
    var s2 := State(t, [], [Delete(1, Collecting([], [1]))]);
    Then(s0, [], s0, BeginDelete(1), s1);
    x := [] + [BeginDelete(1)];
    Then(s0, x, s1, Look(0), s2);
    x := x + [Look(0)];
    SelectOnly(t, [], 1, [], 1, [2]);
    assert [] + [1] == [1];
    Then(s0, x, s2, Select(0, [2]), State(t, [], [Delete(1, Collecting([1], [2]))]));
    x := x + [Select(0, [2])];
  }

  lemma WalkGoesOn(t: Table, moves: seq<Move>) returns (x: seq<Step>)
    requires t.Keys == {1, 2, 3} && t[1].parent == None && t[2].parent == None && t[3].parent == Some(2)
    ensures Path(State(t, moves, [Delete(1, Collecting([1], [2]))]), x, State(t, moves, [Delete(1, Hiding([1, 2, 3], 0))]))
    ensures NoMoves(x, 0, |x|)
  {
    var s0 := State(t, moves, [Delete(1, Collecting([1], [2]))]);
    var s1 := State(t, moves, [Delete(1, Collecting([1, 2], [3]))]);
    SelectOnly(t, moves, 1, [1], 2, [3]);
    assert [1] + [2] == [1, 2];
    Then(s0, [], s0, Select(0, [3]), s1);
    x := [] + [Select(0, [3])];
    SelectOnly(t, moves, 1, [1, 2], 3, []);
    assert [1, 2] + [3] == [1, 2, 3];
    Then(s0, x, s1, Select(0, []), State(t, moves, [Delete(1, Hiding([1, 2, 3], 0))]));
    x := x + [Select(0, [])];
  }

  lemma HideAll(t: Table, moves: seq<Move>) returns (x: seq<Step>, t': Table)
    requires t.Keys == {1, 2, 3}
    ensures Path(State(t, moves, [Delete(1, Hiding([1, 2, 3], 0))]), x, State(t', moves, [Delete(1, Hiding([1, 2, 3], 3))]))
    ensures NoMoves(x, 0, |x|) && 3 in t' && !t'[3].visible
  {
    var s0 := State(t, moves, [Delete(1, Hiding([1, 2, 3], 0))]);
    var s1 := State(HideRow(t, 1), moves, [Delete(1, Hiding([1, 2, 3], 1))]);
    var s2 := State(HideRow(HideRow(t, 1), 2), moves, [Delete(1, Hiding([1, 2, 3], 2))]);
    t' := HideRow(HideRow(HideRow(t, 1), 2), 3);
    Then(s0, [], s0, Hide(0), s1);
    x := [] + [Hide(0)];
    Then(s0, x, s1, Hide(0), s2);
    x := x + [Hide(0)];
    Then(s0, x, s2, Hide(0), State(t', moves, [Delete(1, Hiding([1, 2, 3], 3))]));
    x := x + [Hide(0)];
  }

  /**
    With moves in between, a delete can hide a node that never was below its root: node 3 is inserted,
    visible, under a node that has already left the subtree, and nobody deletes it.
   */
  lemma DeleteGoesAstray(a: Node) returns (states: seq<State>, steps: seq<Step>, i: nat)
    requires a.parent == None && a.visible
    ensures IsRun(states, steps) && i < |steps| && steps[i] == Insert(3, Kid(a, 2))
    ensures forall n :: 0 <= n <= i ==> 3 !in states[n].nodes
    ensures forall n :: i < n < |states| ==> !Below(states[n].nodes, 3, 1)
    ensures states[|steps|].deletes == [Delete(1, Hiding([1, 2, 3], 3))]
    ensures 3 in states[|steps|].nodes && !states[|steps|].nodes[3].visible
  {
    var t, moves := map[1 := a, 2 := a], [Move(2, None, Finished(Moved))];
    var t3 := t[3 := Kid(a, 2)];
    var x := ChildMovesAway(a);
    i := |x|;
    var s1 := State(t, moves, [Delete(1, Collecting([1], [2]))]);
    var s2 := State(t3, moves, [Delete(1, Collecting([1], [2]))]);
    Then(INITIAL, x, s1, Insert(3, Kid(a, 2)), s2);
    var y := WalkGoesOn(t3, moves);
    var z, t4 := HideAll(t3, moves);
    PathJoin(s2, y, State(t3, moves, [Delete(1, Hiding([1, 2, 3], 0))]), z, State(t4, moves, [Delete(1, Hiding([1, 2, 3], 3))]));
    var first := PathStates(INITIAL, x, s1);
    var rest := PathStates(s2, y + z, State(t4, moves, [Delete(1, Hiding([1, 2, 3], 3))]));
    states, steps := first + rest, x + ([Insert(3, Kid(a, 2))] + (y + z));
    JoinedRun(first, x, Insert(3, Kid(a, 2)), rest, y + z);
    NotThereBefore(states, steps, i, 3);
    NeverBelow(states, steps, i + 1);
  }

  lemma JoinedRun(first: seq<State>, x: seq<Step>, step: Step, rest: seq<State>, y: seq<Step>)
    requires |first| == |x| + 1 && |rest| == |y| + 1 && first[0] == INITIAL
    requires forall i :: 0 <= i < |x| ==> Enabled(first[i], x[i]) && first[i + 1] == Apply(first[i], x[i])
    requires Enabled(first[|x|], step) && rest[0] == Apply(first[|x|], step)
    requires forall i :: 0 <= i < |y| ==> Enabled(rest[i], y[i]) && rest[i + 1] == Apply(rest[i], y[i])
    ensures IsRun(first + rest, x + ([step] + y))
  {
    var states, steps := first + rest, x + ([step] + y);
    forall i | 0 <= i < |steps|
      ensures Enabled(states[i], steps[i]) && states[i + 1] == Apply(states[i], steps[i])
    {
      if i > |x| {
        assert steps[i] == y[i - |x| - 1] && states[i] == rest[i - |x| - 1];
      }
    }
  }

  lemma {:induction false} NotThereBefore(states: seq<State>, steps: seq<Step>, i: nat, id: int)
    requires IsRun(states, steps) && i < |states| && id !in states[i].nodes
    ensures forall n :: 0 <= n <= i ==> id !in states[n].nodes
    decreases i
  {
    if i > 0 {
      assert Enabled(states[i - 1], steps[i - 1]) && states[i] == Apply(states[i - 1], steps[i - 1]);
      NotThereBefore(states, steps, i - 1, id);
    }
  }

  lemma NeverBelow(states: seq<State>, steps: seq<Step>, i: nat)
    requires IsRun(states, steps) && i < |states| && NoMoves(steps, i, |steps|)
    requires 2 in states[i].nodes && 3 in states[i].nodes && states[i].nodes[2].parent == None && states[i].nodes[3].parent == Some(2)
    ensures forall n :: i <= n < |states| ==> !Below(states[n].nodes, 3, 1)
  {
    forall n | i <= n < |states|
      ensures !Below(states[n].nodes, 3, 1)
    {
      ParentStays(states, steps, i, n, 2);
      ParentStays(states, steps, i, n, 3);
      BelowParent(states[n].nodes, 3, 2, 1);
      BelowRoot(states[n].nodes, 2, 1);
    }
  }
}
