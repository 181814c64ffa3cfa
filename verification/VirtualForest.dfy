/**
  The tree of virtual nodes: table `virtual_nodes` of internal/db/repo_virtual.go, the cycle check of
  internal/service/virtual_index.go and the tree view of internal/handler/virtual_admin.go.

  The table is a map from id to row; each SQL statement is one atomic step.  A row's parent may be
  NULL.  Foreign keys are enforced (internal/db/db.go), so a parent that is written must exist.
 */
module VirtualForest {
  import opened Basics

  datatype Node = Node(view: int, parent: Option<int>, name: string, order: int, visible: bool)

  type Table = map<int, Node>

  // ---------------------------------------------------------------- ancestors

  /** The node `k` parent links above `x`. */
  function Up(t: Table, x: int, k: nat): Option<int> {
    if k == 0 then Some(x) else
      match Up(t, x, k - 1)
      case None => None
      case Some(y) => if y in t then t[y].parent else None
  }

  /** `x` is `r` or one of its descendants. */
  ghost predicate Below(t: Table, x: int, r: int) {
    exists k: nat :: Up(t, x, k) == Some(r)
  }

  ghost predicate OnCycle(t: Table, x: int) {
    exists k: nat :: k >= 1 && Up(t, x, k) == Some(x)
  }

  ghost predicate Acyclic(t: Table) {
    forall x :: !OnCycle(t, x)
  }

  /** Every parent exists: the foreign key on parent_id. */
  ghost predicate Closed(t: Table) {
    forall x :: x in t && t[x].parent.Some? ==> t[x].parent.value in t
  }

  lemma {:induction false} UpAdd(t: Table, x: int, j: nat, y: int, k: nat)
    requires Up(t, x, j) == Some(y)
    ensures Up(t, x, j + k) == Up(t, y, k)
    decreases k
  {
    if k > 0 {
      UpAdd(t, x, j, y, k - 1);
    }
  }

  lemma {:induction false} UpDefined(t: Table, x: int, j: nat, k: nat)
    requires j <= k && Up(t, x, k).Some?
    ensures Up(t, x, j).Some?
    decreases k
  {
    if j < k {
      UpDefined(t, x, j, k - 1);
    }
  }

  lemma MetTwice(t: Table, x: int, r: int, j: nat, k: nat)
    requires j < k && Up(t, x, j) == Some(r) && Up(t, x, k) == Some(r)
    ensures OnCycle(t, r)
  {
    UpAdd(t, x, j, r, k - j);
  }

  /** Off a cycle, a node has one distance to each node above it. */
  lemma DistanceUnique(t: Table, x: int, r: int, j: nat, k: nat)
    requires !OnCycle(t, r) && Up(t, x, j) == Some(r) && Up(t, x, k) == Some(r)
    ensures j == k
  {
    if j != k {
      MetTwice(t, x, r, if j < k then j else k, if j < k then k else j);
    }
  }

  lemma BelowParent(t: Table, x: int, p: int, r: int)
    requires x in t && t[x].parent == Some(p)
    ensures Below(t, x, r) <==> x == r || Below(t, p, r)
  {
    assert Up(t, x, 0) == Some(x) && Up(t, x, 1) == Some(p);
    if k: nat :| Up(t, x, k) == Some(r) {
      if k > 0 {
        UpAdd(t, x, 1, p, k - 1);
      }
    }
    if k: nat :| Up(t, p, k) == Some(r) {
      UpAdd(t, x, 1, p, k);
    }
  }

  lemma {:induction false} BelowRoot(t: Table, x: int, r: int)
    requires x in t ==> t[x].parent == None
    ensures Below(t, x, r) <==> x == r
  {
    assert Up(t, x, 0) == Some(x) && Up(t, x, 1) == None;
    if k: nat :| Up(t, x, k) == Some(r) {
      if k > 0 {
        UpDefined(t, x, 1, k);
      }
    }
  }

  // ---------------------------------------------------------------- the subtree walk

  ghost predicate ChildOf(t: Table, x: int, p: int) {
    x in t && t[x].parent == Some(p)
  }

  /** Listed in nondecreasing distance from `root`. */
  ghost predicate ByDepth(t: Table, root: int, ids: seq<int>) {
    forall i, j, di: nat, dj: nat ::
      0 <= i <= j < |ids| && Up(t, ids[i], di) == Some(root) && Up(t, ids[j], dj) == Some(root) ==> di <= dj
  }

  /** What the breadth-first walk keeps: `depth[i]` is the distance of node `i` of ids + queue from the root. */
  ghost predicate Walking(t: Table, root: int, ids: seq<int>, queue: seq<int>, depth: seq<nat>) {
    var all := ids + queue;
    && |depth| == |all| && all != [] && all[0] == root
    && NoDup(all)
    && (forall i :: 0 <= i < |all| ==> Up(t, all[i], depth[i]) == Some(root))
    && (forall i, j :: 0 <= i <= j < |all| ==> depth[i] <= depth[j])
    && (forall i :: 0 <= i < |all| && queue != [] ==> depth[i] <= depth[|ids|] + 1)
    && (forall i :: 0 < i < |all| ==> all[i] in t && t[all[i]].parent.Some? && t[all[i]].parent.value in ids)
    && (forall x, p :: p in ids && ChildOf(t, x, p) ==> x in all)
  }

  /** A child of the node at the head of the queue has not been met before. */
  lemma NewChild(t: Table, root: int, ids: seq<int>, queue: seq<int>, depth: seq<nat>, c: int)
    requires !OnCycle(t, root) && queue != [] && Walking(t, root, ids, queue, depth)
    requires ChildOf(t, c, queue[0])
    ensures c !in ids + queue && Up(t, c, depth[|ids|] + 1) == Some(root)
  {
    var cur := queue[0];
    var all := ids + queue;
    assert all[|ids|] == cur;
    assert Up(t, c, 1) == Some(cur);
    UpAdd(t, c, 1, cur, depth[|ids|]);
    assert cur !in ids by {
      forall j | 0 <= j < |ids|
        ensures ids[j] != cur
      {
        assert all[j] == ids[j];
      }
    }
  }

  lemma WalkStep(t: Table, root: int, ids: seq<int>, queue: seq<int>, depth: seq<nat>, children: seq<int>)
    requires !OnCycle(t, root) && queue != [] && Walking(t, root, ids, queue, depth)
    requires NoDup(children) && forall x :: x in children <==> ChildOf(t, x, queue[0])
    ensures Walking(t, root, ids + [queue[0]], queue[1..] + children, depth + seq(|children|, _ => depth[|ids|] + 1))
  {
    var cur := queue[0];
    var all := ids + queue;
    var all' := ids + [cur] + (queue[1..] + children);
    var depth' := depth + seq(|children|, _ => depth[|ids|] + 1);
    assert all' == all + children;
    forall c | c in children
      ensures c !in all && Up(t, c, depth[|ids|] + 1) == Some(root)
    {
      NewChild(t, root, ids, queue, depth, c);
    }
    NoDupConcat(all, children);
    forall i | 0 <= i < |all'|
      ensures Up(t, all'[i], depth'[i]) == Some(root)
      ensures 0 < i ==> all'[i] in t && t[all'[i]].parent.Some? && t[all'[i]].parent.value in ids + [cur]
    {
      if i >= |all| {
        assert all'[i] == children[i - |all|] && children[i - |all|] in children;
        assert ChildOf(t, all'[i], cur);
      }
    }
    forall x, p | p in ids + [cur] && ChildOf(t, x, p)
      ensures x in all'
    {
      assert p in ids || p == cur;
    }
  }

  lemma {:induction false} WalkComplete(t: Table, root: int, ids: seq<int>, x: int, k: nat)
    requires root in ids && (forall y, p :: p in ids && ChildOf(t, y, p) ==> y in ids)
    requires Up(t, x, k) == Some(root)
    ensures x in ids
    decreases k
  {
    if k > 0 {
      UpDefined(t, x, 1, k);
      var p := Up(t, x, 1).value;
      assert ChildOf(t, x, p);
      UpAdd(t, x, 1, p, k - 1);
      WalkComplete(t, root, ids, p, k - 1);
    }
  }

  lemma WalkDone(t: Table, root: int, ids: seq<int>, depth: seq<nat>)
    requires !OnCycle(t, root) && Walking(t, root, ids, [], depth)
    ensures ids[0] == root && NoDup(ids) && ByDepth(t, root, ids)
    ensures forall x :: x in ids <==> Below(t, x, root)
  {
    assert ids + [] == ids;
    forall x | Below(t, x, root)
      ensures x in ids
    {
      var k: nat :| Up(t, x, k) == Some(root);
      WalkComplete(t, root, ids, x, k);
    }
    forall i, j, di: nat, dj: nat |
      0 <= i <= j < |ids| && Up(t, ids[i], di) == Some(root) && Up(t, ids[j], dj) == Some(root)
      ensures di <= dj
    {
      DistanceUnique(t, ids[i], root, di, depth[i]);
      DistanceUnique(t, ids[j], root, dj, depth[j]);
    }
  }

  lemma WalkFits(t: Table, root: int, ids: seq<int>, queue: seq<int>, depth: seq<nat>)
    requires Walking(t, root, ids, queue, depth)
    ensures |ids| + |queue| <= |t.Keys + {root}|
  {
    NoDupFits(ids + queue, t.Keys + {root});
  }

  /** One round of the walk: the head of the queue is done and its children, in any order, join the end. */
  ghost predicate WalkRound(t: Table, queue: seq<int>, queue': seq<int>) {
    queue != [] && exists children: seq<int> ::
      (forall x :: x in children <==> ChildOf(t, x, queue[0])) && queue' == queue[1..] + children
  }

  ghost predicate HasCycleNode(t: Table, queue: seq<int>) {
    exists i :: 0 <= i < |queue| && OnCycle(t, queue[i])
  }

  lemma CycleGoesOn(t: Table, x: int) returns (y: int)
    requires OnCycle(t, x)
    ensures ChildOf(t, y, x) && OnCycle(t, y)
  {
    var k: nat :| k >= 1 && Up(t, x, k) == Some(x);
    UpDefined(t, x, k - 1, k);
    y := Up(t, x, k - 1).value;
    assert Up(t, y, 1) == Some(x);
    UpAdd(t, y, 1, x, k - 1);
  }

  lemma RoundKeepsCycleNode(t: Table, queue: seq<int>, queue': seq<int>)
    requires WalkRound(t, queue, queue') && HasCycleNode(t, queue)
    ensures HasCycleNode(t, queue')
  {
    var children: seq<int> :| (forall x :: x in children <==> ChildOf(t, x, queue[0])) && queue' == queue[1..] + children;
    var i :| 0 <= i < |queue| && OnCycle(t, queue[i]);
    if i > 0 {
      assert queue'[i - 1] == queue[i];
    } else {
      var y := CycleGoesOn(t, queue[0]);
      var j :| 0 <= j < |children| && children[j] == y;
      assert queue'[|queue| - 1 + j] == y;
    }
  }

  /** From a root that is its own ancestor the walk never ends: after any number of rounds the queue is not empty. */
  lemma {:induction false} WalkOnCycleNeverEnds(t: Table, root: int, queues: seq<seq<int>>)
    requires OnCycle(t, root) && queues != [] && queues[0] == [root]
    requires forall i :: 0 <= i < |queues| - 1 ==> WalkRound(t, queues[i], queues[i + 1])
    ensures queues[|queues| - 1] != [] && HasCycleNode(t, queues[|queues| - 1])
    decreases |queues|
  {
    var n := |queues| - 1;
    if n == 0 {
      assert queues[0][0] == root;
    } else {
      WalkOnCycleNeverEnds(t, root, queues[..n]);
      assert queues[..n][n - 1] == queues[n - 1];
      RoundKeepsCycleNode(t, queues[n - 1], queues[n]);
    }
  }

  // ---------------------------------------------------------------- hiding a subtree

  /** The table with `r` and all its descendants hidden. */
  ghost function Hidden(t: Table, r: int): Table {
    map x | x in t :: if Below(t, x, r) then t[x].(visible := false) else t[x]
  }

  /** The table with the rows of `ids` hidden. */
  function HiddenIn(t: Table, ids: seq<int>): Table {
    map x | x in t :: if x in ids then t[x].(visible := false) else t[x]
  }

  // ---------------------------------------------------------------- listing children

  /** ORDER BY sort_order, name; rows equal in both come in id order. */
  predicate Before(t: Table, a: int, b: int)
    requires a in t && b in t
  {
    || t[a].order < t[b].order
    || (t[a].order == t[b].order &&
        (LexLess(t[a].name, t[b].name) || (t[a].name == t[b].name && a < b)))
  }

  lemma BeforeTransitive(t: Table, a: int, b: int, c: int)
    requires a in t && b in t && c in t && Before(t, a, b) && Before(t, b, c)
    ensures Before(t, a, c)
  {
    if LexLess(t[a].name, t[b].name) && LexLess(t[b].name, t[c].name) {
      LexTransitive(t[a].name, t[b].name, t[c].name);
    }
  }

  lemma BeforeTotal(t: Table, a: int, b: int)
    requires a in t && b in t && a != b
    ensures Before(t, a, b) <==> !Before(t, b, a)
  {
    LexTotal(t[a].name, t[b].name);
    LexIrreflexive(t[a].name);
    if LexLess(t[a].name, t[b].name) && LexLess(t[b].name, t[a].name) {
      LexTransitive(t[a].name, t[b].name, t[a].name);
    }
  }

  predicate IsFirst(t: Table, s: set<int>, m: int)
    requires s <= t.Keys
  {
    m in s && forall x :: x in s && x != m ==> Before(t, m, x)
  }

  lemma {:induction false} FirstExists(t: Table, s: set<int>)
    requires s <= t.Keys && s != {}
    ensures exists m :: IsFirst(t, s, m)
    decreases |s|
  {
    var some := Member(s);
    var a :| a in s;
    var rest := s - {a};
    if rest == {} {
      assert s == {a};
      assert IsFirst(t, s, a);
    } else {
      FirstExists(t, rest);
      var m :| IsFirst(t, rest, m);
      BeforeTotal(t, a, m);
      if Before(t, m, a) {
        assert IsFirst(t, s, m);
      } else {
        forall x | x in s && x != a
          ensures Before(t, a, x)
        {
          if x != m {
            BeforeTransitive(t, a, m, x);
          }
        }
        assert IsFirst(t, s, a);
      }
    }
  }

  lemma FirstUnique(t: Table, s: set<int>, m: int, m': int)
    requires s <= t.Keys && IsFirst(t, s, m) && IsFirst(t, s, m')
    ensures m == m'
  {
    if m != m' {
      BeforeTotal(t, m, m');
    }
  }

  /** The rows of `s` in listing order. */
  ghost function Listed(t: Table, s: set<int>): (ids: seq<int>)
    requires s <= t.Keys
    ensures forall x :: x in ids <==> x in s
    decreases |s|
  {
    if s == {} then [] else
      FirstExists(t, s);
      var m :| IsFirst(t, s, m);
      [m] + Listed(t, s - {m})
  }

  lemma {:induction false} ListedSame(t: Table, t': Table, s: set<int>)
    requires s <= t.Keys && s <= t'.Keys
    requires forall x :: x in s ==> t[x].order == t'[x].order && t[x].name == t'[x].name
    ensures Listed(t, s) == Listed(t', s)
    decreases |s|
  {
    if s != {} {
      var m, m' := Listed(t, s)[0], Listed(t', s)[0];
      assert IsFirst(t, s, m) && IsFirst(t', s, m');
      assert IsFirst(t, s, m');
      FirstUnique(t, s, m, m');
      ListedSame(t, t', s - {m});
    }
  }

  /** What ORDER BY sort_order, name means for two rows in this order; the id decides between equal ones. */
  ghost predicate ListedBefore(t: Table, a: int, b: int) {
    && a in t && b in t && t[a].order <= t[b].order
    && (t[a].order == t[b].order ==> BytewiseLess(t[a].name, t[b].name) || (t[a].name == t[b].name && a < b))
  }

  lemma BeforeReads(t: Table, a: int, b: int)
    requires a in t && b in t
    ensures Before(t, a, b) <==> a != b && ListedBefore(t, a, b)
  {
    LexReads(t[a].name, t[b].name);
    LexIrreflexive(t[a].name);
  }

  /** The listing holds each row once, in ascending sort_order, name and id. */
  lemma {:induction false} ListedInOrder(t: Table, s: set<int>, i: nat, j: nat)
    requires s <= t.Keys && i < j < |Listed(t, s)|
    ensures Listed(t, s)[i] != Listed(t, s)[j] && ListedBefore(t, Listed(t, s)[i], Listed(t, s)[j])
    decreases |s|
  {
    var m, rest := Listed(t, s)[0], Listed(t, s)[1..];
    if i > 0 {
      ListedInOrder(t, s - {m}, i - 1, j - 1);
    } else {
      assert rest[j - 1] in rest;
      BeforeReads(t, m, rest[j - 1]);
    }
  }

  function Children(t: Table, view: int, parent: Option<int>): (s: set<int>)
    ensures s <= t.Keys
  {
    set x | x in t && t[x].view == view && t[x].parent == parent
  }

  // ---------------------------------------------------------------- the tree view

  datatype Tree = Tree(id: int, node: Node, children: seq<Tree>)

  /** The visible forest under `parent`, cut at `depth` levels (at least one). */
  ghost function View(t: Table, view: int, parent: Option<int>, depth: int): seq<Tree>
    decreases if depth > 1 then depth else 1, |t| + 1
  {
    ViewOf(t, view, Listed(t, Children(t, view, parent)), depth)
  }

  ghost function ViewOf(t: Table, view: int, ids: seq<int>, depth: int): seq<Tree>
    requires forall i :: 0 <= i < |ids| ==> ids[i] in t
    decreases if depth > 1 then depth else 1, 0, |ids|
  {
    if ids == [] then []
    else if !t[ids[0]].visible then ViewOf(t, view, ids[1..], depth)
    else
      [Tree(ids[0], t[ids[0]], if depth > 1 then View(t, view, Some(ids[0]), depth - 1) else [])]
      + ViewOf(t, view, ids[1..], depth)
  }

  /** `x` is somewhere in the forest. */
  predicate Shown(ts: seq<Tree>, x: int) {
    ts != [] && (ts[0].id == x || Shown(ts[0].children, x) || Shown(ts[1..], x))
  }

  /** `x` hangs `k` links below `parent`, and it and everything in between is visible and in the view. */
  predicate Hangs(t: Table, view: int, x: int, parent: Option<int>, k: nat)
    decreases k
  {
    && x in t && t[x].view == view && t[x].visible
    && if k == 0 then t[x].parent == parent
       else t[x].parent.Some? && Hangs(t, view, t[x].parent.value, parent, k - 1)
  }

  predicate VisibleChild(t: Table, view: int, c: int, parent: Option<int>) {
    c in t && t[c].view == view && t[c].visible && t[c].parent == parent
  }

  lemma {:induction false} HangsFromChild(t: Table, view: int, x: int, parent: Option<int>, k: nat)
    ensures Hangs(t, view, x, parent, k + 1)
       <==> exists c :: VisibleChild(t, view, c, parent) && Hangs(t, view, x, Some(c), k)
    decreases k
  {
    if k > 0 && x in t && t[x].parent.Some? {
      HangsFromChild(t, view, t[x].parent.value, parent, k - 1);
    }
    if k == 0 && Hangs(t, view, x, parent, 1) {
      assert VisibleChild(t, view, t[x].parent.value, parent) && Hangs(t, view, x, Some(t[x].parent.value), 0);
    }
    if k > 0 && Hangs(t, view, x, parent, k + 1) {
      var c :| VisibleChild(t, view, c, parent) && Hangs(t, view, t[x].parent.value, Some(c), k - 1);
      assert Hangs(t, view, x, Some(c), k);
    }
  }

  function Levels(depth: int): nat {
    if depth > 1 then depth else 1
  }

  ghost predicate HangsWithin(t: Table, view: int, x: int, parent: Option<int>, n: nat) {
    exists k: nat :: k < n && Hangs(t, view, x, parent, k)
  }

  /** `x` is `c` or hangs below it within the depth that is left. */
  ghost predicate ShownUnder(t: Table, view: int, c: int, depth: int, x: int) {
    c == x || (depth > 1 && HangsWithin(t, view, x, Some(c), Levels(depth - 1)))
  }

  lemma ChildrenShow(t: Table, view: int, parent: Option<int>, depth: int, x: int)
    ensures HangsWithin(t, view, x, parent, Levels(depth))
       <==> exists c :: VisibleChild(t, view, c, parent) && ShownUnder(t, view, c, depth, x)
  {
    if k: nat :| k < Levels(depth) && Hangs(t, view, x, parent, k) {
      if k == 0 {
        assert VisibleChild(t, view, x, parent) && ShownUnder(t, view, x, depth, x);
      } else {
        HangsFromChild(t, view, x, parent, k - 1);
        var c :| VisibleChild(t, view, c, parent) && Hangs(t, view, x, Some(c), k - 1);
        assert HangsWithin(t, view, x, Some(c), Levels(depth - 1));
        assert ShownUnder(t, view, c, depth, x);
      }
    }
    if c :| VisibleChild(t, view, c, parent) && ShownUnder(t, view, c, depth, x) {
      if c == x {
        assert Hangs(t, view, x, parent, 0);
      } else {
        var k: nat :| k < Levels(depth - 1) && Hangs(t, view, x, Some(c), k);
        HangsFromChild(t, view, x, parent, k);
        assert k + 1 < Levels(depth) && Hangs(t, view, x, parent, k + 1);
      }
    }
  }

  /**
    The tree view shows exactly the nodes whose whole chain of ancestors up to the requested parent
    is visible and in the view, down to the requested depth.
   */
  lemma {:induction false} ViewShowsExactly(t: Table, view: int, parent: Option<int>, depth: int, x: int)
    ensures Shown(View(t, view, parent, depth), x) <==> HangsWithin(t, view, x, parent, Levels(depth))
    decreases Levels(depth), 1, 0
  {
    var kids := Children(t, view, parent);
    var ids := Listed(t, kids);
    forall i | 0 <= i < |ids|
      ensures ids[i] in t
    {
      assert ids[i] in ids;
    }
    ViewOfShows(t, view, ids, depth, x);
    ChildrenShow(t, view, parent, depth, x);
    assert forall c :: c in ids && t[c].visible <==> VisibleChild(t, view, c, parent) by {
      forall c
        ensures c in ids && t[c].visible <==> VisibleChild(t, view, c, parent)
      {
        assert c in ids <==> c in kids;
      }
    }
  }

  lemma {:induction false} ViewOfShows(t: Table, view: int, ids: seq<int>, depth: int, x: int)
    requires forall i :: 0 <= i < |ids| ==> ids[i] in t
    ensures Shown(ViewOf(t, view, ids, depth), x)
       <==> exists c :: c in ids && t[c].visible && ShownUnder(t, view, c, depth, x)
    decreases Levels(depth), 0, |ids|
  {
    if ids != [] {
      var c, rest := ids[0], ids[1..];
      assert forall y :: y in ids <==> y == c || y in rest by {
        assert ids == [c] + rest;
      }
      ViewOfShows(t, view, rest, depth, x);
      if t[c].visible {
        ShownSplits(t, view, ids, depth, x);
      }
    }
  }

  lemma ShownSplits(t: Table, view: int, ids: seq<int>, depth: int, x: int)
    requires ids != [] && (forall i :: 0 <= i < |ids| ==> ids[i] in t) && t[ids[0]].visible
    ensures Shown(ViewOf(t, view, ids, depth), x)
       <==> ShownUnder(t, view, ids[0], depth, x) || Shown(ViewOf(t, view, ids[1..], depth), x)
    decreases Levels(depth), 0, 0
  {
    var c := ids[0];
    var head := Tree(c, t[c], if depth > 1 then View(t, view, Some(c), depth - 1) else []);
    var tail := ViewOf(t, view, ids[1..], depth);
    assert ViewOf(t, view, ids, depth) == [head] + tail && ([head] + tail)[1..] == tail;
    if depth > 1 {
      ViewShowsExactly(t, view, Some(c), depth - 1, x);
    }
  }

  /** The trees are those of the visible rows numbered `at`, in order, with the level below them. */
  ghost predicate AreTreesOf(t: Table, view: int, depth: int, trees: seq<Tree>, ids: seq<int>, i: nat, at: seq<nat>) {
    && |at| == |trees|
    && (forall k :: 0 <= k < |at| ==> i <= at[k] < |ids| && IsTreeOf(t, view, depth, trees[k], ids[at[k]]))
    && (forall k, l :: 0 <= k < l < |at| ==> at[k] < at[l])
  }

  lemma OneMoreTree(t: Table, view: int, depth: int, tree: Tree, trees: seq<Tree>, ids: seq<int>, i: nat, at: seq<nat>)
    requires i < |ids| && AreTreesOf(t, view, depth, trees, ids, i + 1, at) && IsTreeOf(t, view, depth, tree, ids[i])
    ensures AreTreesOf(t, view, depth, [tree] + trees, ids, i, [i] + at)
  {
  }

  lemma {:induction false} ViewOfRows(t: Table, view: int, ids: seq<int>, i: nat, depth: int) returns (at: seq<nat>)
    requires i <= |ids| && forall j :: 0 <= j < |ids| ==> ids[j] in t
    ensures AreTreesOf(t, view, depth, ViewOf(t, view, ids[i..], depth), ids, i, at)
    decreases |ids| - i
  {
    if i == |ids| {
      at := [];
    } else {
      var rest := ViewOfRows(t, view, ids, i + 1, depth);
      assert ids[i..][0] == ids[i] && ids[i..][1..] == ids[i + 1..];
      at := rest;
      if t[ids[i]].visible {
        var tree := Tree(ids[i], t[ids[i]], if depth > 1 then View(t, view, Some(ids[i]), depth - 1) else []);
        OneMoreTree(t, view, depth, tree, ViewOf(t, view, ids[i + 1..], depth), ids, i, rest);
        at := [i] + rest;
      }
    }
  }

  ghost predicate IsTreeOf(t: Table, view: int, depth: int, tree: Tree, id: int) {
    && tree.id == id && id in t && tree.node == t[id] && t[id].visible
    && tree.children == if depth > 1 then View(t, view, Some(id), depth - 1) else []
  }

  /** Trees beside each other come in ascending sort_order, name and id, at every level of every view. */
  lemma ViewInOrder(t: Table, view: int, parent: Option<int>, depth: int, k: nat, l: nat)
    requires k < l < |View(t, view, parent, depth)|
    ensures var trees := View(t, view, parent, depth);
            && IsTreeOf(t, view, depth, trees[k], trees[k].id) && IsTreeOf(t, view, depth, trees[l], trees[l].id)
            && trees[k].id != trees[l].id && ListedBefore(t, trees[k].id, trees[l].id)
  {
    var ids := Listed(t, Children(t, view, parent));
    forall i | 0 <= i < |ids|
      ensures ids[i] in t
    {
      assert ids[i] in ids;
    }
    var at := ViewOfRows(t, view, ids, 0, depth);
    assert ids[0..] == ids;
    ListedInOrder(t, Children(t, view, parent), at[k], at[l]);
  }

  /** A forest with the node `r` and everything under it cut out, the rest in place. */
  function Cut(ts: seq<Tree>, r: int): seq<Tree> {
    if ts == [] then []
    else if ts[0].id == r then Cut(ts[1..], r)
    else [ts[0].(children := Cut(ts[0].children, r))] + Cut(ts[1..], r)
  }

  lemma {:induction false} DeleteHidesChildren(t: Table, view: int, ids: seq<int>, depth: int, r: int)
    requires forall i :: 0 <= i < |ids| ==> ids[i] in t && Below(t, ids[i], r)
    ensures ViewOf(Hidden(t, r), view, ids, depth) == []
    decreases |ids|
  {
    if ids != [] {
      DeleteHidesChildren(t, view, ids[1..], depth, r);
    }
  }

  lemma ListingSurvivesDelete(t: Table, view: int, parent: Option<int>, r: int)
    ensures Children(Hidden(t, r), view, parent) == Children(t, view, parent)
    ensures Listed(Hidden(t, r), Children(t, view, parent)) == Listed(t, Children(t, view, parent))
  {
    ListedSame(t, Hidden(t, r), Children(t, view, parent));
  }

  /**
    Delete and view commute: the view of any part of the tree after hiding the subtree at `r` is the
    view before it with `r` and everything under it cut out, and nothing under a deleted node shows.
    It holds for every table, cyclic or not, every view and every depth.
   */
  lemma {:induction false} DeleteCommutesWithView(t: Table, view: int, parent: Option<int>, depth: int, r: int)
    ensures View(Hidden(t, r), view, parent, depth)
         == if parent.Some? && Below(t, parent.value, r) then [] else Cut(View(t, view, parent, depth), r)
    decreases if depth > 1 then depth else 1, 1, 0
  {
    var ids := Listed(t, Children(t, view, parent));
    ListingSurvivesDelete(t, view, parent, r);
    forall x | x in ids
      ensures Below(t, x, r) <==> x == r || (parent.Some? && Below(t, parent.value, r))
    {
      if parent.Some? {
        BelowParent(t, x, parent.value, r);
      } else {
        BelowRoot(t, x, r);
      }
    }
    if parent.Some? && Below(t, parent.value, r) {
      DeleteHidesChildren(t, view, ids, depth, r);
    } else {
      DeleteCommutesWithList(t, view, ids, depth, r);
    }
  }

  lemma {:induction false} DeleteCommutesWithList(t: Table, view: int, ids: seq<int>, depth: int, r: int)
    requires forall i :: 0 <= i < |ids| ==> ids[i] in t && (Below(t, ids[i], r) <==> ids[i] == r)
    ensures ViewOf(Hidden(t, r), view, ids, depth) == Cut(ViewOf(t, view, ids, depth), r)
    decreases if depth > 1 then depth else 1, 0, |ids|
  {
    if ids != [] {
      var x := ids[0];
      DeleteCommutesWithList(t, view, ids[1..], depth, r);
      if t[x].visible {
        var tail := ViewOf(t, view, ids[1..], depth);
        var head := Tree(x, t[x], if depth > 1 then View(t, view, Some(x), depth - 1) else []);
        assert ViewOf(t, view, ids, depth) == [head] + tail;
        assert ([head] + tail)[1..] == tail;
        if depth > 1 {
          DeleteCommutesWithView(t, view, Some(x), depth - 1, r);
        }
      }
    }
  }

  /** The rows differ at most in being visible. */
  predicate SameBut(a: Node, b: Node) {
    a.view == b.view && a.parent == b.parent && a.name == b.name && a.order == b.order
  }

  lemma SameListing(t: Table, t': Table, view: int, parent: Option<int>)
    requires t'.Keys == t.Keys && forall x :: x in t ==> SameBut(t[x], t'[x])
    ensures Children(t', view, parent) == Children(t, view, parent)
    ensures Listed(t', Children(t', view, parent)) == Listed(t, Children(t, view, parent))
  {
    forall x
      ensures x in Children(t', view, parent) <==> x in Children(t, view, parent)
    {
      assert x in t ==> SameBut(t[x], t'[x]);
    }
    ListedSame(t, t', Children(t, view, parent));
  }

  /** The two tables are `t` with some rows at or below `r` hidden, `r` among them. */
  ghost predicate BothCut(t: Table, t1: Table, t2: Table, r: int) {
    && t1.Keys == t.Keys && t2.Keys == t.Keys
    && (forall x :: x in t ==> SameBut(t[x], t1[x]) && SameBut(t[x], t2[x]))
    && (forall x :: x in t && !Below(t, x, r) ==> t1[x] == t2[x])
    && (r in t ==> !t1[r].visible && !t2[r].visible)
  }

  lemma {:induction false} ViewsAgree(t: Table, t1: Table, t2: Table, r: int, view: int, parent: Option<int>, depth: int)
    requires BothCut(t, t1, t2, r) && (parent.Some? ==> !Below(t, parent.value, r))
    ensures View(t1, view, parent, depth) == View(t2, view, parent, depth)
    decreases if depth > 1 then depth else 1, 1, 0
  {
    SameListing(t, t1, view, parent);
    SameListing(t, t2, view, parent);
    var ids := Listed(t, Children(t, view, parent));
    forall x | x in ids
      ensures Below(t, x, r) <==> x == r
    {
      if parent.Some? {
        BelowParent(t, x, parent.value, r);
      } else {
        BelowRoot(t, x, r);
      }
    }
    ListsAgree(t, t1, t2, r, view, ids, depth);
  }

  lemma {:induction false} ListsAgree(t: Table, t1: Table, t2: Table, r: int, view: int, ids: seq<int>, depth: int)
    requires BothCut(t, t1, t2, r)
    requires forall i :: 0 <= i < |ids| ==> ids[i] in t && (Below(t, ids[i], r) <==> ids[i] == r)
    ensures ViewOf(t1, view, ids, depth) == ViewOf(t2, view, ids, depth)
    decreases if depth > 1 then depth else 1, 0, |ids|
  {
    if ids != [] {
      ListsAgree(t, t1, t2, r, view, ids[1..], depth);
      if ids[0] != r && depth > 1 {
        ViewsAgree(t, t1, t2, r, view, Some(ids[0]), depth - 1);
      }
    }
  }

  /**
    A delete that breaks off after its first update looks complete from outside: with `r` hidden and
    any of its descendants, every view of a place outside the subtree is the view before with `r` and
    everything under it cut out.
   */
  lemma PartialDeleteStillCuts(t: Table, view: int, parent: Option<int>, depth: int, r: int, ids: seq<int>)
    requires r in ids && (forall x :: x in ids ==> Below(t, x, r)) && (parent.Some? ==> !Below(t, parent.value, r))
    ensures View(HiddenIn(t, ids), view, parent, depth) == Cut(View(t, view, parent, depth), r)
  {
    assert Up(t, r, 0) == Some(r);
    ViewsAgree(t, HiddenIn(t, ids), Hidden(t, r), r, view, parent, depth);
    DeleteCommutesWithView(t, view, parent, depth, r);
  }

  // ---------------------------------------------------------------- reparenting

  function Reparented(t: Table, id: int, parent: Option<int>): Table {
    if id in t then t[id := t[id].(parent := parent)] else t
  }

  /** Until it meets `id`, a chain of ancestors does not notice that `id` or only `id` changed. */
  lemma {:induction false} ChainUnchanged(t: Table, t': Table, id: int, x: int, k: nat)
    requires forall y :: y != id ==> (y in t' <==> y in t) && (y in t ==> t'[y].parent == t[y].parent)
    requires forall j: nat :: j < k ==> Up(t, x, j) != Some(id)
    ensures Up(t', x, k) == Up(t, x, k)
    decreases k
  {
    if k > 0 {
      ChainUnchanged(t, t', id, x, k - 1);
      assert Up(t, x, k - 1) != Some(id);
    }
  }

  lemma {:induction false} FirstHit(t: Table, x: int, id: int, k: nat) returns (m: nat)
    requires Up(t, x, k) == Some(id)
    ensures m <= k && Up(t, x, m) == Some(id) && forall j: nat :: j < m ==> Up(t, x, j) != Some(id)
    decreases k
  {
    if j: nat :| j < k && Up(t, x, j) == Some(id) {
      m := FirstHit(t, x, id, j);
    } else {
      m := k;
    }
  }

  lemma MoveBelowItselfCycles(t: Table, id: int, p: int)
    requires id in t && Below(t, p, id)
    ensures OnCycle(Reparented(t, id, Some(p)), id)
  {
    var t' := Reparented(t, id, Some(p));
    var k: nat :| Up(t, p, k) == Some(id);
    var m := FirstHit(t, p, id, k);
    ChainUnchanged(t, t', id, p, m);
    assert Up(t', id, 1) == Some(p);
    UpAdd(t', id, 1, p, m);
  }

  lemma MoveElsewhereKeepsAcyclic(t: Table, id: int, parent: Option<int>)
    requires Acyclic(t) && id in t && (parent.Some? ==> !Below(t, parent.value, id))
    ensures Acyclic(Reparented(t, id, parent))
  {
    var t' := Reparented(t, id, parent);
    forall x
      ensures !OnCycle(t', x)
    {
      if k: nat :| k >= 1 && Up(t', x, k) == Some(x) {
        if j: nat :| j < k && Up(t', x, j) == Some(id) {
          UpAdd(t', x, k, x, j);
          UpAdd(t', x, j, id, k);
          UpDefined(t', id, 1, k);
          assert Up(t', id, 1) == parent;
          UpAdd(t', id, 1, parent.value, k - 1);
          var m := FirstHit(t', parent.value, id, k - 1);
          ChainUnchanged(t', t, id, parent.value, m);
          assert Below(t, parent.value, id);
        } else {
          ChainUnchanged(t', t, id, x, k);
          assert OnCycle(t, x);
        }
        assert false;
      }
    }
  }

  /** Reparenting keeps an acyclic forest acyclic exactly when the new parent is outside the subtree moved. */
  lemma ReparentingTheorem(t: Table, id: int, parent: Option<int>)
    requires Acyclic(t) && id in t
    ensures Acyclic(Reparented(t, id, parent)) <==> parent == None || !Below(t, parent.value, id)
  {
    if parent.Some? && Below(t, parent.value, id) {
      MoveBelowItselfCycles(t, id, parent.value);
    } else {
      MoveElsewhereKeepsAcyclic(t, id, parent);
    }
  }

  // ---------------------------------------------------------------- creating a node

  /** Chains that start in a closed table stay in it, whatever is stored under a new id. */
  lemma {:induction false} ChainStaysInside(t: Table, t': Table, id: int, x: int, k: nat)
    requires Closed(t) && id !in t && t'.Keys == t.Keys + {id} && x in t
    requires forall y :: y in t ==> t'[y] == t[y]
    ensures Up(t', x, k) == Up(t, x, k)
    decreases k
  {
    if k > 0 {
      ChainStaysInside(t, t', id, x, k - 1);
    }
  }

  /** A new row that is not its own parent is on no cycle, so a cycle was there before. */
  lemma OldCycle(t: Table, id: int, n: Node, x: int, k: nat)
    requires Closed(t) && id !in t && n.parent != Some(id) && (n.parent.Some? ==> n.parent.value in t)
    requires k >= 1 && Up(t[id := n], x, k) == Some(x)
    ensures OnCycle(t, x)
  {
    var t' := t[id := n];
    UpDefined(t', x, 1, k);
    var p := Up(t', x, 1).value;
    UpAdd(t', x, 1, p, k - 1);
    ChainStaysInside(t, t', id, p, k - 1);
    ChainStaysInside(t, t', id, x, k);
  }

  /**
    Inserting a row keeps the forest acyclic exactly when the row does not name its own new id as
    its parent, which the foreign key accepts.
   */
  lemma CreateTheorem(t: Table, id: int, n: Node)
    requires Acyclic(t) && Closed(t) && id !in t
    requires n.parent.Some? ==> n.parent.value in t.Keys + {id}
    ensures Closed(t[id := n])
    ensures Acyclic(t[id := n]) <==> n.parent != Some(id)
  {
    var t' := t[id := n];
    if n.parent == Some(id) {
      assert Up(t', id, 0) == Some(id) && Up(t', id, 1) == Some(id);
      assert OnCycle(t', id);
    } else {
      forall x
        ensures !OnCycle(t', x)
      {
        if k: nat :| k >= 1 && Up(t', x, k) == Some(x) {
          OldCycle(t, id, n, x, k);
        }
      }
    }
  }

  // ---------------------------------------------------------------- the bounded cycle check

  const MAX_TREE_DEPTH: nat := 50

  datatype MoveError = CircularRef | NodeNotFound(id: int) | TooDeep

  ghost predicate Meets(t: Table, p: int, id: int, n: nat) {
    exists d: nat :: d < n && Up(t, p, d) == Some(id)
  }

  /** What `checkCycle` answers for moving `id` under `p`, in terms of the chain of ancestors of `p`. */
  ghost predicate Checked(t: Table, id: int, p: int, r: Option<MoveError>) {
    match r
    case Some(CircularRef) => Meets(t, p, id, MAX_TREE_DEPTH)
    case Some(TooDeep) => !Meets(t, p, id, MAX_TREE_DEPTH) && Up(t, p, MAX_TREE_DEPTH).Some?
    case Some(NodeNotFound(y)) =>
      y !in t && exists d: nat :: d < MAX_TREE_DEPTH && Up(t, p, d) == Some(y) && !Meets(t, p, id, d + 1)
    case None => Clear(t, p, id, MAX_TREE_DEPTH)
  }

  /** The chain above `p` reaches a root within `n` nodes and does not meet `id`. */
  ghost predicate Clear(t: Table, p: int, id: int, n: nat) {
    exists d: nat :: d < n && Up(t, p, d).Some? && Up(t, p, d).value in t && Up(t, p, d + 1) == None
                     && !Meets(t, p, id, d + 1)
  }

  lemma {:induction false} ChainEnds(t: Table, p: int, n: nat) returns (d: nat)
    requires Up(t, p, n) == None
    ensures d < n && Up(t, p, d).Some? && Up(t, p, d + 1) == None
    decreases n
  {
    if Up(t, p, n - 1).Some? {
      d := n - 1;
    } else {
      d := ChainEnds(t, p, n - 1);
    }
  }

  lemma ClearIsOutside(t: Table, p: int, id: int, n: nat)
    requires Clear(t, p, id, n)
    ensures !Below(t, p, id) && Up(t, p, n) == None && p in t
  {
    var d: nat :| d < n && Up(t, p, d).Some? && Up(t, p, d).value in t && Up(t, p, d + 1) == None && !Meets(t, p, id, d + 1);
    forall k: nat
      ensures k > d ==> Up(t, p, k) == None
      ensures Up(t, p, k) != Some(id)
    {
      if k > d && Up(t, p, k).Some? {
        UpDefined(t, p, d + 1, k);
      }
    }
    if d > 0 {
      UpDefined(t, p, 1, d);
    }
  }

  lemma OutsideIsClear(t: Table, p: int, id: int, n: nat)
    requires Closed(t) && p in t && !Below(t, p, id) && Up(t, p, n) == None
    ensures Clear(t, p, id, n)
  {
    var d := ChainEnds(t, p, n);
    assert !Meets(t, p, id, d + 1);
  }

  /**
    With foreign keys enforced, the bounded check lets a move through exactly when the new parent is
    outside the moved subtree and, counting itself, has at most 50 nodes on its way to the root.
   */
  lemma CheckTheorem(t: Table, id: int, p: int)
    requires Closed(t) && p in t
    ensures Checked(t, id, p, None) <==> !Below(t, p, id) && Up(t, p, 50) == None
  {
    if Clear(t, p, id, MAX_TREE_DEPTH) {
      ClearIsOutside(t, p, id, MAX_TREE_DEPTH);
    } else if !Below(t, p, id) && Up(t, p, MAX_TREE_DEPTH) == None {
      OutsideIsClear(t, p, id, MAX_TREE_DEPTH);
    }
  }

  /** A node 1 on its own and a chain of `n` nodes 2 <- 3 <- ... <- n+1. */
  function Chain(n: nat): Table {
    if n == 0 then map[1 := Node(0, None, "", 0, true)]
    else Chain(n - 1)[n + 1 := Node(0, if n == 1 then None else Some(n), "", 0, true)]
  }

  lemma {:induction false} ChainRow(n: nat, x: int)
    ensures x in Chain(n) <==> 1 <= x <= n + 1
    ensures 1 <= x <= n + 1 ==> Chain(n)[x].parent == if x <= 2 then None else Some(x - 1)
  {
    if n > 0 {
      ChainRow(n - 1, x);
    }
  }

  lemma {:induction false} ChainUp(n: nat, x: nat, k: nat)
    requires 2 <= x <= n + 1
    ensures Up(Chain(n), x, k) == if k <= x - 2 then Some(x - k) else None
    decreases k
  {
    if k > 0 {
      ChainUp(n, x, k - 1);
      ChainRow(n, x - k + 1);
    }
  }

  /** The check refuses some moves that would create no cycle: a lone node cannot go under one 50 levels deep. */
  lemma DeepMoveIsRefused()
    ensures var t := Chain(51);
            && !Below(t, 52, 1)
            && Checked(t, 1, 52, Some(TooDeep)) && !Checked(t, 1, 52, None)
  {
    var t := Chain(51);
    forall k: nat
      ensures Up(t, 52, k) != Some(1)
    {
      ChainUp(51, 52, k);
    }
    forall x | x in t && t[x].parent.Some?
      ensures t[x].parent.value in t
    {
      ChainRow(51, x);
      ChainRow(51, x - 1);
    }
    ChainRow(51, 52);
    ChainUp(51, 52, MAX_TREE_DEPTH);
    CheckTheorem(t, 1, 52);
  }

  // ---------------------------------------------------------------- the repository object

  class VirtualRepo {
    var nodes: Table

    constructor ()
      ensures nodes == map[]
    {
      nodes := map[];
    }

    /** SELECT id ... WHERE parent_id = cur, in no stated order. */
    method ChildIds(cur: int) returns (ids: seq<int>)
      ensures NoDup(ids) && forall x :: x in ids <==> ChildOf(nodes, x, cur)
    {
      ids := [];
      var todo := set x | x in nodes && nodes[x].parent == Some(cur);
      while todo != {}
        invariant NoDup(ids) && forall x :: x in ids ==> x !in todo
        invariant forall x :: x in ids || x in todo <==> ChildOf(nodes, x, cur)
        decreases todo
      {
        ghost var some := Member(todo);
        var x :| x in todo;
        todo := todo - {x};
        ids := ids + [x];
      }
    }

    /**
      On a root that is not its own ancestor the walk ends, and it returns the root and exactly its
      descendants, each once, in nondecreasing depth.
     */
    method CollectSubtreeIds(root: int) returns (ids: seq<int>)
      requires !OnCycle(nodes, root)
      ensures ids != [] && ids[0] == root && NoDup(ids) && ByDepth(nodes, root, ids)
      ensures forall x :: x in ids <==> Below(nodes, x, root)
    {
      ids := [];
      var queue := [root];
      ghost var depth: seq<nat> := [0];
      assert ids + queue == [root];
      while queue != []
        invariant Walking(nodes, root, ids, queue, depth)
        decreases |nodes.Keys + {root}| - |ids|
      {
        WalkFits(nodes, root, ids, queue, depth);
        var cur := queue[0];
        var children := ChildIds(cur);
        WalkStep(nodes, root, ids, queue, depth, children);
        depth := depth + seq(|children|, _ => depth[|ids|] + 1);
        queue := queue[1..];
        ids := ids + [cur];
        queue := queue + children;
      }
      WalkDone(nodes, root, ids, depth);
    }

    /**
      UPDATE ... SET status = 'hidden' WHERE id = nid, for each id of the subtree in turn; number n goes
      through if luck(n).  The first that does not ends it, with the rows before it hidden.
     */
    method SoftDeleteNodeCascade(id: int, luck: nat -> bool) returns (ok: bool, ghost ids: seq<int>, ghost done: nat)
      requires !OnCycle(nodes, id)
      modifies this
      ensures ids != [] && ids[0] == id && NoDup(ids) && ByDepth(old(nodes), id, ids)
      ensures forall x :: x in ids <==> Below(old(nodes), x, id)
      ensures done <= |ids| && nodes == HiddenIn(old(nodes), ids[..done])
      ensures (forall n :: 0 <= n < done ==> luck(n)) && (done < |ids| ==> !luck(done))
      ensures ok <==> done == |ids|
      ensures ok ==> nodes == Hidden(old(nodes), id)
    {
      var all := CollectSubtreeIds(id);
      ids := all;
      var t := nodes;
      var i := 0;
      assert HiddenIn(t, all[..0]) == t;
      while i < |all|
        invariant 0 <= i <= |all|
        invariant nodes == HiddenIn(t, all[..i])
        invariant forall n :: 0 <= n < i ==> luck(n)
      {
        if !luck(i) {
          return false, ids, i;
        }
        if all[i] in nodes {
          nodes := nodes[all[i] := nodes[all[i]].(visible := false)];
        }
        i := i + 1;
      }
      assert all[..i] == all;
      return true, ids, i;
    }

    method ListNodesByParent(view: int, parent: Option<int>) returns (ids: seq<int>)
      ensures ids == Listed(nodes, Children(nodes, view, parent))
    {
      ids := [];
      var todo := Children(nodes, view, parent);
      while todo != {}
        invariant todo <= nodes.Keys
        invariant Listed(nodes, Children(nodes, view, parent)) == ids + Listed(nodes, todo)
        decreases todo
      {
        FirstExists(nodes, todo);
        var m :| m in todo && IsFirst(nodes, todo, m);
        FirstUnique(nodes, todo, m, Listed(nodes, todo)[0]);
        todo := todo - {m};
        ids := ids + [m];
      }
    }

    /** The tree of a view, level by level. */
    method BuildTree(view: int, parent: Option<int>, depth: int) returns (result: seq<Tree>)
      ensures result == View(nodes, view, parent, depth)
      decreases if depth > 1 then depth else 1, 2
    {
      var ids := ListNodesByParent(view, parent);
      forall j | 0 <= j < |ids|
        ensures ids[j] in nodes
      {
        assert ids[j] in ids;
      }
      result := RespondAll(view, ids, depth);
    }

    method RespondAll(view: int, ids: seq<int>, depth: int) returns (result: seq<Tree>)
      requires forall j :: 0 <= j < |ids| ==> ids[j] in nodes
      ensures result == ViewOf(nodes, view, ids, depth)
      decreases if depth > 1 then depth else 1, 1
    {
      ghost var t := nodes;
      result := [];
      var i := 0;
      assert ids[i..] == ids;
      while i < |ids|
        invariant 0 <= i <= |ids|
        invariant ViewOf(t, view, ids, depth) == result + ViewOf(t, view, ids[i..], depth)
      {
        var shown := Respond(view, ids[i], depth);
        result := result + shown;
        i := i + 1;
      }
      assert ids[i..] == [];
    }

    /** What one row adds to its level: nothing when hidden, else itself with its children if there is depth left. */
    method Respond(view: int, id: int, depth: int) returns (shown: seq<Tree>)
      requires id in nodes
      ensures shown == if !nodes[id].visible then [] else
                         [Tree(id, nodes[id], if depth > 1 then View(nodes, view, Some(id), depth - 1) else [])]
      decreases if depth > 1 then depth else 1, 0
    {
      if !nodes[id].visible {
        return [];
      }
      var children := [];
      if depth > 1 {
        children := BuildTree(view, Some(id), depth - 1);
      }
      shown := [Tree(id, nodes[id], children)];
    }
  }

  lemma {:induction false} SameParentsSameChains(t: Table, t': Table, x: int, k: nat)
    requires t'.Keys == t.Keys && forall y :: y in t ==> t'[y].parent == t[y].parent
    ensures Up(t', x, k) == Up(t, x, k)
    decreases k
  {
    if k > 0 {
      SameParentsSameChains(t, t', x, k - 1);
    }
  }

  lemma SameParentsSameForest(t: Table, t': Table)
    requires t'.Keys == t.Keys && forall y :: y in t ==> t'[y].parent == t[y].parent
    requires Acyclic(t) && Closed(t)
    ensures Acyclic(t') && Closed(t')
  {
    forall x
      ensures !OnCycle(t', x)
    {
      if k: nat :| k >= 1 && Up(t', x, k) == Some(x) {
        SameParentsSameChains(t, t', x, k);
        assert OnCycle(t, x);
      }
    }
  }

  /** The chain decides the answer: an error excludes success. */
  lemma OneAnswer(t: Table, id: int, p: int, r: Option<MoveError>)
    requires r.Some? && Checked(t, id, p, r)
    ensures !Checked(t, id, p, None)
  {
    if Clear(t, p, id, MAX_TREE_DEPTH) {
      ClearIsOutside(t, p, id, MAX_TREE_DEPTH);
      match r.value {
        case CircularRef =>
        case TooDeep =>
        case NodeNotFound(y) =>
          var d: nat :| Up(t, p, d).Some? && Up(t, p, d).value in t && Up(t, p, d + 1) == None;
          var e: nat :| Up(t, p, e) == Some(y) && y !in t;
          RootIsLast(t, p, d, e);
      }
    }
  }

  /** Past a root there is nothing, so what lies `e` links up is a row as long as the chain ends at a row. */
  lemma RootIsLast(t: Table, p: int, d: nat, e: nat)
    requires Up(t, p, d).Some? && Up(t, p, d).value in t && Up(t, p, d + 1) == None && Up(t, p, e).Some?
    ensures Up(t, p, e).value in t
  {
    if e < d {
      UpDefined(t, p, e + 1, d);
    } else if d < e {
      UpDefined(t, p, d + 1, e);
    }
  }
}
