/** The graph of processes and the ready queue that the depth-first search builds from it. */
module ReadyQueue {
  import opened Machine
  import opened SchedShares

  const PIDS: nat := 0x1_0000

  class GraphNode {
    const pid: nat
    var weight: nat
    var howLong: nat
    var balance: nat
    var weightFixed: bool
    var newProcess: bool
    var forward: PidTree

    constructor (pid: nat, weight: nat, weightFixed: bool)
      ensures this.pid == pid && this.weight == weight && this.weightFixed == weightFixed
      ensures balance == 0 && newProcess && forward == Leaf
    {
      this.pid, this.weight, this.weightFixed := pid, weight, weightFixed;
      howLong, balance, newProcess, forward := 0, 0, true, Leaf;
    }

    function Share(): Share
      reads this
    {
      SchedShares.Share.Share(weight, howLong, balance, weightFixed, newProcess)
    }
  }

  /** The red-black trees that the depth-first search walks: pid to node. */
  datatype PidTree = Leaf | Fork(pid: nat, node: GraphNode, left: PidTree, right: PidTree)

  function Shares(q: seq<GraphNode>): seq<Share>
    reads q
  {
    seq(|q|, i requires 0 <= i < |q| reads q => q[i].Share())
  }

  ghost predicate Objects(q: seq<GraphNode>) {
    forall i, j :: 0 <= i < j < |q| ==> q[i] != q[j]
  }

  ghost predicate DistinctPids(q: seq<GraphNode>) {
    forall i, j :: 0 <= i < j < |q| ==> q[i].pid != q[j].pid
  }

  function Pids(q: seq<GraphNode>): set<nat> {
    set n | n in q :: n.pid
  }

  /** Every node of the tree is known, and stands under its own 16-bit pid. */
  ghost predicate TreeOk(t: PidTree, nodes: set<GraphNode>) {
    t.Fork? ==>
      t.pid < PIDS && t.node in nodes && t.node.pid == t.pid && TreeOk(t.left, nodes) && TreeOk(t.right, nodes)
  }

  lemma {:induction false} TreeOkGrows(t: PidTree, a: set<GraphNode>, b: set<GraphNode>)
    requires TreeOk(t, a) && a <= b
    ensures TreeOk(t, b)
  {
    if t.Fork? {
      TreeOkGrows(t.left, a, b);
      TreeOkGrows(t.right, a, b);
    }
  }

  lemma LeafOk(nodes: set<GraphNode>)
    ensures TreeOk(Leaf, nodes)
  {}

  predicate IsPid(p: nat) {
    p < PIDS
  }

  /** All 16-bit pids. */
  function AllPids(): set<nat> {
    set p: nat | p < PIDS && IsPid(p)
  }

  lemma {:induction false} RangeSize(s: set<nat>, n: nat)
    requires forall p :: p in s ==> p < n
    ensures |s| <= n
    decreases n
  {
    if n == 0 {
      assert s == {};
    } else {
      RangeSize(s - {n - 1}, n - 1);
    }
  }

  lemma {:induction false} PidsSize(q: seq<GraphNode>)
    requires DistinctPids(q)
    ensures |Pids(q)| == |q|
  {
    if q != [] {
      var k := |q| - 1;
      PidsSize(q[..k]);
      assert forall n :: n in q <==> n in q[..k] || n == q[k];
      assert Pids(q) == Pids(q[..k]) + {q[k].pid};
    }
  }

  /** A queue of distinct 16-bit pids is no longer than there are pids. */
  lemma QueueSize(q: seq<GraphNode>)
    requires DistinctPids(q) && Pids(q) <= AllPids()
    ensures |q| <= PIDS
  {
    PidsSize(q);
    RangeSize(Pids(q), PIDS);
  }

  // ---------- the search ----------

  /** How far the search is: the visited pids and the queue built so far, without the recursion stack. */
  datatype Search = Search(visited: set<nat>, queue: seq<GraphNode>)

  /** Every edge leads to a known node. */
  ghost predicate EdgesOk(edges: map<GraphNode, PidTree>) {
    forall n :: n in edges ==> TreeOk(edges[n], edges.Keys)
  }

  /** A new node without edges. */
  lemma EdgesGrow(edges: map<GraphNode, PidTree>, n: GraphNode)
    requires EdgesOk(edges) && n !in edges
    ensures EdgesOk(edges[n := Leaf])
  {
    hide TreeOk;
    var grown := edges[n := Leaf];
    LeafOk(grown.Keys);
    assert grown.Keys == edges.Keys + {n};
    forall m | m in edges ensures TreeOk(grown[m], grown.Keys) {
      TreeOkGrows(edges[m], edges.Keys, grown.Keys);
    }
  }

  function Visit(s: Search, pid: nat): Search {
    s.(visited := s.visited + {pid})
  }

  function Front(s: Search, n: GraphNode): Search {
    s.(queue := [n] + s.queue)
  }

  /** dfs over the tree of pids. */
  ghost function Dfs(edges: map<GraphNode, PidTree>, t: PidTree, s: Search): (r: Search)
    requires EdgesOk(edges) && TreeOk(t, edges.Keys)
    ensures s.visited <= r.visited && forall n :: n in r.queue ==> n in s.queue || n in edges
    decreases AllPids() - s.visited, t, 1
  {
    if t.Leaf? || t.pid in s.visited then s
    else
      var s1 := DfsOverForwardEdges(edges, edges[t.node], Visit(s, t.pid));
      var s2 := Dfs(edges, t.left, Front(s1, t.node));
      Dfs(edges, t.right, s2)
  }

  /** dfs_over_forward_edges: the node is visited before dfs is called on it, which then returns at once. */
  ghost function DfsOverForwardEdges(edges: map<GraphNode, PidTree>, t: PidTree, s: Search): (r: Search)
    requires EdgesOk(edges) && TreeOk(t, edges.Keys)
    ensures s.visited <= r.visited && forall n :: n in r.queue ==> n in s.queue || n in edges
    decreases AllPids() - s.visited, t, 0
  {
    if t.Leaf? || t.pid in s.visited then s
    else
      var s1 := Dfs(edges, t, Visit(s, t.pid));
      var s2 := DfsOverForwardEdges(edges, t.left, Front(s1, t.node));
      DfsOverForwardEdges(edges, t.right, s2)
  }

  /** The two calls, unfolded once. */
  lemma DfsStep(edges: map<GraphNode, PidTree>, t: PidTree, s: Search)
    requires EdgesOk(edges) && TreeOk(t, edges.Keys) && t.Fork? && t.pid !in s.visited
    ensures t.pid in AllPids() && t.node in edges && t.node.pid == t.pid && TreeOk(edges[t.node], edges.Keys)
    ensures TreeOk(t.left, edges.Keys) && TreeOk(t.right, edges.Keys)
    ensures var s1 := DfsOverForwardEdges(edges, edges[t.node], Visit(s, t.pid));
            Dfs(edges, t, s) == Dfs(edges, t.right, Dfs(edges, t.left, Front(s1, t.node)))
    ensures var s1 := Dfs(edges, t, Visit(s, t.pid));
            DfsOverForwardEdges(edges, t, s) ==
            DfsOverForwardEdges(edges, t.right, DfsOverForwardEdges(edges, t.left, Front(s1, t.node)))
  {}

  lemma DfsStops(edges: map<GraphNode, PidTree>, t: PidTree, s: Search)
    requires EdgesOk(edges) && TreeOk(t, edges.Keys) && (t.Leaf? || t.pid in s.visited)
    ensures Dfs(edges, t, s) == s && DfsOverForwardEdges(edges, t, s) == s
  {}

  ghost function Rebuilt(edges: map<GraphNode, PidTree>, root: PidTree): (q: seq<GraphNode>)
    requires EdgesOk(edges) && TreeOk(root, edges.Keys)
    ensures forall n :: n in q ==> n in edges
  {
    Dfs(edges, root, Search({}, [])).queue
  }

  /** The search queues only what it visits anew, each pid once. */
  ghost predicate QueuesOnce(s: Search, r: Search) {
    && DistinctPids(r.queue) && Pids(r.queue) <= r.visited
    && forall p :: p in Pids(r.queue) ==> p in Pids(s.queue) || p !in s.visited
  }

  lemma {:induction false} QueuedOnce(edges: map<GraphNode, PidTree>, t: PidTree, s: Search, along: bool)
    requires EdgesOk(edges) && TreeOk(t, edges.Keys) && DistinctPids(s.queue) && Pids(s.queue) <= s.visited
    ensures QueuesOnce(s, if along then DfsOverForwardEdges(edges, t, s) else Dfs(edges, t, s))
    decreases AllPids() - s.visited, t, if along then 0 else 1
  {
    if t.Fork? && t.pid !in s.visited {
      hide DistinctPids, Pids;
      var s0 := Visit(s, t.pid);
      if along {
        var s1 := Dfs(edges, t, s0);
        QueuedOnce(edges, t, s0, false);
        FrontOnce(s, s1, t.node);
        var f := Front(s1, t.node);
        QueuedOnce(edges, t.left, f, true);
        QueuedOnce(edges, t.right, DfsOverForwardEdges(edges, t.left, f), true);
      } else {
        var s1 := DfsOverForwardEdges(edges, edges[t.node], s0);
        QueuedOnce(edges, edges[t.node], s0, true);
        FrontOnce(s, s1, t.node);
        var f := Front(s1, t.node);
        QueuedOnce(edges, t.left, f, false);
        QueuedOnce(edges, t.right, Dfs(edges, t.left, f), false);
      }
    }
  }

  lemma FrontOnce(s: Search, s1: Search, n: GraphNode)
    requires QueuesOnce(Visit(s, n.pid), s1) && Pids(s.queue) <= s.visited && n.pid !in s.visited && n.pid in s1.visited
    ensures QueuesOnce(s, Front(s1, n))
  {
    FrontPids(s1, n);
    forall j | 0 <= j < |s1.queue| ensures s1.queue[j].pid != n.pid {
      assert s1.queue[j] in s1.queue;
      assert s1.queue[j].pid in Pids(s1.queue);
    }
  }

  lemma RebuiltOnce(edges: map<GraphNode, PidTree>, root: PidTree)
    requires EdgesOk(edges) && TreeOk(root, edges.Keys)
    ensures DistinctPids(Rebuilt(edges, root))
  {
    QueuedOnce(edges, root, Search({}, []), false);
  }

  // ---------- which processes are queued ----------

  function TreePids(t: PidTree): set<nat> {
    if t.Leaf? then {} else {t.pid} + TreePids(t.left) + TreePids(t.right)
  }

  /** Each pid stands in the tree once. */
  ghost predicate Once(t: PidTree) {
    t.Fork? ==>
      && t.pid !in TreePids(t.left) && t.pid !in TreePids(t.right) && TreePids(t.left) !! TreePids(t.right)
      && Once(t.left) && Once(t.right)
  }

  /** The pid of a node that has a child in the tree. */
  ghost predicate HasChild(t: PidTree, v: nat) {
    t.Fork? && ((t.pid == v && !(t.left.Leaf? && t.right.Leaf?)) || HasChild(t.left, v) || HasChild(t.right, v))
  }

  ghost predicate InTree(t: PidTree, n: GraphNode) {
    t.Fork? && (t.node == n || InTree(t.left, n) || InTree(t.right, n))
  }

  /** Pid v comes after pid u when the tree is walked node first, then left, then right. */
  ghost predicate Later(t: PidTree, u: nat, v: nat) {
    t.Fork? && (
      || (t.pid == u && v in TreePids(t.left) + TreePids(t.right))
      || (u in TreePids(t.left) && v in TreePids(t.right))
      || Later(t.left, u, v) || Later(t.right, u, v))
  }

  /** The pids in the order of that walk. */
  function Preorder(t: PidTree): (q: seq<nat>)
    ensures forall p :: p in q <==> p in TreePids(t)
  {
    if t.Leaf? then [] else [t.pid] + Preorder(t.left) + Preorder(t.right)
  }

  /** `Later` is what it says. */
  lemma {:induction false} LaterIsPreorder(t: PidTree, u: nat, v: nat)
    ensures Later(t, u, v) <==> Ordered(Preorder(t), u, v)
  {
    if t.Fork? {
      LaterIsPreorder(t.left, u, v);
      LaterIsPreorder(t.right, u, v);
      var l, r := Preorder(t.left), Preorder(t.right);
      OrderedConcat([t.pid], l + r, u, v);
      OrderedConcat(l, r, u, v);
      assert [t.pid] + (l + r) == [t.pid] + l + r;
    }
  }

  ghost predicate Ordered(q: seq<nat>, u: nat, v: nat) {
    exists i, j :: 0 <= i < j < |q| && q[i] == u && q[j] == v
  }

  lemma OrderedConcat(a: seq<nat>, b: seq<nat>, u: nat, v: nat)
    ensures Ordered(a + b, u, v) <==> Ordered(a, u, v) || Ordered(b, u, v) || (u in a && v in b)
  {
    var q := a + b;
    if Ordered(a, u, v) {
      var i, j :| 0 <= i < j < |a| && a[i] == u && a[j] == v;
      assert q[i] == u && q[j] == v;
    }
    if Ordered(b, u, v) {
      var i, j :| 0 <= i < j < |b| && b[i] == u && b[j] == v;
      assert q[|a| + i] == u && q[|a| + j] == v;
    }
    if u in a && v in b {
      var i, j :| 0 <= i < |a| && 0 <= j < |b| && a[i] == u && b[j] == v;
      assert q[i] == u && q[|a| + j] == v;
    }
    if Ordered(q, u, v) {
      var i, j :| 0 <= i < j < |q| && q[i] == u && q[j] == v;
      if j < |a| {
        assert a[i] == u && a[j] == v;
      } else if i >= |a| {
        assert b[i - |a|] == u && b[j - |a|] == v;
      } else {
        assert a[i] == u && b[j - |a|] == v;
      }
    }
  }

  /** Every edge that leads to a later process leads to one without children. */
  ghost predicate CutsNothing(edges: map<GraphNode, PidTree>, t: PidTree) {
    forall n, v :: n in edges && InTree(t, n) && v in TreePids(edges[n]) && Later(t, n.pid, v) ==> !HasChild(t, v)
  }

  /** What the edges of the nodes of the tree lead to. */
  function Targets(edges: map<GraphNode, PidTree>, t: PidTree): set<nat>
    requires TreeOk(t, edges.Keys)
  {
    if t.Leaf? then {} else TreePids(edges[t.node]) + Targets(edges, t.left) + Targets(edges, t.right)
  }

  /** The search along edges visits nothing but their targets. */
  lemma {:induction false} EdgesVisit(edges: map<GraphNode, PidTree>, t: PidTree, s: Search)
    requires EdgesOk(edges) && TreeOk(t, edges.Keys)
    ensures DfsOverForwardEdges(edges, t, s).visited <= s.visited + TreePids(t)
    decreases t
  {
    if t.Fork? && t.pid !in s.visited {
      var s1 := Dfs(edges, t, Visit(s, t.pid));
      var s2 := DfsOverForwardEdges(edges, t.left, Front(s1, t.node));
      EdgesVisit(edges, t.left, Front(s1, t.node));
      EdgesVisit(edges, t.right, s2);
    }
  }

  lemma {:induction false} TargetOfNode(edges: map<GraphNode, PidTree>, t: PidTree, v: nat) returns (n: GraphNode)
    requires TreeOk(t, edges.Keys) && v in Targets(edges, t)
    ensures InTree(t, n) && n in edges && v in TreePids(edges[n]) && n.pid in TreePids(t)
  {
    if v in TreePids(edges[t.node]) {
      n := t.node;
    } else if v in Targets(edges, t.left) {
      n := TargetOfNode(edges, t.left, v);
    } else {
      n := TargetOfNode(edges, t.right, v);
    }
  }

  lemma {:induction false} ChildlessOutside(t: PidTree, v: nat)
    requires HasChild(t, v)
    ensures v in TreePids(t)
  {
    if HasChild(t.left, v) {
      ChildlessOutside(t.left, v);
    } else if HasChild(t.right, v) {
      ChildlessOutside(t.right, v);
    }
  }

  lemma {:induction false} TreeVisited(edges: map<GraphNode, PidTree>, t: PidTree, s: Search)
    requires EdgesOk(edges) && TreeOk(t, edges.Keys) && Once(t) && CutsNothing(edges, t)
    requires forall v :: v in s.visited ==> !HasChild(t, v)
    ensures TreePids(t) <= Dfs(edges, t, s).visited <= s.visited + TreePids(t) + Targets(edges, t)
    decreases t
  {
    if t.Fork? {
      if t.pid in s.visited {
        assert t.left.Leaf? && t.right.Leaf?;
      } else {
        var s0 := Visit(s, t.pid);
        var s1 := DfsOverForwardEdges(edges, edges[t.node], s0);
        EdgesVisit(edges, edges[t.node], s0);
        CutsNothingBelow(edges, t, s, s1);
        TreeVisited(edges, t.left, Front(s1, t.node));
        RightUncut(edges, t, s1, Dfs(edges, t.left, Front(s1, t.node)));
        TreeVisited(edges, t.right, Dfs(edges, t.left, Front(s1, t.node)));
      }
    }
  }

  /** What the two halves of a tree say about it. */
  lemma Halves(t: PidTree, u: nat, v: nat, n: GraphNode)
    requires t.Fork?
    ensures HasChild(t.left, v) || HasChild(t.right, v) ==> HasChild(t, v)
    ensures InTree(t, t.node) && (InTree(t.left, n) || InTree(t.right, n) ==> InTree(t, n))
    ensures Later(t.left, u, v) || Later(t.right, u, v) ==> Later(t, u, v)
    ensures v in TreePids(t.left) || v in TreePids(t.right) ==> Later(t, t.pid, v)
    ensures u in TreePids(t.left) && v in TreePids(t.right) ==> Later(t, u, v)
  {}

  lemma Parts(edges: map<GraphNode, PidTree>, t: PidTree)
    requires TreeOk(t, edges.Keys) && Once(t) && t.Fork?
    ensures t.node in edges && t.node.pid == t.pid && TreeOk(t.left, edges.Keys) && TreeOk(t.right, edges.Keys)
    ensures t.pid !in TreePids(t.left) && t.pid !in TreePids(t.right) && TreePids(t.left) !! TreePids(t.right)
    ensures Once(t.left) && Once(t.right)
    ensures TreePids(t) == {t.pid} + TreePids(t.left) + TreePids(t.right)
    ensures Targets(edges, t) == TreePids(edges[t.node]) + Targets(edges, t.left) + Targets(edges, t.right)
  {}

  /** The edges of the node on top cut nothing below it. */
  lemma CutsNothingBelow(edges: map<GraphNode, PidTree>, t: PidTree, s: Search, s1: Search)
    requires TreeOk(t, edges.Keys) && Once(t) && CutsNothing(edges, t) && t.Fork? && t.node in edges
    requires forall v :: v in s.visited ==> !HasChild(t, v)
    requires s1.visited <= Visit(s, t.pid).visited + TreePids(edges[t.node])
    ensures CutsNothing(edges, t.left) && CutsNothing(edges, t.right)
    ensures forall v :: v in s1.visited ==> !HasChild(t.left, v) && !HasChild(t.right, v)
  {
    hide TreeOk, Once, HasChild, InTree, Later, TreePids;
    Parts(edges, t);
    forall v | v in s1.visited ensures !HasChild(t.left, v) && !HasChild(t.right, v) {
      Halves(t, t.pid, v, t.node);
      if HasChild(t.left, v) { ChildlessOutside(t.left, v); }
      if HasChild(t.right, v) { ChildlessOutside(t.right, v); }
    }
    forall n, v | n in edges && InTree(t.left, n) && v in TreePids(edges[n]) && Later(t.left, n.pid, v)
      ensures !HasChild(t.left, v)
    {
      Halves(t, n.pid, v, n);
    }
    forall n, v | n in edges && InTree(t.right, n) && v in TreePids(edges[n]) && Later(t.right, n.pid, v)
      ensures !HasChild(t.right, v)
    {
      Halves(t, n.pid, v, n);
    }
  }

  /** Nor do the edges of the left half cut anything in the right one. */
  lemma RightUncut(edges: map<GraphNode, PidTree>, t: PidTree, s1: Search, s2: Search)
    requires TreeOk(t, edges.Keys) && Once(t) && CutsNothing(edges, t) && t.Fork? && TreeOk(t.left, edges.Keys)
    requires forall v :: v in s1.visited ==> !HasChild(t.right, v)
    requires s2.visited <= s1.visited + TreePids(t.left) + Targets(edges, t.left)
    ensures forall v :: v in s2.visited ==> !HasChild(t.right, v)
  {
    hide TreeOk, Once, HasChild, InTree, Later, TreePids, Targets;
    Parts(edges, t);
    forall v | v in s2.visited ensures !HasChild(t.right, v) {
      if HasChild(t.right, v) {
        ChildlessOutside(t.right, v);
        if v in Targets(edges, t.left) {
          var n := TargetOfNode(edges, t.left, v);
          Halves(t, n.pid, v, n);
        }
      }
    }
  }

  /** Every visited pid is queued. */
  ghost predicate QueuesMore(s: Search, r: Search) {
    forall p :: p in r.visited && p !in Pids(r.queue) ==> p in s.visited && p !in Pids(s.queue)
  }

  lemma {:induction false} VisitedQueued(edges: map<GraphNode, PidTree>, t: PidTree, s: Search, along: bool)
    requires EdgesOk(edges) && TreeOk(t, edges.Keys)
    ensures QueuesMore(s, if along then DfsOverForwardEdges(edges, t, s) else Dfs(edges, t, s))
    decreases AllPids() - s.visited, t, if along then 0 else 1
  {
    if t.Fork? && t.pid !in s.visited {
      var s0 := Visit(s, t.pid);
      if along {
        var s1 := Dfs(edges, t, s0);
        VisitedQueued(edges, t, s0, false);
        FrontQueues(s, s1, t.node);
        VisitedQueued(edges, t.left, Front(s1, t.node), true);
        VisitedQueued(edges, t.right, DfsOverForwardEdges(edges, t.left, Front(s1, t.node)), true);
      } else {
        var s1 := DfsOverForwardEdges(edges, edges[t.node], s0);
        VisitedQueued(edges, edges[t.node], s0, true);
        FrontQueues(s, s1, t.node);
        VisitedQueued(edges, t.left, Front(s1, t.node), false);
        VisitedQueued(edges, t.right, Dfs(edges, t.left, Front(s1, t.node)), false);
      }
    }
  }

  lemma FrontQueues(s: Search, s1: Search, n: GraphNode)
    requires QueuesMore(Visit(s, n.pid), s1)
    ensures QueuesMore(s, Front(s1, n))
  {
    FrontPids(s1, n);
  }

  lemma FrontPids(s: Search, n: GraphNode)
    ensures Pids(Front(s, n).queue) == Pids(s.queue) + {n.pid}
  {
    assert forall m :: m in [n] + s.queue <==> m == n || m in s.queue;
  }

  /** A rebuild queues every process if every edge that leads to a later process leads to one without children. */
  lemma AllQueued(edges: map<GraphNode, PidTree>, root: PidTree)
    requires EdgesOk(edges) && TreeOk(root, edges.Keys) && Once(root) && CutsNothing(edges, root)
    ensures TreePids(root) <= Pids(Rebuilt(edges, root))
  {
    hide TreeOk, Once, CutsNothing, TreePids, Dfs, HasChild;
    var start := Search({}, []);
    TreeVisited(edges, root, start);
    VisitedQueued(edges, root, start, false);
    forall p | p in TreePids(root) ensures p in Pids(Rebuilt(edges, root)) {
      assert p in Dfs(edges, root, start).visited;
    }
  }

  // ---------- one edge ----------

  /** The only edge leads from nu to nv. */
  ghost predicate OneEdge(edges: map<GraphNode, PidTree>, nu: GraphNode, nv: GraphNode) {
    nu in edges && forall n :: n in edges ==> edges[n] == if n == nu then Fork(nv.pid, nv, Leaf, Leaf) else Leaf
  }

  /** The pids below v in the tree. */
  function Below(t: PidTree, v: nat): set<nat> {
    if t.Leaf? then {}
    else if t.pid == v then TreePids(t.left) + TreePids(t.right)
    else Below(t.left, v) + Below(t.right, v)
  }

  lemma {:induction false} BelowIn(t: PidTree, v: nat)
    requires Once(t)
    ensures Below(t, v) <= TreePids(t) - {v}
    ensures v !in TreePids(t) ==> Below(t, v) == {}
    ensures HasChild(t, v) ==> Below(t, v) != {}
  {
    if t.Fork? {
      BelowIn(t.left, v);
      BelowIn(t.right, v);
      if t.left.Fork? { assert t.left.pid in TreePids(t.left); }
      if t.right.Fork? { assert t.right.pid in TreePids(t.right); }
    }
  }

  /** The search visits nothing but the tree and what its edges lead to. */
  lemma {:induction false} DfsVisits(edges: map<GraphNode, PidTree>, t: PidTree, s: Search)
    requires EdgesOk(edges) && TreeOk(t, edges.Keys)
    ensures Dfs(edges, t, s).visited <= s.visited + TreePids(t) + Targets(edges, t)
    decreases t
  {
    if t.Fork? && t.pid !in s.visited {
      var s1 := DfsOverForwardEdges(edges, edges[t.node], Visit(s, t.pid));
      EdgesVisit(edges, edges[t.node], Visit(s, t.pid));
      DfsVisits(edges, t.left, Front(s1, t.node));
      DfsVisits(edges, t.right, Dfs(edges, t.left, Front(s1, t.node)));
    }
  }

  lemma {:induction false} OnlyTarget(edges: map<GraphNode, PidTree>, t: PidTree, nu: GraphNode, nv: GraphNode)
    requires TreeOk(t, edges.Keys) && OneEdge(edges, nu, nv)
    ensures Targets(edges, t) <= if InTree(t, nu) then {nv.pid} else {}
    ensures InTree(t, nu) ==> nu.pid in TreePids(t)
  {
    if t.Fork? {
      OnlyTarget(edges, t.left, nu, nv);
      OnlyTarget(edges, t.right, nu, nv);
      TargetOf(edges, t.node, nu, nv);
    }
  }

  lemma TargetOf(edges: map<GraphNode, PidTree>, n: GraphNode, nu: GraphNode, nv: GraphNode)
    requires OneEdge(edges, nu, nv) && n in edges
    ensures TreePids(edges[n]) == if n == nu then {nv.pid} else {}
  {
    assert TreePids(Leaf) == {};
  }

  /** What the search of one node does before it goes on to the halves. */
  lemma EdgeWalk(edges: map<GraphNode, PidTree>, t: PidTree, s: Search, nu: GraphNode,
      nv: GraphNode) returns (f: Search)
    requires EdgesOk(edges) && TreeOk(t, edges.Keys) && OneEdge(edges, nu, nv) && t.Fork? && t.pid !in s.visited
    ensures TreeOk(t.left, edges.Keys) && TreeOk(t.right, edges.Keys)
    ensures f.visited == s.visited + {t.pid} + (if t.node == nu then {nv.pid} else {})
    ensures Dfs(edges, t, s) == Dfs(edges, t.right, Dfs(edges, t.left, f))
  {
    DfsStep(edges, t, s);
    var s0 := Visit(s, t.pid);
    f := Front(DfsOverForwardEdges(edges, edges[t.node], s0), t.node);
    if t.node == nu && nv.pid !in s0.visited {
      DfsStops(edges, Leaf, s0);
      DfsStep(edges, edges[nu], s0);
      DfsStops(edges, edges[nu], Visit(s0, nv.pid));
    } else {
      DfsStops(edges, edges[t.node], s0);
    }
  }

  /** Once v is visited, nothing below it is. */
  lemma {:induction false} StopsAt(edges: map<GraphNode, PidTree>, t: PidTree, s: Search, nu: GraphNode, nv: GraphNode)
    requires EdgesOk(edges) && TreeOk(t, edges.Keys) && Once(t) && OneEdge(edges, nu, nv) && nv.pid in s.visited
    ensures Dfs(edges, t, s).visited <= s.visited + (TreePids(t) - Below(t, nv.pid))
    decreases t
  {
    if t.Fork? && t.pid !in s.visited {
      hide Dfs, DfsOverForwardEdges, TreeOk, EdgesOk, OneEdge;
      Parts(edges, t);
      var f := EdgeWalk(edges, t, s, nu, nv);
      BelowIn(t.left, nv.pid);
      BelowIn(t.right, nv.pid);
      StopsAt(edges, t.left, f, nu, nv);
      StopsAt(edges, t.right, Dfs(edges, t.left, f), nu, nv);
    }
  }

  /** When the tree holds the start of the edge, its end is visited. */
  lemma {:induction false} EndVisited(edges: map<GraphNode, PidTree>, t: PidTree, s: Search, nu: GraphNode,
      nv: GraphNode)
    requires EdgesOk(edges) && TreeOk(t, edges.Keys) && Once(t) && OneEdge(edges, nu, nv)
    requires InTree(t, nu) && nv.pid !in TreePids(t) && s.visited !! TreePids(t)
    ensures nv.pid in Dfs(edges, t, s).visited
    decreases t
  {
    hide Dfs, DfsOverForwardEdges, TreeOk, EdgesOk, OneEdge;
    Parts(edges, t);
    var f := EdgeWalk(edges, t, s, nu, nv);
    if t.node != nu {
      if InTree(t.left, nu) {
        EndVisited(edges, t.left, f, nu, nv);
      } else {
        DfsVisits(edges, t.left, f);
        OnlyTarget(edges, t.left, nu, nv);
        EndVisited(edges, t.right, Dfs(edges, t.left, f), nu, nv);
      }
    }
  }

  /** An edge to a later process keeps the search from everything below it. */
  lemma {:induction false} CutsBelow(edges: map<GraphNode, PidTree>, t: PidTree, s: Search, nu: GraphNode,
      nv: GraphNode)
    requires EdgesOk(edges) && TreeOk(t, edges.Keys) && Once(t) && OneEdge(edges, nu, nv)
    requires InTree(t, nu) && Later(t, nu.pid, nv.pid) && s.visited !! TreePids(t)
    ensures Dfs(edges, t, s).visited !! Below(t, nv.pid)
    decreases t
  {
    hide Dfs, DfsOverForwardEdges, TreeOk, EdgesOk, OneEdge, Below, Later, InTree, Once;
    EdgeEnds(edges, t, nu, nv);
    Parts(edges, t);
    var f := EdgeWalk(edges, t, s, nu, nv);
    var s2 := Dfs(edges, t.left, f);
    OnlyTarget(edges, t.left, nu, nv);
    if t.node == nu {
      StopsAt(edges, t.left, f, nu, nv);
      StopsAt(edges, t.right, s2, nu, nv);
    } else if InTree(t.left, nu) {
      DfsVisits(edges, t.left, f);
      if nv.pid in TreePids(t.left) {
        OnlyTarget(edges, t.right, nu, nv);
        CutsBelow(edges, t.left, f, nu, nv);
        DfsVisits(edges, t.right, s2);
      } else {
        EndVisited(edges, t.left, f, nu, nv);
        StopsAt(edges, t.right, s2, nu, nv);
      }
    } else {
      DfsVisits(edges, t.left, f);
      CutsBelow(edges, t.right, s2, nu, nv);
    }
  }

  lemma {:induction false} LaterIn(t: PidTree, u: nat, v: nat)
    requires Later(t, u, v)
    ensures u in TreePids(t) && v in TreePids(t)
  {
    if Later(t.left, u, v) { LaterIn(t.left, u, v); }
    if Later(t.right, u, v) { LaterIn(t.right, u, v); }
  }

  /** Where the two ends of the edge stand, and what is below the second. */
  lemma EdgeEnds(edges: map<GraphNode, PidTree>, t: PidTree, nu: GraphNode, nv: GraphNode)
    requires TreeOk(t, edges.Keys) && Once(t) && OneEdge(edges, nu, nv) && InTree(t, nu) && Later(t, nu.pid, nv.pid)
    ensures t.Fork? && t.pid != nv.pid && Below(t, nv.pid) == Below(t.left, nv.pid) + Below(t.right, nv.pid)
    ensures Below(t.left, nv.pid) <= TreePids(t.left) - {nv.pid}
            && Below(t.right, nv.pid) <= TreePids(t.right) - {nv.pid}
    ensures nv.pid !in TreePids(t.left) ==> Below(t.left, nv.pid) == {}
    ensures nv.pid !in TreePids(t.right) ==> Below(t.right, nv.pid) == {}
    ensures t.node != nu ==> InTree(t.left, nu) || InTree(t.right, nu)
    ensures t.node != nu && InTree(t.left, nu) ==> (nv.pid in TreePids(t.left) ==> Later(t.left, nu.pid, nv.pid))
    ensures t.node != nu && !InTree(t.left, nu) ==>
              nv.pid in TreePids(t.right) && nv.pid !in TreePids(t.left) && Later(t.right, nu.pid, nv.pid)
  {
    Parts(edges, t);
    OnlyTarget(edges, t.left, nu, nv);
    OnlyTarget(edges, t.right, nu, nv);
    BelowIn(t.left, nv.pid);
    BelowIn(t.right, nv.pid);
    if Later(t.left, nu.pid, nv.pid) { LaterIn(t.left, nu.pid, nv.pid); }
    if Later(t.right, nu.pid, nv.pid) { LaterIn(t.right, nu.pid, nv.pid); }
  }

  /** For a graph with a single edge: every process is queued if and only if the edge does not lead to a later
      process that has a child in the tree of pids. */
  lemma OneEdgeIff(edges: map<GraphNode, PidTree>, root: PidTree, nu: GraphNode, nv: GraphNode)
    requires EdgesOk(edges) && TreeOk(root, edges.Keys) && Once(root) && OneEdge(edges, nu, nv) && InTree(root, nu)
    ensures TreePids(root) <= Pids(Rebuilt(edges, root)) <==> !(Later(root, nu.pid, nv.pid) && HasChild(root, nv.pid))
  {
    hide TreeOk, Once, TreePids, Dfs, HasChild, EdgesOk, Later, Below;
    var start := Search({}, []);
    if Later(root, nu.pid, nv.pid) && HasChild(root, nv.pid) {
      CutsBelow(edges, root, start, nu, nv);
      BelowIn(root, nv.pid);
      var p :| p in Below(root, nv.pid);
      QueuedOnce(edges, root, start, false);
      assert p in TreePids(root) && p !in Pids(Rebuilt(edges, root));
    } else {
      forall n, v | n in edges && InTree(root, n) && v in TreePids(edges[n]) && Later(root, n.pid, v)
        ensures !HasChild(root, v)
      {
        OneTarget(n, nu, nv, edges, v);
      }
      AllQueued(edges, root);
    }
  }

  lemma OneTarget(n: GraphNode, nu: GraphNode, nv: GraphNode, edges: map<GraphNode, PidTree>, v: nat)
    requires OneEdge(edges, nu, nv) && n in edges && v in TreePids(edges[n])
    ensures n == nu && v == nv.pid
  {}

  /** Four processes in a red-black tree, 4 below 3. */
  function FourTree(n1: GraphNode, n2: GraphNode, n3: GraphNode, n4: GraphNode): PidTree {
    Fork(2, n2, Fork(1, n1, Leaf, Leaf), Fork(3, n3, Leaf, Fork(4, n4, Leaf, Leaf)))
  }

  lemma FourQueued(n1: GraphNode, n2: GraphNode, n3: GraphNode, n4: GraphNode)
    requires n1.pid == 1 && n2.pid == 2 && n3.pid == 3 && n4.pid == 4
    ensures var alone := map[n1 := Leaf, n2 := Leaf, n3 := Leaf, n4 := Leaf];
            var root := FourTree(n1, n2, n3, n4);
            EdgesOk(alone) && TreeOk(root, alone.Keys) && Rebuilt(alone, root) == [n4, n3, n1, n2]
  {
    var root := FourTree(n1, n2, n3, n4);
    var alone := map[n1 := Leaf, n2 := Leaf, n3 := Leaf, n4 := Leaf];
    var s := Search({}, []);
    var s2 := Front(Visit(s, 2), n2);
    Alone(alone, root.left, s2);
    var s1 := Search(s2.visited + {1}, [n1] + s2.queue);
    var s3 := Front(Visit(s1, 3), n3);
    Alone(alone, root.right.right, s3);
    assert Dfs(alone, root.right, s1).queue == [n4] + s3.queue;
    assert Dfs(alone, root, s).queue == [n4] + s3.queue;
  }

  /** The graph the kernel starts with, edges from 0 to 1 and from 1 to 2: nothing is cut. */
  lemma StartQueued(n0: GraphNode, n1: GraphNode, n2: GraphNode)
    requires n0.pid == 0 && n1.pid == 1 && n2.pid == 2
    ensures var edges := map[n0 := Fork(1, n1, Leaf, Leaf), n1 := Fork(2, n2, Leaf, Leaf), n2 := Leaf];
            var root := Fork(1, n1, Fork(0, n0, Leaf, Leaf), Fork(2, n2, Leaf, Leaf));
            && EdgesOk(edges) && TreeOk(root, edges.Keys) && Once(root) && CutsNothing(edges, root)
            && Rebuilt(edges, root) == [n0, n1, n2]
  {
    var edges := map[n0 := Fork(1, n1, Leaf, Leaf), n1 := Fork(2, n2, Leaf, Leaf), n2 := Leaf];
    var root := Fork(1, n1, Fork(0, n0, Leaf, Leaf), Fork(2, n2, Leaf, Leaf));
    var s := Search({}, []);
    var s2 := Front(Visit(Visit(s, 1), 2), n2);
    assert DfsOverForwardEdges(edges, edges[n1], Visit(s, 1)) == s2;
    var s1 := Front(s2, n1);
    DfsStep(edges, root.left, s1);
    DfsStops(edges, edges[n0], Visit(s1, 0));
    assert Dfs(edges, root.left, s1) == Front(Visit(s1, 0), n0);
    assert Dfs(edges, root, s).queue == [n0] + s1.queue;
    NoEdgeCuts(edges, n0, n1, n2, root);
  }

  lemma NoEdgeCuts(edges: map<GraphNode, PidTree>, n0: GraphNode, n1: GraphNode, n2: GraphNode, root: PidTree)
    requires n0.pid == 0 && n1.pid == 1 && n2.pid == 2
    requires edges == map[n0 := Fork(1, n1, Leaf, Leaf), n1 := Fork(2, n2, Leaf, Leaf), n2 := Leaf]
    requires root == Fork(1, n1, Fork(0, n0, Leaf, Leaf), Fork(2, n2, Leaf, Leaf))
    ensures CutsNothing(edges, root)
  {
    forall n, v | n in edges && InTree(root, n) && v in TreePids(edges[n]) && Later(root, n.pid, v)
      ensures !HasChild(root, v)
    {
      OnePid(0, n0);
      OnePid(1, n1);
      OnePid(2, n2);
      assert !HasChild(root.left, v) && !HasChild(root.right, v);
      assert !Later(root, 0, 1);
      assert v == if n == n0 then 1 else 2;
    }
  }

  lemma OnePid(p: nat, n: GraphNode)
    ensures var t := Fork(p, n, Leaf, Leaf);
            TreePids(t) == {p} && (forall u, v :: !Later(t, u, v)) && forall v :: !HasChild(t, v)
  {
    assert TreePids(Leaf) == {};
  }

  /** Without edges the four processes are all queued (FourQueued); an edge from 2 to 3, which is later and has a
      child, makes the search stop at 3, and 4 is lost. */
  lemma ProcessLost(n1: GraphNode, n2: GraphNode, n3: GraphNode, n4: GraphNode)
    requires n1.pid == 1 && n2.pid == 2 && n3.pid == 3 && n4.pid == 4
    ensures var linked := map[n1 := Leaf, n2 := Fork(3, n3, Leaf, Leaf), n3 := Leaf, n4 := Leaf];
            var root := FourTree(n1, n2, n3, n4);
            EdgesOk(linked) && TreeOk(root, linked.Keys) && Rebuilt(linked, root) == [n1, n2, n3]
  {
    var root := FourTree(n1, n2, n3, n4);
    var linked := map[n1 := Leaf, n2 := Fork(3, n3, Leaf, Leaf), n3 := Leaf, n4 := Leaf];
    var s := Search({}, []);
    var q3 := Front(Visit(Visit(s, 2), 3), n3);
    assert DfsOverForwardEdges(linked, linked[n2], Visit(s, 2)) == q3;
    Alone(linked, root.left, Front(q3, n2));
    assert Dfs(linked, root, s).queue == [n1] + Front(q3, n2).queue;
  }

  /** A process without edges and children is queued, if it was not visited. */
  lemma Alone(edges: map<GraphNode, PidTree>, t: PidTree, s: Search)
    requires EdgesOk(edges) && TreeOk(t, edges.Keys) && t.Fork? && t.left == Leaf && t.right == Leaf
    requires edges[t.node] == Leaf && t.pid !in s.visited
    ensures Dfs(edges, t, s) == Search(s.visited + {t.pid}, [t.node] + s.queue)
  {}
}
