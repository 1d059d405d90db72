/** The scheduler as the kernel drives it: next, run the process, exec_report. */
module SchedulerRun {
  import opened Machine
  import opened SchedShares
  import opened ReadyQueue
  import opened QueueTotals
  import opened Scheduler

  /** What a step inside a pass keeps. */
  twostate predicate SameGraph(s: HlSched)
    reads s, s.nodes
  {
    s.nodes == old(s.nodes) && s.root == old(s.root) && s.Edges() == old(s.Edges())
  }

  /** exec_report for a graceful end, and the next entry of the pass. */
  method Continue(s: HlSched) returns (c: Command)
    requires s.Valid() && s.waiting && s.iter.Some?
    modifies s, s.nodes
    ensures s.Valid() && SameGraph(s) && s.queue == old(s.queue) && s.graphUpToDate == old(s.graphUpToDate)
    ensures Shares(s.queue) == old(Shares(s.queue)) && s.weightsUpToDate == old(s.weightsUpToDate)
    ensures s.Issued1(Result.Ok(c), old(s.iter.value), old(s.cycleCounter))
  {
    hide Sum, WeighedAtStart, PassOk, HlSched.GraphOk, HlSched.QueueOk, HlSched.Edges, HlSched.Settled;
    hide HlSched.Upcoming;
    s.CurrentIsKnown();
    var _ := s.ExecReport(true);
    var r := s.Next();
    return r.value;
  }

  /** One whole pass in which every process ends gracefully.  It hands out the shares of the queue, all of them. */
  method RunPass(s: HlSched) returns (total: nat)
    requires s.Valid() && !s.waiting && s.iter == None && s.Upcoming() != []
    requires WeighedAtStart(s.UpcomingWeighing(), s.cyclesPerUpdate, !s.graphUpToDate).outcome == Done
    modifies s, s.nodes
    ensures s.Valid() && !s.waiting && s.iter == None && s.graphUpToDate && SameGraph(s) && s.queue == old(s.Upcoming())
    ensures var w := WeighedAtStart(old(s.UpcomingWeighing()), s.cyclesPerUpdate, !old(s.graphUpToDate));
            && Shares(s.queue) == w.shares && s.weightsUpToDate == w.upToDate
            && s.cycleCounter == (w.cycleCounter + 1) % 0x1_0000
            && total == Sum(Times(w.shares))
  {
    hide Sum, WeighedAtStart, PassOk, HlSched.GraphOk, HlSched.QueueOk, HlSched.Edges, HlSched.Settled;
    hide HlSched.Upcoming;
    ghost var w := WeighedAtStart(s.UpcomingWeighing(), s.cyclesPerUpdate, !s.graphUpToDate);
    var r := s.Next();
    var c := r.value;
    total := c.howLong;
    ghost var k := 1;
    SumStep(Times(w.shares), 0);
    SumNone(Times(w.shares));
    while !c.spinAfter
      invariant s.Valid() && SameGraph(s) && s.queue == old(s.Upcoming()) && s.graphUpToDate
      invariant Shares(s.queue) == w.shares && s.weightsUpToDate == w.upToDate
      invariant 0 < k <= |s.queue| && s.Issued1(Result.Ok(c), k - 1, w.cycleCounter)
      invariant total == Sum(Times(w.shares)[..k])
      decreases |s.queue| - k
    {
      c := Continue(s);
      SumStep(Times(w.shares), k);
      assert c.howLong == Times(w.shares)[k] by { assert Shares(s.queue)[k].howLong == s.queue[k].howLong; }
      total := total + c.howLong;
      k := k + 1;
    }
    SumAll(Times(w.shares));
    s.CurrentIsKnown();
    var _ := s.ExecReport(true);
  }

  lemma SumNone(s: seq<nat>)
    ensures Sum(s[..0]) == 0
  {
    assert s[..0] == [];
  }

  // ---------- a run with an edit of the edges ----------

  /** A process as add_process makes it, which leaves how_long as it was, and after an update that gives it a
      fourth of the cycle. */
  function Added(howLong: nat): Share {
    Share(100000, howLong, 0, false, true)
  }

  function Quarter(): Share {
    Share(100000, CYCLE / 4, 0, false, false)
  }

  /** Four such processes get a fourth each. */
  lemma FourQuarters(h1: nat, h2: nat, h3: nat, h4: nat)
    ensures var w := WeighedAtStart(Weighing.Weighing([Added(h1), Added(h2), Added(h3), Added(h4)], 0, false, Done),
            100, true);
            w == Weighing.Weighing([Quarter(), Quarter(), Quarter(), Quarter()], 0, true, Done)
  {
    var four := [Added(h1), Added(h2), Added(h3), Added(h4)];
    var r := Rooted(four, 0);
    RootUnique(0, 0);
    assert FreeBalances(r) == [0, 0, 0, 0];
    SumOfFour(0);
    assert Reweighted(four, 0) == r;
    assert Weights(r) == [100000, 100000, 100000, 100000];
    SumOfFour(100000);
    var t := Quarter();
    assert Timed(r, 400000) == [t, t, t, t];
    assert Times([t, t, t, t]) == [CYCLE / 4, CYCLE / 4, CYCLE / 4, CYCLE / 4];
    SumOfFour(CYCLE / 4);
    assert Filled([t, t, t, t]) == [t, t, t, t];
    assert Updated(four, 0) == [t, t, t, t];
  }

  lemma SumOfFour(x: nat)
    ensures Sum([x, x, x, x]) == 4 * x && Sum([x, x, x]) == 3 * x
  {
    SumAppended([], x);
    SumAppended([x], x);
    SumAppended([x, x], x);
    SumAppended([x, x, x], x);
    assert [] + [x] == [x] && [x] + [x] == [x, x] && [x, x] + [x] == [x, x, x] && [x, x, x] + [x] == [x, x, x, x];
  }

  lemma SumAppended(s: seq<nat>, x: nat)
    ensures Sum(s + [x]) == Sum(s) + x
  {
    assert (s + [x])[..|s|] == s;
  }

  /** Four processes without edges share out one cycle.  Then an edge from 2 to 3 is added: the rebuild loses
      process 4, and the next pass hands out three quarters of a cycle. */
  method EdgeEditRun() returns (first: nat, second: nat)
    ensures first == CYCLE && second == CYCLE / 4 * 3
  {
    hide Sum, WeighedAtStart, PassOk, EdgesOk, TreeOk, HlSched.Settled, HlSched.GraphOk, HlSched.QueueOk;
    hide HlSched.Upcoming, Shares, Times, Quarter, FourTree, TreePids, InTree, HlSched.Edges, HlSched.UpcomingWeighing;
    hide DistinctPids;
    var s, n1, n2, n3, n4 := FourProcesses();
    FourComing(s, n1, n2, n3, n4);
    first := RunPass(s);
    QuarterSums();
    ThirdAlone(n1, n2, n3, n4);
    ForwardOf(s, n2);
    s.AddEdge(n2, n3, Fork(3, n3, Leaf, Leaf));
    ThreeComing(s, n1, n2, n3, n4);
    second := RunPass(s);
  }

  lemma ForwardOf(s: HlSched, n: GraphNode)
    requires n in s.nodes
    ensures n in s.Edges() && s.Edges()[n] == n.forward
  {}

  lemma QuarterSums()
    ensures Sum(Times([Quarter(), Quarter(), Quarter(), Quarter()])) == CYCLE
    ensures Sum(Times([Quarter(), Quarter(), Quarter()])) == CYCLE / 4 * 3
  {
    assert Times([Quarter(), Quarter(), Quarter(), Quarter()]) == [CYCLE / 4, CYCLE / 4, CYCLE / 4, CYCLE / 4];
    assert Times([Quarter(), Quarter(), Quarter()]) == [CYCLE / 4, CYCLE / 4, CYCLE / 4];
    SumOfFour(CYCLE / 4);
  }

  /** The new edges of process 2. */
  lemma ThirdAlone(n1: GraphNode, n2: GraphNode, n3: GraphNode, n4: GraphNode)
    requires n3.pid == 3
    ensures var t := Fork(3, n3, Leaf, Leaf);
            TreeOk(t, {n1, n2, n3, n4}) && InTree(t, n3) && TreePids(t) == TreePids(Leaf) + {3}
  {}

  ghost predicate IsNew(n: GraphNode)
    reads n
  {
    n.Share() == Added(n.howLong) && n.forward == Leaf
  }

  /** The scheduler holds the four processes under the given edges of process 2. */
  ghost predicate Holds(s: HlSched, n1: GraphNode, n2: GraphNode, n3: GraphNode, n4: GraphNode, second: PidTree)
    reads s, s.nodes
  {
    && n1.pid == 1 && n2.pid == 2 && n3.pid == 3 && n4.pid == 4 && s.nodes == {n1, n2, n3, n4}
    && !s.waiting && s.iter == None && !s.graphUpToDate && s.cyclesPerUpdate == 100
    && s.root == FourTree(n1, n2, n3, n4) && s.Edges() == map[n1 := Leaf, n2 := second, n3 := Leaf, n4 := Leaf]
  }

  /** What the first pass starts with. */
  lemma FourComing(s: HlSched, n1: GraphNode, n2: GraphNode, n3: GraphNode, n4: GraphNode)
    requires s.Valid() && Holds(s, n1, n2, n3, n4, Leaf) && !s.weightsUpToDate && s.cycleCounter == 0
    requires IsNew(n1) && IsNew(n2) && IsNew(n3) && IsNew(n4)
    ensures s.Upcoming() == [n4, n3, n1, n2]
    ensures WeighedAtStart(s.UpcomingWeighing(), 100, true) ==
            Weighing.Weighing([Quarter(), Quarter(), Quarter(), Quarter()], 0, true, Done)
  {
    hide WeighedAtStart, ReadyQueue.Dfs, EdgesOk, TreeOk;
    FourQueued(n1, n2, n3, n4);
    FourQuarters(n4.howLong, n3.howLong, n1.howLong, n2.howLong);
    assert Shares([n4, n3, n1, n2]) == [Added(n4.howLong), Added(n3.howLong), Added(n1.howLong), Added(n2.howLong)];
  }

  /** What the second pass starts with. */
  lemma ThreeComing(s: HlSched, n1: GraphNode, n2: GraphNode, n3: GraphNode, n4: GraphNode)
    requires s.Valid() && Holds(s, n1, n2, n3, n4, Fork(3, n3, Leaf, Leaf)) && s.weightsUpToDate
    requires s.queue == [n4, n3, n1, n2] && Shares(s.queue) == [Quarter(), Quarter(), Quarter(), Quarter()]
    ensures s.Upcoming() == [n1, n2, n3]
    ensures WeighedAtStart(s.UpcomingWeighing(), 100, true) ==
            Weighing.Weighing([Quarter(), Quarter(), Quarter()], 0, true, Done)
  {
    hide ReadyQueue.Dfs, EdgesOk, TreeOk;
    ProcessLost(n1, n2, n3, n4);
    var q := Shares(s.queue);
    assert q[0] == n4.Share() && q[1] == n3.Share() && q[2] == n1.Share() && q[3] == n2.Share();
    assert Shares([n1, n2, n3]) == [Quarter(), Quarter(), Quarter()];
  }

  /** No pass was started yet. */
  ghost predicate Idle(s: HlSched)
    reads s
  {
    && !s.waiting && s.iter == None && !s.graphUpToDate && !s.weightsUpToDate
    && s.cycleCounter == 0 && s.cyclesPerUpdate == 100
  }

  method TwoProcesses() returns (s: HlSched, n1: GraphNode, n2: GraphNode)
    ensures fresh(s) && fresh(s.nodes) && s.Valid() && Idle(s)
    ensures n1.pid == 1 && n2.pid == 2 && IsNew(n1) && IsNew(n2) && s.nodes == {n1, n2}
    ensures s.root == Fork(1, n1, Leaf, Fork(2, n2, Leaf, Leaf)) && s.Edges() == map[n1 := Leaf, n2 := Leaf]
  {
    hide HlSched.Settled, TreeOk, TreePids, InTree, HlSched.Edges, IsNew, HlSched.Valid, Shares;
    s := new HlSched(100);
    n1 := NewNode(1);
    n2 := NewNode(2);
    TwoGrow(n1, n2);
    assert s.nodes + {n1} == {n1};
    s.AddProcess(n1, Fork(1, n1, Leaf, Leaf));
    assert s.nodes + {n2} == {n1, n2};
    s.AddProcess(n2, Fork(1, n1, Leaf, Fork(2, n2, Leaf, Leaf)));
  }

  /** A scheduler with four new processes and no edges, their pids in a red-black tree. */
  method FourProcesses() returns (s: HlSched, n1: GraphNode, n2: GraphNode, n3: GraphNode, n4: GraphNode)
    ensures fresh(s) && fresh(s.nodes) && s.Valid() && Holds(s, n1, n2, n3, n4, Leaf)
    ensures !s.weightsUpToDate && s.cycleCounter == 0 && IsNew(n1) && IsNew(n2) && IsNew(n3) && IsNew(n4)
  {
    hide HlSched.Settled, TreeOk, TreePids, InTree, HlSched.Edges, IsNew, HlSched.Valid, FourTree, Shares;
    s, n1, n2 := TwoProcesses();
    n3 := NewNode(3);
    n4 := NewNode(4);
    TreesGrow(n1, n2, n3, n4);
    assert s.nodes + {n3} == {n1, n2, n3};
    s.AddProcess(n3, Fork(2, n2, Fork(1, n1, Leaf, Leaf), Fork(3, n3, Leaf, Leaf)));
    assert s.nodes + {n4} == {n1, n2, n3, n4};
    s.AddProcess(n4, FourTree(n1, n2, n3, n4));
  }

  method NewNode(pid: nat) returns (n: GraphNode)
    ensures fresh(n) && n.pid == pid && IsNew(n) && n.balance < 0x100 && n.forward == Leaf
  {
    n := new GraphNode(pid, 100000, false);
  }

  lemma TwoGrow(n1: GraphNode, n2: GraphNode)
    requires n1.pid == 1 && n2.pid == 2
    ensures var t1 := Fork(1, n1, Leaf, Leaf);
            var t2 := Fork(1, n1, Leaf, Fork(2, n2, Leaf, Leaf));
            && TreePids(Leaf) == {} && TreePids(t1) == {1} && TreePids(t2) == {1, 2} && InTree(t1, n1) && InTree(t2, n2)
            && TreeOk(t1, {n1}) && TreeOk(t2, {n1, n2})
  {
    assert InTree(Fork(2, n2, Leaf, Leaf), n2);
  }

  lemma OnePid(p: nat, n: GraphNode)
    ensures TreePids(Fork(p, n, Leaf, Leaf)) == {p}
  {
    assert TreePids(Leaf) == {};
  }

  lemma TreesGrow(n1: GraphNode, n2: GraphNode, n3: GraphNode, n4: GraphNode)
    requires n1.pid == 1 && n2.pid == 2 && n3.pid == 3 && n4.pid == 4
    ensures var t1 := Fork(1, n1, Leaf, Leaf);
            var t2 := Fork(1, n1, Leaf, Fork(2, n2, Leaf, Leaf));
            var t3 := Fork(2, n2, t1, Fork(3, n3, Leaf, Leaf));
            var t4 := FourTree(n1, n2, n3, n4);
            && TreePids(t2) == {1, 2} && TreePids(t3) == {1, 2, 3} && TreePids(t4) == {1, 2, 3, 4}
            && InTree(t3, n3) && InTree(t4, n4)
            && TreeOk(t3, {n1, n2, n3}) && TreeOk(t4, {n1, n2, n3, n4})
  {
    var f1, f2 := Fork(1, n1, Leaf, Leaf), Fork(2, n2, Leaf, Leaf);
    var f3, f4 := Fork(3, n3, Leaf, Leaf), Fork(4, n4, Leaf, Leaf);
    OnePid(1, n1);
    OnePid(2, n2);
    OnePid(3, n3);
    OnePid(4, n4);
    assert TreePids(Fork(3, n3, Leaf, f4)) == {3, 4} && InTree(Fork(3, n3, Leaf, f4), n4);
    assert InTree(f3, n3);
  }
}
