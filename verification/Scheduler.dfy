/** The scheduler: rebuilding the ready queue, updating the weights, and the next / exec_report cycle. */
module Scheduler {
  import opened Machine
  import opened SchedShares
  import opened ReadyQueue
  import opened QueueTotals

  // ---------- isqrt ----------

  /** isqrt is the exact floor square root of a byte. */
  method Isqrt(x: nat) returns (res: nat)
    requires x < 0x100
    ensures res == Root(x) && res <= 15
  {
    hide Root, Digits;
    var op: nat, one: nat := x, 1024;
    res := 0;
    ghost var p: nat, root: nat := 32, 0;
    DigitsStart(x);
    while one > op
      invariant Digits(x, op, res, one, p, root) && root == 0 && op == x
      decreases one
    {
      DigitTooHigh(x, one, p);
      one, p := one / 4, p / 2;
    }
    while one != 0
      invariant Digits(x, op, res, one, p, root)
      decreases one
    {
      DigitStep(x, op, res, one, p, root);
      if op >= res + one {
        op := op - (res + one);
        res := res + one * 2;
        root := root + p;
      }
      res := res / 2;
      one := one / 4;
      p := p / 2;
    }
    DigitsDone(x, op, res, p, root);
    RootUnique(x, res);
    RootOfByte(x);
  }

  lemma DigitsStart(x: nat)
    requires x < 0x100
    ensures Digits(x, x, 0, 1024, 32, 0)
  {}

  lemma DigitsDone(x: nat, op: nat, res: nat, p: nat, root: nat)
    requires Digits(x, op, res, 0, p, root)
    ensures res * res <= x < (res + 1) * (res + 1)
  {}

  /** The first loop skips digits that are too high. */
  lemma DigitTooHigh(x: nat, one: nat, p: nat)
    requires Digits(x, x, 0, one, p, 0) && one > x
    ensures Digits(x, x, 0, one / 4, p / 2, 0)
  {
    DigitStep(x, x, 0, one, p, 0);
  }

  /** The root found so far is `root`, a multiple of 2p; the digit to decide next is p. */
  ghost predicate Digits(x: nat, op: nat, res: nat, one: nat, p: nat, root: nat) {
    && p in {32, 16, 8, 4, 2, 1, 0} && one == p * p
    && root * root + op == x
    && (p > 0 ==> res == 2 * p * root && x < (root + 2 * p) * (root + 2 * p))
    && (p == 0 ==> res == root && x < (root + 1) * (root + 1))
  }

  lemma DigitStep(x: nat, op: nat, res: nat, one: nat, p: nat, root: nat)
    requires Digits(x, op, res, one, p, root) && one != 0
    ensures op >= res + one ==> Digits(x, op - (res + one), (res + one * 2) / 2, one / 4, p / 2, root + p)
    ensures op < res + one ==> Digits(x, op, res / 2, one / 4, p / 2, root)
  {
    Square(root, p);
    if p == 32 { DigitHalf(x, root, 32); }
    else if p == 16 { DigitHalf(x, root, 16); }
    else if p == 8 { DigitHalf(x, root, 8); }
    else if p == 4 { DigitHalf(x, root, 4); }
    else if p == 2 { DigitHalf(x, root, 2); }
  }

  lemma DigitHalf(x: nat, root: nat, p: nat)
    requires p in {32, 16, 8, 4, 2}
    ensures root + 2 * (p / 2) == root + p && root + p + 2 * (p / 2) == root + 2 * p
    ensures 2 * p * root / 2 == 2 * (p / 2) * root && (2 * p * root + p * p * 2) / 2 == 2 * (p / 2) * (root + p)
  {}

  lemma Square(root: nat, p: nat)
    ensures (root + p) * (root + p) == root * root + 2 * p * root + p * p
  {}

  // ---------- the scheduler ----------

  /** The first k entries are as in `done`, the others as in `before`. */
  ghost predicate Partly(q: seq<Share>, done: seq<Share>, before: seq<Share>, k: nat) {
    && |q| == |done| == |before|
    && forall i :: 0 <= i < |q| ==> q[i] == if i < k then done[i] else before[i]
  }

  lemma PartlyAll(q: seq<Share>, done: seq<Share>, before: seq<Share>)
    requires Partly(q, done, before, |q|)
    ensures q == done
  {}

  /** Writes to one node of the queue. */
  method SetBalance(q: seq<GraphNode>, k: nat, balance: nat, newProcess: bool)
    requires Objects(q) && k < |q|
    modifies q[k]
    ensures q[k].forward == old(q[k].forward)
    ensures Shares(q) == old(Shares(q))[k := old(Shares(q))[k].(balance := balance, newProcess := newProcess)]
  {
    q[k].balance, q[k].newProcess := balance, newProcess;
  }

  method SetWeight(q: seq<GraphNode>, k: nat, weight: nat)
    requires Objects(q) && k < |q|
    modifies q[k]
    ensures q[k].forward == old(q[k].forward)
    ensures Shares(q) == old(Shares(q))[k := old(Shares(q))[k].(weight := weight)]
  {
    q[k].weight := weight;
  }

  method SetHowLong(q: seq<GraphNode>, k: nat, howLong: nat)
    requires Objects(q) && k < |q|
    modifies q[k]
    ensures q[k].forward == old(q[k].forward)
    ensures Shares(q) == old(Shares(q))[k := old(Shares(q))[k].(howLong := howLong)]
  {
    q[k].howLong := howLong;
  }

  twostate predicate SameEdges(q: seq<GraphNode>)
    reads q
  {
    forall i :: 0 <= i < |q| ==> q[i].forward == old(q[i].forward)
  }

  lemma W64Small(a: nat)
    requires a < U64
    ensures W64(a) == a
  {}

  lemma W64Add(a: nat, b: nat)
    ensures W64(W64(a) + b) == W64(a + b)
  {}

  /** First pass. */
  method TakeRoots(q: seq<GraphNode>, cycleCounter: nat) returns (roots: nat, free: nat)
    requires Objects(q) && forall i :: 0 <= i < |q| ==> q[i].balance < 0x100
    modifies q
    ensures SameEdges(q) && Shares(q) == Rooted(old(Shares(q)), cycleCounter)
    ensures roots == W64(Sum(FreeBalances(Shares(q)))) && free == W64(Sum(FreeWeights(old(Shares(q)))))
  {
    hide Sum, Root, W64;
    ghost var s := Shares(q);
    ghost var r := Rooted(s, cycleCounter);
    roots, free := 0, 0;
    W64Small(0);
    SumNil(FreeBalances(r));
    SumNil(FreeWeights(s));
    for k := 0 to |q|
      invariant SameEdges(q) && Partly(Shares(q), r, s, k)
      invariant roots == W64(Sum(FreeBalances(r)[..k])) && free == W64(Sum(FreeWeights(s)[..k]))
    {
      SumStep(FreeBalances(r), k);
      SumStep(FreeWeights(s), k);
      assert Shares(q)[k] == s[k];
      if !q[k].weightFixed {
        var b := if q[k].newProcess then cycleCounter / 2 % 0x100 else q[k].balance;
        var root := Isqrt(b);
        SetBalance(q, k, root, false);
        W64Add(Sum(FreeBalances(r)[..k]), root);
        W64Add(Sum(FreeWeights(s)[..k]), q[k].weight);
        roots := W64(roots + root);
        free := W64(free + q[k].weight);
      }
    }
    SumAll(FreeBalances(r));
    SumAll(FreeWeights(s));
    PartlyAll(Shares(q), r, s);
  }

  lemma SumNil(s: seq<nat>)
    ensures Sum(s[..0]) == 0
  {}

  /** The loop of the second pass; `at` is the last node with a non-fixed weight, -1 if there is none. */
  method FloorAll(q: seq<GraphNode>, total: nat, roots: nat) returns (given: nat, at: int)
    requires Objects(q) && roots > 0
    modifies q
    ensures SameEdges(q) && Shares(q) == Floored(old(Shares(q)), total, roots)
    ensures given == W64(Sum(FreeWeights(Shares(q))))
    ensures -1 <= at < |q| && (at >= 0 ==> !Shares(q)[at].weightFixed)
    ensures forall i :: at < i < |q| ==> Shares(q)[i].weightFixed
  {
    hide Sum, W64;
    ghost var s := Shares(q);
    ghost var f := Floored(s, total, roots);
    SumNil(FreeWeights(f));
    ModZero();
    given, at := 0, -1;
    for k := 0 to |q|
      invariant SameEdges(q) && Partly(Shares(q), f, s, k)
      invariant given == W64(Sum(FreeWeights(f)[..k]))
      invariant -1 <= at < k && (at >= 0 ==> !f[at].weightFixed)
      invariant forall i :: at < i < k ==> f[i].weightFixed
    {
      SumStep(FreeWeights(f), k);
      assert Shares(q)[k] == s[k];
      if !q[k].weightFixed {
        SetWeight(q, k, W64(total * q[k].balance) / roots);
        W64Add(Sum(FreeWeights(f)[..k]), q[k].weight);
        given := W64(given + q[k].weight);
        at := k;
      }
    }
    SumAll(FreeWeights(f));
    PartlyAll(Shares(q), f, s);
  }

  /** Second pass, where the roots of the balances do not add up to zero.  Its exception is never thrown. */
  method Distribute(q: seq<GraphNode>, total: nat, roots: nat)
    requires Objects(q) && 0 < roots == W64(Sum(FreeBalances(Shares(q))))
    modifies q
    ensures SameEdges(q) && Shares(q) == Distributed(old(Shares(q)), total, roots)
  {
    hide Sum, W64, Floored, Topped, FreeWeights, FreeBalances;
    ghost var s := Shares(q);
    var given, at := FloorAll(q, total, roots);
    ghost var f := Shares(q);
    if given < total {
      FreeThere(s, f, total, roots);
      if at == -1 {
        assert false;
      } else {
        ToppedAt(f, at, total - given);
        SetWeight(q, at, W64(q[at].weight + (total - given)));
      }
    }
  }

  lemma ModZero()
    ensures W64(0) == 0
  {}

  lemma FreeThere(s: seq<Share>, f: seq<Share>, total: nat, roots: nat)
    requires 0 < roots == W64(Sum(FreeBalances(s))) && f == Floored(s, total, roots)
    ensures HasFree(f)
  {
    PositiveHasFree(s);
    var i :| 0 <= i < |s| && !s[i].weightFixed;
    assert !f[i].weightFixed;
  }

  /** Third pass. */
  method ResetBalances(q: seq<GraphNode>) returns (total: nat)
    requires Objects(q)
    modifies q
    ensures SameEdges(q) && Shares(q) == Zeroed(old(Shares(q))) && total == W64(Sum(Weights(Shares(q))))
  {
    hide Sum, W64;
    ghost var s := Shares(q);
    ghost var z := Zeroed(s);
    SumNil(Weights(z));
    ModZero();
    total := 0;
    for k := 0 to |q|
      invariant SameEdges(q) && Partly(Shares(q), z, s, k) && total == W64(Sum(Weights(z)[..k]))
    {
      SumStep(Weights(z), k);
      assert Shares(q)[k] == s[k];
      W64Add(Sum(Weights(z)[..k]), q[k].weight);
      total := W64(total + q[k].weight);
      SetBalance(q, k, 0, q[k].newProcess);
    }
    SumAll(Weights(z));
    PartlyAll(Shares(q), z, s);
  }

  /** Fourth pass, and the adjustment of the last entry. */
  method GiveTime(q: seq<GraphNode>, total: nat)
    requires Objects(q) && q != [] && total > 0
    modifies q
    ensures SameEdges(q) && Shares(q) == Filled(Timed(old(Shares(q)), total))
    ensures total == Sum(Weights(old(Shares(q)))) < CYCLE ==> SharedOut(Shares(q))
  {
    hide Sum, W64, SharedOut;
    if total == Sum(Weights(Shares(q))) < CYCLE { TimedPortions(Shares(q), total); }
    ghost var s := Shares(q);
    ghost var t := Timed(s, total);
    SumNil(Times(t));
    ModZero();
    var time: nat := 0;
    for k := 0 to |q|
      invariant SameEdges(q) && Partly(Shares(q), t, s, k) && time == W64(Sum(Times(t)[..k]))
    {
      SumStep(Times(t), k);
      assert Shares(q)[k] == s[k];
      SetHowLong(q, k, W64(q[k].weight * CYCLE) / total);
      W64Add(Sum(Times(t)[..k]), q[k].howLong);
      time := W64(time + q[k].howLong);
    }
    SumAll(Times(t));
    PartlyAll(Shares(q), t, s);
    if time != CYCLE {
      SetHowLong(q, |q| - 1, W64(q[|q| - 1].howLong + CYCLE - time));
    } else {
      SmallTime(t, |q| - 1, total);
    }
  }

  /** A share is a 64-bit word already. */
  lemma SmallTime(t: seq<Share>, k: nat, total: nat)
    requires k < |t| && total > 0 && t[k].howLong == W64(t[k].weight * CYCLE) / total
    ensures W64(t[k].howLong + CYCLE - CYCLE) == t[k].howLong
  {
    QuotientSmall(W64(t[k].weight * CYCLE), total);
  }

  lemma AtLeastSelf(a: nat, t: nat)
    requires t > 0
    ensures a <= a * t
  {}

  lemma QuotientSmall(x: nat, t: nat)
    requires t > 0
    ensures x / t <= x
  {
    FloorAtMost(x, t);
    AtLeastSelf(x / t, t);
  }

  /** The four passes; the last one is not reached when the total weight is zero. */
  method RunPasses(q: seq<GraphNode>, cycleCounter: nat) returns (total: nat)
    requires Objects(q) && q != [] && forall i :: 0 <= i < |q| ==> q[i].balance < 0x100
    modifies q
    ensures total == W64(Sum(Weights(Reweighted(old(Shares(q)), cycleCounter))))
    ensures SameEdges(q) && Shares(q) == Updated(old(Shares(q)), cycleCounter)
    ensures forall i :: 0 <= i < |q| ==> q[i].balance == 0
  {
    hide Sum, W64, Rooted, Zeroed, Timed, Filled, Distributed;
    ghost var s := Shares(q);
    var roots, free := TakeRoots(q, cycleCounter);
    if roots != 0 {
      Distribute(q, free, roots);
    }
    total := ResetBalances(q);
    ghost var z := Shares(q);
    assert z == Reweighted(s, cycleCounter);
    ReweightedLength(s, cycleCounter);
    if total != 0 {
      GiveTime(q, total);
      TimedKeeps(z, total);
    }
    forall i | 0 <= i < |q| ensures q[i].balance == 0 {
      assert Shares(q)[i].balance == 0;
    }
  }

  // ---------- next and exec_report ----------

  datatype Command = Command(toExec: GraphNode, howLong: nat, spinAfter: bool)

  datatype Failure = WaitingForReport | NotWaiting | QueueIsEmpty | DividedByZero

  datatype Result<+T> = Ok(value: T) | Err(error: Failure)

  class HlSched {
    var root: PidTree
    var queue: seq<GraphNode>
    var iter: Option<nat>
    var currentNode: GraphNode?
    var cycleCounter: nat
    const cyclesPerUpdate: nat
    var graphUpToDate: bool
    var weightsUpToDate: bool
    var waiting: bool
    var visited: set<nat>
    var inStack: set<nat>
    ghost var nodes: set<GraphNode>
    /** The commands issued in the current pass over the queue. */
    ghost var pass: seq<Command>

    /** The edges of every process. */
    ghost function Edges(): (edges: map<GraphNode, PidTree>)
      reads `nodes, nodes
      ensures edges.Keys == nodes
    {
      map n | n in nodes :: n.forward
    }

    ghost predicate GraphOk()
      reads this, nodes
    {
      TreeOk(root, Edges().Keys) && EdgesOk(Edges()) && forall n :: n in nodes ==> n.balance < 0x100
    }

    // ---------- the depth-first search ----------

    /** The search so far: what is visited is either queued, once, or still on the stack. */
    ghost predicate Searching()
      reads this
    {
      && visited == Pids(queue) + inStack && Pids(queue) !! inStack && visited <= AllPids()
      && DistinctPids(queue) && (forall n :: n in queue ==> n in nodes)
    }

    lemma PushFront(n: GraphNode)
      requires Searching() && n in nodes && n.pid in inStack
      ensures DistinctPids([n] + queue) && Pids([n] + queue) == Pids(queue) + {n.pid}
      ensures forall m :: m in [n] + queue ==> m in nodes
    {
      assert forall m :: m in [n] + queue <==> m == n || m in queue;
      forall j | 0 <= j < |queue| ensures queue[j].pid != n.pid { assert queue[j] in queue; }
    }

    /** dfs: the exception for a cycle is never thrown, on any graph. */
    method Dfs(t: PidTree)
      requires GraphOk() && Searching() && TreeOk(t, Edges().Keys)
      modifies `visited, `inStack, `queue
      ensures GraphOk() && Searching() && inStack == old(inStack)
      ensures Search(visited, queue) == ReadyQueue.Dfs(Edges(), t, Search(old(visited), old(queue)))
      decreases AllPids() - visited, t, 1
    {
      hide TreeOk, EdgesOk, DistinctPids, ReadyQueue.Dfs, ReadyQueue.DfsOverForwardEdges, Pids;
      ghost var s := Search(visited, queue);
      if t.Leaf? || t.pid in visited { DfsStops(Edges(), t, s); }
      if t.Leaf? { return; }
      if t.pid in visited { return; }
      DfsStep(Edges(), t, s);
      visited := visited + {t.pid};
      if t.pid in inStack {
        assert false;
      }
      inStack := inStack + {t.pid};
      DfsOverForwardEdges(t.node.forward);
      PushFront(t.node);
      queue := [t.node] + queue;
      inStack := inStack - {t.pid};
      Dfs(t.left);
      Dfs(t.right);
    }

    method DfsOverForwardEdges(t: PidTree)
      requires GraphOk() && Searching() && TreeOk(t, Edges().Keys)
      modifies `visited, `inStack, `queue
      ensures GraphOk() && Searching() && inStack == old(inStack)
      ensures Search(visited, queue) == ReadyQueue.DfsOverForwardEdges(Edges(), t, Search(old(visited), old(queue)))
      decreases AllPids() - visited, t, 0
    {
      hide TreeOk, EdgesOk, DistinctPids, ReadyQueue.Dfs, ReadyQueue.DfsOverForwardEdges, Pids;
      ghost var s := Search(visited, queue);
      if t.Leaf? || t.pid in visited { DfsStops(Edges(), t, s); }
      if t.Leaf? { return; }
      if t.pid in visited { return; }
      DfsStep(Edges(), t, s);
      visited := visited + {t.pid};
      if t.pid in inStack {
        assert false;
      }
      inStack := inStack + {t.pid};
      Dfs(t);
      PushFront(t.node);
      queue := [t.node] + queue;
      inStack := inStack - {t.pid};
      DfsOverForwardEdges(t.left);
      DfsOverForwardEdges(t.right);
    }

    /** A rebuild: it ends on any graph, cycles included, and queues every visited pid once. */
    method Rebuild()
      requires GraphOk() && visited == {} && inStack == {}
      modifies `visited, `inStack, `queue, `iter
      ensures GraphOk() && visited == {} && inStack == {} && iter == None
      ensures QueueOk() && |queue| <= PIDS
      ensures queue == Rebuilt(Edges(), root)
    {
      hide TreeOk, EdgesOk, ReadyQueue.Dfs;
      queue, iter := [], None;
      Dfs(root);
      QueueSize(queue);
      visited := {};
      inStack := {};
    }

    ghost predicate QueueOk()
      reads this
    {
      DistinctPids(queue) && forall n :: n in queue ==> n in nodes
    }

    // ---------- update_weights ----------

    ghost function Weighing(outcome: Outcome): Weighing
      reads this, queue
    {
      SchedShares.Weighing.Weighing(Shares(queue), cycleCounter, weightsUpToDate, outcome)
    }

    /** The queue of the next pass. */
    ghost function Upcoming(): (q: seq<GraphNode>)
      requires GraphOk() && QueueOk()
      reads this, nodes
      ensures forall n :: n in q ==> n in nodes
    {
      if graphUpToDate then queue else Rebuilt(Edges(), root)
    }

    /** What the update at the start of the next pass begins with. */
    ghost function UpcomingWeighing(): Weighing
      requires GraphOk() && QueueOk()
      reads this, nodes
    {
      SchedShares.Weighing.Weighing(Shares(Upcoming()), cycleCounter, weightsUpToDate, Done)
    }

    /** The processes of the queue that the next pass will not have, and the other way round. */
    ghost function Dropped(): seq<GraphNode>
      requires GraphOk() && QueueOk()
      reads this, nodes
    {
      Without(queue, Upcoming())
    }

    ghost function Gained(): seq<GraphNode>
      requires GraphOk() && QueueOk()
      reads this, nodes
    {
      Without(Upcoming(), queue)
    }

    ghost predicate SameProcesses()
      requires GraphOk() && QueueOk()
      reads this, nodes
    {
      Entries(queue) == Entries(Upcoming())
    }

    /** After an edit of the edges alone the shares are stale: they add up to one cycle if and only if the
        processes dropped from the queue and the processes gained had equal shares, as when the processes are the
        same. */
    lemma StaleShares()
      requires Valid() && Settled() && !waiting && iter == None && !graphUpToDate && weightsUpToDate
      ensures var w := WeighedAtStart(UpcomingWeighing(), cyclesPerUpdate, true);
              && w == SchedShares.Weighing.Weighing(Shares(Upcoming()), 0, true, Done)
              && (Sum(Times(w.shares)) == CYCLE <==> Sum(Times(Shares(Dropped()))) == Sum(Times(Shares(Gained()))))
              && (SameProcesses() ==> SettledIn(w.shares, None, 0, Cap(), false, true))
    {
      hide TreeOk, EdgesOk, DistinctPids, PassOk, Sum, Without;
      var q := Upcoming();
      RebuiltOnce(Edges(), root);
      DistinctObjects(queue);
      DistinctObjects(q);
      StaleSums(queue, q);
      if SameProcesses() {
        SameSums(queue, q);
        SameBalances(queue, q);
        SettledZero(Shares(queue), iter, cycleCounter, Cap(), waiting);
        forall i | 0 <= i < |queue| ensures queue[i].balance == 0 { assert Shares(queue)[i].balance == 0; }
        forall i | 0 <= i < |q| ensures Shares(q)[i].balance == 0 { assert q[i].balance == 0; }
        ZeroSettled(Shares(q), Cap());
      }
    }

    method UpdateWeights() returns (r: Outcome)
      requires GraphOk() && QueueOk()
      modifies `cycleCounter, `weightsUpToDate, queue
      ensures GraphOk() && Weighing(r) == Weighed(old(Weighing(Done))) && Edges() == old(Edges())
      ensures r == Done && !old(weightsUpToDate) && 0 < Sum(Weights(Shares(queue))) < CYCLE ==> SharedOut(Shares(queue))
      ensures r == Done && !old(weightsUpToDate) && Small(old(Shares(queue))) ==>
                SharedWeights(old(Shares(queue)), Shares(queue), old(cycleCounter))
    {
      hide TreeOk, EdgesOk, DistinctPids, Sum, W64, Updated, Reweighted, SharedOut, SharedWeights, Weights, Small;
      if weightsUpToDate {
        cycleCounter := 0;
        return Done;
      }
      if queue == [] { return EmptyQueue; }
      UpdatedTimes(Shares(queue), cycleCounter);
      if Small(Shares(queue)) { UpdatedMeans(Shares(queue), cycleCounter); }
      var total := ShareOut();
      if total == 0 { return DivisionByZero; }
      cycleCounter := 0;
      weightsUpToDate := true;
      r := Done;
    }

    /** The four passes over the queue. */
    method ShareOut() returns (total: nat)
      requires GraphOk() && QueueOk() && queue != []
      modifies queue
      ensures GraphOk() && Edges() == old(Edges())
      ensures total == W64(Sum(Weights(Reweighted(old(Shares(queue)), cycleCounter))))
      ensures Shares(queue) == Updated(old(Shares(queue)), cycleCounter)
    {
      hide TreeOk, EdgesOk, Sum, W64, Updated, Reweighted;
      DistinctObjects(queue);
      forall i | 0 <= i < |queue| ensures queue[i].balance < 0x100 { assert queue[i] in queue; }
      total := RunPasses(queue, cycleCounter);
      assert Edges() == old(Edges());
    }

    // ---------- the state machine ----------

    ghost predicate Valid()
      reads this, nodes, queue
    {
      && GraphOk() && QueueOk() && |queue| <= PIDS && visited == {} && inStack == {}
      && cycleCounter < 0x1_0000 && cyclesPerUpdate < 0x1_0000
      && (iter.Some? ==> 0 < iter.value < |queue|)
      && (waiting ==> queue != [] && currentNode == queue[Issued(iter, |queue|) - 1])
      && PassOk(pass, queue, Shares(queue), iter)
    }

    /** The bound on balances: one report a cycle, until the next update. */
    function Cap(): nat {
      Max(cyclesPerUpdate, 1)
    }

    /** The shares are those of an update that shared out a whole cycle, and no balance exceeds the reports since. */
    ghost predicate Settled()
      reads this, queue
    {
      SettledIn(Shares(queue), iter, cycleCounter, Cap(), waiting, weightsUpToDate)
    }

    constructor (cyclesPerUpdate: nat)
      requires cyclesPerUpdate < 0x1_0000
      ensures Valid() && fresh(nodes) && queue == [] && graphUpToDate && weightsUpToDate && !waiting
      ensures this.cyclesPerUpdate == cyclesPerUpdate && cycleCounter == 0 && iter == None && root == Leaf
              && nodes == {}
    {
      this.cyclesPerUpdate := cyclesPerUpdate;
      root, queue, iter, currentNode, cycleCounter := Leaf, [], None, null, 0;
      graphUpToDate, weightsUpToDate, waiting := true, true, false;
      visited, inStack, nodes, pass := {}, {}, {}, [];
    }

    /** add_process with the new node n.  `grown` is the map of pids with that process in it, in place of any
        process that had its pid. */
    method AddProcess(n: GraphNode, grown: PidTree)
      requires Valid() && n !in nodes && n.balance < 0x100 && n.forward == Leaf && TreeOk(grown, nodes + {n})
      requires InTree(grown, n) && TreePids(grown) == TreePids(root) + {n.pid}
      modifies `root, `nodes, `graphUpToDate, `weightsUpToDate
      ensures Valid() && nodes == old(nodes) + {n} && root == grown && !graphUpToDate && !weightsUpToDate
      ensures Edges() == old(Edges())[n := Leaf]
      ensures old(Settled()) ==> Settled()
    {
      hide TreeOk, EdgesOk, DistinctPids, SettledIn, PassOk, TreePids, InTree;
      EdgesGrow(Edges(), n);
      ReweighKeeps(Shares(queue), iter, cycleCounter, Cap(), waiting);
      nodes := nodes + {n};
      root := grown;
      graphUpToDate := false;
      weightsUpToDate := false;
      assert Edges() == old(Edges())[n := Leaf];
      assert Shares(queue) == old(Shares(queue));
    }

    /** add_edge from n to m.  `edges` is the map of the edges of n with this one in it. */
    method AddEdge(n: GraphNode, m: GraphNode, edges: PidTree)
      requires Valid() && n in nodes && m in nodes && TreeOk(edges, nodes)
      requires InTree(edges, m) && TreePids(edges) == TreePids(n.forward) + {m.pid}
      modifies n`forward, `graphUpToDate
      ensures Valid() && !graphUpToDate && Edges() == old(Edges())[n := edges] && Shares(queue) == old(Shares(queue))
      ensures old(Settled()) ==> Settled()
    {
      SetEdges(n, edges);
    }

    /** remove_edge from n to m.  `edges` is the map of the edges of n without this one. */
    method RemoveEdge(n: GraphNode, m: GraphNode, edges: PidTree)
      requires Valid() && n in nodes && m in nodes && TreeOk(edges, nodes)
      requires TreePids(edges) == TreePids(n.forward) - {m.pid}
      modifies n`forward, `graphUpToDate
      ensures Valid() && !graphUpToDate && Edges() == old(Edges())[n := edges] && Shares(queue) == old(Shares(queue))
      ensures old(Settled()) ==> Settled()
    {
      SetEdges(n, edges);
    }

    /** Every edit of the edges of a node leaves the shares as they are. */
    method SetEdges(n: GraphNode, edges: PidTree)
      requires Valid() && n in nodes && TreeOk(edges, nodes)
      modifies n`forward, `graphUpToDate
      ensures Valid() && !graphUpToDate && Edges() == old(Edges())[n := edges] && Shares(queue) == old(Shares(queue))
      ensures old(Settled()) ==> Settled()
    {
      hide TreeOk, DistinctPids, SettledIn, PassOk;
      n.forward := edges;
      graphUpToDate := false;
      assert Shares(queue) == old(Shares(queue));
    }

    lemma CurrentIsKnown()
      requires Valid()
      ensures waiting ==> currentNode != null && currentNode in nodes
    {
      if waiting { assert queue[Issued(iter, |queue|) - 1] in queue; }
    }

    /** exec_report: only an ungraceful end of a process whose weight is not fixed changes a node, its balance. */
    method ExecReport(graceful: bool) returns (r: Result<()>)
      requires Valid()
      modifies `waiting, `weightsUpToDate, currentNode
      ensures Valid() && !waiting && Edges() == old(Edges())
      ensures r == if old(waiting) then Ok(()) else Err(NotWaiting)
      ensures var counted := old(waiting) && !graceful && !currentNode.weightFixed;
              && (counted ==>
                    var s, k := old(Shares(queue)), Issued(iter, |queue|) - 1;
                    Shares(queue) == s[k := s[k].(balance := (s[k].balance + 1) % 0x100)] && !weightsUpToDate)
              && (!counted ==> Shares(queue) == old(Shares(queue)) && weightsUpToDate == old(weightsUpToDate))
      ensures old(Settled()) ==> Settled()
    {
      hide GraphOk, QueueOk, SettledIn, PassOk, Shares, Edges;
      if !waiting { return Err(NotWaiting); }
      ghost var k := Issued(iter, |queue|) - 1;
      ghost var s := Shares(queue);
      Lengths();
      if !graceful && !currentNode.weightFixed {
        RaiseBalance(k);
        ReportKeeps(s, iter, cycleCounter, Cap(), weightsUpToDate, (s[k].balance + 1) % 0x100);
        SamePass(pass, queue, s, iter, k, s[k].(balance := (s[k].balance + 1) % 0x100));
        Reported(false);
      } else {
        ReportKeeps(s, iter, cycleCounter, Cap(), weightsUpToDate, 0);
        Reported(weightsUpToDate);
      }
      return Ok(());
    }

    /** The end of a report: nothing but the two marks changes. */
    method Reported(upToDate: bool)
      requires GraphOk() && QueueOk()
      modifies `waiting, `weightsUpToDate
      ensures GraphOk() && QueueOk() && !waiting && weightsUpToDate == upToDate
      ensures Edges() == old(Edges()) && Shares(queue) == old(Shares(queue))
    {
      waiting, weightsUpToDate := false, upToDate;
    }

    lemma Lengths()
      requires QueueOk()
      ensures |Shares(queue)| == |queue| && forall n :: n in queue ==> n in nodes
    {}

    /** One more unit of balance, in 8 bits, for the current node, which is entry k of the queue. */
    method RaiseBalance(ghost k: nat)
      requires GraphOk() && QueueOk() && k < |queue| && currentNode == queue[k]
      modifies currentNode
      ensures GraphOk() && Edges() == old(Edges()) && currentNode.weightFixed == old(currentNode.weightFixed)
      ensures var s := old(Shares(queue));
              Shares(queue) == s[k := s[k].(balance := (s[k].balance + 1) % 0x100)]
    {
      hide TreeOk, EdgesOk;
      DistinctObjects(queue);
      assert currentNode in queue;
      currentNode.balance := (currentNode.balance + 1) % 0x100;
      assert Edges() == old(Edges());
    }

    /** What happens after the graph was edited: a rebuild and an update. */
    method RebuildAndUpdate() returns (r: Outcome)
      requires Valid() && !waiting && iter == None && pass == []
      modifies this, nodes
      ensures Valid() && !waiting && iter == None && pass == [] && graphUpToDate && nodes == old(nodes)
      ensures root == old(root) && Edges() == old(Edges())
      ensures queue == old(Rebuilt(Edges(), root)) && r == Weighing(r).outcome
      ensures Weighing(r) == Weighed(old(SchedShares.Weighing.Weighing(Shares(Rebuilt(Edges(), root)), cycleCounter,
              weightsUpToDate, Done)))
      ensures !old(weightsUpToDate) && r == Done && 0 < Sum(Weights(Shares(queue))) < CYCLE ==> Settled()
    {
      hide TreeOk, EdgesOk, DistinctPids, SettledIn, PassOk, Sum, W64, Updated, Reweighted;
      Rebuild();
      assert Shares(queue) == old(Shares(Rebuilt(Edges(), root)));
      graphUpToDate := true;
      ghost var s, cc := Shares(queue), cycleCounter;
      r := UpdateWeights();
      NoPass(queue, Shares(queue));
      if s != [] { UpdateSettles(s, cc, Cap()); }
    }

    /** An update of the weights, if enough cycles have passed. */
    method UpdateIfDue() returns (r: Outcome)
      requires Valid() && !waiting && iter == None && pass == []
      modifies this, nodes
      ensures Valid() && !waiting && iter == None && pass == [] && nodes == old(nodes)
      ensures root == old(root) && Edges() == old(Edges())
      ensures queue == old(queue) && graphUpToDate == old(graphUpToDate)
      ensures Weighing(r) == WeighedIfDue(old(Weighing(Done)), cyclesPerUpdate)
      ensures old(Settled()) ==> r == Done && Settled() && cycleCounter < Cap()
    {
      hide TreeOk, EdgesOk, DistinctPids, SettledIn, PassOk, Sum, W64, Updated, Reweighted;
      r := Done;
      if cycleCounter >= cyclesPerUpdate {
        ghost var s, cc := Shares(queue), cycleCounter;
        BytesOf(s);
        SettledUpdate(s, cc, Cap());
        SettledEarly(s, cc, Cap());
        NotSettledEmpty(s, iter, cc, Cap(), waiting, weightsUpToDate);
        r := UpdateWeights();
        NoPass(queue, Shares(queue));
      }
    }

    /** The branch of next at the end of a pass: a rebuild if the graph was changed, and an update when it is due. */
    method StartPass() returns (r: Outcome)
      requires Valid() && !waiting && iter == None
      modifies this, nodes
      ensures Valid() && !waiting && iter == None && pass == [] && graphUpToDate && nodes == old(nodes)
      ensures root == old(root) && Edges() == old(Edges())
      ensures queue == old(Upcoming())
      ensures Weighing(r) == WeighedAtStart(old(UpcomingWeighing()), cyclesPerUpdate, !old(graphUpToDate))
      ensures old(Settled()) && old(graphUpToDate) ==> r == Done && Settled() && cycleCounter < Cap()
      ensures !old(graphUpToDate) && !old(weightsUpToDate) && r == Done && 0 < Sum(Weights(Shares(queue))) < CYCLE ==>
                Settled() && cycleCounter < Cap()
      ensures old(Settled()) && !old(graphUpToDate) && old(weightsUpToDate) ==>
                && r == Done && (old(SameProcesses()) ==> Settled() && cycleCounter < Cap())
                && (Sum(Times(Shares(queue))) == CYCLE <==>
                    old(Sum(Times(Shares(Dropped())))) == old(Sum(Times(Shares(Gained())))))
    {
      hide TreeOk, EdgesOk, DistinctPids, SettledIn, PassOk, Sum;
      NoPass(queue, Shares(queue));
      if Settled() && !graphUpToDate && weightsUpToDate { StaleShares(); }
      pass := [];
      if !graphUpToDate {
        r := RebuildAndUpdate();
        if r != Done { return; }
      }
      r := UpdateIfDue();
    }

    lemma BytesOf(s: seq<Share>)
      requires GraphOk() && QueueOk() && s == Shares(queue)
      ensures forall i :: 0 <= i < |s| ==> s[i].balance < 0x100
    {
      forall i | 0 <= i < |s| ensures s[i].balance < 0x100 { assert queue[i] in queue; }
    }

    /** next: the entries of the queue in order, once a pass, each with its share; the last one asks to spin. */
    method Next() returns (r: Result<Command>)
      requires Valid()
      modifies this, nodes
      ensures Valid() && nodes == old(nodes) && root == old(root) && Edges() == old(Edges())
      ensures old(waiting) ==> r == Err(WaitingForReport) && unchanged(this) && unchanged(nodes)
      ensures !old(waiting) && old(iter).Some? ==>
                && queue == old(queue) && graphUpToDate == old(graphUpToDate)
                && Weighing(Done).(cycleCounter := 0) == old(Weighing(Done)).(cycleCounter := 0)
                && Issued1(r, old(iter).value, old(cycleCounter)) && pass == old(pass) + [r.value]
      ensures !old(waiting) && old(iter).None? ==>
                var w := WeighedAtStart(old(UpcomingWeighing()), cyclesPerUpdate, !old(graphUpToDate));
                && queue == old(Upcoming()) && graphUpToDate
                && Weighing(w.outcome).(cycleCounter := w.cycleCounter) == w
                && (if w.outcome == DivisionByZero then r == Err(DividedByZero)
                    else if w.outcome == EmptyQueue || queue == [] then r == Err(QueueIsEmpty)
                    else Issued1(r, 0, w.cycleCounter) && pass == [r.value])
      ensures old(Settled()) && (old(waiting) || old(iter).Some? || old(graphUpToDate)) ==>
                Settled() && (r.Ok? <==> !old(waiting))
      ensures !old(waiting) && old(iter).None? && !old(graphUpToDate) && !old(weightsUpToDate) ==>
                (r.Ok? && 0 < Sum(Weights(Shares(queue))) < CYCLE ==> Settled())
      ensures old(Settled()) && !old(waiting) && old(iter).None? && !old(graphUpToDate) && old(weightsUpToDate) ==>
                && (old(SameProcesses()) ==> Settled() && r.Ok?)
                && (Sum(Times(Shares(queue))) == CYCLE <==>
                    old(Sum(Times(Shares(Dropped())))) == old(Sum(Times(Shares(Gained())))))
    {
      hide TreeOk, EdgesOk, DistinctPids, SettledIn, PassOk, Sum;
      if waiting { return Err(WaitingForReport); }
      var k := 0;
      if iter.None? {
        var started := StartPass();
        if started == DivisionByZero { return Err(DividedByZero); }
        if started == EmptyQueue || queue == [] {
          NotSettledEmpty(Shares(queue), iter, cycleCounter, Cap(), waiting, weightsUpToDate);
          return Err(QueueIsEmpty);
        }
      } else {
        k := iter.value;
      }
      var c := Issue(k);
      return Ok(c);
    }

    /** The answer is entry k with its share, the iterator moved on, and the end of the queue was counted. */
    ghost predicate Issued1(r: Result<Command>, k: nat, counter: nat)
      reads this, queue
    {
      && k < |queue| && r == Ok(Command(queue[k], queue[k].howLong, k + 1 == |queue|))
      && waiting && currentNode == queue[k]
      && iter == (if k + 1 < |queue| then Some(k + 1) else None)
      && cycleCounter == if k + 1 < |queue| then counter else (counter + 1) % 0x1_0000
    }

    /** Issues entry k, where the iterator stands, and moves the iterator on. */
    method Issue(k: nat) returns (c: Command)
      requires Valid() && !waiting && k < |queue| && (if k == 0 then iter == None && pass == [] else iter == Some(k))
      modifies `cycleCounter, `iter, `waiting, `currentNode, `pass
      ensures Valid() && pass == old(pass) + [c] && Issued1(Ok(c), k, old(cycleCounter))
      ensures old(Settled()) && (k > 0 || old(cycleCounter) < Cap()) ==> Settled()
    {
      hide TreeOk, EdgesOk, DistinctPids, SettledIn, PassOk, Sum;
      assert queue[k] in queue;
      var node := queue[k];
      IssueKeeps(Shares(queue), k, cycleCounter, Cap(), weightsUpToDate);
      IssuePass(pass, queue, Shares(queue), k);
      var next: Option<nat> := if k + 1 < |queue| then Some(k + 1) else None;
      c := Command(node, node.howLong, next.None?);
      if next.None? { cycleCounter := (cycleCounter + 1) % 0x1_0000; }
      iter := next;
      waiting := true;
      currentNode := node;
      pass := pass + [c];
    }

    /** A complete pass over a settled queue has issued every queued process once, in the order of the queue, with
        shares that add up to one cycle, and asked to spin after the last one only. */
    lemma PassIsWhole()
      requires Valid() && Settled() && iter.None? && pass != []
      ensures |pass| == |queue|
      ensures forall j :: 0 <= j < |pass| ==> pass[j].toExec == queue[j] && (pass[j].spinAfter <==> j == |pass| - 1)
      ensures Sum(PassTimes(pass)) == CYCLE
    {
      assert PassTimes(pass) == Times(Shares(queue));
    }
  }

  function PassTimes(pass: seq<Command>): seq<nat> {
    seq(|pass|, j requires 0 <= j < |pass| => pass[j].howLong)
  }

  /** The same nodes in another order: if all balances were zero, they still are. */
  lemma SameBalances(q: seq<GraphNode>, r: seq<GraphNode>)
    requires Entries(q) == Entries(r)
    ensures q == [] <==> r == []
    ensures (forall i :: 0 <= i < |q| ==> q[i].balance == 0) ==> forall i :: 0 <= i < |r| ==> r[i].balance == 0
  {
    NoEntries(q);
    NoEntries(r);
    forall i | 0 <= i < |r| ensures exists j :: 0 <= j < |q| && q[j] == r[i] {
      assert r[i] in Entries(r);
      var j := Where(q, r[i]);
    }
  }

  lemma NoPass(queue: seq<GraphNode>, s: seq<Share>)
    requires |s| == |queue|
    ensures PassOk([], queue, s, None)
  {}

  lemma NotSettledEmpty(s: seq<Share>, iter: Option<nat>, cycleCounter: nat, cap: nat, waiting: bool, upToDate: bool)
    ensures s == [] ==> !SettledIn(s, iter, cycleCounter, cap, waiting, upToDate)
  {}

  /** A full update settles a queue whose total weight is in range afterwards. */
  lemma UpdateSettles(s: seq<Share>, cycleCounter: nat, cap: nat)
    requires s != [] && cap > 0
    ensures 0 < Sum(Weights(Updated(s, cycleCounter))) < CYCLE ==>
            SettledIn(Updated(s, cycleCounter), None, 0, cap, false, true)
  {
    UpdatedTimes(s, cycleCounter);
    hide Sum, Updated;
    var u := Updated(s, cycleCounter);
    if 0 < Sum(Weights(u)) < CYCLE {
      forall i | 0 <= i < |u| ensures Bounded(u, i, None, 0, false, true) {}
    }
  }

  /** A full update keeps a settled queue settled, and does not fail. */
  lemma SettledUpdate(s: seq<Share>, cycleCounter: nat, cap: nat)
    requires |s| <= PIDS && cap > 0 && forall i :: 0 <= i < |s| ==> s[i].balance < 0x100
    ensures SettledIn(s, None, cycleCounter, cap, false, false) ==>
              && W64(Sum(Weights(Reweighted(s, cycleCounter)))) != 0
              && SettledIn(Updated(s, cycleCounter), None, 0, cap, false, true)
  {
    hide Sum, Updated, Reweighted, Weights, FreeWeights, Times;
    if SettledIn(s, None, cycleCounter, cap, false, false) {
      UpdatedMeans(s, cycleCounter);
      ReweightedKeeps(s, cycleCounter);
      UpdateSettles(s, cycleCounter, cap);
    }
  }

  /** With all weights up to date only the counter is reset. */
  lemma SettledEarly(s: seq<Share>, cycleCounter: nat, cap: nat)
    requires cap > 0
    ensures SettledIn(s, None, cycleCounter, cap, false, true) ==> SettledIn(s, None, 0, cap, false, true) && s != []
  {
    if SettledIn(s, None, cycleCounter, cap, false, true) {
      forall i | 0 <= i < |s| ensures Bounded(s, i, None, 0, false, true) {
        assert Bounded(s, i, None, cycleCounter, false, true);
      }
    }
  }

  /** Issuing entry k, the first one at the start of a pass. */
  lemma IssueKeeps(s: seq<Share>, k: nat, cycleCounter: nat, cap: nat, upToDate: bool)
    requires k < |s| && cap < 0x1_0000
    ensures var before := if k == 0 then None else Some(k);
            var next := if k + 1 < |s| then Some(k + 1) else None;
            SettledIn(s, before, cycleCounter, cap, false, upToDate) && (k > 0 || cycleCounter < cap) ==>
              var counter := if next.None? then (cycleCounter + 1) % 0x1_0000 else cycleCounter;
              SettledIn(s, next, counter, cap, true, upToDate)
  {
    hide Sum;
    var before := if k == 0 then None else Some(k);
    var next := if k + 1 < |s| then Some(k + 1) else None;
    var cc := if next.None? then (cycleCounter + 1) % 0x1_0000 else cycleCounter;
    if SettledIn(s, before, cycleCounter, cap, false, upToDate) && (k > 0 || cycleCounter < cap) {
      forall i | 0 <= i < |s| ensures Bounded(s, i, next, cc, true, upToDate) {
        assert Bounded(s, i, before, cycleCounter, false, upToDate);
      }
    }
  }

  lemma IssuePass(pass: seq<Command>, queue: seq<GraphNode>, s: seq<Share>, k: nat)
    requires |s| == |queue| && k < |queue|
    requires if k == 0 then pass == [] else PassOk(pass, queue, s, Some(k))
    ensures var next := if k + 1 < |queue| then Some(k + 1) else None;
            PassOk(pass + [Command(queue[k], s[k].howLong, next.None?)], queue, s, next)
  {}

  /** How many entries of a queue of n the current pass has issued. */
  function Issued(iter: Option<nat>, n: nat): nat {
    if iter.Some? then iter.value else n
  }

  /** The commands of this pass are those for the entries issued, in order. */
  ghost predicate PassOk(pass: seq<Command>, queue: seq<GraphNode>, s: seq<Share>, iter: Option<nat>)
    requires |s| == |queue|
  {
    && (|pass| == Issued(iter, |queue|) || (iter.None? && pass == [])) && |pass| <= |queue|
    && forall j :: 0 <= j < |pass| ==> pass[j] == Command(queue[j], s[j].howLong, j == |queue| - 1)
  }

  lemma SamePass(pass: seq<Command>, queue: seq<GraphNode>, s: seq<Share>, iter: Option<nat>, k: nat, v: Share)
    requires |s| == |queue| && k < |s| && v.howLong == s[k].howLong
    ensures PassOk(pass, queue, s, iter) == PassOk(pass, queue, s[k := v], iter)
  {}

  /** Reports that may have raised the balance of entry i since the last update. */
  function Reports(i: nat, n: nat, iter: Option<nat>, cycleCounter: nat, waiting: bool): int {
    var done: int := if waiting then Issued(iter, n) - 1 else Issued(iter, n);
    (if iter.None? then cycleCounter - 1 else cycleCounter) + (if i < done then 1 else 0)
  }

  ghost predicate Bounded(s: seq<Share>, i: nat, iter: Option<nat>, cycleCounter: nat, waiting: bool, upToDate: bool)
    requires i < |s|
  {
    s[i].balance <= Reports(i, |s|, iter, cycleCounter, waiting) && (upToDate ==> s[i].balance == 0)
  }

  ghost predicate SettledIn(s: seq<Share>, iter: Option<nat>, cycleCounter: nat, cap: nat, waiting: bool,
      upToDate: bool) {
    && s != []
    && 0 < Sum(Weights(s)) < CYCLE && Sum(Times(s)) == CYCLE
    && (if iter.Some? then cycleCounter < cap else cycleCounter <= cap)
    && (forall i :: 0 <= i < |s| ==> Bounded(s, i, iter, cycleCounter, waiting, upToDate))
  }

  lemma SettledZero(s: seq<Share>, iter: Option<nat>, cycleCounter: nat, cap: nat, waiting: bool)
    requires SettledIn(s, iter, cycleCounter, cap, waiting, true)
    ensures forall i :: 0 <= i < |s| ==> s[i].balance == 0
  {
    forall i | 0 <= i < |s| ensures s[i].balance == 0 {
      assert Bounded(s, i, iter, cycleCounter, waiting, true);
    }
  }

  lemma ZeroSettled(s: seq<Share>, cap: nat)
    requires s != [] && 0 < Sum(Weights(s)) < CYCLE && Sum(Times(s)) == CYCLE && cap > 0
    requires forall i :: 0 <= i < |s| ==> s[i].balance == 0
    ensures SettledIn(s, None, 0, cap, false, true)
  {}

  /** In a settled queue no balance exceeds the number of cycles between updates, or one if that is zero. */
  lemma BalanceCapped(s: seq<Share>, iter: Option<nat>, cycleCounter: nat, cap: nat, waiting: bool, upToDate: bool,
      i: nat)
    requires SettledIn(s, iter, cycleCounter, cap, waiting, upToDate) && i < |s|
    ensures s[i].balance <= cap
  {
    assert Bounded(s, i, iter, cycleCounter, waiting, upToDate);
  }

  lemma ReweighKeeps(s: seq<Share>, iter: Option<nat>, cycleCounter: nat, cap: nat, waiting: bool)
    ensures SettledIn(s, iter, cycleCounter, cap, waiting, true) ==>
            SettledIn(s, iter, cycleCounter, cap, waiting, false)
  {
    forall i | 0 <= i < |s| && Bounded(s, i, iter, cycleCounter, waiting, true)
      ensures Bounded(s, i, iter, cycleCounter, waiting, false) {}
  }

  /** A report on the entry issued last, counted or not. */
  lemma ReportKeeps(s: seq<Share>, iter: Option<nat>, cycleCounter: nat, cap: nat, upToDate: bool, balance: nat)
    requires s != [] && (iter.Some? ==> 0 < iter.value < |s|)
    ensures SettledIn(s, iter, cycleCounter, cap, true, upToDate) ==>
            SettledIn(s, iter, cycleCounter, cap, false, upToDate)
    ensures var k := Issued(iter, |s|) - 1;
            var s' := s[k := s[k].(balance := balance)];
            SettledIn(s, iter, cycleCounter, cap, true, upToDate) && balance <= s[k].balance + 1 ==>
              SettledIn(s', iter, cycleCounter, cap, false, false)
  {
    hide Sum;
    if SettledIn(s, iter, cycleCounter, cap, true, upToDate) {
      var k := Issued(iter, |s|) - 1;
      var s' := s[k := s[k].(balance := balance)];
      assert Weights(s') == Weights(s) && Times(s') == Times(s);
      forall i | 0 <= i < |s| ensures Bounded(s, i, iter, cycleCounter, false, upToDate) {
        assert Bounded(s, i, iter, cycleCounter, true, upToDate);
      }
      forall i | 0 <= i < |s| && balance <= s[k].balance + 1 ensures Bounded(s', i, iter, cycleCounter, false, false) {
        assert Bounded(s, i, iter, cycleCounter, true, upToDate);
      }
    }
  }

  lemma DistinctObjects(q: seq<GraphNode>)
    requires DistinctPids(q)
    ensures Objects(q)
  {}
}
