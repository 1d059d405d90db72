/** The arithmetic of update_weights: what it does to the weights, balances and time shares of a ready queue. */
module SchedShares {
  import opened Machine

  const CYCLE: nat := 0x1_0000_0000

  /** The fields of a graphnode that the arithmetic uses. */
  datatype Share = Share(weight: nat, howLong: nat, balance: nat, weightFixed: bool, newProcess: bool)

  /** What 64 bits keep. */
  function W64(x: int): nat {
    x % U64
  }

  function Sum(s: seq<nat>): nat {
    if s == [] then 0 else Sum(s[..|s| - 1]) + s[|s| - 1]
  }

  lemma SumStep(s: seq<nat>, k: nat)
    requires k < |s|
    ensures Sum(s[..k + 1]) == Sum(s[..k]) + s[k]
  {
    assert s[..k + 1][..k] == s[..k];
  }

  lemma SumAll(s: seq<nat>)
    ensures Sum(s[..|s|]) == Sum(s)
  {
    assert s[..|s|] == s;
  }

  // ---------- integer square root ----------

  function Root(x: nat): (r: nat)
    ensures r * r <= x < (r + 1) * (r + 1)
  {
    if x == 0 then 0 else
      var r := Root(x - 1);
      if (r + 1) * (r + 1) <= x then r + 1 else r
  }

  lemma Squares(a: nat, b: nat)
    requires a <= b
    ensures a * a <= b * b
  {}

  lemma RootUnique(x: nat, r: nat)
    requires r * r <= x < (r + 1) * (r + 1)
    ensures r == Root(x)
  {
    var s := Root(x);
    if r < s { Squares(r + 1, s); }
    if s < r { Squares(s + 1, r); }
  }

  /** A root of a byte is at most 15. */
  lemma RootOfByte(x: nat)
    requires x < 0x100
    ensures Root(x) <= 15
  {
    if Root(x) >= 16 { Squares(16, Root(x)); }
  }

  // ---------- the four passes over the queue ----------

  function Weights(q: seq<Share>): seq<nat> {
    seq(|q|, i requires 0 <= i < |q| => q[i].weight)
  }

  function FreeWeights(q: seq<Share>): seq<nat> {
    seq(|q|, i requires 0 <= i < |q| => if q[i].weightFixed then 0 else q[i].weight)
  }

  function FreeBalances(q: seq<Share>): seq<nat> {
    seq(|q|, i requires 0 <= i < |q| => if q[i].weightFixed then 0 else q[i].balance)
  }

  function Times(q: seq<Share>): seq<nat> {
    seq(|q|, i requires 0 <= i < |q| => q[i].howLong)
  }

  /** First pass: new processes get a balance, and every balance of a non-fixed weight becomes its root. */
  function Rooted1(s: Share, cycleCounter: nat): Share {
    if s.weightFixed then s
    else s.(balance := Root(if s.newProcess then cycleCounter / 2 % 0x100 else s.balance), newProcess := false)
  }

  function Rooted(q: seq<Share>, cycleCounter: nat): seq<Share> {
    seq(|q|, i requires 0 <= i < |q| => Rooted1(q[i], cycleCounter))
  }

  /** Second pass, before the remainder: non-fixed weights proportional to the balances. */
  function Floored1(s: Share, total: nat, roots: nat): Share
    requires roots > 0
  {
    if s.weightFixed then s else s.(weight := W64(total * s.balance) / roots)
  }

  function Floored(q: seq<Share>, total: nat, roots: nat): seq<Share>
    requires roots > 0
  {
    seq(|q|, i requires 0 <= i < |q| => Floored1(q[i], total, roots))
  }

  /** The last entry with a non-fixed weight gets the remainder. */
  function Topped(q: seq<Share>, extra: nat): seq<Share> {
    if q == [] then []
    else
      var k := |q| - 1;
      if q[k].weightFixed then Topped(q[..k], extra) + [q[k]]
      else q[k := q[k].(weight := W64(q[k].weight + extra))]
  }

  function Distributed(q: seq<Share>, total: nat, roots: nat): seq<Share>
    requires roots > 0
  {
    var f := Floored(q, total, roots);
    var given := W64(Sum(FreeWeights(f)));
    if given < total then Topped(f, total - given) else f
  }

  /** Third pass. */
  function Zeroed(q: seq<Share>): seq<Share> {
    seq(|q|, i requires 0 <= i < |q| => q[i].(balance := 0))
  }

  /** Fourth pass: time in proportion to weight, and the remainder of the cycle to the last entry. */
  function Timed(q: seq<Share>, total: nat): seq<Share>
    requires total > 0
  {
    seq(|q|, i requires 0 <= i < |q| => q[i].(howLong := W64(q[i].weight * CYCLE) / total))
  }

  function Filled(q: seq<Share>): seq<Share> {
    if q == [] then []
    else
      var k := |q| - 1;
      q[k := q[k].(howLong := W64(q[k].howLong + CYCLE - W64(Sum(Times(q)))))]
  }

  /** The weights after the second pass, or as they were when there is no information. */
  function Reweighted(q: seq<Share>, cycleCounter: nat): seq<Share> {
    var r := Rooted(q, cycleCounter);
    var roots := W64(Sum(FreeBalances(r)));
    Zeroed(if roots == 0 then r else Distributed(r, W64(Sum(FreeWeights(q))), roots))
  }

  /** All of update_weights, where the total weight is not zero. */
  function Updated(q: seq<Share>, cycleCounter: nat): seq<Share> {
    var r := Reweighted(q, cycleCounter);
    var total := W64(Sum(Weights(r)));
    if total == 0 then r else Filled(Timed(r, total))
  }

  // ---------- the calls of update_weights ----------

  /** What update_weights ends with: done, its exception for an empty queue, or a division by a total of zero. */
  datatype Outcome = Done | EmptyQueue | DivisionByZero

  /** What update_weights reads and writes. */
  datatype Weighing = Weighing(shares: seq<Share>, cycleCounter: nat, upToDate: bool, outcome: Outcome)

  /** update_weights with its early return and its two ways to fail. */
  function Weighed(w: Weighing): Weighing {
    if w.upToDate then Weighing(w.shares, 0, true, Done)
    else if w.shares == [] then w.(outcome := EmptyQueue)
    else if W64(Sum(Weights(Reweighted(w.shares, w.cycleCounter)))) == 0 then
      w.(shares := Updated(w.shares, w.cycleCounter), outcome := DivisionByZero)
    else Weighing(Updated(w.shares, w.cycleCounter), 0, true, Done)
  }

  function WeighedIfDue(w: Weighing, limit: nat): Weighing {
    if w.cycleCounter >= limit then Weighed(w) else w
  }

  /** The start of a pass: an update after a rebuild, and another one when it is due. */
  function WeighedAtStart(w: Weighing, limit: nat, rebuilt: bool): Weighing {
    if !rebuilt then WeighedIfDue(w, limit)
    else if Weighed(w).outcome != Done then Weighed(w)
    else WeighedIfDue(Weighed(w), limit)
  }

  // ---------- what that means ----------

  ghost predicate Small(q: seq<Share>) {
    0 < Sum(Weights(q)) < CYCLE && |q| <= 0x1_0000 && forall i :: 0 <= i < |q| ==> q[i].balance < 0x100
  }

  lemma {:induction false} FreeAtMost(q: seq<Share>)
    ensures Sum(FreeWeights(q)) <= Sum(Weights(q))
  {
    if q != [] {
      var k := |q| - 1;
      FreeAtMost(q[..k]);
      assert FreeWeights(q)[..k] == FreeWeights(q[..k]) && Weights(q)[..k] == Weights(q[..k]);
    }
  }

  /** The parts of t in proportion b_i / S, rounded down, are together at most t * (sum of b) / S. */
  lemma {:induction false} FloorsAtMost(b: seq<nat>, f: seq<nat>, t: nat, s: nat)
    requires |b| == |f| && s > 0 && forall i :: 0 <= i < |b| ==> f[i] == t * b[i] / s
    ensures Sum(f) * s <= t * Sum(b)
  {
    if b != [] {
      var k := |b| - 1;
      FloorsAtMost(b[..k], f[..k], t, s);
      FloorAtMost(t * b[k], s);
      Times2(Sum(f[..k]), f[k], s);
      Times2(Sum(b[..k]), b[k], t);
    }
  }

  lemma Times2(a: nat, b: nat, s: nat)
    ensures (a + b) * s == a * s + b * s && s * (a + b) == s * a + s * b
  {}

  lemma FloorAtMost(x: nat, s: nat)
    requires s > 0
    ensures x / s * s <= x
  {}

  lemma Cancel(a: nat, b: nat, s: nat)
    requires s > 0 && a * s <= b * s
    ensures a <= b
  {}

  lemma FloorsAtMostWhole(b: seq<nat>, f: seq<nat>, t: nat)
    requires |b| == |f| && Sum(b) > 0 && forall i :: 0 <= i < |b| ==> f[i] == t * b[i] / Sum(b)
    ensures Sum(f) <= t
  {
    FloorsAtMost(b, f, t, Sum(b));
    Cancel(Sum(f), t, Sum(b));
  }

  lemma {:induction false} SumOfUpdate(s: seq<nat>, k: nat, v: nat)
    requires k < |s|
    ensures Sum(s[k := v]) == Sum(s) - s[k] + v
  {
    var n := |s| - 1;
    var t := s[k := v];
    if k == n {
      assert t[..n] == s[..n];
    } else {
      assert t[..n] == s[..n][k := v];
      SumOfUpdate(s[..n], k, v);
    }
  }

  lemma {:induction false} ElementAtMost(s: seq<nat>, k: nat)
    requires k < |s|
    ensures s[k] <= Sum(s)
  {
    if k < |s| - 1 { ElementAtMost(s[..|s| - 1], k); }
  }

  /** Somebody has a non-fixed weight. */
  ghost predicate HasFree(q: seq<Share>) {
    exists i :: 0 <= i < |q| && !q[i].weightFixed
  }

  /** The remainder goes to one non-fixed weight. */
  lemma {:induction false} ToppedSum(q: seq<Share>, extra: nat)
    requires HasFree(q) && Sum(FreeWeights(q)) + extra < U64
    ensures var t := Topped(q, extra);
            && |t| == |q| && Sum(FreeWeights(t)) == Sum(FreeWeights(q)) + extra
            && Sum(Weights(t)) == Sum(Weights(q)) + extra
  {
    var k := |q| - 1;
    var t := Topped(q, extra);
    assert FreeWeights(q)[..k] == FreeWeights(q[..k]) && Weights(q)[..k] == Weights(q[..k]);
    if q[k].weightFixed {
      var i :| 0 <= i < |q| && !q[i].weightFixed;
      assert !q[..k][i].weightFixed;
      ToppedSum(q[..k], extra);
      assert t[..k] == Topped(q[..k], extra);
      assert FreeWeights(t)[..k] == FreeWeights(t[..k]) && Weights(t)[..k] == Weights(t[..k]);
    } else {
      ElementAtMost(FreeWeights(q), k);
      assert FreeWeights(t) == FreeWeights(q)[k := q[k].weight + extra];
      assert Weights(t) == Weights(q)[k := q[k].weight + extra];
      SumOfUpdate(FreeWeights(q), k, q[k].weight + extra);
      SumOfUpdate(Weights(q), k, q[k].weight + extra);
    }
  }

  lemma {:induction false} SumAtMost(s: seq<nat>, m: nat)
    requires forall i :: 0 <= i < |s| ==> s[i] <= m
    ensures Sum(s) <= |s| * m
  {
    if s != [] {
      var k := |s| - 1;
      SumAtMost(s[..k], m);
      Times2(k, 1, m);
    }
  }

  lemma RootedFacts(q: seq<Share>, cycleCounter: nat)
    requires Small(q)
    ensures var r := Rooted(q, cycleCounter);
            && FreeWeights(r) == FreeWeights(q) && Weights(r) == Weights(q) && |r| == |q|
            && Sum(FreeBalances(r)) < U64 && SameFixed(q, r)
            && forall i :: 0 <= i < |r| && !r[i].weightFixed ==> r[i].balance <= 15
  {
    var r := Rooted(q, cycleCounter);
    forall i | 0 <= i < |q| ensures !r[i].weightFixed ==> r[i].balance <= 15 {
      RootOfByte(cycleCounter / 2 % 0x100);
      RootOfByte(q[i].balance);
    }
    assert FreeWeights(r) == FreeWeights(q) && Weights(r) == Weights(q);
    SumAtMost(FreeBalances(r), 15);
  }

  lemma {:induction false} PositiveHasFree(q: seq<Share>)
    requires Sum(FreeBalances(q)) > 0
    ensures HasFree(q)
  {
    var k := |q| - 1;
    assert FreeBalances(q)[..k] == FreeBalances(q[..k]);
    if q[k].weightFixed {
      PositiveHasFree(q[..k]);
      var i :| 0 <= i < k && !q[..k][i].weightFixed;
      assert !q[i].weightFixed;
    }
  }

  /** Fixed weights stay, and stay fixed. */
  ghost predicate SameFixed(q: seq<Share>, u: seq<Share>) {
    |u| == |q| && forall i :: 0 <= i < |q| ==> SameIfFixed(q[i], u[i])
  }

  predicate SameIfFixed(s: Share, u: Share) {
    u.weightFixed == s.weightFixed && (s.weightFixed ==> u.weight == s.weight)
  }

  /** No process with a non-fixed weight is new any more. */
  ghost predicate NoneNew(q: seq<Share>) {
    forall i :: 0 <= i < |q| && !q[i].weightFixed ==> !q[i].newProcess
  }

  lemma FlooredFacts(r: seq<Share>, t: nat, s: nat)
    requires 0 < Sum(FreeBalances(r)) == s && t < CYCLE
    requires forall i :: 0 <= i < |r| && !r[i].weightFixed ==> r[i].balance <= 15
    ensures var f := Floored(r, t, s);
            Sum(FreeWeights(f)) <= t && HasFree(f) && SameFixed(r, f)
  {
    hide Sum;
    var f := Floored(r, t, s);
    forall i | 0 <= i < |r| ensures FreeWeights(f)[i] == t * FreeBalances(r)[i] / s {
      FloorOne(r[i], t, s);
    }
    FloorsAtMostWhole(FreeBalances(r), FreeWeights(f), t);
    PositiveHasFree(r);
    var i :| 0 <= i < |r| && !r[i].weightFixed;
    assert !f[i].weightFixed;
  }

  /** The total of the non-fixed weights is kept exactly, and so is the total of all weights. */
  lemma DistributedKeeps(r: seq<Share>, t: nat, s: nat)
    requires 0 < Sum(FreeBalances(r)) == s && t == Sum(FreeWeights(r)) < CYCLE
    requires forall i :: 0 <= i < |r| && !r[i].weightFixed ==> r[i].balance <= 15
    ensures var d := Distributed(r, t, s);
            SameFixed(r, d) && Sum(FreeWeights(d)) == t && Sum(Weights(d)) == Sum(Weights(r))
  {
    hide Sum, Floored, Topped, FreeWeights, FreeBalances, Weights;
    var f := Floored(r, t, s);
    FlooredFacts(r, t, s);
    FixedPart(r, f);
    if Sum(FreeWeights(f)) < t {
      ToppedSum(f, t - Sum(FreeWeights(f)));
      FixedKept(f, t - Sum(FreeWeights(f)));
    }
  }

  lemma FloorOne(x: Share, t: nat, s: nat)
    requires s > 0 && t < CYCLE && (!x.weightFixed ==> x.balance <= 15)
    ensures var y := Floored1(x, t, s);
            (if y.weightFixed then 0 else y.weight) == t * (if x.weightFixed then 0 else x.balance) / s
  {
    if !x.weightFixed { assert t * x.balance <= t * 15; }
  }

  /** Two queues that agree on fixed weights differ in total by what their non-fixed weights differ. */
  lemma {:induction false} FixedPart(q: seq<Share>, r: seq<Share>)
    requires SameFixed(q, r)
    ensures Sum(Weights(q)) - Sum(FreeWeights(q)) == Sum(Weights(r)) - Sum(FreeWeights(r))
  {
    if q != [] {
      var k := |q| - 1;
      FixedPart(q[..k], r[..k]);
      assert FreeWeights(q)[..k] == FreeWeights(q[..k]) && Weights(q)[..k] == Weights(q[..k]);
      assert FreeWeights(r)[..k] == FreeWeights(r[..k]) && Weights(r)[..k] == Weights(r[..k]);
    }
  }

  lemma {:induction false} FixedKept(q: seq<Share>, extra: nat)
    ensures var t := Topped(q, extra);
            SameFixed(q, t) && (NoneNew(q) ==> NoneNew(t))
  {
    if q != [] { FixedKept(q[..|q| - 1], extra); }
  }

  lemma TimedAtMost(q: seq<Share>, t: nat)
    requires 0 < t == Sum(Weights(q)) < CYCLE
    ensures Sum(Times(Timed(q, t))) <= CYCLE
  {
    var m := Timed(q, t);
    forall i | 0 <= i < |q| ensures Times(m)[i] == CYCLE * Weights(q)[i] / t {
      ElementAtMost(Weights(q), i);
    }
    hide Sum, Timed;
    FloorsAtMostWhole(Weights(q), Times(m), CYCLE);
  }

  /** The remainder of the cycle goes to the last entry. */
  lemma FilledSum(m: seq<Share>)
    requires m != [] && Sum(Times(m)) <= CYCLE
    ensures |Filled(m)| == |m| && Sum(Times(Filled(m))) == CYCLE
    ensures forall i :: 0 <= i < |m| ==> Filled(m)[i] == m[i].(howLong := Filled(m)[i].howLong)
  {
    hide Sum;
    var k := |m| - 1;
    ElementAtMost(Times(m), k);
    var h := Times(m)[k] + CYCLE - Sum(Times(m));
    assert Times(Filled(m)) == Times(m)[k := h];
    SumOfUpdate(Times(m), k, h);
  }

  /** Only the time shares are changed by the last pass. */
  lemma TimedKeeps(z: seq<Share>, t: nat)
    requires t > 0
    ensures var u := Filled(Timed(z, t));
            && |u| == |z| && Weights(u) == Weights(z) && FreeWeights(u) == FreeWeights(z)
            && forall i :: 0 <= i < |z| ==> u[i] == z[i].(howLong := u[i].howLong)
  {
    hide Sum;
    var u := Filled(Timed(z, t));
    assert Weights(u) == Weights(z) && FreeWeights(u) == FreeWeights(z);
  }

  /** The weights after the second pass. */
  lemma ReweightedKeeps(q: seq<Share>, cycleCounter: nat)
    requires Small(q)
    ensures var z := Reweighted(q, cycleCounter);
            && SameFixed(q, z) && Sum(FreeWeights(z)) == Sum(FreeWeights(q)) && Sum(Weights(z)) == Sum(Weights(q))
            && forall i :: 0 <= i < |z| ==> z[i].balance == 0
  {
    hide Sum, Rooted, Distributed;
    var r := Rooted(q, cycleCounter);
    RootedFacts(q, cycleCounter);
    FreeAtMost(q);
    var s := Sum(FreeBalances(r));
    var d := if s == 0 then r else Distributed(r, Sum(FreeWeights(q)), s);
    if s > 0 { DistributedKeeps(r, Sum(FreeWeights(q)), s); }
    var z := Zeroed(d);
    assert Weights(z) == Weights(d) && FreeWeights(z) == FreeWeights(d);
    assert z == Reweighted(q, cycleCounter);
  }

  // ---------- proportions ----------

  /** h is the part of c in the proportion w to t, rounded down. */
  ghost predicate Portion(h: nat, w: nat, t: nat, c: nat) {
    h * t <= w * c < (h + 1) * t
  }

  /** The shares are one cycle: to each entry in proportion to its weight, rounded down, and the rest to the last. */
  ghost predicate SharedOut(u: seq<Share>) {
    var t := Sum(Weights(u));
    && Sum(Times(u)) == 0x1_0000_0000
    && forall i :: 0 <= i < |u| - 1 ==> Portion(u[i].howLong, u[i].weight, t, 0x1_0000_0000)
  }

  /** The root of the balance that an update counts with; a new process has half the cycles since the last one. */
  function Effort(s: Share, cycleCounter: nat): nat {
    if s.weightFixed then 0
    else if s.newProcess then Root(cycleCounter / 2 % 0x100)
    else Root(s.balance)
  }

  function Efforts(q: seq<Share>, cycleCounter: nat): (e: seq<nat>)
    ensures |e| == |q|
  {
    seq(|q|, i requires 0 <= i < |q| => Effort(q[i], cycleCounter))
  }

  /** The non-fixed weights in proportion to the efforts, rounded down, but for the last of them, which gets the rest;
      without any effort they stay. */
  ghost predicate SharedWeights(q: seq<Share>, u: seq<Share>, cycleCounter: nat)
    requires |u| == |q|
  {
    var e := Efforts(q, cycleCounter);
    if Sum(e) == 0 then Weights(u) == Weights(q)
    else forall i, j :: 0 <= i < j < |q| && !q[i].weightFixed && !q[j].weightFixed ==>
           Portion(u[i].weight, e[i], Sum(e), Sum(FreeWeights(q)))
  }

  lemma QuotientBounds(x: nat, t: nat)
    requires t > 0
    ensures x / t * t <= x < (x / t + 1) * t
  {
    Times2(x / t, 1, t);
  }

  lemma QuotientPortion(w: nat, c: nat, t: nat)
    requires t > 0
    ensures Portion(w * c / t, w, t, c)
  {
    QuotientBounds(w * c, t);
  }

  lemma SmallProduct(w: nat)
    requires w < CYCLE
    ensures W64(w * CYCLE) == w * CYCLE
  {}

  lemma TimedPortions(z: seq<Share>, t: nat)
    requires z != [] && 0 < t == Sum(Weights(z)) < CYCLE
    ensures SharedOut(Filled(Timed(z, t)))
  {
    var m := Timed(z, t);
    hide Sum, Portion;
    forall i | 0 <= i < |z| ensures m[i].howLong == z[i].weight * CYCLE / t {
      ElementAtMost(Weights(z), i);
      SmallProduct(z[i].weight);
    }
    hide Timed, Filled;
    TimedKeeps(z, t);
    TimedAtMost(z, t);
    FilledSum(m);
    var u := Filled(m);
    forall i | 0 <= i < |u| - 1 ensures Portion(u[i].howLong, u[i].weight, t, CYCLE) {
      QuotientPortion(z[i].weight, CYCLE, t);
    }
  }

  /** The remainder leaves every entry with a later non-fixed one alone. */
  lemma {:induction false} ToppedBefore(q: seq<Share>, extra: nat, i: nat, j: nat)
    requires i < j < |q| && !q[j].weightFixed
    ensures |Topped(q, extra)| == |q| && Topped(q, extra)[i] == q[i]
  {
    var k := |q| - 1;
    if q[k].weightFixed { ToppedBefore(q[..k], extra, i, j); }
  }

  lemma ReweightedNotNew(q: seq<Share>, cycleCounter: nat)
    ensures NoneNew(Reweighted(q, cycleCounter))
  {
    var r := Rooted(q, cycleCounter);
    var roots, total := W64(Sum(FreeBalances(r))), W64(Sum(FreeWeights(q)));
    assert NoneNew(r);
    hide Sum;
    if roots > 0 {
      var f := Floored(r, total, roots);
      assert NoneNew(f);
      var given := W64(Sum(FreeWeights(f)));
      if given < total { FixedKept(f, total - given); }
    }
  }

  lemma RootedEfforts(q: seq<Share>, cycleCounter: nat)
    ensures FreeBalances(Rooted(q, cycleCounter)) == Efforts(q, cycleCounter)
  {
    assert |Rooted(q, cycleCounter)| == |q|;
    forall i | 0 <= i < |q| ensures FreeBalances(Rooted(q, cycleCounter))[i] == Efforts(q, cycleCounter)[i] {}
  }

  lemma ReweightedPortions(q: seq<Share>, cycleCounter: nat)
    requires Small(q)
    ensures var z := Reweighted(q, cycleCounter); |z| == |q| && SharedWeights(q, z, cycleCounter)
  {
    hide Sum, Rooted, FreeWeights, Efforts, Portion, Distributed, FreeBalances;
    var r, e := Rooted(q, cycleCounter), Efforts(q, cycleCounter);
    RootedFacts(q, cycleCounter);
    RootedEfforts(q, cycleCounter);
    FreeAtMost(q);
    var s, w := Sum(e), Sum(FreeWeights(q));
    if s > 0 {
      var d := Distributed(r, w, s);
      DistributedKeeps(r, w, s);
      forall i, j | 0 <= i < j < |q| && !q[i].weightFixed && !q[j].weightFixed
        ensures Portion(d[i].weight, e[i], s, w)
      {
        DistributedPortion(r, w, s, i, j);
        EffortAt(r, i);
      }
    }
  }

  lemma EffortAt(r: seq<Share>, i: nat)
    requires i < |r| && !r[i].weightFixed
    ensures FreeBalances(r)[i] == r[i].balance
  {}

  lemma DistributedPortion(r: seq<Share>, w: nat, s: nat, i: nat, j: nat)
    requires i < j < |r| && !r[i].weightFixed && !r[j].weightFixed && s > 0 && w < CYCLE && r[i].balance <= 15
    ensures i < |Distributed(r, w, s)| && Portion(Distributed(r, w, s)[i].weight, r[i].balance, s, w)
  {
    hide Sum, Portion, Topped;
    var f := Floored(r, w, s);
    FloorOne(r[i], w, s);
    QuotientPortion(r[i].balance, w, s);
    assert !f[j].weightFixed;
    var given := W64(Sum(FreeWeights(f)));
    if given < w { ToppedBefore(f, w - given, i, j); }
  }

  // ---------- update_weights ----------

  /** update_weights keeps the total non-fixed weight and every fixed weight, shares the former out in proportion to
      the roots of the balances and one whole cycle in proportion to the weights, and sets all balances to zero,
      while the total weight is positive and below 2^32. */
  lemma UpdatedMeans(q: seq<Share>, cycleCounter: nat)
    requires Small(q)
    ensures var u := Updated(q, cycleCounter);
            && SameFixed(q, u) && Sum(FreeWeights(u)) == Sum(FreeWeights(q)) && Sum(Weights(u)) == Sum(Weights(q))
            && SharedWeights(q, u, cycleCounter) && SharedOut(u) && NoneNew(u)
            && forall i :: 0 <= i < |u| ==> u[i].balance == 0
  {
    hide Sum, Reweighted, Timed, Filled, Weights, FreeWeights, Times, SharedOut, Portion, Efforts;
    var z := Reweighted(q, cycleCounter);
    ReweightedKeeps(q, cycleCounter);
    ReweightedPortions(q, cycleCounter);
    ReweightedNotNew(q, cycleCounter);
    var t := Sum(Weights(z));
    assert z != [] by { if z == [] { SumNone(z); } }
    TimedKeeps(z, t);
    TimedPortions(z, t);
  }

  /** Whatever the total was before: a total that is in range afterwards has been shared out like that. */
  lemma UpdatedTimes(q: seq<Share>, cycleCounter: nat)
    requires q != []
    ensures var u := Updated(q, cycleCounter);
            |u| == |q| && (0 < Sum(Weights(u)) < CYCLE ==>
              SharedOut(u) && forall i :: 0 <= i < |u| ==> u[i].balance == 0)
  {
    var z := Reweighted(q, cycleCounter);
    ReweightedLength(q, cycleCounter);
    var t := W64(Sum(Weights(z)));
    hide Sum, Reweighted, Timed, Filled, Weights, FreeWeights, Times, SharedOut;
    if t > 0 {
      TimedKeeps(z, t);
      if 0 < Sum(Weights(z)) < CYCLE { TimedPortions(z, t); }
    }
  }

  lemma ReweightedLength(q: seq<Share>, cycleCounter: nat)
    ensures var z := Reweighted(q, cycleCounter);
            |z| == |q| && forall i :: 0 <= i < |z| ==> z[i].balance == 0
  {
    var r := Rooted(q, cycleCounter);
    var roots := W64(Sum(FreeBalances(r)));
    hide Sum;
    if roots > 0 {
      var total := W64(Sum(FreeWeights(q)));
      var f := Floored(r, total, roots);
      var given := W64(Sum(FreeWeights(f)));
      if given < total { FixedKept(f, total - given); }
    }
  }

  lemma SumNone(q: seq<Share>)
    requires q == []
    ensures Sum(Weights(q)) == 0
  {}

  /** The remainder goes to the last entry with a non-fixed weight. */
  lemma {:induction false} ToppedAt(q: seq<Share>, j: nat, extra: nat)
    requires j < |q| && !q[j].weightFixed && forall i :: j < i < |q| ==> q[i].weightFixed
    ensures Topped(q, extra) == q[j := q[j].(weight := W64(q[j].weight + extra))]
  {
    var k := |q| - 1;
    if j < k {
      ToppedAt(q[..k], j, extra);
      assert q[..k] + [q[k]] == q;
    }
  }
}
