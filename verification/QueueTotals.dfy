/** What two ready queues have in common, and what that says about their totals. */
module QueueTotals {
  import opened SchedShares
  import opened ReadyQueue

  function Entries(q: seq<GraphNode>): set<GraphNode> {
    set n | n in q
  }

  /** The entries of q that are not in r, in their order. */
  function Without(q: seq<GraphNode>, r: seq<GraphNode>): seq<GraphNode> {
    if q == [] then []
    else Without(q[..|q| - 1], r) + if q[|q| - 1] in r then [] else [q[|q| - 1]]
  }

  function Within(q: seq<GraphNode>, r: seq<GraphNode>): seq<GraphNode> {
    if q == [] then []
    else Within(q[..|q| - 1], r) + if q[|q| - 1] in r then [q[|q| - 1]] else []
  }

  function At(m: map<GraphNode, nat>, n: GraphNode): nat {
    if n in m then m[n] else 0
  }

  function Total(m: map<GraphNode, nat>, q: seq<GraphNode>): nat {
    if q == [] then 0 else Total(m, q[..|q| - 1]) + At(m, q[|q| - 1])
  }

  lemma {:induction false} TotalConcat(m: map<GraphNode, nat>, q: seq<GraphNode>, r: seq<GraphNode>)
    ensures Total(m, q + r) == Total(m, q) + Total(m, r)
  {
    if r == [] {
      assert q + r == q;
    } else {
      var k := |r| - 1;
      assert (q + r)[..|q + r| - 1] == q + r[..k];
      TotalConcat(m, q, r[..k]);
    }
  }

  lemma {:induction false} Members(q: seq<GraphNode>, r: seq<GraphNode>)
    ensures Entries(Without(q, r)) == Entries(q) - Entries(r)
    ensures Entries(Within(q, r)) == Entries(q) * Entries(r)
  {
    if q != [] {
      var k := |q| - 1;
      Members(q[..k], r);
      Appended(q[..k], q[k]);
      assert q == q[..k] + [q[k]];
      Appended(Without(q[..k], r), q[k]);
      Appended(Within(q[..k], r), q[k]);
    }
  }

  lemma Appended(q: seq<GraphNode>, n: GraphNode)
    ensures Entries(q + [n]) == Entries(q) + {n} && q + [] == q
  {
    forall m | m in q + [n] ensures m in Entries(q) + {n} {}
    forall m | m in Entries(q) + {n} ensures m in q + [n] {}
  }

  /** An entry stands somewhere in the queue. */
  lemma Where(q: seq<GraphNode>, n: GraphNode) returns (j: nat)
    requires n in Entries(q)
    ensures j < |q| && q[j] == n
  {
    j :| j < |q| && q[j] == n;
  }

  lemma {:induction false} Parted(m: map<GraphNode, nat>, q: seq<GraphNode>, r: seq<GraphNode>)
    ensures Total(m, q) == Total(m, Without(q, r)) + Total(m, Within(q, r))
  {
    if q != [] {
      var k := |q| - 1;
      Parted(m, q[..k], r);
      TotalConcat(m, Without(q[..k], r), if q[k] in r then [] else [q[k]]);
      TotalConcat(m, Within(q[..k], r), if q[k] in r then [q[k]] else []);
      Single(m, q[k]);
    }
  }

  lemma Single(m: map<GraphNode, nat>, n: GraphNode)
    ensures Total(m, [n]) == At(m, n) && Total(m, []) == 0
  {}

  lemma {:induction false} WithinObjects(q: seq<GraphNode>, r: seq<GraphNode>)
    requires Objects(q)
    ensures Objects(Within(q, r))
  {
    if q != [] {
      var k := |q| - 1;
      WithinObjects(q[..k], r);
      Members(q[..k], r);
      var w := Within(q[..k], r);
      forall i | 0 <= i < |w| ensures w[i] != q[k] {
        assert w[i] in Entries(w);
        var j := Where(q[..k], w[i]);
      }
    }
  }

  function Removed(r: seq<GraphNode>, j: nat): seq<GraphNode>
    requires j < |r|
  {
    r[..j] + r[j + 1..]
  }

  lemma RemovedMembers(r: seq<GraphNode>, j: nat)
    requires j < |r| && Objects(r)
    ensures Objects(Removed(r, j)) && Entries(Removed(r, j)) == Entries(r) - {r[j]}
  {
    forall n | n in r && n != r[j] ensures n in Removed(r, j) {
      var i :| 0 <= i < |r| && r[i] == n;
      assert Removed(r, j)[if i < j then i else i - 1] == n;
    }
    forall n | n in Removed(r, j) ensures n in r && n != r[j] {
      var i :| 0 <= i < |Removed(r, j)| && Removed(r, j)[i] == n;
      assert n == r[if i < j then i else i + 1];
    }
  }

  lemma RemovedTotal(m: map<GraphNode, nat>, r: seq<GraphNode>, j: nat)
    requires j < |r|
    ensures Total(m, r) == Total(m, Removed(r, j)) + At(m, r[j])
  {
    assert r == r[..j] + ([r[j]] + r[j + 1..]);
    TotalConcat(m, r[..j], [r[j]] + r[j + 1..]);
    TotalConcat(m, [r[j]], r[j + 1..]);
    TotalConcat(m, r[..j], r[j + 1..]);
    Single(m, r[j]);
  }

  lemma NoEntries(q: seq<GraphNode>)
    ensures q == [] <==> Entries(q) == {}
  {
    if q != [] { assert q[0] in Entries(q); }
  }

  /** The order of the entries does not matter. */
  lemma {:induction false} Reordered(m: map<GraphNode, nat>, q: seq<GraphNode>, r: seq<GraphNode>)
    requires Objects(q) && Objects(r) && Entries(q) == Entries(r)
    ensures Total(m, q) == Total(m, r)
  {
    NoEntries(q);
    NoEntries(r);
    if q != [] {
      var k := |q| - 1;
      assert q[k] in Entries(q);
      var j := Where(r, q[k]);
      RemovedMembers(r, j);
      RemovedMembers(q, k);
      assert Removed(q, k) == q[..k];
      Reordered(m, q[..k], Removed(r, j));
      RemovedTotal(m, r, j);
      RemovedTotal(m, q, k);
    }
  }

  /** Two queues differ in total by what is in one of them only. */
  lemma Balance(m: map<GraphNode, nat>, q: seq<GraphNode>, r: seq<GraphNode>)
    requires Objects(q) && Objects(r)
    ensures Total(m, q) + Total(m, Without(r, q)) == Total(m, r) + Total(m, Without(q, r))
  {
    Parted(m, q, r);
    Parted(m, r, q);
    Members(q, r);
    Members(r, q);
    WithinObjects(q, r);
    WithinObjects(r, q);
    Reordered(m, Within(q, r), Within(r, q));
  }

  lemma PartOf(q: seq<GraphNode>, r: seq<GraphNode>)
    ensures forall i :: 0 <= i < |Without(q, r)| ==> Without(q, r)[i] in q
  {
    Members(q, r);
    forall i | 0 <= i < |Without(q, r)| ensures Without(q, r)[i] in q {
      assert Without(q, r)[i] in Entries(Without(q, r));
    }
  }

  /** Time shares that nobody has given anew: two queues have the same sum of them if and only if what was dropped
      and what was gained have. */
  lemma StaleSums(q: seq<GraphNode>, r: seq<GraphNode>)
    requires Objects(q) && Objects(r)
    ensures Sum(Times(Shares(r))) == Sum(Times(Shares(q))) <==>
            Sum(Times(Shares(Without(q, r)))) == Sum(Times(Shares(Without(r, q))))
  {
    hide Sum, Total, Times, Shares, Without;
    var times := map n | n in q || n in r :: n.howLong;
    TimesAreTotal(q, times);
    TimesAreTotal(r, times);
    PartOf(q, r);
    PartOf(r, q);
    TimesAreTotal(Without(q, r), times);
    TimesAreTotal(Without(r, q), times);
    Balance(times, q, r);
  }

  /** The same entries in another order have the same sums. */
  lemma SameSums(q: seq<GraphNode>, r: seq<GraphNode>)
    requires Objects(q) && Objects(r) && Entries(q) == Entries(r)
    ensures Sum(Times(Shares(r))) == Sum(Times(Shares(q))) && Sum(Weights(Shares(r))) == Sum(Weights(Shares(q)))
  {
    hide Sum, Total, Times, Weights, Shares, Objects;
    var times := map n | n in q :: n.howLong;
    var weights := map n | n in q :: n.weight;
    Reordered(times, q, r);
    Reordered(weights, q, r);
    forall i | 0 <= i < |r| ensures r[i] in q { assert r[i] in Entries(r); }
    TimesAreTotal(q, times);
    TimesAreTotal(r, times);
    WeightsAreTotal(q, weights);
    WeightsAreTotal(r, weights);
  }

  lemma TimesAreTotal(q: seq<GraphNode>, m: map<GraphNode, nat>)
    requires forall i :: 0 <= i < |q| ==> q[i] in m && m[q[i]] == q[i].howLong
    ensures Sum(Times(Shares(q))) == Total(m, q)
  {
    SumIsTotal(q, m, Times(Shares(q)));
  }

  lemma WeightsAreTotal(q: seq<GraphNode>, m: map<GraphNode, nat>)
    requires forall i :: 0 <= i < |q| ==> q[i] in m && m[q[i]] == q[i].weight
    ensures Sum(Weights(Shares(q))) == Total(m, q)
  {
    SumIsTotal(q, m, Weights(Shares(q)));
  }

  /** Sums over the fields of the nodes are such totals. */
  lemma {:induction false} SumIsTotal(q: seq<GraphNode>, m: map<GraphNode, nat>, f: seq<nat>)
    requires |f| == |q| && forall i :: 0 <= i < |q| ==> f[i] == At(m, q[i])
    ensures Sum(f) == Total(m, q)
  {
    if q != [] {
      SumIsTotal(q[..|q| - 1], m, f[..|q| - 1]);
    }
  }
}
