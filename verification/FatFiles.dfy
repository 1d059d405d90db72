/** Files beside each other: their bytes lie apart, and taking a new cluster for one leaves what all of them hold. */
module FatFiles {
  import opened Machine
  import opened FatTable
  import opened FatChains
  import opened FatVolume
  import opened FatFile

  /** Byte j of cluster q of a chain and byte j' of cluster q' of one are at one place only if both are the same byte of
      the same cluster. */
  lemma PlacesApart(g: Geometry, d: seq<byte>, cs: seq<nat>, q: nat, j: nat, cs': seq<nat>, q': nat, j': nat)
    requires Covers(g, d) && ReadableChain(g, d, cs) && ReadableChain(g, d, cs') && q < |cs| && q' < |cs'|
    requires j < g.ClusterSize() && j' < g.ClusterSize()
    ensures cs[0] <= g.numberOfClusters && Reaches(g, d, cs[0], Offset(g, q, j))
    ensures cs'[0] <= g.numberOfClusters && Reaches(g, d, cs'[0], Offset(g, q', j'))
    ensures Place(g, d, cs[0], Offset(g, q, j)) == Place(g, d, cs'[0], Offset(g, q', j')) <==>
            cs[q] == cs'[q'] && j == j'
  {
    hide Place, Reaches, Geometry.Address, Chain, Covers;
    ChainReaches(g, d, cs, q, j);
    ChainReaches(g, d, cs', q', j');
    AddressIs(g, cs[q]);
    AddressIs(g, cs'[q']);
    if cs[q] != cs'[q'] { ClustersApart(g, cs[q], cs'[q'], j, j'); }
  }

  /** As long as the entries of the clusters before lead along cs, cluster q is reached. */
  lemma {:induction false} PathAlong(g: Geometry, d: seq<byte>, cs: seq<nat>, q: nat)
    requires Covers(g, d) && g.Holds(d) && q < |cs|
    requires forall i :: 0 <= i < |cs| ==>
               2 <= cs[i] <= g.numberOfClusters && cs[i] != g.BadCluster() && g.InTable(cs[i])
    requires forall i :: 0 <= i < q ==> EntryIn(g, d, cs[i], 0) == cs[i + 1]
    ensures Path(g, d, cs[0], q) == Ok(cs[q])
  {
    hide Covers;
    if q > 0 {
      PathAlong(g, d, cs, q - 1);
      NextAlong(g, d, cs[q - 1], cs[q]);
      PathNext(g, d, cs[0], q - 1, cs[q - 1]);
    }
  }

  lemma NextAlong(g: Geometry, d: seq<byte>, c: nat, next: nat)
    requires Covers(g, d) && g.Holds(d) && g.InTable(c) && 2 <= c <= g.numberOfClusters
    requires 2 <= next <= g.numberOfClusters && next != g.BadCluster() && g.InTable(next)
    requires EntryIn(g, d, c, 0) == next
    ensures Hop(g, d, c) == Ok(next)
  {}

  /** A chain that breaks off: the error says how. */
  lemma BrokenChain(g: Geometry, d: seq<byte>, cs: seq<nat>, e: nat)
    requires Covers(g, d) && g.Holds(d) && |cs| > 0
    requires forall i :: 0 <= i < |cs| ==>
               2 <= cs[i] <= g.numberOfClusters && cs[i] != g.BadCluster() && g.InTable(cs[i])
    requires forall i :: 0 <= i < |cs| - 1 ==> EntryIn(g, d, cs[i], 0) == cs[i + 1]
    requires EntryIn(g, d, cs[|cs| - 1], 0) == e
    ensures e == 0 ==> Path(g, d, cs[0], |cs|) == Err(TooShort)
    ensures e == g.LastCluster() ==> Path(g, d, cs[0], |cs|) == Err(TooLong)
    ensures e == g.BadCluster() ==> Path(g, d, cs[0], |cs|) == Err(Failure.BadCluster)
    ensures e > g.numberOfClusters && e !in {g.LastCluster(), g.BadCluster()} ==>
              Path(g, d, cs[0], |cs|) == Err(Reserved)
  {
    hide Covers, Entry, Path, Hop, Geometry.InTable;
    var k := |cs| - 1;
    PathAlong(g, d, cs, k);
    PathNext(g, d, cs[0], k, cs[k]);
    LastHop(g, d, cs[k], e);
  }

  lemma LastHop(g: Geometry, d: seq<byte>, c: nat, e: nat)
    requires Covers(g, d) && g.Holds(d) && g.InTable(c) && 2 <= c <= g.numberOfClusters && EntryIn(g, d, c, 0) == e
    ensures Hop(g, d, c) == Checked(g, e)
  {}

  /** The clusters of a chain are reached as before. */
  lemma ExtendedPath(g: Geometry, d: seq<byte>, last: nat, next: nat, cs: seq<nat>, q: nat)
    requires VolumeOk(g, d) && g.InTable(next) && EntryIn(g, d, next, 0) == 0
    requires last == 0 || (g.InTable(last) && EntryIn(g, d, last, 0) == g.LastCluster())
    requires Covers(g, d) && ReadableChain(g, d, cs) && q < |cs|
    ensures var d' := Extended(g, d, last, next, g.numFats);
            Covers(g, d') && cs[q] >= 2 && cs[0] <= g.numberOfClusters && Path(g, d', cs[0], q) == Ok(cs[q])
  {
    hide Extended, Path, EntryIn, Covers, Usable;
    var d' := Extended(g, d, last, next, g.numFats);
    CoversLike(g, d, d');
    ExtensionKeepsChains(g, d, last, next);
    GrownEntries(g, d', cs, last, next, q);
    PathAlong(g, d', cs, q);
  }

  /** A cluster is taken for a chain, or for a new one: every byte of every readable chain is where it was and is what
      it was. */
  lemma FilesKeepContents(g: Geometry, d: seq<byte>, last: nat, next: nat, cs: seq<nat>, q: nat, j: nat)
    requires VolumeOk(g, d) && g.InTable(next) && EntryIn(g, d, next, 0) == 0 && DataBehind(g)
    requires last == 0 || (g.InTable(last) && EntryIn(g, d, last, 0) == g.LastCluster())
    requires Covers(g, d) && ReadableChain(g, d, cs) && q < |cs| && j < g.ClusterSize()
    ensures var d', i := Extended(g, d, last, next, g.numFats), Offset(g, q, j);
            && Covers(g, d') && cs[0] <= g.numberOfClusters
            && Reaches(g, d, cs[0], i) && Reaches(g, d', cs[0], i)
            && Place(g, d', cs[0], i) == Place(g, d, cs[0], i)
            && d'[Place(g, d', cs[0], i)] == d[Place(g, d, cs[0], i)]
  {
    hide Extended, Path, Geometry.Address, EntryIn, Geometry.ClusterSize, Usable, Reaches, Covers, Chain, CopiesEqual,
      Geometry.TableStart, Geometry.InTable, Place;
    var d', i := Extended(g, d, last, next, g.numFats), Offset(g, q, j);
    ExtendedPath(g, d, last, next, cs, q);
    PlaceInPiece(g, d', cs[0], q, j);
    ChainPath(g, d, cs, q);
    PlaceInPiece(g, d, cs[0], q, j);
    ClusterBehindTables(g, d, cs[q], 0);
    ExtendedKeepsData(g, d, last, next, g.numFats, Place(g, d, cs[0], i));
  }

  lemma CoversLike(g: Geometry, d: seq<byte>, d': seq<byte>)
    requires Covers(g, d) && |d| == |d'|
    ensures Covers(g, d')
  {
    forall c: nat | 2 <= c <= g.numberOfClusters ensures Usable(g, d', c) {
      assert Usable(g, d, c);
    }
  }

  lemma GrownEntries(g: Geometry, d: seq<byte>, cs: seq<nat>, last: nat, next: nat, q: nat)
    requires g.Holds(d) && q < |cs| && Chain(g, d, Grown(cs, last, next))
    ensures forall i :: 0 <= i < q ==> g.InTable(cs[i]) && EntryIn(g, d, cs[i], 0) == cs[i + 1]
  {
    var gs := Grown(cs, last, next);
    forall i | 0 <= i < q ensures g.InTable(cs[i]) && EntryIn(g, d, cs[i], 0) == cs[i + 1] {
      assert gs[i] == cs[i] && gs[i + 1] == cs[i + 1] && EntryIn(g, d, gs[i], 0) == Following(g, gs, i);
    }
  }
}
