/** Cluster chains and what find_free_cluster does to them. */
module FatChains {
  import opened FatTable

  /** What an acceptable volume promises beyond `Holds`: every copy is full size, the scanned cluster numbers fit
      an entry, and all copies are equal. */
  ghost predicate VolumeOk(g: Geometry, d: seq<byte>) {
    && g.Holds(d) && g.NumberOfFatEntries() <= g.BadCluster()
    && CopiesEqual(g, d)
  }

  ghost predicate CopiesEqual(g: Geometry, d: seq<byte>)
    requires g.Holds(d)
  {
    forall c: nat, f: nat :: g.InTable(c) && f < g.numFats ==> SameInCopy(g, d, c, f)
  }

  ghost predicate SameInCopy(g: Geometry, d: seq<byte>, c: nat, f: nat)
    requires g.Holds(d) && g.InTable(c) && f < g.numFats
  {
    EntryIn(g, d, c, f) == EntryIn(g, d, c, 0)
  }

  /** The entry of a cluster whose entry is in the table. */
  function EntryIn(g: Geometry, d: seq<byte>, c: nat, f: nat): nat
    requires g.Holds(d) && g.InTable(c) && f < g.numFats
  {
    EntryAccess(g, d, c, f);
    Entry(g, d, c, f)
  }

  // ---------- chains ----------

  /** cs is a whole chain: each entry names the next cluster, the last one holds the end mark. */
  ghost predicate Chain(g: Geometry, d: seq<byte>, cs: seq<nat>)
    requires g.Holds(d)
  {
    && |cs| > 0
    && (forall i :: 0 <= i < |cs| ==> g.InTable(cs[i]))
    && (forall i :: 0 <= i < |cs| ==> EntryIn(g, d, cs[i], 0) == Following(g, cs, i))
  }

  function Following(g: Geometry, cs: seq<nat>, i: nat): nat
    requires i < |cs|
  {
    if i + 1 < |cs| then cs[i + 1] else g.LastCluster()
  }

  lemma EndIff(g: Geometry, d: seq<byte>, cs: seq<nat>, i: nat)
    requires g.Holds(d) && Chain(g, d, cs) && i < |cs|
    ensures g.InTable(cs[i]) && EntryIn(g, d, cs[i], 0) == Following(g, cs, i)
    ensures i + 1 == |cs| <==> EntryIn(g, d, cs[i], 0) == g.LastCluster()
  {
    hide EntryIn;
    assert i + 1 < |cs| ==> g.InTable(cs[i + 1]);
  }

  /** Equal clusters in two chains are followed by equal clusters, to the end. */
  lemma {:induction false} SameTail(g: Geometry, d: seq<byte>, a: seq<nat>, b: seq<nat>, i: nat, j: nat)
    requires g.Holds(d) && Chain(g, d, a) && Chain(g, d, b)
    requires i < |a| && j < |b| && a[i] == b[j]
    ensures |a| - i == |b| - j && a[i..] == b[j..]
    decreases |a| - i
  {
    hide Chain, EntryIn, Geometry.InTable;
    EndIff(g, d, a, i);
    EndIff(g, d, b, j);
    if i + 1 < |a| {
      SameTail(g, d, a, b, i + 1, j + 1);
      assert a[i..] == [a[i]] + a[i + 1..] && b[j..] == [b[j]] + b[j + 1..];
    }
  }

  /** A chain never meets itself. */
  lemma ChainAcyclic(g: Geometry, d: seq<byte>, cs: seq<nat>, i: nat, j: nat)
    requires g.Holds(d) && Chain(g, d, cs) && i < j < |cs|
    ensures cs[i] != cs[j]
  {
    if cs[i] == cs[j] { SameTail(g, d, cs, cs, i, j); }
  }

  ghost predicate Disjoint(a: seq<nat>, b: seq<nat>) {
    forall i, j :: 0 <= i < |a| && 0 <= j < |b| ==> a[i] != b[j]
  }

  /** Two chains are disjoint exactly when they end in different clusters. */
  lemma DisjointIff(g: Geometry, d: seq<byte>, a: seq<nat>, b: seq<nat>)
    requires g.Holds(d) && Chain(g, d, a) && Chain(g, d, b)
    ensures Disjoint(a, b) <==> a[|a| - 1] != b[|b| - 1]
  {
    if !Disjoint(a, b) {
      var i, j :| 0 <= i < |a| && 0 <= j < |b| && a[i] == b[j];
      SameTail(g, d, a, b, i, j);
      assert a[i..][|a| - i - 1] == b[j..][|b| - j - 1];
    }
  }

  // ---------- find_free_cluster ----------

  /** What the loop of find_free_cluster sees at step i: it moves on by 2 or 4 bytes an entry, whatever the kind. */
  function Scanned(g: Geometry, d: seq<byte>, i: nat): nat
    requires g.Holds(d) && i < g.NumberOfFatEntries()
  {
    ScanFits(g, d, i);
    Decode(g.kind, i, WordAt(g, d, g.TableStart(0) + i * g.Width()))
  }

  lemma ScanFits(g: Geometry, d: seq<byte>, i: nat)
    requires g.Holds(d) && i < g.NumberOfFatEntries()
    ensures g.TableStart(0) + i * g.Width() + g.Width() <= |d|
    ensures i * g.Width() + g.Width() <= g.TableBytes()
  {
    TablesApart(g, d, 0, 0);
    hide Geometry.TableStart;
  }

  /** On FAT16 and FAT32 that is the entry of cluster i. */
  lemma ScannedIsEntry(g: Geometry, d: seq<byte>, i: nat)
    requires VolumeOk(g, d) && 2 <= i < g.NumberOfFatEntries() && !g.kind.Fat12?
    ensures g.InTable(i) && Scanned(g, d, i) == EntryIn(g, d, i, 0)
  {
    ScanFits(g, d, i);
    hide WordAt;
  }

  /** The scan stops at step k. */
  ghost predicate StopsAt(g: Geometry, d: seq<byte>, k: nat)
    requires g.Holds(d)
  {
    && k < g.NumberOfFatEntries() && Scanned(g, d, k) == 0
    && forall i: nat :: i < k ==> Scanned(g, d, i) != 0
  }

  ghost predicate NeverStops(g: Geometry, d: seq<byte>)
    requires g.Holds(d)
  {
    forall i: nat :: i < g.NumberOfFatEntries() ==> Scanned(g, d, i) != 0
  }

  /** The writes for the first n copies. */
  function Extended(g: Geometry, d: seq<byte>, last: nat, next: nat, n: nat): (r: seq<byte>)
    requires g.Holds(d) && n <= g.numFats && g.InTable(next) && (last != 0 ==> g.InTable(last))
    ensures |r| == |d|
  {
    if n == 0 then d
    else
      var d1 := Extended(g, d, last, next, n - 1);
      EntryAccess(g, d1, next, n - 1);
      if last == 0 then Written(g, d1, next, g.LastCluster(), n - 1)
      else
        EntryAccess(g, d1, last, n - 1);
        var d2 := Written(g, d1, last, next, n - 1);
        EntryAccess(g, d2, next, n - 1);
        Written(g, d2, next, g.LastCluster(), n - 1)
  }

  lemma WrittenEntry(g: Geometry, d: seq<byte>, c: nat, v: nat, f: nat, c': nat, f': nat)
    requires g.Holds(d) && g.InTable(c) && g.InTable(c') && f < g.numFats && f' < g.numFats
    ensures CanAccess(g, d, c, f) && |Written(g, d, c, v, f)| == |d|
    ensures EntryIn(g, Written(g, d, c, v, f), c', f') ==
            if c == c' && f == f' then v % g.Modulus() else EntryIn(g, d, c', f')
  {
    hide Written, Entry, Geometry.InTable;
    EntryAccess(g, d, c, f);
    if c == c' && f == f' { ReadAfterWrite(g, d, c, v, f); } else { OthersKept(g, d, c, v, f, c', f'); }
  }

  /** What every entry of every copy holds after the writes. */
  lemma {:induction false} ExtendedEntry(g: Geometry, d: seq<byte>, last: nat, next: nat, n: nat, c: nat, f: nat)
    requires g.Holds(d) && n <= g.numFats && g.InTable(next) && (last != 0 ==> g.InTable(last)) && last != next
    requires g.InTable(c) && f < g.numFats
    ensures EntryIn(g, Extended(g, d, last, next, n), c, f) ==
            if f >= n then EntryIn(g, d, c, f)
            else if c == next then g.LastCluster()
            else if c == last then next
            else EntryIn(g, d, c, f)
  {
    hide Written, EntryIn, Geometry.InTable;
    if n > 0 {
      ExtendedEntry(g, d, last, next, n - 1, c, f);
      var d1 := Extended(g, d, last, next, n - 1);
      LastFits(g, next);
      EntryAccess(g, d1, next, n - 1);
      if last == 0 {
        WrittenEntry(g, d1, next, g.LastCluster(), n - 1, c, f);
      } else {
        WrittenEntry(g, d1, last, next, n - 1, c, f);
        WrittenEntry(g, Written(g, d1, last, next, n - 1), next, g.LastCluster(), n - 1, c, f);
      }
      if c == 0 { NotZero(g, c); }
    }
  }

  lemma NotZero(g: Geometry, c: nat)
    requires g.InTable(c)
    ensures c >= 2
  {}

  lemma LastFits(g: Geometry, c: nat)
    requires g.InTable(c)
    ensures c % g.Modulus() == c && g.LastCluster() % g.Modulus() == g.LastCluster() && g.LastCluster() != 0
  {}

  /** The cluster found starts a chain, or extends the one that ended in `last`, by one that was on no chain;
      every other chain and the equality of the copies are kept. */
  lemma ExtensionKeepsChains(g: Geometry, d: seq<byte>, last: nat, next: nat)
    requires VolumeOk(g, d) && g.InTable(next) && EntryIn(g, d, next, 0) == 0
    requires last == 0 || (g.InTable(last) && EntryIn(g, d, last, 0) == g.LastCluster())
    ensures var d' := Extended(g, d, last, next, g.numFats);
            && VolumeOk(g, d')
            && (forall cs :: Chain(g, d, cs) ==> next !in cs && Chain(g, d', Grown(cs, last, next)))
            && (last == 0 ==> Chain(g, d', [next]))
  {
    var d' := Extended(g, d, last, next, g.numFats);
    LastFits(g, next);
    forall c: nat, f: nat | g.InTable(c) && f < g.numFats ensures SameInCopy(g, d', c, f) {
      ExtendedEntry(g, d, last, next, g.numFats, c, f);
      ExtendedEntry(g, d, last, next, g.numFats, c, 0);
      assert SameInCopy(g, d, c, f);
    }
    forall cs | Chain(g, d, cs) ensures next !in cs && Chain(g, d', Grown(cs, last, next)) {
      GrownIsChain(g, d, cs, last, next);
    }
    ExtendedEntry(g, d, last, next, g.numFats, next, 0);
  }

  /** The chain cs afterwards. */
  function Grown(cs: seq<nat>, last: nat, next: nat): seq<nat> {
    if last in cs then cs + [next] else cs
  }

  lemma GrownIsChain(g: Geometry, d: seq<byte>, cs: seq<nat>, last: nat, next: nat)
    requires g.Holds(d) && g.InTable(next) && EntryIn(g, d, next, 0) == 0 && Chain(g, d, cs)
    requires last == 0 || (g.InTable(last) && EntryIn(g, d, last, 0) == g.LastCluster())
    ensures next !in cs && Chain(g, Extended(g, d, last, next, g.numFats), Grown(cs, last, next))
  {
    hide EntryIn, Extended, Geometry.InTable;
    var d' := Extended(g, d, last, next, g.numFats);
    LastFits(g, next);
    NotZero(g, next);
    NotNext(g, d, cs, next);
    OnlyAtEnd(g, d, cs, last);
    forall i | 0 <= i < |cs|
      ensures EntryIn(g, d', cs[i], 0) == if cs[i] == last then next else EntryIn(g, d, cs[i], 0)
    {
      ExtendedEntry(g, d, last, next, g.numFats, cs[i], 0);
      assert cs[i] in cs;
    }
    ExtendedEntry(g, d, last, next, g.numFats, next, 0);
  }

  lemma NotNext(g: Geometry, d: seq<byte>, cs: seq<nat>, next: nat)
    requires g.Holds(d) && g.InTable(next) && EntryIn(g, d, next, 0) == 0 && Chain(g, d, cs)
    ensures next !in cs
  {
    LastFits(g, next);
    forall i | 0 <= i < |cs| ensures cs[i] != next {
      assert i + 1 < |cs| ==> g.InTable(cs[i + 1]);
    }
  }

  /** A cluster that holds the end mark can only be the last one of a chain. */
  lemma OnlyAtEnd(g: Geometry, d: seq<byte>, cs: seq<nat>, last: nat)
    requires g.Holds(d) && Chain(g, d, cs)
    requires last == 0 || (g.InTable(last) && EntryIn(g, d, last, 0) == g.LastCluster())
    ensures last in cs <==> cs[|cs| - 1] == last
    ensures forall i :: 0 <= i < |cs| && cs[i] == last ==> i == |cs| - 1
  {
    forall i | 0 <= i < |cs| && cs[i] == last ensures i == |cs| - 1 {
      NotZero(g, cs[i]);
      assert i + 1 < |cs| ==> g.InTable(cs[i + 1]);
    }
  }

  /** Disjoint chains stay disjoint, the new chain included. */
  lemma GrownDisjoint(g: Geometry, d: seq<byte>, a: seq<nat>, b: seq<nat>, last: nat, next: nat)
    requires g.Holds(d) && Chain(g, d, a) && Chain(g, d, b) && Disjoint(a, b)
    requires g.InTable(next) && EntryIn(g, d, next, 0) == 0
    ensures Disjoint(Grown(a, last, next), Grown(b, last, next)) && Disjoint(Grown(a, 0, next), [next])
  {
    hide EntryIn, Geometry.InTable;
    NotNext(g, d, a, next);
    NotNext(g, d, b, next);
    forall i | 0 <= i < |a| ensures a[i] != 0 { NotZero(g, a[i]); }
    forall i, j | 0 <= i < |Grown(a, last, next)| && 0 <= j < |Grown(b, last, next)|
      ensures Grown(a, last, next)[i] != Grown(b, last, next)[j]
    {
      if i < |a| { assert a[i] in a; }
      if j < |b| { assert b[j] in b; }
    }
  }

  /** find_free_cluster on FAT16 and FAT32, where the scan stops at cluster k: it was free, and the lowest free
      one; chaining it behind the last cluster of a chain, or behind nothing, extends that chain, or starts one, and
      leaves every other chain and the data of every cluster alone. */
  lemma FoundClusterExtends(g: Geometry, d: seq<byte>, last: nat, k: nat)
    requires VolumeOk(g, d) && !g.kind.Fat12? && k >= 2 && StopsAt(g, d, k)
    requires last == 0 || (g.InTable(last) && EntryIn(g, d, last, 0) == g.LastCluster())
    ensures g.InTable(k) && EntryIn(g, d, k, 0) == 0
    ensures forall i: nat :: 2 <= i < k ==> g.InTable(i) && EntryIn(g, d, i, 0) != 0
    ensures var d' := Extended(g, d, last, k, g.numFats);
            && VolumeOk(g, d')
            && (forall cs :: Chain(g, d, cs) ==> k !in cs && Chain(g, d', Grown(cs, last, k)))
            && (last == 0 ==> Chain(g, d', [k]))
            && d'[g.TableStart(g.numFats)..] == d[g.TableStart(g.numFats)..]
  {
    hide EntryIn, Scanned, Chain, Extended, CopiesEqual;
    ScannedIsEntry(g, d, k);
    forall i: nat | 2 <= i < k ensures g.InTable(i) && EntryIn(g, d, i, 0) != 0 {
      ScannedIsEntry(g, d, i);
    }
    ExtensionKeepsChains(g, d, last, k);
    var d' := Extended(g, d, last, k, g.numFats);
    forall i | g.TableStart(g.numFats) <= i < |d| ensures d'[i] == d[i] {
      ExtendedKeepsData(g, d, last, k, g.numFats, i);
    }
  }

  /** The writes stay inside the tables. */
  lemma {:induction false} ExtendedKeepsData(g: Geometry, d: seq<byte>, last: nat, next: nat, n: nat, i: nat)
    requires g.Holds(d) && n <= g.numFats && g.InTable(next) && (last != 0 ==> g.InTable(last))
    requires g.TableStart(g.numFats) <= i < |d|
    ensures Extended(g, d, last, next, n)[i] == d[i]
  {
    hide Written;
    if n > 0 {
      ExtendedKeepsData(g, d, last, next, n - 1, i);
      var d1 := Extended(g, d, last, next, n - 1);
      WrittenInTable(g, d1, next, g.LastCluster(), n - 1, i);
      if last != 0 {
        WrittenInTable(g, d1, last, next, n - 1, i);
        WrittenInTable(g, Written(g, d1, last, next, n - 1), next, g.LastCluster(), n - 1, i);
      }
    }
  }

  lemma WrittenInTable(g: Geometry, d: seq<byte>, c: nat, v: nat, f: nat, i: nat)
    requires g.Holds(d) && g.InTable(c) && f < g.numFats && g.TableStart(g.numFats) <= i < |d|
    ensures CanAccess(g, d, c, f) && |Written(g, d, c, v, f)| == |d| && Written(g, d, c, v, f)[i] == d[i]
  {
    hide Written, Geometry.TableStart, Geometry.TableBytes;
    EntryAccess(g, d, c, f);
    TableEnds(g, f);
    BytesKept(g, d, c, v, f, i);
  }

  lemma TableEnds(g: Geometry, f: nat)
    requires f < g.numFats
    ensures g.TableStart(f) + g.TableBytes() <= g.TableStart(g.numFats)
  {
    TableStartIs(g, f);
    TableStartIs(g, g.numFats);
    Steps(f, g.numFats, g.TableBytes());
  }

  /** The two reserved entries are in use. */
  ghost predicate ReservedInUse(g: Geometry, d: seq<byte>)
    requires g.Holds(d)
  {
    forall i: nat :: i < 2 && i < g.NumberOfFatEntries() ==> Scanned(g, d, i) != 0
  }

  ghost predicate FreeCluster(g: Geometry, d: seq<byte>, c: nat)
    requires g.Holds(d)
  {
    g.InTable(c) && EntryIn(g, d, c, 0) == 0
  }

  /** On FAT16 and FAT32 nothing is found exactly when no cluster is free whose number, times four, lies in the table.
      On FAT32 that is every cluster with an entry. */
  lemma NothingFoundIff(g: Geometry, d: seq<byte>)
    requires VolumeOk(g, d) && !g.kind.Fat12? && ReservedInUse(g, d)
    ensures NeverStops(g, d) <==> forall c: nat :: FreeCluster(g, d, c) ==> 4 * c + 4 > g.fatSz * g.bytsPerSec
    ensures g.kind.Fat32? ==> (NeverStops(g, d) <==> forall c: nat :: !FreeCluster(g, d, c))
  {
    hide Scanned, EntryIn, CopiesEqual;
    var n := g.fatSz * g.bytsPerSec;
    forall c: nat ensures c < g.NumberOfFatEntries() <==> 4 * c + 4 <= n {
      InFourths(n, c);
    }
    forall i: nat | 2 <= i < g.NumberOfFatEntries() ensures Scanned(g, d, i) == 0 <==> FreeCluster(g, d, i) {
      ScannedIsEntry(g, d, i);
    }
  }

  lemma InFourths(n: nat, c: nat)
    ensures c < n / 4 <==> 4 * c + 4 <= n
  {}

  /** A FAT16 volume of 5000 clusters, as the constructor derives it from 512-byte sectors, one sector a cluster,
      one table of 20 sectors and 16 root directory entries. */
  function SmallFat16(): Geometry {
    Geometry(Fat16, 1, 1, 20, 512, 1, 22, 5000)
  }

  /** Its disk with the first half of the table in use. */
  function HalfFull(): seq<byte> {
    seq(5021 * 512, i requires 0 <= i < 5021 * 512 => if 512 <= i < 512 + 5120 then 0xFF else 0)
  }

  /** The scan of a FAT16 table stops halfway: here cluster 4000 is free and is not found. */
  lemma Fat16ScansHalf()
    ensures var g, d := SmallFat16(), HalfFull();
            && g.Holds(d) && 4000 <= g.numberOfClusters
            && ReservedInUse(g, d) && FreeCluster(g, d, 4000) && NeverStops(g, d)
  {
    var g, d := SmallFat16(), HalfFull();
    assert g.TableStart(0) == 512 && g.TableStart(1) == 21 * 512 && g.TableBytes() == 10240
      && g.NumberOfFatEntries() == 2560;
    forall i: nat | i < 2560 ensures Scanned(g, d, i) != 0 {
      assert Word16(d, 512 + 2 * i) == 0xFFFF;
    }
    assert Word16(d, 512 + 8000) == 0;
  }
}
