/** Seeking and reading along a cluster chain. */
module FatFile {
  import opened Machine
  import opened FatTable
  import opened FatChains
  import opened FatVolume

  // ---------- following a chain ----------

  /** Every cluster number up to the limit the code checks has an entry and a place on the disk. */
  ghost predicate Covers(g: Geometry, d: seq<byte>) {
    && g.ClusterSize() > 0
    && forall c: nat :: 2 <= c <= g.numberOfClusters ==> Usable(g, d, c)
  }

  ghost predicate Usable(g: Geometry, d: seq<byte>, c: nat)
    requires c >= 2
  {
    CanAccess(g, d, c, 0) && g.Address(c) + g.ClusterSize() <= |d|
  }

  /** The tests after each find_fat_entry. */
  function Checked(g: Geometry, e: nat): Result<nat> {
    if e == 0 then Err(TooShort)
    else if e == g.LastCluster() then Err(TooLong)
    else if e == g.BadCluster() then Err(BadCluster)
    else if e > g.numberOfClusters then Err(Reserved)
    else Ok(e)
  }

  /** One step along the chain. */
  ghost function Hop(g: Geometry, d: seq<byte>, c: nat): (r: Result<nat>)
    requires Covers(g, d) && c <= g.numberOfClusters
    ensures r.Ok? ==> 0 < r.value <= g.numberOfClusters && c >= 2
  {
    if c < 2 then Err(InvalidCluster) else assert Usable(g, d, c); Checked(g, Entry(g, d, c, 0))
  }

  /** The cluster k steps behind c. */
  ghost function Path(g: Geometry, d: seq<byte>, c: nat, k: nat): (r: Result<nat>)
    requires Covers(g, d) && c <= g.numberOfClusters
    ensures r.Ok? ==> r.value <= g.numberOfClusters
  {
    if k == 0 then Ok(c)
    else
      var p := Path(g, d, c, k - 1);
      if p.Err? then p else Hop(g, d, p.value)
  }

  lemma {:induction false} PathPrefix(g: Geometry, d: seq<byte>, c: nat, j: nat, k: nat)
    requires Covers(g, d) && c <= g.numberOfClusters && j < k && Path(g, d, c, k).Ok?
    ensures Path(g, d, c, j).Ok? && Path(g, d, c, j).value >= 2
  {
    if j < k - 1 { PathPrefix(g, d, c, j, k - 1); }
  }

  lemma {:induction false} PathStopped(g: Geometry, d: seq<byte>, c: nat, j: nat, k: nat)
    requires Covers(g, d) && c <= g.numberOfClusters && j <= k && Path(g, d, c, j).Err?
    ensures Path(g, d, c, k) == Path(g, d, c, j)
  {
    if j < k { PathStopped(g, d, c, j, k - 1); }
  }

  /** Byte i of the concatenated clusters from c on exists. */
  ghost predicate Reaches(g: Geometry, d: seq<byte>, c: nat, i: nat)
    requires Covers(g, d) && c <= g.numberOfClusters
  {
    Path(g, d, c, i / g.ClusterSize()).Ok? && Path(g, d, c, i / g.ClusterSize()).value >= 2
  }

  /** Where byte i of the concatenated clusters is on the disk. */
  ghost function Place(g: Geometry, d: seq<byte>, c: nat, i: nat): (r: nat)
    requires Covers(g, d) && c <= g.numberOfClusters && Reaches(g, d, c, i)
    ensures r < |d|
  {
    var k := Path(g, d, c, i / g.ClusterSize()).value;
    assert Usable(g, d, k);
    g.Address(k) + i % g.ClusterSize()
  }

  ghost predicate Bytes(g: Geometry, d: seq<byte>, c: nat, from: nat, b: seq<byte>)
    requires Covers(g, d) && c <= g.numberOfClusters
  {
    forall i: nat :: i < |b| ==> ByteAt(g, d, c, from + i, b[i])
  }

  ghost predicate ByteAt(g: Geometry, d: seq<byte>, c: nat, i: nat, v: byte)
    requires Covers(g, d) && c <= g.numberOfClusters
  {
    Reaches(g, d, c, i) && v == d[Place(g, d, c, i)]
  }

  lemma Within(cs: nat, q: nat, i: nat)
    requires i < cs
    ensures (q * cs + i) / cs == q && (q * cs + i) % cs == i
  {
    var x := q * cs + i;
    assert x == x / cs * cs + x % cs;
    Between(cs, q, i, x / cs, x % cs);
  }

  lemma LessSteps(cs: nat, q: nat, i: nat, q': nat)
    requires i < cs
    ensures q < q' ==> q * cs + i < q' * cs
  {
    if q < q' {
      AddSteps(cs, q, q' - q);
      NatProduct(q' - q - 1, cs);
      AddSteps(cs, q' - q - 1, 1);
    }
  }

  lemma AddSteps(cs: nat, a: nat, b: nat)
    ensures (a + b) * cs == a * cs + b * cs
  {}

  lemma NatProduct(a: nat, b: nat)
    ensures a * b >= 0
  {}

  lemma Between(cs: nat, q: nat, i: nat, q': nat, i': nat)
    requires i < cs && i' < cs && q * cs + i == q' * cs + i'
    ensures q == q' && i == i'
  {
    LessSteps(cs, q, i, q');
    LessSteps(cs, q', i', q);
  }

  lemma DivAtLeast(to: nat, cs: nat, k: nat)
    requires cs > 0 && to >= k * cs
    ensures to / cs >= k
  {
    assert to == to / cs * cs + to % cs;
    LessSteps(cs, to / cs, to % cs, k);
  }

  /** A stretch of one cluster, read in one go, continues the bytes of the chain. */
  lemma PieceAdds(g: Geometry, d: seq<byte>, c: nat, from: nat, b: seq<byte>, q: nat, w: nat, n: nat)
    requires Covers(g, d) && c <= g.numberOfClusters && Bytes(g, d, c, from, b)
    requires from + |b| == q * g.ClusterSize() + w && w + n <= g.ClusterSize()
    requires Path(g, d, c, q).Ok? && Path(g, d, c, q).value >= 2
    ensures var a := g.Address(Path(g, d, c, q).value) + w;
            a + n <= |d| && Bytes(g, d, c, from, b + d[a..a + n])
  {
    hide Geometry.Address, Geometry.ClusterSize, Path, Usable;
    var p := Path(g, d, c, q).value;
    assert Usable(g, d, p);
    UsableRange(g, d, p, w, n);
    var a := g.Address(p) + w;
    var e := d[a..a + n];
    forall i: nat | i < n ensures ByteAt(g, d, c, from + |b| + i, e[i]) {
      PlaceInPiece(g, d, c, q, w + i);
    }
    Concatenated(g, d, c, from, b, e);
  }

  lemma UsableRange(g: Geometry, d: seq<byte>, p: nat, w: nat, n: nat)
    requires p >= 2 && Usable(g, d, p) && w + n <= g.ClusterSize()
    ensures g.Address(p) + w + n <= |d|
  {}

  lemma PlaceInPiece(g: Geometry, d: seq<byte>, c: nat, q: nat, i: nat)
    requires Covers(g, d) && c <= g.numberOfClusters && i < g.ClusterSize()
    requires Path(g, d, c, q).Ok? && Path(g, d, c, q).value >= 2
    ensures var x := q * g.ClusterSize() + i;
            Reaches(g, d, c, x) && Place(g, d, c, x) == g.Address(Path(g, d, c, q).value) + i
  {
    hide Geometry.Address, Geometry.ClusterSize, Path, Usable;
    Within(g.ClusterSize(), q, i);
  }

  lemma Concatenated(g: Geometry, d: seq<byte>, c: nat, from: nat, b: seq<byte>, e: seq<byte>)
    requires Covers(g, d) && c <= g.numberOfClusters && Bytes(g, d, c, from, b) && Bytes(g, d, c, from + |b|, e)
    ensures Bytes(g, d, c, from, b + e)
  {
    hide ByteAt, Covers;
    forall i: nat | i < |b + e| ensures ByteAt(g, d, c, from + i, (b + e)[i]) {
      if i >= |b| {
        assert ByteAt(g, d, c, from + |b| + (i - |b|), e[i - |b|]);
      }
    }
  }

  // ---------- reading along a chain of the volume ----------

  /** A chain whose clusters pass the tests of the reader. */
  ghost predicate ReadableChain(g: Geometry, d: seq<byte>, cs: seq<nat>) {
    && g.Holds(d) && Chain(g, d, cs)
    && forall i :: 0 <= i < |cs| ==> 2 <= cs[i] <= g.numberOfClusters && cs[i] != g.BadCluster()
  }

  function Offset(g: Geometry, q: nat, j: nat): nat {
    q * g.ClusterSize() + j
  }

  lemma {:induction false} ChainPath(g: Geometry, d: seq<byte>, cs: seq<nat>, k: nat)
    requires Covers(g, d) && ReadableChain(g, d, cs) && k < |cs|
    ensures 2 <= cs[k] <= g.numberOfClusters && Path(g, d, cs[0], k) == Ok(cs[k])
  {
    hide Entry, Chain, Covers, Path, Hop;
    if k > 0 {
      ChainPath(g, d, cs, k - 1);
      ChainHop(g, d, cs, k - 1);
      PathNext(g, d, cs[0], k - 1, cs[k - 1]);
    } else {
      PathStart(g, d, cs[0]);
    }
  }

  lemma ChainHop(g: Geometry, d: seq<byte>, cs: seq<nat>, k: nat)
    requires Covers(g, d) && ReadableChain(g, d, cs) && k + 1 < |cs|
    ensures 2 <= cs[k] <= g.numberOfClusters && Hop(g, d, cs[k]) == Ok(cs[k + 1])
  {
    EndIff(g, d, cs, k);
    hide Entry, Chain;
  }

  lemma ChainStops(g: Geometry, d: seq<byte>, cs: seq<nat>)
    requires Covers(g, d) && ReadableChain(g, d, cs)
    ensures |cs| > 0 && cs[0] <= g.numberOfClusters && Path(g, d, cs[0], |cs|) == Err(TooLong)
  {
    hide Entry;
    ChainPath(g, d, cs, |cs| - 1);
    EndIff(g, d, cs, |cs| - 1);
    PathNext(g, d, cs[0], |cs| - 1, cs[|cs| - 1]);
  }

  /** Reading along a chain reaches exactly the bytes of its clusters: byte j of its cluster q, for every cluster. */
  lemma ChainReaches(g: Geometry, d: seq<byte>, cs: seq<nat>, q: nat, j: nat)
    requires Covers(g, d) && ReadableChain(g, d, cs) && j < g.ClusterSize()
    ensures |cs| > 0 && cs[0] <= g.numberOfClusters && (q < |cs| ==> cs[q] >= 2)
    ensures Reaches(g, d, cs[0], Offset(g, q, j)) <==> q < |cs|
    ensures q >= |cs| ==> Path(g, d, cs[0], q) == Err(TooLong)
    ensures q < |cs| ==>
              Place(g, d, cs[0], Offset(g, q, j)) ==
              g.firstDataSector * g.bytsPerSec + (cs[q] - 2) * (g.secPerClus * g.bytsPerSec) + j
  {
    hide Geometry.ClusterSize, Geometry.Address, Path, Usable, Reaches, ReadableChain;
    ChainStops(g, d, cs);
    if q < |cs| {
      ChainPath(g, d, cs, q);
      PlaceInPiece(g, d, cs[0], q, j);
      AddressIs(g, cs[q]);
    } else {
      LessSteps(g.ClusterSize(), |cs|, 0, q);
      Ahead(g, d, cs[0], |cs|, Offset(g, q, j));
      PathStopped(g, d, cs[0], |cs|, q);
    }
  }

  // ---------- the file ----------

  class File {
    const fs: FileSystem
    const fileSize: nat
    const firstCluster: nat
    var position: nat
    var within: nat
    var cluster: nat

    /** An empty file has no first cluster; the head goes to the first cluster of any other one. */
    constructor (fs: FileSystem, fileSize: nat, firstCluster: nat)
      requires firstCluster != 1
      modifies fs.fh`head
      ensures this.fs == fs && this.fileSize == fileSize && this.firstCluster == firstCluster
      ensures position == 0 && within == 0 && cluster == firstCluster
      ensures firstCluster == 0 ==> fs.fh.head == old(fs.fh.head)
      ensures Ready() && firstCluster >= 2 ==> Synced()
    {
      this.fs, this.fileSize, this.firstCluster := fs, fileSize, firstCluster;
      position, within, cluster := 0, 0, firstCluster;
      new;
      if firstCluster != 0 {
        fs.fh.Seek(fs.g.Address(firstCluster));
        if Ready() { OpenedAt(fs.g, fs.fh.data, firstCluster); }
      }
    }

    ghost predicate Ready()
      reads this, fs, fs.fh
    {
      Covers(fs.g, fs.fh.data) && firstCluster <= fs.g.numberOfClusters
    }

    /** The three position fields and the head of the device agree. */
    ghost predicate Synced()
      requires Ready()
      reads this, fs, fs.fh
    {
      && Reaches(fs.g, fs.fh.data, firstCluster, position)
      && cluster == Path(fs.g, fs.fh.data, firstCluster, position / fs.g.ClusterSize()).value
      && within == position % fs.g.ClusterSize()
      && fs.fh.head == fs.g.Address(cluster) + within
    }

    /** find_fat_entry and the four tests behind it. */
    method NextCluster(c: nat) returns (r: Result<nat>)
      requires Ready() && c <= fs.g.numberOfClusters
      modifies fs.fh`head
      ensures r == Hop(fs.g, fs.fh.data, c)
    {
      assert c >= 2 ==> Usable(fs.g, fs.fh.data, c);
      var e := fs.FindFatEntry(c, 0);
      if e.Err? { return e; }
      if e.value == 0 { return Err(TooShort); }
      else if e.value == fs.g.LastCluster() { return Err(TooLong); }
      else if e.value == fs.g.BadCluster() { return Err(BadCluster); }
      else if e.value > fs.g.numberOfClusters { return Err(Reserved); }
      return Ok(e.value);
    }

    /** The chain stops before byte `to` with this error. */
    ghost predicate StopsWith(e: Failure, to: nat)
      requires Ready()
      reads this, fs, fs.fh
    {
      var p := Path(fs.g, fs.fh.data, firstCluster, to / fs.g.ClusterSize());
      if p.Err? then e == p.error else p.value < 2 && e == InvalidCluster
    }

    /** set_position.  A position that differs from the current one and lies in the file is taken exactly when the
        chain reaches it, and then all fields and the head agree.  The value returned is the offset inside the
        cluster. */
    method SetPosition(to: nat) returns (r: Result<nat>)
      requires Ready()
      modifies this, fs.fh`head
      ensures to == old(position) ==> r == Ok(to) && unchanged(this) && unchanged(fs.fh)
      ensures to != old(position) && !(to < fileSize) && to != 0 ==>
                r == Err(OutOfFile) && unchanged(this) && unchanged(fs.fh)
      ensures to != old(position) && (to < fileSize || to == 0) ==>
                && position == to
                && (r.Ok? <==> Reaches(fs.g, fs.fh.data, firstCluster, to))
                && (r.Ok? ==> Synced() && r.value == within)
                && (r.Err? ==> within == old(within) && cluster == old(cluster) && StopsWith(r.error, to))
    {
      hide Geometry.Address, Geometry.ClusterSize, Path, Hop, Usable;
      if to == position { return Ok(to); }
      if (fileSize == 0 && to > 0) || (fileSize > 0 && to >= fileSize) { return Err(OutOfFile); }
      position := to;
      var rest, current := to, firstCluster;
      var cs := fs.g.ClusterSize();
      ghost var d, k := fs.fh.data, 0;
      PathStart(fs.g, d, firstCluster);
      while rest >= cs
        invariant to == k * cs + rest && rest >= 0
        invariant Ready() && fs.fh.data == d && position == to && within == old(within) && cluster == old(cluster)
        invariant current <= fs.g.numberOfClusters && Path(fs.g, d, firstCluster, k) == Ok(current)
        decreases rest
      {
        rest := rest - cs;
        var next := NextCluster(current);
        PathNext(fs.g, d, firstCluster, k, current);
        k := k + 1;
        assert k * cs == (k - 1) * cs + cs;
        if next.Err? {
          NotReached(fs.g, d, firstCluster, k, to);
          return next;
        }
        current := next.value;
      }
      Within(cs, k, rest);
      assert Path(fs.g, fs.fh.data, firstCluster, to / fs.g.ClusterSize()) == Ok(current);
      if current < 2 { return Err(InvalidCluster); }
      fs.fh.Seek(fs.g.Address(current) + rest);
      within := rest;
      cluster := current;
      return Ok(rest);
    }

    /** The cluster behind the current one, and its first `n` bytes; the head is left behind them. */
    method ReadNext(n: nat, ghost k: nat) returns (r: Result<seq<byte>>)
      requires Ready() && n <= fs.g.ClusterSize() && cluster <= fs.g.numberOfClusters
      requires Path(fs.g, fs.fh.data, firstCluster, k) == Ok(cluster)
      modifies fs.fh`head, `cluster, `position
      ensures var p := Path(fs.g, fs.fh.data, firstCluster, k + 1);
              && (r.Ok? <==> p.Ok? && p.value >= 2)
              && (r.Ok? ==> cluster == p.value && Taken(fs.g, fs.fh.data, cluster, n, r.value))
      ensures r.Ok? ==> fs.fh.head == fs.g.Address(cluster) + n && position == old(position) + n
    {
      hide Geometry.Address, Geometry.ClusterSize, Path, Hop;
      PathNext(fs.g, fs.fh.data, firstCluster, k, cluster);
      var next := NextCluster(cluster);
      if next.Err? { return Err(next.error); }
      if next.value < 2 { return Err(InvalidCluster); }
      UsableRange(fs.g, fs.fh.data, next.value, 0, n);
      fs.fh.Seek(fs.g.Address(next.value));
      var b := fs.fh.Read(n);
      position := position + n;
      cluster := next.value;
      return Ok(b);
    }

    lemma SyncedMeans() returns (q: nat)
      requires Ready() && Synced()
      ensures position == q * fs.g.ClusterSize() + within && within < fs.g.ClusterSize()
      ensures Path(fs.g, fs.fh.data, firstCluster, q) == Ok(cluster) && 2 <= cluster <= fs.g.numberOfClusters
      ensures fs.fh.head == fs.g.Address(cluster) + within
    {
      q := position / fs.g.ClusterSize();
      DivMod(position, fs.g.ClusterSize());
    }

    lemma SyncedAt(q: nat, i: nat)
      requires Ready() && i < fs.g.ClusterSize() && position == q * fs.g.ClusterSize() + i && within == i
      requires Path(fs.g, fs.fh.data, firstCluster, q) == Ok(cluster) && cluster >= 2
               && fs.fh.head == fs.g.Address(cluster) + i
      ensures Synced()
    {
      Within(fs.g.ClusterSize(), q, i);
    }

    lemma SyncedOnlyAtStart(h: nat)
      requires Ready() && within == 0 && cluster >= 2 && fs.fh.head == fs.g.Address(cluster) + h
      ensures Synced() ==> h == 0
    {}

    /** The whole clusters behind the first piece, and the last one in part. */
    method ReadOn(first: seq<byte>, size: nat, ghost from: nat, ghost q0: nat) returns (r: Result<seq<byte>>)
      requires Ready() && within == 0 && position == from + |first| == (q0 + 1) * fs.g.ClusterSize() && size > 0
      requires Path(fs.g, fs.fh.data, firstCluster, q0) == Ok(cluster) && cluster >= 2
      requires Bytes(fs.g, fs.fh.data, firstCluster, from, first)
      modifies fs.fh`head, `cluster, `position, `within
      ensures r.Ok? <==> Reaches(fs.g, fs.fh.data, firstCluster, from + |first| + size - 1)
      ensures r.Ok? ==> |r.value| == |first| + size && position == from + |r.value|
      ensures r.Ok? ==> Bytes(fs.g, fs.fh.data, firstCluster, from, r.value)
      ensures r.Ok? ==> (Synced() <==> size % fs.g.ClusterSize() != 0)
    {
      hide Geometry.Address, Geometry.ClusterSize, Path, Hop, Bytes, Usable, Checked, Reaches, Synced;
      var left, b, cs := size, first, fs.g.ClusterSize();
      ghost var d, q, end := fs.fh.data, q0, from + |first| + size - 1;
      ghost var j := 0;
      while left >= cs
        invariant Ready() && fs.fh.data == d && within == 0 && |b| + left == |first| + size
        invariant position == from + |b| == (q + 1) * cs && size == j * cs + left
        invariant Path(fs.g, d, firstCluster, q) == Ok(cluster) && 2 <= cluster <= fs.g.numberOfClusters
        invariant Bytes(fs.g, d, firstCluster, from, b)
        invariant j == 0 || fs.fh.head == fs.g.Address(cluster) + cs
      {
        var p := ReadNext(cs, q);
        if p.Err? {
          Ahead(fs.g, d, firstCluster, q + 1, end);
          return p;
        }
        PieceAdds(fs.g, d, firstCluster, from, b, q + 1, 0, cs);
        b := b + p.value;
        OneMore(cs, q + 1, j);
        q, j, left := q + 1, j + 1, left - cs;
      }
      Within(cs, j, left);
      if left > 0 {
        r := ReadLast(b, left, from, q);
      } else {
        SyncedOnlyAtStart(cs);
        LastByte(fs.g, d, firstCluster, from, b);
        r := Ok(b);
      }
    }

    /** The last cluster, in part. */
    method ReadLast(b: seq<byte>, left: nat, ghost from: nat, ghost q: nat) returns (r: Result<seq<byte>>)
      requires Ready() && position == from + |b| == (q + 1) * fs.g.ClusterSize() && 0 < left < fs.g.ClusterSize()
      requires Path(fs.g, fs.fh.data, firstCluster, q) == Ok(cluster) && cluster <= fs.g.numberOfClusters
      requires Bytes(fs.g, fs.fh.data, firstCluster, from, b)
      modifies fs.fh`head, `cluster, `position, `within
      ensures r.Ok? <==> Reaches(fs.g, fs.fh.data, firstCluster, from + |b| + left - 1)
      ensures r.Ok? ==> |r.value| == |b| + left && position == from + |r.value| && Synced()
      ensures r.Ok? ==> Bytes(fs.g, fs.fh.data, firstCluster, from, r.value)
    {
      hide Geometry.Address, Geometry.ClusterSize, Path, Hop, Bytes, Usable, Checked, Reaches, Synced;
      ghost var d := fs.fh.data;
      var p := ReadNext(left, q);
      if p.Err? {
        Ahead(fs.g, d, firstCluster, q + 1, from + |b| + left - 1);
        return p;
      }
      PieceAdds(fs.g, d, firstCluster, from, b, q + 1, 0, left);
      within := left;
      SyncedAt(q + 1, left);
      LastByte(fs.g, d, firstCluster, from, b + p.value);
      return Ok(b + p.value);
    }

    /** An empty file, to which nothing was written. */
    ghost predicate Empty()
      reads this, fs, fs.fh
    {
      fileSize == 0 && position == 0 && within == 0 && fs.fh.head <= |fs.fh.data|
    }

    /** read, from a position where the fields and the head agree.  It succeeds exactly when the chain reaches the
        last byte asked for, clipped to the file; what it delivers are the bytes of the concatenated clusters.
        Afterwards the fields and the head agree again exactly when nothing was read at the start of a cluster, or the
        read went into a further cluster and ended inside it. */
    method Read(size: nat) returns (r: Result<seq<byte>>)
      requires Ready() && (Synced() || Empty()) && position <= fileSize && position + size < U64
      modifies this, fs.fh`head
      ensures var n := Min(size, fileSize - old(position));
              r.Ok? <==> n == 0 || Reaches(fs.g, fs.fh.data, firstCluster, old(position) + n - 1)
      ensures r.Ok? ==> |r.value| == Min(size, fileSize - old(position)) && position == old(position) + |r.value|
      ensures r.Ok? ==> Bytes(fs.g, fs.fh.data, firstCluster, old(position), r.value)
      ensures r.Ok? && old(Synced()) ==> (Synced() <==> InStep(fs.g.ClusterSize(), old(within), |r.value|))
      ensures old(Empty()) ==> Empty()
    {
      hide Geometry.Address, Geometry.ClusterSize, Path, Hop, Bytes, Usable, Checked, Reaches, Synced;
      ghost var q, synced := 0, Synced();
      if synced { q := SyncedMeans(); }
      var n := if Add64(position, size) > fileSize then fileSize - position else size;
      var s := SetPosition(position + 0);
      var cs := fs.g.ClusterSize();
      ghost var d, from, w := fs.fh.data, position, within;
      var piece := cs - within;
      if piece > n { piece := n; }
      if synced { FirstPiece(fs.g, d, firstCluster, q, w, piece); }
      var b := fs.fh.Read(piece);
      position := position + piece;
      within := 0;
      OneMore(cs, q, 0);
      if n > piece {
        r := ReadOn(b, n - piece, from, q);
      } else {
        if synced { SyncedOnlyAtStart(w + n); }
        if synced && w + n == 0 { SyncedAt(q, 0); }
        if !synced { NoBytes(fs.g, d, firstCluster, from, b); }
        LastByte(fs.g, d, firstCluster, from, b);
        r := Ok(b);
      }
    }
  }

  lemma NoBytes(g: Geometry, d: seq<byte>, c: nat, from: nat, b: seq<byte>)
    requires Covers(g, d) && c <= g.numberOfClusters && b == []
    ensures Bytes(g, d, c, from, b)
  {}

  lemma OneMore(cs: nat, q: nat, j: nat)
    ensures (q + 1) * cs == q * cs + cs && (j + 1) * cs == j * cs + cs
  {}

  /** Nothing was read at the start of a cluster, or the read went into a further cluster and ended inside it. */
  predicate InStep(cs: nat, w: nat, n: nat)
    requires cs > 0
  {
    (n == 0 && w == 0) || (n > cs - w && (n - (cs - w)) % cs != 0)
  }

  lemma DivMod(x: nat, cs: nat)
    requires cs > 0
    ensures x == x / cs * cs + x % cs && x % cs < cs
  {}

  lemma FirstPiece(g: Geometry, d: seq<byte>, c: nat, q: nat, w: nat, n: nat)
    requires Covers(g, d) && c <= g.numberOfClusters && w + n <= g.ClusterSize()
    requires Path(g, d, c, q).Ok? && Path(g, d, c, q).value >= 2
    ensures var a := g.Address(Path(g, d, c, q).value) + w;
            a + n <= |d| && Bytes(g, d, c, q * g.ClusterSize() + w, d[a..a + n])
  {
    hide Geometry.Address, Geometry.ClusterSize, Path;
    PieceAdds(g, d, c, q * g.ClusterSize() + w, [], q, w, n);
    var a := g.Address(Path(g, d, c, q).value) + w;
    assert [] + d[a..a + n] == d[a..a + n];
  }

  ghost predicate Taken(g: Geometry, d: seq<byte>, p: nat, n: nat, b: seq<byte>) {
    p >= 2 && g.Address(p) + n <= |d| && b == d[g.Address(p)..g.Address(p) + n]
  }

  /** A chain that stops at step k does not reach bytes from there on. */
  lemma Ahead(g: Geometry, d: seq<byte>, c: nat, k: nat, to: nat)
    requires Covers(g, d) && c <= g.numberOfClusters && to >= k * g.ClusterSize()
    requires !(Path(g, d, c, k).Ok? && Path(g, d, c, k).value >= 2)
    ensures !Reaches(g, d, c, to)
  {
    hide Geometry.ClusterSize;
    var m := to / g.ClusterSize();
    DivAtLeast(to, g.ClusterSize(), k);
    if Path(g, d, c, m).Ok? && k < m { PathPrefix(g, d, c, k, m); }
  }

  lemma LastByte(g: Geometry, d: seq<byte>, c: nat, from: nat, b: seq<byte>)
    requires Covers(g, d) && c <= g.numberOfClusters && Bytes(g, d, c, from, b)
    ensures |b| > 0 ==> Reaches(g, d, c, from + |b| - 1)
  {
    hide Reaches;
    if |b| > 0 { assert ByteAt(g, d, c, from + (|b| - 1), b[|b| - 1]); }
  }

  lemma PathStart(g: Geometry, d: seq<byte>, c: nat)
    requires Covers(g, d) && c <= g.numberOfClusters
    ensures Path(g, d, c, 0) == Ok(c)
  {}

  lemma PathNext(g: Geometry, d: seq<byte>, c: nat, k: nat, p: nat)
    requires Covers(g, d) && c <= g.numberOfClusters && p <= g.numberOfClusters && Path(g, d, c, k) == Ok(p)
    ensures Path(g, d, c, k + 1) == Hop(g, d, p)
    ensures Hop(g, d, p).Ok? ==> 0 < Hop(g, d, p).value <= g.numberOfClusters
  {}

  lemma NotReached(g: Geometry, d: seq<byte>, c: nat, k: nat, to: nat)
    requires Covers(g, d) && c <= g.numberOfClusters && Path(g, d, c, k).Err? && to >= k * g.ClusterSize()
    ensures !Reaches(g, d, c, to) && Path(g, d, c, to / g.ClusterSize()) == Path(g, d, c, k)
  {
    hide Path, Geometry.ClusterSize;
    DivAtLeast(to, g.ClusterSize(), k);
    PathStopped(g, d, c, k, to / g.ClusterSize());
  }

  /** Where a file is opened. */
  lemma OpenedAt(g: Geometry, d: seq<byte>, c: nat)
    requires Covers(g, d) && 2 <= c <= g.numberOfClusters
    ensures Reaches(g, d, c, 0) && Path(g, d, c, 0 / g.ClusterSize()) == Ok(c) && 0 % g.ClusterSize() == 0
  {
    hide Geometry.ClusterSize;
    assert 0 == 0 * g.ClusterSize() + 0;
    Within(g.ClusterSize(), 0, 0);
  }

  /** Opening a file; cluster number 1 makes cluster_number_to_address throw. */
  method Open(fs: FileSystem, fileSize: nat, firstCluster: nat) returns (r: Result<File>)
    modifies fs.fh`head
    ensures r.Err? <==> firstCluster == 1
    ensures r.Err? ==> r.error == InvalidCluster && fs.fh.head == old(fs.fh.head)
    ensures r.Ok? ==>
              var f := r.value;
              && fresh(f) && f.fs == fs && f.fileSize == fileSize && f.firstCluster == firstCluster && f.position == 0
              && (f.Ready() && firstCluster >= 2 ==> f.Synced())
  {
    if firstCluster == 1 { return Err(InvalidCluster); }
    var f := new File(fs, fileSize, firstCluster);
    return Ok(f);
  }
}
