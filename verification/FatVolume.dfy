/** The FAT file system object: entries read, written and claimed through the disk's read-write head. */
module FatVolume {
  import opened FatTable
  import opened FatChains

  /** The exceptions the FAT code throws. */
  datatype Failure = InvalidCluster | TooShort | TooLong | BadCluster | Reserved | OutOfFile

  datatype Result<+T> = Ok(value: T) | Err(error: Failure)

  /** The device below the file system: bytes and a head. */
  class Disk {
    var data: seq<byte>
    var head: nat

    method Seek(position: nat)
      modifies `head
      ensures head == position
    {
      head := position;
    }

    method Read(n: nat) returns (b: seq<byte>)
      requires head + n <= |data|
      modifies `head
      ensures b == data[old(head)..old(head) + n] && head == old(head) + n
    {
      b := data[head..head + n];
      head := head + n;
    }

    method Write(b: seq<byte>)
      requires head + |b| <= |data|
      modifies this
      ensures data == Over(old(data), old(head), b) && head == old(head) + |b|
    {
      data := Over(data, head, b);
      head := head + |b|;
    }
  }

  class FileSystem {
    const fh: Disk
    const g: Geometry

    constructor (fh: Disk, g: Geometry)
      ensures this.fh == fh && this.g == g
    {
      this.fh, this.g := fh, g;
    }

    method FindFatEntry(c: nat, f: nat) returns (r: Result<nat>)
      requires c >= 2 ==> CanAccess(g, fh.data, c, f)
      modifies fh`head
      ensures c < 2 ==> r == Err(InvalidCluster)
      ensures c >= 2 ==> r == Ok(Entry(g, fh.data, c, f))
    {
      if c < 2 { return Err(InvalidCluster); }
      fh.Seek(g.EntryIndex(c, f));
      match g.kind {
        case Fat12 =>
          var b := fh.Read(2);
          if c % 2 == 1 { return Ok(Word16(b, 0) / 16); }
          return Ok(Word16(b, 0) % 0x1000);
        case Fat16 =>
          var b := fh.Read(2);
          return Ok(Word16(b, 0));
        case Fat32 =>
          var b := fh.Read(4);
          return Ok(Word32(b, 0) % 0x1000_0000);
      }
    }

    method WriteFatEntry(c: nat, v: nat, f: nat) returns (r: Result<()>)
      requires c >= 2 ==> CanAccess(g, fh.data, c, f)
      modifies fh
      ensures c < 2 ==> r == Err(InvalidCluster) && fh.data == old(fh.data)
      ensures c >= 2 ==> r == Ok(()) && fh.data == Written(g, old(fh.data), c, v, f)
    {
      hide Word16, Word32, Low16, Low32, Over, Geometry.EntryIndex;
      if c < 2 { return Err(InvalidCluster); }
      var o := g.EntryIndex(c, f);
      fh.Seek(o);
      match g.kind {
        case Fat12 =>
          var b := fh.Read(2);
          WordOfSlice(fh.data, o);
          var e := if c % 2 == 1 then v * 16 + Word16(b, 0) % 16 else v % 0x1000 + Word16(b, 0) / 0x1000 * 0x1000;
          fh.Seek(fh.head - 2);
          fh.Write(Low16(e));
        case Fat16 =>
          fh.Write(Low16(v));
        case Fat32 =>
          var b := fh.Read(4);
          WordOfSlice(fh.data, o);
          fh.Seek(fh.head - 4);
          fh.Write(Low32(v % 0x1000_0000 + Word32(b, 0) / 0x1000_0000 * 0x1000_0000));
      }
      return Ok(());
    }

    /** Step i of the scan. */
    method ScanStep(i: nat) returns (e: nat)
      requires g.Holds(fh.data) && i < g.NumberOfFatEntries() && fh.head == g.TableStart(0) + i * g.Width()
      modifies fh`head
      ensures e == Scanned(g, fh.data, i) && fh.head == g.TableStart(0) + (i + 1) * g.Width()
    {
      hide Word16, Word32, Geometry.TableStart, Geometry.NumberOfFatEntries, Geometry.Holds;
      ScanFits(g, fh.data, i);
      WordOfSlice(fh.data, fh.head);
      match g.kind {
        case Fat12 =>
          var b := fh.Read(2);
          e := if i % 2 == 1 then Word16(b, 0) / 16 else Word16(b, 0) % 0x1000;
        case Fat16 =>
          var b := fh.Read(2);
          e := Word16(b, 0);
        case Fat32 =>
          var b := fh.Read(4);
          e := Word32(b, 0) % 0x1000_0000;
      }
    }

    /** The scan for a free cluster: the step it stops at, or nothing. */
    method FirstFree() returns (found: bool, k: nat)
      requires g.Holds(fh.data)
      modifies fh`head
      ensures found ==> StopsAt(g, fh.data, k)
      ensures !found ==> NeverStops(g, fh.data)
    {
      hide Geometry.Holds, Geometry.NumberOfFatEntries, Scanned;
      TableStart0(g);
      fh.Seek(g.rsvdSecCnt * g.bytsPerSec);
      k := 0;
      while k < g.NumberOfFatEntries()
        invariant k <= g.NumberOfFatEntries() && fh.head == g.TableStart(0) + k * g.Width()
        invariant forall i: nat :: i < k ==> Scanned(g, fh.data, i) != 0
      {
        var e := ScanStep(k);
        if e == 0 { return true, k; }
        k := k + 1;
      }
      return false, k;
    }

    /** find_free_cluster.  It succeeds with the lowest cluster whose scanned entry is zero, and chains it behind
        `last` in every copy; it fails to find one when entry 0 reads as zero; and when entry 1 does, it throws after
        having written that number into the first copy. */
    method FindFreeCluster(last: nat) returns (r: Result<nat>)
      requires g.Holds(fh.data) && g.NumberOfFatEntries() <= g.BadCluster()
      requires last == 0 || g.InTable(last)
      modifies fh
      ensures NeverStops(g, old(fh.data)) || StopsAt(g, old(fh.data), 0) ==> r == Ok(0) && fh.data == old(fh.data)
      ensures StopsAt(g, old(fh.data), 1) ==> r == Err(InvalidCluster)
      ensures StopsAt(g, old(fh.data), 1) ==>
                && CanWrite(g, old(fh.data), last)
                && fh.data == if last == 0 then old(fh.data) else Written(g, old(fh.data), last, 1, 0)
      ensures forall k: nat :: k >= 2 && StopsAt(g, old(fh.data), k) ==>
                g.InTable(k) && r == Ok(k) && fh.data == Extended(g, old(fh.data), last, k, g.numFats)
    {
      hide Geometry.EntryIndex, Scanned, Written;
      ghost var d := fh.data;
      var found, next := FirstFree();
      assert found ==> forall k: nat :: StopsAt(g, d, k) ==> k == next;
      if !found || next == 0 { return Ok(0); }
      if last != 0 { EntryAccess(g, d, last, 0); }
      if next >= 2 { FoundInTable(g, next); }
      var i := 0;
      while i < g.numFats
        invariant i <= g.numFats && (next == 1 ==> i == 0)
        invariant |fh.data| == |d|
        invariant next >= 2 ==> fh.data == Extended(g, d, last, next, i)
        invariant next == 1 ==> fh.data == d
      {
        if last != 0 {
          EntryAccess(g, fh.data, last, i);
          var w := WriteFatEntry(last, next, i);
        }
        if next >= 2 { EntryAccess(g, fh.data, next, i); }
        var w := WriteFatEntry(next, g.LastCluster(), i);
        if w.Err? { return Err(w.error); }
        i := i + 1;
      }
      return Ok(next);
    }
  }

  ghost predicate CanWrite(g: Geometry, d: seq<byte>, last: nat) {
    last == 0 || CanAccess(g, d, last, 0)
  }

  lemma WordOfSlice(d: seq<byte>, o: nat)
    ensures o + 2 <= |d| ==> Word16(d[o..o + 2], 0) == Word16(d, o)
    ensures o + 4 <= |d| ==> Word32(d[o..o + 4], 0) == Word32(d, o)
  {}

  lemma TableStart0(g: Geometry)
    ensures g.TableStart(0) == g.rsvdSecCnt * g.bytsPerSec
  {}

  lemma FoundInTable(g: Geometry, k: nat)
    requires g.NumberOfFatEntries() <= g.BadCluster() && 2 <= k < g.NumberOfFatEntries()
    ensures g.InTable(k)
  {
    var t := g.TableBytes();
    assert g.NumberOfFatEntries() == t / 4;
  }

  /** What find_fat_entry takes from the table for cluster number i, reserved numbers included. */
  function Stored(g: Geometry, d: seq<byte>, i: nat): nat
    requires CanAccess(g, d, i, 0)
  {
    Entry(g, d, i, 0)
  }

  /** A disk of zeros but for one byte. */
  function OneByte(n: nat, at: nat): seq<byte> {
    seq(n, i requires 0 <= i < n => if i == at then 0xFF else 0)
  }

  lemma ScannedInTable(g: Geometry, d: seq<byte>, i: nat)
    requires g.kind.Fat12? && g.Holds(d) && i < g.NumberOfFatEntries()
    ensures CanAccess(g, d, i, 0)
  {
    ScanFits(g, d, i);
  }

  /** What step i of the scan reads on FAT12: two bytes from 2 * i on, of which it takes twelve bits. */
  lemma Fat12ScanReads(g: Geometry, d: seq<byte>, i: nat)
    requires g.kind.Fat12? && g.Holds(d) && i < g.NumberOfFatEntries()
    ensures var o := g.rsvdSecCnt * g.bytsPerSec + 2 * i;
            && o + 2 <= |d|
            && Scanned(g, d, i) == if i % 2 == 1 then d[o] as int / 16 + 16 * d[o + 1] as int
                                   else d[o] as int + 0x100 * (d[o + 1] as int % 16)
  {
    ScanFits(g, d, i);
    var o := g.TableStart(0) + i * g.Width();
    HighPart(d[o] as int, d[o + 1] as int);
    LowTwelve(d[o] as int, d[o + 1] as int);
  }

  /** On FAT12 step i of the scan reads entry i, whatever is on the disk, if and only if i is 0. */
  lemma Fat12ScanIff(g: Geometry, i: nat)
    requires g.kind.Fat12? && g.numFats > 0 && i < g.NumberOfFatEntries()
    ensures (forall d :: g.Holds(d) ==> CanAccess(g, d, i, 0) && Scanned(g, d, i) == Stored(g, d, i)) <==> i == 0
  {
    forall d | g.Holds(d) ensures CanAccess(g, d, i, 0) {
      ScannedInTable(g, d, i);
    }
    if i > 0 {
      var o := g.TableStart(0) + 2 * i;
      var d := OneByte(g.TableStart(g.numFats), o + 1);
      assert g.Holds(d);
      ScanFits(g, d, i);
      assert Word16(d, o) == 0xFF00;
      assert Word16(d, g.EntryIndex(i, 0)) == 0;
      assert Scanned(g, d, i) != 0;
      assert Stored(g, d, i) == 0;
    }
  }

  /** Concretely: a volume of 100 clusters, as the constructor derives it, on which the scan stops at cluster 2,
      which is in use. */
  lemma Fat12ScanMisreads()
    ensures var g := Geometry(Fat12, 1, 1, 1, 512, 1, 3, 100);
            var d: seq<byte> := seq(102 * 512, i requires 0 <= i < 102 * 512 => if i == 512 then 0xF8
              else if i == 515 then 0x50 else 0);
            && g.Holds(d) && StopsAt(g, d, 2) && g.InTable(2) && CanAccess(g, d, 2, 0) && Entry(g, d, 2, 0) == 0x50
  {
    var g := Geometry(Fat12, 1, 1, 1, 512, 1, 3, 100);
    var d: seq<byte> := seq(102 * 512, i requires 0 <= i < 102 * 512 => if i == 512 then 0xF8
      else if i == 515 then 0x50 else 0);
    assert g.TableStart(0) == 512 && g.TableStart(1) == 1024 && g.TableBytes() == 512 && g.NumberOfFatEntries() == 128;
    assert Word16(d, 512) == 0xF8 && Word16(d, 514) == 0x5000 && Word16(d, 516) == 0 && Word16(d, 515) == 0x50;
    assert Scanned(g, d, 0) == 0xF8 && Scanned(g, d, 1) == 0x500 && Scanned(g, d, 2) == 0;
  }
}
