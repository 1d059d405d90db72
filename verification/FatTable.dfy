/** The FAT entry codec and the geometry of a FAT volume. */
module FatTable {

  type byte = x: int | 0 <= x < 256

  datatype Kind = Fat12 | Fat16 | Fat32

  /** What the constructor reads from the boot sector and derives from it. */
  datatype Geometry = Geometry(
    kind: Kind, rsvdSecCnt: nat, numFats: nat, fatSz: nat, bytsPerSec: nat, secPerClus: nat,
    firstDataSector: nat, numberOfClusters: nat)
  {
    function TableBytes(): nat {
      fatSz * bytsPerSec
    }

    function NumberOfFatEntries(): nat {
      fatSz * bytsPerSec / 4
    }

    function ClusterSize(): nat {
      secPerClus * bytsPerSec
    }

    function BadCluster(): nat {
      match kind case Fat12 => 0xFF7 case Fat16 => 0xFFF7 case Fat32 => 0xFFF_FFF7
    }

    function LastCluster(): nat {
      match kind case Fat12 => 0xFFF case Fat16 => 0xFFFF case Fat32 => 0xFFF_FFFF
    }

    /** Entries are numbers below this one. */
    function Modulus(): nat {
      match kind case Fat12 => 0x1000 case Fat16 => 0x1_0000 case Fat32 => 0x1000_0000
    }

    /** Bytes that an access to one entry touches. */
    function Width(): nat {
      if kind.Fat32? then 4 else 2
    }

    /** Section 4.1 of the Microsoft FAT Specification. */
    function FatOffset(c: nat): nat {
      match kind case Fat12 => c + c / 2 case Fat16 => c * 2 case Fat32 => c * 4
    }

    /** Where copy f of the table starts. */
    function TableStart(f: nat): nat {
      (rsvdSecCnt + f * fatSz) * bytsPerSec
    }

    /** cluster_number_to_fat_entry_index, for the cluster numbers it accepts. */
    function EntryIndex(c: nat, f: nat): nat {
      FatOffset(c) + TableStart(f)
    }

    /** cluster_number_to_address, for the cluster numbers it accepts. */
    function Address(c: nat): nat
      requires c >= 2
    {
      ((c - 2) * secPerClus + firstDataSector) * bytsPerSec
    }

    /** The cluster number is not reserved and its entry lies in the table. */
    predicate InTable(c: nat) {
      2 <= c < LastCluster() && FatOffset(c) + Width() <= TableBytes()
    }

    /** All copies of the table lie on the disk. */
    predicate Holds(d: seq<byte>) {
      numFats > 0 && TableStart(numFats) <= |d|
    }
  }

  // ---------- words on the disk ----------

  function Word16(d: seq<byte>, o: nat): nat
    requires o + 2 <= |d|
  {
    d[o] as int + 0x100 * d[o + 1] as int
  }

  function Word32(d: seq<byte>, o: nat): nat
    requires o + 4 <= |d|
  {
    Word16(d, o) + 0x1_0000 * Word16(d, o + 2)
  }

  function ByteOf(v: nat): byte {
    v % 0x100
  }

  /** The two low bytes of v. */
  function Low16(v: nat): (b: seq<byte>)
    ensures |b| == 2
  {
    [ByteOf(v), ByteOf(v / 0x100)]
  }

  function Low32(v: nat): (b: seq<byte>)
    ensures |b| == 4
  {
    Low16(v) + Low16(v / 0x1_0000)
  }

  /** The disk after bytes b are written at o. */
  function Over(d: seq<byte>, o: nat, b: seq<byte>): (r: seq<byte>)
    requires o + |b| <= |d|
    ensures |r| == |d|
    ensures forall i :: 0 <= i < |d| ==> r[i] == if o <= i < o + |b| then b[i - o] else d[i]
  {
    d[..o] + b + d[o + |b|..]
  }

  lemma Low16Back(v: nat)
    ensures Word16(Low16(v), 0) == v % 0x1_0000
  {
    LowBytesOf(v);
  }

  lemma LowBytesOf(v: nat)
    ensures v % 0x1_0000 == v % 0x100 + 0x100 * (v / 0x100 % 0x100)
  {
    var h := v / 0x100;
    assert v == h / 0x100 * 0x1_0000 + (v % 0x100 + 0x100 * (h % 0x100));
  }

  lemma Low32Back(v: nat)
    ensures Word32(Low32(v), 0) == v % 0x1_0000_0000
  {
    var h := v / 0x1_0000;
    Low16Back(v);
    Low16Back(h);
    hide Low16;
    assert Low32(v)[..2] == Low16(v) && Low32(v)[2..] == Low16(h);
    assert Word32(Low32(v), 0) == Word16(Low16(v), 0) + 0x1_0000 * Word16(Low16(h), 0);
    Halves(v);
  }

  lemma Halves(v: nat)
    ensures v % 0x1_0000_0000 == v % 0x1_0000 + 0x1_0000 * (v / 0x1_0000 % 0x1_0000)
  {}

  // ---------- entries ----------

  /** What find_fat_entry takes out of the word it reads: 12, 16 or 28 bits. */
  function Decode(kind: Kind, c: nat, w: nat): nat {
    match kind
    case Fat12 => if c % 2 == 1 then w / 16 else w % 0x1000
    case Fat16 => w
    case Fat32 => w % 0x1000_0000
  }

  /** What write_fat_entry stores for v over the old word w.  The two parts of each sum have no bit in common. */
  function Encode(kind: Kind, c: nat, v: nat, w: nat): nat {
    match kind
    case Fat12 => if c % 2 == 1 then v * 16 + w % 16 else v % 0x1000 + w / 0x1000 * 0x1000
    case Fat16 => v
    case Fat32 => v % 0x1000_0000 + w / 0x1000_0000 * 0x1000_0000
  }

  function WordAt(g: Geometry, d: seq<byte>, o: nat): nat
    requires o + g.Width() <= |d|
  {
    if g.kind.Fat32? then Word32(d, o) else Word16(d, o)
  }

  function LowBytes(g: Geometry, v: nat): (b: seq<byte>)
    ensures |b| == g.Width()
  {
    if g.kind.Fat32? then Low32(v) else Low16(v)
  }

  predicate CanAccess(g: Geometry, d: seq<byte>, c: nat, f: nat) {
    g.EntryIndex(c, f) + g.Width() <= |d|
  }

  /** The entry of cluster c in copy f. */
  function Entry(g: Geometry, d: seq<byte>, c: nat, f: nat): nat
    requires CanAccess(g, d, c, f)
  {
    Decode(g.kind, c, WordAt(g, d, g.EntryIndex(c, f)))
  }

  /** The disk after write_fat_entry(c, v, f). */
  function Written(g: Geometry, d: seq<byte>, c: nat, v: nat, f: nat): (r: seq<byte>)
    requires CanAccess(g, d, c, f)
    ensures |r| == |d|
  {
    var o := g.EntryIndex(c, f);
    Over(d, o, LowBytes(g, Encode(g.kind, c, v, WordAt(g, d, o))))
  }

  /** What an entry is, byte by byte: twelve bits of two bytes, the upper ones for an odd cluster number, sixteen
      bits, or the lower twenty-eight of thirty-two, the low byte first. */
  lemma EntryBytes(g: Geometry, d: seq<byte>, c: nat, f: nat)
    requires CanAccess(g, d, c, f)
    ensures var start := (g.rsvdSecCnt + f * g.fatSz) * g.bytsPerSec;
            match g.kind
            case Fat12 =>
              var o := start + c + c / 2;
              && o + 2 <= |d|
              && Entry(g, d, c, f) == if c % 2 == 1 then d[o] as int / 16 + 16 * d[o + 1] as int
                                      else d[o] as int + 0x100 * (d[o + 1] as int % 16)
            case Fat16 =>
              var o := start + 2 * c;
              o + 2 <= |d| && Entry(g, d, c, f) == d[o] as int + 0x100 * d[o + 1] as int
            case Fat32 =>
              var o := start + 4 * c;
              && o + 4 <= |d|
              && Entry(g, d, c, f) == d[o] as int + 0x100 * d[o + 1] as int + 0x1_0000 * d[o + 2] as int
                                      + 0x100_0000 * (d[o + 3] as int % 16)
  {
    hide Geometry.TableStart;
    assert g.TableStart(f) == (g.rsvdSecCnt + f * g.fatSz) * g.bytsPerSec by { StartIs(g, f); }
    var o := g.EntryIndex(c, f);
    match g.kind
    case Fat12 =>
      HighPart(d[o] as int, d[o + 1] as int);
      LowTwelve(d[o] as int, d[o + 1] as int);
    case Fat16 =>
    case Fat32 => LowTwentyEight(Word16(d, o), d[o + 2] as int, d[o + 3] as int);
  }

  lemma StartIs(g: Geometry, f: nat)
    ensures g.TableStart(f) == (g.rsvdSecCnt + f * g.fatSz) * g.bytsPerSec
  {}

  lemma LowTwentyEight(w: nat, x: nat, y: nat)
    requires w < 0x1_0000 && x < 0x100 && y < 0x100
    ensures (w + 0x1_0000 * (x + 0x100 * y)) % 0x1000_0000 == w + 0x1_0000 * x + 0x100_0000 * (y % 16)
  {
    assert y == y / 16 * 16 + y % 16;
    assert w + 0x1_0000 * (x + 0x100 * y) == y / 16 * 0x1000_0000 + (w + 0x1_0000 * x + 0x100_0000 * (y % 16));
  }

  /** The end mark is the largest value an entry can hold, the mark for a bad cluster comes eight before it. */
  lemma Marks(g: Geometry)
    ensures g.LastCluster() == g.Modulus() - 1 && g.BadCluster() == g.LastCluster() - 8
  {}

  /** Copies of the table do not overlap and lie on the disk. */
  lemma TablesApart(g: Geometry, d: seq<byte>, f: nat, f': nat)
    requires g.Holds(d) && f < g.numFats && f' < g.numFats
    ensures g.TableStart(f) + g.TableBytes() <= |d|
    ensures f < f' ==> g.TableStart(f) + g.TableBytes() <= g.TableStart(f')
  {
    TableStartIs(g, f);
    TableStartIs(g, f');
    TableStartIs(g, g.numFats);
    var s := g.TableBytes();
    Steps(f, g.numFats, s);
    if f < f' { Steps(f, f', s); }
  }

  lemma TableStartIs(g: Geometry, f: nat)
    ensures g.TableStart(f) == g.rsvdSecCnt * g.bytsPerSec + f * g.TableBytes()
  {
    assert f * g.fatSz * g.bytsPerSec == f * (g.fatSz * g.bytsPerSec);
  }

  lemma Steps(a: nat, b: nat, s: nat)
    requires a < b
    ensures a * s + s <= b * s
  {
    NotNegative(b - a - 1, s);
    Added(a, 1, s);
    Added(a + 1, b - a - 1, s);
  }

  lemma Added(a: nat, b: nat, s: nat)
    ensures (a + b) * s == a * s + b * s
  {}

  lemma EntryAccess(g: Geometry, d: seq<byte>, c: nat, f: nat)
    requires g.Holds(d) && g.InTable(c) && f < g.numFats
    ensures CanAccess(g, d, c, f)
  {
    hide Geometry.TableStart, Geometry.TableBytes;
    TablesApart(g, d, f, f);
  }

  // ---------- where clusters lie ----------

  /** Clusters follow one another from the first data sector on, number 2 first. */
  lemma AddressIs(g: Geometry, c: nat)
    requires c >= 2
    ensures g.Address(c) == g.firstDataSector * g.bytsPerSec + (c - 2) * (g.secPerClus * g.bytsPerSec)
  {
    assert (c - 2) * g.secPerClus * g.bytsPerSec == (c - 2) * (g.secPerClus * g.bytsPerSec);
  }

  /** Two clusters share no byte. */
  lemma ClustersApart(g: Geometry, c: nat, c': nat, j: nat, j': nat)
    requires 2 <= c && 2 <= c' && c != c' && j < g.secPerClus * g.bytsPerSec && j' < g.secPerClus * g.bytsPerSec
    ensures g.Address(c) + j != g.Address(c') + j'
  {
    AddressIs(g, c);
    AddressIs(g, c');
    var s := g.secPerClus * g.bytsPerSec;
    if c < c' { Steps(c - 2, c' - 2, s); } else { Steps(c' - 2, c - 2, s); }
  }

  /** The first data sector is behind the copies of the table. */
  predicate DataBehind(g: Geometry) {
    g.firstDataSector >= g.rsvdSecCnt + g.numFats * g.fatSz
  }

  /** Then no cluster overlaps one of them. */
  lemma ClusterBehindTables(g: Geometry, d: seq<byte>, c: nat, f: nat)
    requires g.Holds(d) && DataBehind(g) && c >= 2 && f < g.numFats
    ensures g.TableStart(f) + g.TableBytes() <= g.TableStart(g.numFats) <= g.Address(c)
  {
    AddressIs(g, c);
    TableStartIs(g, f);
    TableStartIs(g, g.numFats);
    Steps(f, g.numFats, g.TableBytes());
    Scaled(g.rsvdSecCnt + g.numFats * g.fatSz, g.firstDataSector, g.bytsPerSec);
    NotNegative(c - 2, g.secPerClus * g.bytsPerSec);
  }

  lemma Scaled(a: nat, b: nat, s: nat)
    requires a <= b
    ensures a * s <= b * s
  {
    Added(a, b - a, s);
    NotNegative(b - a, s);
  }

  lemma NotNegative(a: nat, b: nat)
    ensures a * b >= 0
  {}

  /** Two different entries share at most a byte of a FAT12 table, in which each keeps its own half. */
  lemma WordsApart(g: Geometry, d: seq<byte>, c: nat, f: nat, c': nat, f': nat)
    requires g.Holds(d) && g.InTable(c) && g.InTable(c') && f < g.numFats && f' < g.numFats
    requires c != c' || f != f'
    ensures var o, o' := g.EntryIndex(c, f), g.EntryIndex(c', f');
            || o + g.Width() <= o' || o' + g.Width() <= o
            || (g.kind.Fat12? &&
                ((o' == o + 1 && c % 2 == 0 && c' % 2 == 1) || (o == o' + 1 && c' % 2 == 0 && c % 2 == 1)))
  {
    hide Geometry.TableStart, Geometry.TableBytes;
    TablesApart(g, d, f, f');
    TablesApart(g, d, f', f);
  }

  lemma WordOver(g: Geometry, d: seq<byte>, o: nat, v: nat)
    requires o + g.Width() <= |d|
    ensures WordAt(g, Over(d, o, LowBytes(g, v)), o) == if g.kind.Fat32? then v % 0x1_0000_0000 else v % 0x1_0000
  {
    if g.kind.Fat32? { Low32Back(v); } else { Low16Back(v); }
  }

  lemma WordElsewhere(g: Geometry, d: seq<byte>, o: nat, b: seq<byte>, o': nat)
    requires |b| == g.Width() && o + g.Width() <= |d| && o' + g.Width() <= |d|
    requires o + g.Width() <= o' || o' + g.Width() <= o
    ensures WordAt(g, Over(d, o, b), o') == WordAt(g, d, o')
  {}

  lemma WordRange(g: Geometry, d: seq<byte>, o: nat)
    requires o + g.Width() <= |d|
    ensures WordAt(g, d, o) < if g.kind.Fat32? then 0x1_0000_0000 else 0x1_0000
  {}

  lemma EncodeDecodes(kind: Kind, c: nat, v: nat, w: nat)
    requires w < if kind.Fat32? then 0x1_0000_0000 else 0x1_0000
    ensures Decode(kind, c, Encode(kind, c, v, w) % (if kind.Fat32? then 0x1_0000_0000 else 0x1_0000)) ==
            v % (match kind case Fat12 => 0x1000 case Fat16 => 0x1_0000 case Fat32 => 0x1000_0000)
  {
    match kind
    case Fat12 => if c % 2 == 1 { OddBack(v, w); } else { EvenBack(v, w); }
    case Fat16 =>
    case Fat32 => WideBack(v, w);
  }

  lemma OddBack(v: nat, w: nat)
    ensures (v * 16 + w % 16) % 0x1_0000 / 16 == v % 0x1000
  {
    assert (v * 16 + w % 16) % 0x1_0000 == (v % 0x1000) * 16 + w % 16;
  }

  lemma EvenBack(v: nat, w: nat)
    requires w < 0x1_0000
    ensures (v % 0x1000 + w / 0x1000 * 0x1000) % 0x1_0000 % 0x1000 == v % 0x1000
  {}

  lemma WideBack(v: nat, w: nat)
    requires w < 0x1_0000_0000
    ensures (v % 0x1000_0000 + w / 0x1000_0000 * 0x1000_0000) % 0x1_0000_0000 % 0x1000_0000 == v % 0x1000_0000
  {}

  /** Reading after writing returns the value, masked to 12, 16 or 28 bits. */
  lemma ReadAfterWrite(g: Geometry, d: seq<byte>, c: nat, v: nat, f: nat)
    requires CanAccess(g, d, c, f)
    ensures Entry(g, Written(g, d, c, v, f), c, f) == v % g.Modulus()
  {
    hide Over, Decode, Encode, WordAt, Geometry.EntryIndex, LowBytes;
    var o := g.EntryIndex(c, f);
    var w := WordAt(g, d, o);
    WordRange(g, d, o);
    WordOver(g, d, o, Encode(g.kind, c, v, w));
    EncodeDecodes(g.kind, c, v, w);
  }

  /** An odd FAT12 entry is unchanged when the even one before it is written. */
  lemma OddNeighbourKept(d: seq<byte>, o: nat, v: nat, c: nat)
    requires c % 2 == 0 && o + 3 <= |d|
    ensures Word16(Over(d, o, Low16(Encode(Fat12, c, v, Word16(d, o)))), o + 1) / 16 == Word16(d, o + 1) / 16
  {
    var e := Encode(Fat12, c, v, Word16(d, o));
    var d' := Over(d, o, Low16(e));
    EvenKeepsHigh(v, d[o] as int, d[o + 1] as int);
    assert d'[o + 1] as int == e / 0x100 % 0x100 && d'[o + 2] == d[o + 2];
    hide *;
    Word16Is(d', o + 1);
    Word16Is(d, o + 1);
    HighPart(d'[o + 1] as int, d[o + 2] as int);
    HighPart(d[o + 1] as int, d[o + 2] as int);
  }

  /** An even FAT12 entry is unchanged when the odd one after it is written. */
  lemma EvenNeighbourKept(d: seq<byte>, o: nat, v: nat, c: nat)
    requires c % 2 == 1 && o > 0 && o + 2 <= |d|
    ensures Word16(Over(d, o, Low16(Encode(Fat12, c, v, Word16(d, o)))), o - 1) % 0x1000 == Word16(d, o - 1) % 0x1000
  {
    var e := Encode(Fat12, c, v, Word16(d, o));
    var d' := Over(d, o, Low16(e));
    OddKeepsLow(v, d[o] as int, d[o + 1] as int, d[o - 1] as int);
    assert d'[o] as int == e % 0x100 && d'[o - 1] == d[o - 1];
    assert e == v * 16 + (d[o] as int + 0x100 * d[o + 1] as int) % 16;
    hide *;
    Word16Is(d', o - 1);
    Word16Is(d, o - 1);
  }

  lemma Word16Is(d: seq<byte>, o: nat)
    requires o + 2 <= |d|
    ensures Word16(d, o) == d[o] as int + 0x100 * d[o + 1] as int
  {}

  lemma HighPart(x: nat, y: nat)
    ensures (x + 0x100 * y) / 16 == x / 16 + 16 * y
  {}

  lemma EvenKeepsHigh(v: nat, a: nat, b: nat)
    requires a < 0x100 && b < 0x100
    ensures var w := a + 0x100 * b;
            (v % 0x1000 + w / 0x1000 * 0x1000) / 0x100 % 0x100 / 16 == b / 16
  {
    HighOf(a, b);
    KeptHigh(v % 0x1000, b / 16);
  }

  lemma HighOf(a: nat, b: nat)
    requires a < 0x100
    ensures (a + 0x100 * b) / 0x1000 == b / 16
  {
    assert a + 0x100 * b == 0x1000 * (b / 16) + (a + 0x100 * (b % 16));
  }

  lemma KeptHigh(x: nat, h: nat)
    requires x < 0x1000 && h < 16
    ensures (x + h * 0x1000) / 0x100 % 0x100 / 16 == h
  {
    var y := x / 0x100;
    assert x + h * 0x1000 == 0x100 * (y + 16 * h) + x % 0x100;
    assert (x + h * 0x1000) / 0x100 == y + 16 * h;
    assert y < 16;
  }

  lemma LowTwelve(p: nat, q: nat)
    requires p < 0x100
    ensures (p + 0x100 * q) % 0x1000 == p + 0x100 * (q % 16)
  {
    assert q == q / 16 * 16 + q % 16;
    assert p + 0x100 * q == q / 16 * 0x1000 + (p + 0x100 * (q % 16));
  }

  lemma OddKeepsLow(v: nat, a: nat, b: nat, p: nat)
    requires a < 0x100 && b < 0x100 && p < 0x100
    ensures var w := a + 0x100 * b;
            (p + 0x100 * ((v * 16 + w % 16) % 0x100)) % 0x1000 == (p + 0x100 * a) % 0x1000
  {
    var w, r := a + 0x100 * b, a % 16;
    assert w == a / 16 * 16 + r + 16 * (16 * b) && w % 16 == r;
    Nibbles(v, r);
    LowTwelve(p, 16 * (v % 16) + r);
    LowTwelve(p, a);
  }

  lemma Nibbles(v: nat, r: nat)
    requires r < 16
    ensures (v * 16 + r) % 0x100 == 16 * (v % 16) + r && (16 * (v % 16) + r) % 16 == r
  {
    assert v * 16 + r == v / 16 * 0x100 + (16 * (v % 16) + r);
  }

  /** Every other entry in every copy is unchanged. */
  lemma OthersKept(g: Geometry, d: seq<byte>, c: nat, v: nat, f: nat, c': nat, f': nat)
    requires g.Holds(d) && g.InTable(c) && g.InTable(c') && f < g.numFats && f' < g.numFats
    requires c != c' || f != f'
    ensures CanAccess(g, d, c, f) && CanAccess(g, d, c', f')
    ensures Entry(g, Written(g, d, c, v, f), c', f') == Entry(g, d, c', f')
  {
    hide Over, Encode, Low16, Low32, Word16, Word32, Geometry.EntryIndex, Geometry.InTable, Geometry.Holds;
    EntryAccess(g, d, c, f);
    EntryAccess(g, d, c', f');
    WordsApart(g, d, c, f, c', f');
    var o, o' := g.EntryIndex(c, f), g.EntryIndex(c', f');
    var b := LowBytes(g, Encode(g.kind, c, v, WordAt(g, d, o)));
    if o + g.Width() <= o' || o' + g.Width() <= o {
      WordElsewhere(g, d, o, b, o');
    } else {
      if c % 2 == 0 { OddNeighbourKept(d, o, v, c); } else { EvenNeighbourKept(d, o, v, c); }
    }
  }

  /** The top four bits of a FAT32 entry survive a write. */
  lemma TopBitsSurvive(g: Geometry, d: seq<byte>, c: nat, v: nat, f: nat)
    requires CanAccess(g, d, c, f) && g.kind.Fat32?
    ensures var o := g.EntryIndex(c, f);
            Word32(Written(g, d, c, v, f), o) / 0x1000_0000 == Word32(d, o) / 0x1000_0000
  {
    hide Over, WordAt, Geometry.EntryIndex, LowBytes;
    var o := g.EntryIndex(c, f);
    var w := WordAt(g, d, o);
    WordRange(g, d, o);
    WordOver(g, d, o, Encode(g.kind, c, v, w));
    assert WordAt(g, Written(g, d, c, v, f), o) / 0x1000_0000 == w / 0x1000_0000;
    hide *;
    WordIs32(g, d, o);
    WordIs32(g, Written(g, d, c, v, f), o);
  }

  lemma WordIs32(g: Geometry, d: seq<byte>, o: nat)
    requires g.kind.Fat32? && o + 4 <= |d|
    ensures WordAt(g, d, o) == Word32(d, o)
  {}

  /** Bytes outside the written word are unchanged. */
  lemma BytesKept(g: Geometry, d: seq<byte>, c: nat, v: nat, f: nat, i: nat)
    requires CanAccess(g, d, c, f) && i < |d| && !(g.EntryIndex(c, f) <= i < g.EntryIndex(c, f) + g.Width())
    ensures Written(g, d, c, v, f)[i] == d[i]
  {}
}
