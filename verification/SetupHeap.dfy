/** setup_heap: the allocators initialised from the boot loader's memory map. */
module SetupHeap {
  import opened Machine
  import QuadTree
  import QT = QuadTreeTheory
  import Buddy
  import PM = PhysicalMemory
  import V = VirtualMemory

  const AVAILABLE: nat := 1
  const LIMIT: nat := 0x1_0000_0000
  const LEVEL: nat := 10
  const GIB2: nat := 0x8000_0000

  datatype MapEntry = MapEntry(base: nat, length: nat, kind: nat) {
    function End(): nat { base + length }
  }

  /** An inclusive range of bytes. */
  datatype Bytes = Bytes(beg: nat, end: nat)

  /** Sorted, non-overlapping, starting at 0, no entry empty or running past 2^64. */
  ghost predicate GoodMap(m: seq<MapEntry>) {
    && m != [] && m[0].base == 0
    && (forall i :: 0 <= i < |m| ==> m[i].length > 0 && m[i].End() < U64)
    && (forall i, j :: 0 <= i < j < |m| ==> m[i].End() <= m[j].base)
  }

  ghost predicate Available(m: seq<MapEntry>, b: nat) {
    exists i :: 0 <= i < |m| && m[i].kind == 1 && m[i].base <= b < m[i].End()
  }

  // ---------- the ranges that are marked ----------

  /** What the loop body marks for entry i: the entry unless it is available, then the gap before it. */
  function EntryRanges(m: seq<MapEntry>, i: nat): (rs: seq<Bytes>)
    requires i < |m|
    ensures forall k :: 0 <= k < |rs| ==> rs[k].beg <= rs[k].end
  {
    Here(m[i]) + Gap(m, i)
  }

  function Here(e: MapEntry): (rs: seq<Bytes>)
    ensures forall k :: 0 <= k < |rs| ==> rs[k].beg <= rs[k].end
  {
    if e.kind != AVAILABLE && e.base < LIMIT && e.length > 0 then [Bytes(e.base, Min(e.End() - 1, LIMIT - 1))] else []
  }

  function Gap(m: seq<MapEntry>, i: nat): (rs: seq<Bytes>)
    requires i < |m|
    ensures forall k :: 0 <= k < |rs| ==> rs[k].beg <= rs[k].end
  {
    if i > 0 && m[i - 1].End() < m[i].base && m[i - 1].End() < LIMIT
    then [Bytes(m[i - 1].End(), Min(m[i].base - 1, LIMIT - 1))] else []
  }

  function LoopRanges(m: seq<MapEntry>, i: nat): (rs: seq<Bytes>)
    requires i <= |m|
    ensures forall k :: 0 <= k < |rs| ==> rs[k].beg <= rs[k].end
  {
    if i == 0 then [] else LoopRanges(m, i - 1) + EntryRanges(m, i - 1)
  }

  /** Everything setup_heap marks in physical memory: the kernel image, the map, what follows the map. */
  function AllRanges(m: seq<MapEntry>, kernel: Bytes): (rs: seq<Bytes>)
    requires m != [] && kernel.beg <= kernel.end
    ensures forall k :: 0 <= k < |rs| ==> rs[k].beg <= rs[k].end
  {
    var last := m[|m| - 1].End();
    [kernel] + LoopRanges(m, |m|) + (if last < LIMIT then [Bytes(last, LIMIT - 1)] else [])
  }

  function MarkAll(t: QuadTree.Tree, rs: seq<Bytes>): QuadTree.Tree
    requires forall k :: 0 <= k < |rs| ==> rs[k].beg <= rs[k].end
  {
    if rs == [] then t
    else QuadTree.MarkUsed(MarkAll(t, rs[..|rs| - 1]), LEVEL, rs[|rs| - 1].beg, rs[|rs| - 1].end)
  }

  ghost predicate Covers(rs: seq<Bytes>, b: nat) {
    exists k :: 0 <= k < |rs| && rs[k].beg <= b <= rs[k].end
  }

  ghost predicate TouchesPage(rs: seq<Bytes>, p: nat) {
    exists k :: 0 <= k < |rs| && rs[k].beg / PAGE <= p <= rs[k].end / PAGE
  }

  // ---------- theory ----------

  lemma {:induction false} MarkAllPages(t: QuadTree.Tree, rs: seq<Bytes>, p: nat)
    requires QuadTree.Shaped(t, LEVEL) && QuadTree.Honest(t) && p < QuadTree.Count(LEVEL)
    requires forall k :: 0 <= k < |rs| ==> rs[k].beg <= rs[k].end
    ensures QuadTree.Shaped(MarkAll(t, rs), LEVEL) && QuadTree.Honest(MarkAll(t, rs))
    ensures QuadTree.Used(MarkAll(t, rs), LEVEL, p) <==> QuadTree.Used(t, LEVEL, p) || TouchesPage(rs, p)
  {
    hide QuadTree.Shaped, QuadTree.Honest, QuadTree.Used, QuadTree.MarkUsed, QuadTree.Count;
    if rs != [] {
      var k := |rs| - 1;
      MarkAllPages(t, rs[..k], p);
      QT.MarkUsedShape(MarkAll(t, rs[..k]), LEVEL, rs[k].beg, rs[k].end);
      QT.MarkUsedAddsRange(MarkAll(t, rs[..k]), LEVEL, rs[k].beg, rs[k].end, p);
      if j :| 0 <= j < |rs| && rs[j].beg / PAGE <= p <= rs[j].end / PAGE {
        if j < k { assert rs[..k][j] == rs[j]; }
      }
      if j :| 0 <= j < k && rs[..k][j].beg / PAGE <= p <= rs[..k][j].end / PAGE { assert rs[j] == rs[..k][j]; }
    }
  }

  predicate InPage(p: nat, b: nat) {
    p * PAGE <= b < (p + 1) * PAGE
  }

  /** A page is touched exactly when one of its bytes is covered. */
  lemma TouchedByByte(rs: seq<Bytes>, p: nat)
    requires forall k :: 0 <= k < |rs| ==> rs[k].beg <= rs[k].end
    ensures TouchesPage(rs, p) <==> exists b: nat :: InPage(p, b) && Covers(rs, b)
  {
    if k :| 0 <= k < |rs| && rs[k].beg / PAGE <= p <= rs[k].end / PAGE {
      var b := Max(rs[k].beg, p * PAGE);
      assert InPage(p, b) && Covers(rs, b);
    }
    if b: nat :| InPage(p, b) && Covers(rs, b) {
      var k :| 0 <= k < |rs| && rs[k].beg <= b <= rs[k].end;
    }
  }

  lemma CoversConcat(xs: seq<Bytes>, ys: seq<Bytes>, b: nat)
    ensures Covers(xs + ys, b) <==> Covers(xs, b) || Covers(ys, b)
  {
    if k :| 0 <= k < |xs| && xs[k].beg <= b <= xs[k].end { assert (xs + ys)[k] == xs[k]; }
    if k :| 0 <= k < |ys| && ys[k].beg <= b <= ys[k].end { assert (xs + ys)[|xs| + k] == ys[k]; }
  }

  ghost function Reached(m: seq<MapEntry>, i: nat): nat
    requires i <= |m|
  {
    if i == 0 then 0 else m[i - 1].End()
  }

  /** Bytes of one entry and of the gap before it. */
  lemma EntryCovers(m: seq<MapEntry>, i: nat, b: nat)
    requires GoodMap(m) && i < |m| && b < LIMIT
    ensures Reached(m, i) <= m[i].base
    ensures Covers(EntryRanges(m, i), b) <==>
            Reached(m, i) <= b < m[i].End() && !(m[i].kind == AVAILABLE && m[i].base <= b)
  {
    CoversConcat(Here(m[i]), Gap(m, i), b);
    HereCovers(m[i], b);
    GapCovers(m, i, b);
  }

  lemma HereCovers(e: MapEntry, b: nat)
    requires e.length > 0 && b < LIMIT
    ensures Covers(Here(e), b) <==> e.kind != AVAILABLE && e.base <= b < e.End()
  {
    SingleCovers(Bytes(e.base, Min(e.End() - 1, LIMIT - 1)), b);
  }

  lemma GapCovers(m: seq<MapEntry>, i: nat, b: nat)
    requires i < |m| && b < LIMIT
    ensures Covers(Gap(m, i), b) <==> i > 0 && m[i - 1].End() <= b < m[i].base
  {
    SingleCovers(Bytes(0, 0), b);
    if i > 0 && m[i - 1].End() < m[i].base {
      SingleCovers(Bytes(m[i - 1].End(), Min(m[i].base - 1, LIMIT - 1)), b);
    }
  }

  lemma SingleCovers(r: Bytes, b: nat)
    ensures Covers([r], b) <==> r.beg <= b <= r.end
    ensures !Covers([], b)
  {
    if r.beg <= b <= r.end { assert [r][0] == r; }
  }

  lemma {:induction false} LoopCovers(m: seq<MapEntry>, i: nat, b: nat)
    requires GoodMap(m) && i <= |m| && b < LIMIT
    ensures Covers(LoopRanges(m, i), b) <==> b < Reached(m, i) && !Available(m[..i], b)
    ensures b >= Reached(m, i) ==> !Available(m[..i], b)
  {
    hide EntryRanges;
    if i > 0 {
      LoopCovers(m, i - 1, b);
      EntryCovers(m, i - 1, b);
      CoversConcat(LoopRanges(m, i - 1), EntryRanges(m, i - 1), b);
      AvailableSplit(m, i - 1, b);
    }
  }

  lemma AvailableSplit(m: seq<MapEntry>, i: nat, b: nat)
    requires i < |m|
    ensures Available(m[..i + 1], b) <==>
            Available(m[..i], b) || (m[i].kind == AVAILABLE && m[i].base <= b < m[i].End())
  {
    var less, more := m[..i], m[..i + 1];
    if k :| 0 <= k < |less| && less[k].kind == AVAILABLE && less[k].base <= b < less[k].End() {
      assert more[k] == less[k];
    }
    if k :| 0 <= k < |more| && more[k].kind == AVAILABLE && more[k].base <= b < more[k].End() {
      if k < i { assert less[k] == more[k]; }
    }
    assert more[i] == m[i];
  }

  /** A byte below 4 GiB is marked exactly when it belongs to the kernel image or to no available entry. */
  lemma AllCovers(m: seq<MapEntry>, kernel: Bytes, b: nat)
    requires GoodMap(m) && kernel.beg <= kernel.end && b < LIMIT
    ensures Covers(AllRanges(m, kernel), b) <==> kernel.beg <= b <= kernel.end || !Available(m, b)
  {
    hide LoopRanges;
    var last := m[|m| - 1].End();
    var tail := if last < LIMIT then [Bytes(last, LIMIT - 1)] else [];
    LoopCovers(m, |m|, b);
    assert m[..|m|] == m;
    CoversConcat([kernel], LoopRanges(m, |m|), b);
    CoversConcat([kernel] + LoopRanges(m, |m|), tail, b);
    SingleCovers(kernel, b);
    SingleCovers(Bytes(last, LIMIT - 1), b);
  }

  function SetUp(m: seq<MapEntry>, kernel: Bytes): QuadTree.Tree
    requires m != [] && kernel.beg <= kernel.end
  {
    MarkAll(QuadTree.Fresh(LEVEL), AllRanges(m, kernel))
  }

  lemma CountOfLevel()
    ensures QuadTree.Count(LEVEL) * PAGE == LIMIT
  {
    assert QuadTree.Count(6) == 0x1000;
    assert QuadTree.Count(8) == 0x1_0000;
  }

  /** Main result: a page below 4 GiB is left free exactly when all its bytes are in available entries and none is
      in the kernel image. */
  lemma FreePagesAreAvailable(m: seq<MapEntry>, kernel: Bytes, p: nat)
    requires GoodMap(m) && kernel.beg <= kernel.end && (p + 1) * PAGE <= LIMIT
    ensures p < QuadTree.Count(LEVEL)
    ensures !QuadTree.Used(SetUp(m, kernel), LEVEL, p) <==>
            forall b: nat :: InPage(p, b) ==> Available(m, b) && !(kernel.beg <= b <= kernel.end)
  {
    hide QuadTree.Used, QuadTree.Shaped, QuadTree.Honest, QuadTree.Count, MarkAll, AllRanges, Available;
    CountOfLevel();
    QT.FreshIsEmpty(LEVEL);
    var rs := AllRanges(m, kernel);
    MarkAllPages(QuadTree.Fresh(LEVEL), rs, p);
    TouchedByByte(rs, p);
    forall b: nat | InPage(p, b)
      ensures Covers(rs, b) <==> kernel.beg <= b <= kernel.end || !Available(m, b)
    {
      AllCovers(m, kernel, b);
    }
  }

  /** The tree it leaves is one the allocator can work with. */
  lemma SetUpShape(m: seq<MapEntry>, kernel: Bytes)
    requires GoodMap(m) && kernel.beg <= kernel.end
    ensures QuadTree.Shaped(SetUp(m, kernel), LEVEL) && QuadTree.Honest(SetUp(m, kernel))
  {
    hide QuadTree.Used, QuadTree.Shaped, QuadTree.Honest, QuadTree.Count, MarkAll, AllRanges;
    CountOfLevel();
    QT.FreshIsEmpty(LEVEL);
    MarkAllPages(QuadTree.Fresh(LEVEL), AllRanges(m, kernel), 0);
  }

  // ---------- as the kernel runs it ----------

  lemma MarkAllSnoc(t: QuadTree.Tree, rs: seq<Bytes>, r: Bytes)
    requires r.beg <= r.end && forall k :: 0 <= k < |rs| ==> rs[k].beg <= rs[k].end
    ensures MarkAll(t, rs + [r]) == QuadTree.MarkUsed(MarkAll(t, rs), LEVEL, r.beg, r.end)
  {
    assert (rs + [r])[..|rs|] == rs;
  }

  /** The addresses of the kernel image, as offsets from -2 GiB. */
  ghost predicate ImageOk(kernelBegin: nat, kernelEnd: nat, kernelZero: nat) {
    && kernelBegin <= kernelEnd < U64 && U64 - GIB2 <= kernelBegin
    && kernelEnd - (U64 - GIB2) + kernelZero < U64
  }

  /** Where the kernel image lies in physical memory. */
  function Image(kernelBegin: nat, kernelEnd: nat, kernelZero: nat): (r: Bytes)
    requires kernelBegin <= kernelEnd && U64 - GIB2 <= kernelBegin
    ensures r.beg <= r.end
  {
    Bytes(kernelBegin - (U64 - GIB2) + kernelZero, kernelEnd - (U64 - GIB2) + kernelZero)
  }

  /** Physical byte b is that of an address of the kernel image, from its first to the one behind its last. */
  ghost predicate ImageByte(kernelBegin: nat, kernelEnd: nat, kernelZero: nat, b: nat) {
    kernelBegin <= b - kernelZero + (U64 - GIB2) <= kernelEnd
  }

  /** Some byte of page p is not available or belongs to the kernel image. */
  ghost predicate Taken(m: seq<MapEntry>, kernelBegin: nat, kernelEnd: nat, kernelZero: nat, p: nat) {
    exists b: nat :: InPage(p, b) && (!Available(m, b) || ImageByte(kernelBegin, kernelEnd, kernelZero, b))
  }

  /** What setup_heap leaves used, in terms of the addresses it is given. */
  lemma UsedIsTaken(m: seq<MapEntry>, kernelBegin: nat, kernelEnd: nat, kernelZero: nat, p: nat)
    requires GoodMap(m) && ImageOk(kernelBegin, kernelEnd, kernelZero) && p < QuadTree.Count(LEVEL)
    ensures QuadTree.Used(SetUp(m, Image(kernelBegin, kernelEnd, kernelZero)), LEVEL, p) <==>
            Taken(m, kernelBegin, kernelEnd, kernelZero, p)
  {
    hide QuadTree.Used, QuadTree.Count, SetUp, Available, GoodMap;
    CountOfLevel();
    FreePagesAreAvailable(m, Image(kernelBegin, kernelEnd, kernelZero), p);
  }

  /** The pages of the image are among them. */
  lemma ImageIsTaken(m: seq<MapEntry>, kernelBegin: nat, kernelEnd: nat, kernelZero: nat, v: nat)
    requires ImageOk(kernelBegin, kernelEnd, kernelZero) && kernelBegin <= v <= kernelEnd
    ensures Taken(m, kernelBegin, kernelEnd, kernelZero, (v - (U64 - GIB2) + kernelZero) / PAGE)
  {
    var b := v - (U64 - GIB2) + kernelZero;
    assert InPage(b / PAGE, b);
  }

  /** mark_used for the optional range of one test of the loop. */
  method MarkSome(alloc: PM.PhTreeAllocator, rs: seq<Bytes>, ghost t: QuadTree.Tree, ghost before: seq<Bytes>)
    requires alloc.Valid() && alloc.level == LEVEL && |rs| <= 1
    requires forall k :: 0 <= k < |rs| ==> rs[k].beg <= rs[k].end
    requires forall k :: 0 <= k < |before| ==> before[k].beg <= before[k].end
    requires alloc.Model() == MarkAll(t, before)
    modifies alloc.Repr
    ensures alloc.Valid() && alloc.Model() == MarkAll(t, before + rs)
  {
    hide MarkAll, QuadTree.MarkUsed, QuadTree.Honest;
    if |rs| == 1 {
      MarkAllSnoc(t, before, rs[0]);
      assert before + rs == before + [rs[0]];
      alloc.MarkUsed(rs[0].beg, rs[0].end);
    } else {
      assert before + rs == before;
    }
  }

  /** The physical half of setup_heap; the map ends with an entry of length 0. */
  method SetupPhysical(mmap: seq<MapEntry>, ghost n: nat, kernelBegin: nat, kernelEnd: nat, kernelZero: nat)
    returns (alloc: PM.PhTreeAllocator)
    requires n < |mmap| && mmap[n].length == 0 && GoodMap(mmap[..n]) && ImageOk(kernelBegin, kernelEnd, kernelZero)
    ensures alloc.Valid() && fresh(alloc.Repr) && alloc.level == LEVEL
    ensures alloc.Model() == SetUp(mmap[..n], Image(kernelBegin, kernelEnd, kernelZero))
    ensures forall p: nat :: p < QuadTree.Count(LEVEL) ==>
              (QuadTree.Used(alloc.Model(), LEVEL, p) <==> Taken(mmap[..n], kernelBegin, kernelEnd, kernelZero, p))
  {
    hide MarkAll, QuadTree.MarkUsed, QuadTree.Honest, QuadTree.Fresh, EntryRanges, LoopRanges, Here, Gap,
      PM.PhTreeAllocator.Built, PM.PhTreeAllocator.Model, QuadTree.Used, QuadTree.Count, Taken;
    ghost var m := mmap[..n];
    ghost var t := QuadTree.Fresh(LEVEL);
    alloc := new PM.PhTreeAllocator(LEVEL);
    var image := Bytes(Add64(Add64(kernelBegin, GIB2), kernelZero), Add64(Add64(kernelEnd, GIB2), kernelZero));
    MarkAllEmpty(t);
    MarkSome(alloc, [image], t, []);
    assert [] + [image] == [image] + LoopRanges(m, 0) by { LoopStart(m); }
    var i := 0;
    while mmap[i].length != 0
      invariant 0 <= i <= n && (i < n ==> mmap[i] == m[i]) && alloc.Valid() && fresh(alloc.Repr) && alloc.level == LEVEL
      invariant alloc.Model() == MarkAll(t, [image] + LoopRanges(m, i))
      decreases n - i
    {
      assert m[i] == mmap[i] && (i > 0 ==> m[i - 1] == mmap[i - 1]);
      SameGap(mmap, n, i);
      LoopStep(m, image, i);
      MarkSome(alloc, Here(mmap[i]), t, [image] + LoopRanges(m, i));
      MarkSome(alloc, Gap(mmap, i), t, [image] + LoopRanges(m, i) + Here(mmap[i]));
      i := i + 1;
    }
    assert i == n;
    assert m[n - 1] == mmap[n - 1];
    var last := mmap[i - 1].base + mmap[i - 1].length;
    MarkSome(alloc, if last < LIMIT then [Bytes(last, LIMIT - 1)] else [], t, [image] + LoopRanges(m, n));
    forall p: nat | p < QuadTree.Count(LEVEL)
      ensures QuadTree.Used(alloc.Model(), LEVEL, p) <==> Taken(m, kernelBegin, kernelEnd, kernelZero, p)
    {
      UsedIsTaken(m, kernelBegin, kernelEnd, kernelZero, p);
    }
  }

  lemma MarkAllEmpty(t: QuadTree.Tree)
    ensures MarkAll(t, []) == t
  {}

  lemma LoopStart(m: seq<MapEntry>)
    ensures LoopRanges(m, 0) == []
  {}

  lemma SameGap(mmap: seq<MapEntry>, n: nat, i: nat)
    requires i < n < |mmap|
    ensures Gap(mmap, i) == Gap(mmap[..n], i) && |Gap(mmap, i)| <= 1 && |Here(mmap[i])| <= 1
  {}

  lemma LoopStep(m: seq<MapEntry>, image: Bytes, i: nat)
    requires i < |m|
    ensures [image] + LoopRanges(m, i + 1) == [image] + LoopRanges(m, i) + Here(m[i]) + Gap(m, i)
  {}

  /** The virtual half: the kernel image is reserved. */
  method SetupVirtual(v: Version, kernelBegin: nat, kernelEnd: nat) returns (kvmem: V.VirtualMemoryAllocator)
    requires ImageOk(kernelBegin, kernelEnd, 0)
    ensures kvmem.Valid() && fresh(kvmem.root.Repr) && kvmem.root.depth == 18 && kvmem.root.version == v
    ensures kvmem.root.Model() ==
            Buddy.MarkUsed(Buddy.Fresh(18), 18, kernelBegin - (U64 - GIB2), kernelEnd - kernelBegin)
  {
    hide Buddy.MarkUsed, Buddy.Fresh, Buddy.Shaped;
    kvmem := new V.VirtualMemoryAllocator(v, 18);
    kvmem.MarkUsed(Add64(kernelBegin, GIB2), kernelEnd - kernelBegin);
  }
}
