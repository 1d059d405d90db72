/** kmmap and kmunmap: the range allocator, the page tables and the physical allocator together. */
module KernelMap {
  import opened Machine
  import opened PagePath
  import opened PageTables
  import opened PageTablesTheory
  import opened MemoryManager
  import opened CommittedBack
  import opened EitherCrawl
  import Buddy
  import BT = BuddyTheory
  import VM = BuddyRuns
  import QuadTree
  import QT = QuadTreeTheory
  import SH = SetupHeap

  const DEPTH: nat := 18
  const GIB2: nat := 0x8000_0000

  // ---------- physical pages taken and given back by a crawl ----------

  /** n pages can be taken one after the other. */
  ghost predicate Suffices(t: QuadTree.Tree, level: nat, n: nat)
    decreases n
  {
    n == 0 || (!QuadTree.IsFull(t) && Suffices(QuadTree.AfterGetPage(t, level), level, n - 1))
  }

  ghost predicate PhysOk(t: QuadTree.Tree, level: nat) {
    QuadTree.Shaped(t, level) && QuadTree.Honest(t) && level <= 10
  }

  ghost predicate Taken(V: seq<Visit>, x: nat) {
    exists k :: 0 <= k < |V| && V[k].after.frame == x
  }

  ghost predicate Given(V: seq<Visit>, x: nat) {
    exists k :: 0 <= k < |V| && V[k].before.frame == x
  }

  /** One get_page: a free frame, and only that one becomes used. */
  lemma OneTaken(phys: QuadTree.Tree, level: nat) returns (p: nat)
    requires PhysOk(phys, level) && !QuadTree.IsFull(phys)
    ensures p < QuadTree.Count(level) && p == FrameOf(QuadTree.GetPage(phys, level))
    ensures !QuadTree.Used(phys, level, p)
    ensures PhysOk(QuadTree.AfterGetPage(phys, level), level)
    ensures forall x: nat :: x < QuadTree.Count(level) ==>
              (QuadTree.Used(QuadTree.AfterGetPage(phys, level), level, x) <==> QuadTree.Used(phys, level, x) || x == p)
  {
    hide QuadTree.GetPage, QuadTree.AfterGetPage, QuadTree.Used, QuadTree.Count, QuadTree.Shaped, QuadTree.Honest;
    p := QT.GetPageIsLowest(phys, level);
    QT.LowestFreeInRange(phys, level, p);
    QT.LowestIsFree(phys, level, p);
    QT.CountFits(level);
    QT.AfterGetPageShape(phys, level);
    forall x: nat | x < QuadTree.Count(level)
      ensures QuadTree.Used(QuadTree.AfterGetPage(phys, level), level, x) <==> QuadTree.Used(phys, level, x) || x == p
    {
      QT.GetPageMarksOnlyIt(phys, level, x);
    }
  }

  /** The frames a back_vmem crawl takes were free, are pairwise distinct, and are all that becomes used. */
  lemma {:induction false} FramesTaken(f: bv12, level: nat, phys: QuadTree.Tree, V: seq<Visit>, phys': QuadTree.Tree)
    requires Chained(Back(f), level, phys, V, phys') && PhysOk(phys, level) && Suffices(phys, level, |V|)
    ensures PhysOk(phys', level)
    ensures forall k :: 0 <= k < |V| ==>
              V[k].after.frame < QuadTree.Count(level) && !QuadTree.Used(phys, level, V[k].after.frame)
    ensures forall j, k :: 0 <= j < k < |V| ==> V[j].after.frame != V[k].after.frame
    ensures forall x: nat :: x < QuadTree.Count(level) ==>
              (QuadTree.Used(phys', level, x) <==> QuadTree.Used(phys, level, x) || Taken(V, x))
    decreases |V|
  {
    hide QuadTree.GetPage, QuadTree.AfterGetPage, QuadTree.Used, QuadTree.Count, QuadTree.IsFull, PhysOk, FrameOf;
    if V != [] {
      var p := OneTaken(phys, level);
      var W := V[1..];
      var t := QuadTree.AfterGetPage(phys, level);
      FramesTaken(f, level, t, W, phys');
      assert V[0].after.frame == p;
      forall k | 0 < k < |V|
        ensures V[k].after.frame < QuadTree.Count(level) && !QuadTree.Used(t, level, V[k].after.frame)
      {
        assert V[k] == W[k - 1];
      }
      forall j, k | 0 <= j < k < |V| ensures V[j].after.frame != V[k].after.frame {
        if j > 0 { assert V[j] == W[j - 1] && V[k] == W[k - 1]; }
      }
      forall x: nat | x < QuadTree.Count(level)
        ensures QuadTree.Used(phys', level, x) <==> QuadTree.Used(phys, level, x) || Taken(V, x)
      {
        if k :| 0 <= k < |W| && W[k].after.frame == x { assert V[k + 1].after.frame == x; }
        if k :| 0 <= k < |V| && V[k].after.frame == x { if k > 0 { assert W[k - 1].after.frame == x; } }
      }
    }
  }

  /** An unback_vmem crawl gives back exactly the frames of the entries it meets. */
  lemma {:induction false} FramesGiven(level: nat, phys: QuadTree.Tree, V: seq<Visit>, phys': QuadTree.Tree)
    requires Chained(Unback, level, phys, V, phys') && PhysOk(phys, level)
    ensures PhysOk(phys', level)
    ensures forall x: nat :: x < QuadTree.Count(level) ==>
              (QuadTree.Used(phys', level, x) <==> QuadTree.Used(phys, level, x) && !Given(V, x))
    decreases |V|
  {
    hide QuadTree.GetPage, QuadTree.ReleasePage, QuadTree.Used, QuadTree.Count, QuadTree.Shaped, QuadTree.Honest;
    if V != [] {
      var W := V[1..];
      var addr := V[0].before.frame * PAGE;
      var t := QuadTree.ReleasePage(phys, level, addr);
      QT.ReleaseShape(phys, level, addr);
      FramesGiven(level, t, W, phys');
      forall x: nat | x < QuadTree.Count(level)
        ensures QuadTree.Used(phys', level, x) <==> QuadTree.Used(phys, level, x) && !Given(V, x)
      {
        QT.ReleaseFreesOnlyIt(phys, level, addr, x);
        assert addr / PAGE == V[0].before.frame;
        if k :| 0 <= k < |W| && W[k].before.frame == x { assert V[k + 1].before.frame == x; }
        if k :| 0 <= k < |V| && V[k].before.frame == x { if k > 0 { assert W[k - 1].before.frame == x; } }
      }
    }
  }

  // ---------- the kernel's address space ----------

  /** Two gibibytes below r in 64 bits, for an address below 1 GiB. */
  function Virtual(r: nat): (a: nat)
    requires r < 0x4000_0000
    ensures a < U64
  {
    r + (U64 - GIB2)
  }

  const BASE: nat := 0xf_fff8_0000

  /** The first byte of kernel page p. */
  function PageAddress(p: nat): nat
    requires p < 0x4_0000
  {
    Virtual(p * PAGE)
  }

  /** Byte off of kernel page p. */
  function ByteAddress(p: nat, off: nat): (a: nat)
    requires p < 0x4_0000 && off < PAGE
    ensures a < U64
  {
    PageAddress(p) + off
  }

  lemma KernelPages(r: nat, off: nat)
    requires r < 0x4000_0000
    ensures !NotCanonical(Virtual(r)) && PageNumber(Virtual(r)) == BASE + r / PAGE
    ensures Virtual(r) % SPACE == SPACE - GIB2 + r
  {
    assert Virtual(r) == 0xffff * SPACE + (SPACE - GIB2 + r);
  }

  lemma KernelRange(r: nat, s: nat)
    requires 0 < s && r + s <= 0x4000_0000
    ensures GoodRange(Virtual(r), s)
    ensures LastPage(Virtual(r), s) == BASE + (r + s - 1) / PAGE
  {
    KernelPages(r, 0);
  }

  // ---------- runs of kmmap and kmunmap ----------

  datatype State = Kernel(vm: VM.State, tables: PageTables.State)

  datatype Call = MapCall(hint: nat, size: nat) | UnmapCall(ptr: nat, size: nat)

  /** The indices of kernel page p. */
  ghost function Spelled(p: nat): seq<nat>
    requires p < 0x4_0000
  {
    Indices(PageAddress(p))
  }

  /** What the tables hold for kernel page p. */
  ghost function EntryOf(T: PageTables.State, root: nat, p: nat): Look
    requires p < 0x4_0000
  {
    Find(T, root, Spelled(p))
  }

  ghost function FrameFor(T: PageTables.State, root: nat, p: nat): nat
    requires p < 0x4_0000
  {
    Seen(EntryOf(T, root, p)).frame
  }

  /** The frame behind page p is its own: present, writable, for the kernel only, in the allocator's range, not an
      initial one. */
  ghost predicate Backed(env: Env, T: PageTables.State, root: nat, p: nat, initial: set<nat>) {
    && p < 0x4_0000
    && EntryOf(T, root, p).Page?
    && EntryOf(T, root, p).e.flags == P | RW
    && FrameFor(T, root, p) < QuadTree.Count(env.physLevel) && FrameFor(T, root, p) !in initial
  }

  /** Frame x is behind some held page. */
  ghost predicate Behind(T: PageTables.State, root: nat, held: set<nat>, x: nat) {
    exists p :: p in held && p < 0x4_0000 && FrameFor(T, root, p) == x
  }

  ghost predicate Healthy(env: Env, T: PageTables.State, root: nat) {
    && Rooted(env, T, root)
    && PhysOk(T.phys, env.physLevel)
  }

  /** Held pages have their own frames, and the used frames are the initial ones and those. */
  ghost predicate FramesMatch(env: Env, T: PageTables.State, root: nat, held: set<nat>, initial: set<nat>) {
    && (forall p :: p in held ==> Backed(env, T, root, p, initial))
    && (forall p, q :: p in held && q in held && p != q && p < 0x4_0000 && q < 0x4_0000 ==>
          FrameFor(T, root, p) != FrameFor(T, root, q))
    && (forall x: nat :: x < QuadTree.Count(env.physLevel) ==>
          (QuadTree.Used(T.phys, env.physLevel, x) <==> x in initial || Behind(T, root, held, x)))
  }

  /** A frame that get_page never hands out: an initial one, or beyond the allocator. */
  ghost predicate OutOfReach(env: Env, initial: set<nat>, x: nat) {
    x in initial || x >= QuadTree.Count(env.physLevel)
  }

  /** The page tables, and the frames for further ones, are out of reach of the frame allocator. */
  ghost predicate TablesApart(env: Env, T: PageTables.State, initial: set<nat>) {
    && (forall f :: f in T.mem ==> OutOfReach(env, initial, f))
    && (forall k: nat :: OutOfReach(env, initial, env.supply(k)))
  }

  lemma {:induction false} VisitsKeepKeys(env: Env, S: PageTables.State, f: nat, i: nat, e0: nat, op: Op)
    ensures VisitPages(env, S, f, i, e0, op).mem.Keys == S.mem.Keys
    decreases ENTRIES - i
  {
    hide PageCallback, PhysAfter;
    if i <= e0 && i < ENTRIES && HasTable(S, f) {
      VisitsKeepKeys(env, VisitPage(env, S, f, i, op), f, i + 1, e0, op);
    }
  }

  /** A crawl takes fresh tables from the supply only. */
  lemma {:induction false} CrawlKeepsApart(env: Env, S: PageTables.State, f: nat, s: seq<nat>, e: seq<nat>, op: Op,
      initial: set<nat>)
    requires TablesApart(env, S, initial) && |s| == |e|
    ensures TablesApart(env, Crawl(env, S, f, s, e, op), initial)
    decreases |s|, 0
  {
    hide VisitPages, OutOfReach;
    if |s| == 1 {
      VisitsKeepKeys(env, S, f, s[0], e[0], op);
      assert forall g :: g in Crawl(env, S, f, s, e, op).mem ==> g in S.mem.Keys;
    } else if |s| > 1 {
      EntriesKeepApart(env, S, f, s[0], s, e, op, initial);
    }
  }

  lemma {:induction false} EntriesKeepApart(env: Env, S: PageTables.State, f: nat, i: nat, s: seq<nat>, e: seq<nat>,
      op: Op, initial: set<nat>)
    requires TablesApart(env, S, initial) && |s| == |e| > 1
    ensures TablesApart(env, CrawlEntries(env, S, f, i, s, e, op), initial)
    decreases |s| - 1, 1, ENTRIES - i
  {
    hide OutOfReach, Has, NewEntry, DirCallback;
    if i <= e[0] < ENTRIES && HasTable(S, f) {
      var S1 := Enter(env, S, f, i, s[0], e[0], op);
      var c := S1.mem[f][i].frame;
      CrawlKeepsApart(env, S1, c, Lo(s, i), Hi(e, i), op, initial);
      EntriesKeepApart(env, Crawl(env, S1, c, Lo(s, i), Hi(e, i), op), f, i + 1, s, e, op, initial);
    }
  }

  /** So do back_vmem and unback_vmem. */
  lemma RangeKeepsApart(env: Env, T: PageTables.State, root: nat, a: nat, size: nat, initial: set<nat>)
    requires TablesApart(env, T, initial) && a < U64 && size < U64
    ensures TablesApart(env, BackVmem(env, T, root, a, size, 0), initial)
    ensures TablesApart(env, UnbackVmem(env, T, root, a, size), initial)
  {
    hide TablesApart, Crawl, Indices, LastByte;
    if !NotCanonical(a) {
      CrawlKeepsApart(env, T, root, Indices(a), Indices(LastByte(a, size)), Back(0), initial);
      CrawlKeepsApart(env, T, root, Indices(a), Indices(LastByte(a, size)), Unback, initial);
    }
  }

  ghost predicate Invariant(env: Env, root: nat, st: State, reserved: set<nat>, initial: set<nat>) {
    && VM.Invariant(DEPTH, st.vm, reserved)
    && Healthy(env, st.tables, root)
    && FramesMatch(env, st.tables, root, st.vm.held.Keys, initial)
    && TablesApart(env, st.tables, initial)
  }

  ghost function Hinted(hint: nat): nat
    requires hint < U64
  {
    Add64(hint, GIB2)
  }

  /** The pages that s bytes from r on touch. */
  function PagesIn(r: nat, s: nat): nat
    requires 0 < s
  {
    (r + s - 1) / PAGE - r / PAGE + 1
  }

  /** A hint that does not wrap around; unmapping of pages that are held only. */
  ghost predicate Proper(env: Env, st: State, c: Call) {
    match c
    case MapCall(hint, s) => hint < U64 && Hinted(hint) + s < U64
    case UnmapCall(ptr, s) =>
      ptr < U64 && VM.Legal(env.version, DEPTH, st.vm, VM.MunmapCall(Hinted(ptr), s))
  }

  /** The range kmmap is going to map, if there is one: enough frames are free, and as committed it is clean. */
  ghost predicate Mappable(env: Env, root: nat, st: State, hint: nat, s: nat)
    requires Proper(env, st, MapCall(hint, s))
  {
    var r := Buddy.Mmap(st.vm.tree, DEPTH, Hinted(hint), s);
    s > 0 && r < 0x4000_0000 ==>
      && Suffices(st.tables.phys, env.physLevel, PagesIn(r, s))
      && (env.version.AsCommitted? ==> CleanCall(st.tables, root, Virtual(r), s))
  }

  /** What callers owe. */
  ghost predicate Legal(env: Env, root: nat, st: State, c: Call) {
    Proper(env, st, c) && (c.MapCall? ==> Mappable(env, root, st, c.hint, c.size))
  }

  /** One call.  A failed kmmap leaves the tables alone. */
  ghost function Step(env: Env, root: nat, st: State, c: Call): State
    requires Proper(env, st, c)
  {
    match c
    case MapCall(hint, s) =>
      if s == 0 then st else
        var r := Buddy.Mmap(st.vm.tree, DEPTH, Hinted(hint), s);
        var vm' := VM.Step(env.version, DEPTH, st.vm, VM.MmapCall(Hinted(hint), s));
        if r == Buddy.ALLOC_NULL || r >= 0x4000_0000 then Kernel(vm', st.tables)
        else Kernel(vm', BackVmem(env, st.tables, root, Virtual(r), s, 0))
    case UnmapCall(ptr, s) =>
      if s == 0 then st else
        Kernel(VM.Step(env.version, DEPTH, st.vm, VM.MunmapCall(Hinted(ptr), s)),
              if s < U64 then UnbackVmem(env, st.tables, root, ptr, s) else st.tables)
  }

  lemma DepthPages()
    ensures Buddy.Pages(DEPTH) == 0x4_0000 && Buddy.Span(DEPTH) == 0x4000_0000
  {
    hide Buddy.Pages;
    Buddy.SpanTimes8(0);
    Buddy.SpanTimes8(3);
    Buddy.SpanTimes8(6);
    Buddy.SpanTimes8(9);
    Buddy.SpanTimes8(12);
    Buddy.SpanTimes8(15);
    assert Buddy.Span(0) == PAGE;
  }

  lemma SpelledNumber(p: nat)
    requires p < 0x4_0000
    ensures Path(Spelled(p)) && Value(Spelled(p)) == BASE + p == PageNumber(PageAddress(p))
    ensures !NotCanonical(PageAddress(p))
  {
    hide Indices;
    KernelPages(p * PAGE, 0);
    IndicesValue(PageAddress(p));
  }

  /** The pages of the mapped range, counted from the first. */
  lemma RangePage(r: nat, s: nat, p: nat)
    requires 0 < s && r + s <= 0x4000_0000 && p < 0x4_0000
    ensures Touches(r, s, p) <==> PageNumber(Virtual(r)) <= BASE + p <= LastPage(Virtual(r), s)
    ensures r / PAGE <= p && Touches(r, s, p) ==> BASE + p - PageNumber(Virtual(r)) == p - r / PAGE
  {
    KernelPages(r, 0);
    KernelRange(r, s);
  }

  // ---------- kmmap ----------

  /** What back_vmem as corrected finds and leaves, it does in either version. */
  lemma Mapped(env: Env, T: PageTables.State, root: nat, r: nat, s: nat)
    requires Healthy(env, T, root) && 0 < s && r + s <= 0x4000_0000 && CleanIn(env, T, root, r, s)
    ensures GoodRange(Virtual(r), s) && Rooted(Right(env), T, root)
    ensures var T' := BackVmem(env, T, root, Virtual(r), s, 0);
            var U' := BackVmem(Right(env), T, root, Virtual(r), s, 0);
            && Rooted(env, T', root) && T'.phys == U'.phys && NewVisits(T, T') == NewVisits(T, U')
            && forall p :: 0 <= p < 0x4_0000 ==> EntryOf(T', root, p) == EntryOf(U', root, p)
  {
    hide Indices, WF, Find, BackVmem, PhysOk, CleanCall;
    KernelRange(r, s);
    NoLargeBit();
    BackBeside(env, T, root, Virtual(r), s, 0);
    RightRooted(env, T, root);
  }

  /** As committed the range has to be clean. */
  ghost predicate CleanIn(env: Env, T: PageTables.State, root: nat, r: nat, s: nat)
    requires r < 0x4000_0000 && s < U64
  {
    env.version.AsCommitted? ==> CleanCall(T, root, Virtual(r), s)
  }

  /** A page of the range gets the entry of its visit; other pages with an entry keep it. */
  lemma MappedEntry(env: Env, T: PageTables.State, root: nat, r: nat, s: nat, p: nat)
    requires Healthy(env, T, root) && 0 < s && r + s <= 0x4000_0000 && p < 0x4_0000 && CleanIn(env, T, root, r, s)
    ensures var T' := BackVmem(env, T, root, Virtual(r), s, 0);
            if Touches(r, s, p) then
              && r / PAGE <= p < r / PAGE + |NewVisits(T, T')|
              && EntryOf(T', root, p) == Page(NewVisits(T, T')[p - r / PAGE].after)
            else EntryOf(T, root, p).Page? ==> EntryOf(T', root, p) == EntryOf(T, root, p)
  {
    hide Indices, WF, Find, Crawl, CrawlReady, Covered, Touches, PhysOk, SharesTable, NewVisits, CleanIn;
    Mapped(env, T, root, r, s);
    KernelPages(r, 0);
    RangePage(r, s, p);
    SpelledNumber(p);
    var a := Virtual(r);
    NoLargeBit();
    BackCovers(T, root, a, s, 0);
    if Touches(r, s, p) {
      RangeVisited(Right(env), T, root, a, s, Back(0), PageAddress(p));
    } else {
      RangeReady(Right(env), T, root, a, s, Back(0));
      InRangeIsNumber(a, s, PageAddress(p));
      CrawlOutside(Right(env), T, root, Indices(a), Indices(LastByte(a, s)), Back(0), LEVELS, Spelled(p));
    }
  }

  lemma NoLargeBit()
    ensures (0 as bv12) & PS == 0
  {}

  lemma VisitFlags(V: seq<Visit>, level: nat, phys: QuadTree.Tree, phys': QuadTree.Tree, k: nat)
    requires Chained(Back(0), level, phys, V, phys') && k < |V|
    ensures V[k].after.flags == P | RW
  {
    VisitsCallBack(Back(0), level, phys, V, phys', k);
    NoFlags();
  }

  lemma NoFlags()
    ensures P | RW | 0 == P | RW == 3
  {}

  /** An entry with these flags is present and writable. */
  lemma PlainEntry(e: Entry)
    requires e.flags == P | RW
    ensures Has(e, P) && Has(e, RW)
  {
    PageBits(0);
    NoFlags();
  }

  /** The visits of back_vmem on behalf of kmmap, one for each page. */
  lemma KmmapVisits(env: Env, T: PageTables.State, root: nat, r: nat, s: nat)
    requires Healthy(env, T, root) && 0 < s && r + s <= 0x4000_0000 && CleanIn(env, T, root, r, s)
    ensures var T' := BackVmem(env, T, root, Virtual(r), s, 0);
            var V := NewVisits(T, T');
            && Rooted(env, T', root) && |V| == PagesIn(r, s)
            && Chained(Back(0), env.physLevel, T.phys, V, T'.phys)
            && (forall p :: r / PAGE <= p < r / PAGE + |V| <==> 0 <= p < 0x4_0000 && Touches(r, s, p))
  {
    hide Indices, WF, Find, Crawl, CrawlReady, Covered, PhysOk, SharesTable, Chained, NewVisits, CleanIn;
    Mapped(env, T, root, r, s);
    KernelRange(r, s);
    KernelPages(r, 0);
    var a := Virtual(r);
    NoLargeBit();
    BackCovers(T, root, a, s, 0);
    RangeKeeps(Right(env), T, root, a, s, Back(0));
  }

  /** What back_vmem does to the tables on behalf of kmmap. */
  lemma KmmapTables(env: Env, T: PageTables.State, root: nat, r: nat, s: nat)
    requires Healthy(env, T, root) && 0 < s && r + s <= 0x4000_0000 && CleanIn(env, T, root, r, s)
    requires Suffices(T.phys, env.physLevel, PagesIn(r, s))
    ensures var T' := BackVmem(env, T, root, Virtual(r), s, 0);
            var V := NewVisits(T, T');
            && Healthy(env, T', root) && |V| == PagesIn(r, s)
            && Chained(Back(0), env.physLevel, T.phys, V, T'.phys)
            && (forall p :: r / PAGE <= p < r / PAGE + |V| <==> 0 <= p < 0x4_0000 && Touches(r, s, p))
  {
    hide Rooted, BackVmem, PhysOk, Chained, NewVisits, Touches, CleanIn;
    KmmapVisits(env, T, root, r, s);
    var T' := BackVmem(env, T, root, Virtual(r), s, 0);
    FramesTaken(0, env.physLevel, T.phys, NewVisits(T, T'), T'.phys);
  }

  /** The new pages get frames of their own. */
  lemma KmmapFrames(env: Env, T: PageTables.State, root: nat, r: nat, s: nat, held: set<nat>, held': set<nat>,
      initial: set<nat>)
    requires Healthy(env, T, root) && FramesMatch(env, T, root, held, initial) && 0 < s && r + s <= 0x4000_0000
    requires Suffices(T.phys, env.physLevel, PagesIn(r, s)) && CleanIn(env, T, root, r, s)
    requires forall p :: p in held' <==> p in held || (0 <= p < 0x4_0000 && Touches(r, s, p))
    requires forall p :: p in held ==> !Touches(r, s, p)
    ensures FramesMatch(env, BackVmem(env, T, root, Virtual(r), s, 0), root, held', initial)
  {
    hide Indices, WF, Find, BackVmem, Rooted, PhysOk, Chained, Suffices, Touches, NewVisits, Spelled, QuadTree.Used;
    hide QuadTree.Count, CleanIn;
    KmmapTables(env, T, root, r, s);
    var T' := BackVmem(env, T, root, Virtual(r), s, 0);
    var V := NewVisits(T, T');
    var first := r / PAGE;
    FramesTaken(0, env.physLevel, T.phys, V, T'.phys);
    forall p | p in held' && p < 0x4_0000
      ensures if p in held then EntryOf(T', root, p) == EntryOf(T, root, p)
              else first <= p < first + |V| && EntryOf(T', root, p) == Page(V[p - first].after)
    {
      MappedEntry(env, T, root, r, s, p);
      if p in held { assert Backed(env, T, root, p, initial); }
    }
    forall p | p in held' ensures Backed(env, T', root, p, initial) {
      if p in held {
        assert Backed(env, T, root, p, initial);
      } else {
        VisitFlags(V, env.physLevel, T.phys, T'.phys, p - first);
      }
    }
    forall p, q | p in held' && q in held' && p != q && p < 0x4_0000 && q < 0x4_0000
      ensures FrameFor(T', root, p) != FrameFor(T', root, q)
    {
      FramesApart(env, T, T', root, held, initial, V, first, p, q);
    }
    forall p | p in held ensures p in held' && p < 0x4_0000 {
      assert Backed(env, T, root, p, initial);
    }
    forall p: nat | first <= p < first + |V| ensures NewlyHeld(held, held', p) {
      assert Touches(r, s, p);
    }
    forall x: nat | x < QuadTree.Count(env.physLevel)
      ensures QuadTree.Used(T'.phys, env.physLevel, x) <==> x in initial || Behind(T', root, held', x)
    {
      BehindGrows(T, T', root, held, held', V, first, x);
    }
  }

  ghost predicate NewlyHeld(held: set<nat>, held': set<nat>, p: nat) {
    p in held' && p !in held && p < 0x4_0000
  }

  lemma FramesApart(env: Env, T: PageTables.State, T': PageTables.State, root: nat, held: set<nat>, initial: set<nat>,
                    V: seq<Visit>, first: nat, p: nat, q: nat)
    requires FramesMatch(env, T, root, held, initial) && p != q && p < 0x4_0000 && q < 0x4_0000
    requires forall x :: x in {p, q} ==>
               if x in held then EntryOf(T', root, x) == EntryOf(T, root, x)
               else first <= x < first + |V| && EntryOf(T', root, x) == Page(V[x - first].after)
    requires forall k :: 0 <= k < |V| ==>
                V[k].after.frame < QuadTree.Count(env.physLevel) &&
                !QuadTree.Used(T.phys, env.physLevel, V[k].after.frame)
    requires forall j, k :: 0 <= j < k < |V| ==> V[j].after.frame != V[k].after.frame
    ensures FrameFor(T', root, p) != FrameFor(T', root, q)
  {
    hide EntryOf, QuadTree.Used, QuadTree.Count, Has;
    if p in held { HeldFrameUsed(env, T, root, held, initial, p); }
    if q in held { HeldFrameUsed(env, T, root, held, initial, q); }
  }

  lemma HeldFrameUsed(env: Env, T: PageTables.State, root: nat, held: set<nat>, initial: set<nat>, p: nat)
    requires FramesMatch(env, T, root, held, initial) && p in held
    ensures p < 0x4_0000 && FrameFor(T, root, p) < QuadTree.Count(env.physLevel)
    ensures QuadTree.Used(T.phys, env.physLevel, FrameFor(T, root, p))
  {
    hide EntryOf, QuadTree.Used, QuadTree.Count, Has;
    assert Backed(env, T, root, p, initial);
    assert Behind(T, root, held, FrameFor(T, root, p));
  }

  lemma BehindGrows(T: PageTables.State, T': PageTables.State, root: nat, held: set<nat>, held': set<nat>,
      V: seq<Visit>, first: nat, x: nat)
    requires forall p :: p in held ==> p in held' && p < 0x4_0000
    requires forall p :: p in held' && p < 0x4_0000 ==>
               if p in held then EntryOf(T', root, p) == EntryOf(T, root, p)
               else first <= p < first + |V| && EntryOf(T', root, p) == Page(V[p - first].after)
    requires forall p: nat :: first <= p < first + |V| ==> NewlyHeld(held, held', p)
    ensures Behind(T', root, held', x) <==> Behind(T, root, held, x) || Taken(V, x)
  {
    hide EntryOf;
    if p :| p in held && p < 0x4_0000 && FrameFor(T, root, p) == x { assert FrameFor(T', root, p) == x; }
    if k :| 0 <= k < |V| && V[k].after.frame == x {
      var p := first + k;
      assert NewlyHeld(held, held', p);
      assert p in held' && FrameFor(T', root, p) == x;
    }
    if p :| p in held' && p < 0x4_0000 && FrameFor(T', root, p) == x {
      if p in held { assert FrameFor(T, root, p) == x; } else { assert V[p - first].after.frame == x; }
    }
  }

  lemma KmmapKeepsInvariant(env: Env, root: nat, st: State, hint: nat, s: nat, reserved: set<nat>, initial: set<nat>)
    requires Invariant(env, root, st, reserved, initial) && Legal(env, root, st, MapCall(hint, s))
    ensures Invariant(env, root, Step(env, root, st, MapCall(hint, s)), reserved, initial)
    ensures var r := Buddy.Mmap(st.vm.tree, DEPTH, Hinted(hint), s);
            r == Buddy.ALLOC_NULL || s == 0 || (r + s <= 0x4000_0000 && CleanIn(env, st.tables, root, r, s))
  {
    hide Healthy, FramesMatch, BackVmem, VM.Invariant, Buddy.Mmap, VM.Step, VM.TouchedPages, Touches, Suffices;
    hide Buddy.Pages, Buddy.Span;
    hide TablesApart, UnbackVmem;
    VM.MmapStepSafe(env.version, DEPTH, st.vm, Hinted(hint), s, reserved);
    DepthPages();
    var r := Buddy.Mmap(st.vm.tree, DEPTH, Hinted(hint), s);
    if s > 0 && r != Buddy.ALLOC_NULL {
      var held, held' := st.vm.held.Keys, VM.Step(env.version, DEPTH, st.vm, VM.MmapCall(Hinted(hint), s)).held.Keys;
      GrantedPages(r, s);
      HeldInRange(st.vm, reserved);
      forall p ensures p in held' <==> p in held || (0 <= p < 0x4_0000 && Touches(r, s, p)) {}
      KmmapFrames(env, st.tables, root, r, s, held, held', initial);
      KmmapTables(env, st.tables, root, r, s);
      RangeKeepsApart(env, st.tables, root, Virtual(r), s, initial);
    } else if s == 0 {
    } else {
      SameHeld(env, st.tables, root, st.vm.held.Keys,
               VM.Step(env.version, DEPTH, st.vm, VM.MmapCall(Hinted(hint), s)).held.Keys, initial);
    }
  }

  /** A range that kmmap maps gets frames of its own if and only if so many are free; otherwise a page of it is
      mapped beyond the frame allocator. */
  lemma KmmapKeepsInvariantIff(env: Env, root: nat, st: State, hint: nat, s: nat, reserved: set<nat>,
      initial: set<nat>)
    requires Invariant(env, root, st, reserved, initial) && Proper(env, st, MapCall(hint, s)) && 0 < s
    requires var r := Buddy.Mmap(st.vm.tree, DEPTH, Hinted(hint), s);
             r < 0x4000_0000 && CleanIn(env, st.tables, root, r, s)
    ensures var r := Buddy.Mmap(st.vm.tree, DEPTH, Hinted(hint), s);
            Invariant(env, root, Step(env, root, st, MapCall(hint, s)), reserved, initial) <==>
            Suffices(st.tables.phys, env.physLevel, PagesIn(r, s))
  {
    hide Healthy, FramesMatch, BackVmem, VM.Invariant, Buddy.Mmap, VM.Step, VM.TouchedPages, Touches, Suffices;
    hide Buddy.Pages, Buddy.Span, TablesApart, UnbackVmem, CleanIn;
    var r := Buddy.Mmap(st.vm.tree, DEPTH, Hinted(hint), s);
    if Suffices(st.tables.phys, env.physLevel, PagesIn(r, s)) {
      assert CleanIn(env, st.tables, root, r, s);
      CleanIsMappable(env, root, st, hint, s);
      KmmapKeepsInvariant(env, root, st, hint, s, reserved, initial);
    } else {
      VM.MmapStepSafe(env.version, DEPTH, st.vm, Hinted(hint), s, reserved);
      DepthPages();
      GrantedPages(r, s);
      FramesRunOut(env, st.tables, root, r, s,
                   VM.Step(env.version, DEPTH, st.vm, VM.MmapCall(Hinted(hint), s)).held.Keys, initial);
    }
  }

  lemma CleanIsMappable(env: Env, root: nat, st: State, hint: nat, s: nat)
    requires Proper(env, st, MapCall(hint, s)) && 0 < s
    requires var r := Buddy.Mmap(st.vm.tree, DEPTH, Hinted(hint), s);
             && r < 0x4000_0000 && CleanIn(env, st.tables, root, r, s)
             && Suffices(st.tables.phys, env.physLevel, PagesIn(r, s))
    ensures Mappable(env, root, st, hint, s)
  {
    hide Buddy.Mmap, Suffices, CleanCall;
  }

  /** Without enough frames a page of the range is not backed. */
  lemma FramesRunOut(env: Env, T: PageTables.State, root: nat, r: nat, s: nat, held: set<nat>, initial: set<nat>)
    requires Healthy(env, T, root) && 0 < s && r + s <= 0x4000_0000 && CleanIn(env, T, root, r, s)
    requires !Suffices(T.phys, env.physLevel, PagesIn(r, s))
    requires forall p :: 0 <= p < 0x4_0000 && Touches(r, s, p) ==> p in held
    ensures !FramesMatch(env, BackVmem(env, T, root, Virtual(r), s, 0), root, held, initial)
  {
    hide Rooted, BackVmem, PhysOk, Chained, Suffices, NewVisits, Touches, CleanIn, EntryOf, Has, QuadTree.Used;
    hide QuadTree.Count;
    KmmapVisits(env, T, root, r, s);
    var T' := BackVmem(env, T, root, Virtual(r), s, 0);
    var V := NewVisits(T, T');
    var k := OneBeyond(0, env.physLevel, T.phys, V, T'.phys);
    var p := r / PAGE + k;
    assert Touches(r, s, p);
    MappedEntry(env, T, root, r, s, p);
    assert EntryOf(T', root, p) == Page(V[k].after);
    assert !Backed(env, T', root, p, initial);
  }

  /** get_page of a full allocator gives an address beyond it. */
  lemma {:induction false} OneBeyond(f: bv12, level: nat, phys: QuadTree.Tree, V: seq<Visit>, phys': QuadTree.Tree)
    returns (k: nat)
    requires Chained(Back(f), level, phys, V, phys') && PhysOk(phys, level) && !Suffices(phys, level, |V|)
    ensures k < |V| && V[k].after.frame >= QuadTree.Count(level)
    decreases |V|
  {
    hide QuadTree.GetPage, QuadTree.AfterGetPage, QuadTree.Used, QuadTree.Count, QuadTree.IsFull, PhysOk, FrameOf;
    if QuadTree.IsFull(phys) {
      FullGivesNull(phys, level);
      k := 0;
    } else {
      var p := OneTaken(phys, level);
      k := OneBeyond(f, level, QuadTree.AfterGetPage(phys, level), V[1..], phys');
      assert V[1..][k] == V[k + 1];
      k := k + 1;
    }
  }

  lemma FullGivesNull(phys: QuadTree.Tree, level: nat)
    requires PhysOk(phys, level) && QuadTree.IsFull(phys)
    ensures FrameOf(QuadTree.GetPage(phys, level)) >= QuadTree.Count(level)
  {
    hide QuadTree.Shaped, QuadTree.Honest, QuadTree.Count, FrameOf;
    QT.CountFits(level);
    NullIsBeyond();
    assert QuadTree.GetPage(phys, level) == QuadTree.PH_NULL;
  }

  lemma NullIsBeyond()
    ensures FrameOf(QuadTree.PH_NULL) == 0xFF_FFFF_FFFF
  {
    assert QuadTree.PH_NULL / PAGE == 0xF_FFFF_FFFF_FFFF;
  }

  ghost function FreeFrames(t: QuadTree.Tree, level: nat): set<nat> {
    set x: nat | x < QuadTree.Count(level) && !QuadTree.Used(t, level, x)
  }

  /** Enough frames means as many as are free. */
  lemma {:induction false} SufficesIff(t: QuadTree.Tree, level: nat, n: nat)
    requires PhysOk(t, level)
    ensures Suffices(t, level, n) <==> n <= |FreeFrames(t, level)|
    decreases n
  {
    hide QuadTree.AfterGetPage, QuadTree.Used, QuadTree.Count, QuadTree.IsFull, PhysOk;
    if n > 0 {
      NoneFreeIff(t, level);
      if !QuadTree.IsFull(t) {
        var p := OneTaken(t, level);
        var t' := QuadTree.AfterGetPage(t, level);
        SufficesIff(t', level, n - 1);
        assert FreeFrames(t', level) == FreeFrames(t, level) - {p};
        assert p in FreeFrames(t, level);
      }
    }
  }

  lemma NoneFreeIff(t: QuadTree.Tree, level: nat)
    requires PhysOk(t, level)
    ensures QuadTree.IsFull(t) <==> FreeFrames(t, level) == {}
  {
    hide QuadTree.Used, QuadTree.Count, QuadTree.Shaped, QuadTree.Honest;
    QT.FullMeansAllUsed(t, level);
    if !QuadTree.IsFull(t) {
      var p := OneTaken(t, level);
      assert p in FreeFrames(t, level);
    }
  }

  /** kmmap returns a hint of the kernel's range that lies in an aligned block free of held and reserved pages. */
  lemma KmmapTakesHint(st: State, hint: nat, s: nat, reserved: set<nat>)
    requires VM.Invariant(DEPTH, st.vm, reserved) && Buddy.Exact(st.vm.tree, DEPTH)
    requires U64 - GIB2 <= hint < U64 && 0 < s < U64 && VM.HintUnheld(DEPTH, st.vm, reserved, hint - (U64 - GIB2), s)
    ensures var r := Buddy.Mmap(st.vm.tree, DEPTH, Hinted(hint), s);
            r < 0x4000_0000 && Virtual(r) == hint
  {
    hide VM.Invariant, Buddy.Exact, Buddy.Mmap, VM.HintUnheld, Buddy.Span, Buddy.Pages;
    var a := hint - (U64 - GIB2);
    DepthPages();
    assert Hinted(hint) == a;
    VM.HintUnheldIff(DEPTH, st.vm, reserved, a, s);
    VM.HintInMemory(DEPTH, st.vm, reserved, a, s);
    VM.MmapTakesHint(st.vm.tree, DEPTH, a, s);
  }

  lemma SameHeld(env: Env, T: PageTables.State, root: nat, held: set<nat>, held': set<nat>, initial: set<nat>)
    requires FramesMatch(env, T, root, held, initial) && held == held'
    ensures FramesMatch(env, T, root, held', initial)
  {}

  lemma GrantedPages(r: nat, s: nat)
    ensures forall p :: p in VM.TouchedPages(DEPTH, r, s) <==> 0 <= p < 0x4_0000 && Touches(r, s, p)
  {
    hide Touches;
    DepthPages();
  }

  lemma HeldInRange(vm: VM.State, reserved: set<nat>)
    requires VM.Invariant(DEPTH, vm, reserved)
    ensures forall p :: p in vm.held ==> p < 0x4_0000
  {
    DepthPages();
  }

  // ---------- kmunmap ----------

  /** The tables of held pages exist. */
  lemma HeldCovered(env: Env, T: PageTables.State, root: nat, r: nat, s: nat, held: set<nat>, initial: set<nat>)
    requires Healthy(env, T, root) && FramesMatch(env, T, root, held, initial) && 0 < s && r + s <= 0x4000_0000
    requires forall p :: 0 <= p < 0x4_0000 && Touches(r, s, p) ==> p in held
    ensures Covered(T, root, Indices(Virtual(r)), Indices(LastByte(Virtual(r), s)), Unback)
  {
    hide Indices, WF, Find, Healthy, Touches, Value, QuadTree.Used;
    KernelRange(r, s);
    KernelPages(r, 0);
    RangeIndices(Virtual(r), s);
    forall q | InRange(Indices(Virtual(r)), Indices(LastByte(Virtual(r), s)), q) ensures Reaches(T, root, q) {
      var p := Value(q) - BASE;
      RangePage(r, s, p);
      SpelledNumber(p);
      ValueInjective(q, Spelled(p));
      assert Backed(env, T, root, p, initial);
      ReachesFindsPage(T, root, q);
    }
  }

  lemma UnmappedEntry(env: Env, T: PageTables.State, root: nat, r: nat, s: nat, p: nat)
    requires Healthy(env, T, root) && 0 < s && r + s <= 0x4000_0000 && p < 0x4_0000
    requires Covered(T, root, Indices(Virtual(r)), Indices(LastByte(Virtual(r), s)), Unback)
    ensures var T' := UnbackVmem(env, T, root, Virtual(r), s);
            if Touches(r, s, p) then
              && r / PAGE <= p < r / PAGE + |NewVisits(T, T')|
              && NewVisits(T, T')[p - r / PAGE].before == Seen(EntryOf(T, root, p))
            else EntryOf(T, root, p).Page? ==> EntryOf(T', root, p) == EntryOf(T, root, p)
  {
    hide Indices, WF, Find, Crawl, CrawlReady, Covered, Touches, PhysOk, SharesTable;
    KernelRange(r, s);
    KernelPages(r, 0);
    RangePage(r, s, p);
    SpelledNumber(p);
    var a := Virtual(r);
    UnbackBeside(env, T, root, a, s);
    if Touches(r, s, p) {
      RangeVisited(Right(env), T, root, a, s, Unback, PageAddress(p));
    } else {
      RangeReady(Right(env), T, root, a, s, Unback);
      InRangeIsNumber(a, s, PageAddress(p));
      CrawlOutside(Right(env), T, root, Indices(a), Indices(LastByte(a, s)), Unback, LEVELS, Spelled(p));
    }
  }

  lemma KmunmapTables(env: Env, T: PageTables.State, root: nat, r: nat, s: nat)
    requires Healthy(env, T, root) && 0 < s && r + s <= 0x4000_0000
    requires Covered(T, root, Indices(Virtual(r)), Indices(LastByte(Virtual(r), s)), Unback)
    ensures var T' := UnbackVmem(env, T, root, Virtual(r), s);
            var V := NewVisits(T, T');
            && Healthy(env, T', root)
            && Chained(Unback, env.physLevel, T.phys, V, T'.phys)
            && (forall p :: r / PAGE <= p < r / PAGE + |V| <==> 0 <= p < 0x4_0000 && Touches(r, s, p))
  {
    hide Indices, WF, Find, Crawl, CrawlReady, Covered, PhysOk, SharesTable, Chained;
    KernelRange(r, s);
    KernelPages(r, 0);
    var a := Virtual(r);
    UnbackBeside(env, T, root, a, s);
    RangeKeeps(Right(env), T, root, a, s, Unback);
    var T' := UnbackVmem(env, T, root, a, s);
    FramesGiven(env.physLevel, T.phys, NewVisits(T, T'), T'.phys);
  }

  /** Exactly the frames of the unmapped pages are given back. */
  lemma KmunmapFrames(env: Env, T: PageTables.State, root: nat, r: nat, s: nat, held: set<nat>, held': set<nat>,
      initial: set<nat>)
    requires Healthy(env, T, root) && FramesMatch(env, T, root, held, initial) && 0 < s && r + s <= 0x4000_0000
    requires forall p :: 0 <= p < 0x4_0000 && Touches(r, s, p) ==> p in held
    requires forall p :: p in held' <==> p in held && !Touches(r, s, p)
    ensures FramesMatch(env, UnbackVmem(env, T, root, Virtual(r), s), root, held', initial)
    ensures Healthy(env, UnbackVmem(env, T, root, Virtual(r), s), root)
  {
    hide Indices, WF, Find, UnbackVmem, Rooted, PhysOk, Chained, Touches, NewVisits, Spelled, Covered, QuadTree.Used;
    hide QuadTree.Count;
    HeldCovered(env, T, root, r, s, held, initial);
    KmunmapTables(env, T, root, r, s);
    var T' := UnbackVmem(env, T, root, Virtual(r), s);
    var V := NewVisits(T, T');
    var first := r / PAGE;
    FramesGiven(env.physLevel, T.phys, V, T'.phys);
    forall p | p in held ensures p < 0x4_0000 && EntryOf(T, root, p).Page? {
      assert Backed(env, T, root, p, initial);
    }
    forall p | p in held' ensures EntryOf(T', root, p) == EntryOf(T, root, p) {
      UnmappedEntry(env, T, root, r, s, p);
    }
    forall p | p in held' ensures Backed(env, T', root, p, initial) {
      assert Backed(env, T, root, p, initial);
    }
    forall p: nat | first <= p < first + |V| ensures GivesBack(T, root, held, held', V, first, p) {
      assert Touches(r, s, p);
      UnmappedEntry(env, T, root, r, s, p);
    }
    forall p | p in held && p !in held' ensures first <= p < first + |V| {
      assert Touches(r, s, p);
    }
    forall p | p in held ensures p < 0x4_0000 && FrameFor(T, root, p) !in initial {
      assert Backed(env, T, root, p, initial);
    }
    forall p, q | p in held && q in held && p != q ensures FrameFor(T, root, p) != FrameFor(T, root, q) {}
    assert held' <= held;
    forall x: nat | x < QuadTree.Count(env.physLevel)
      ensures QuadTree.Used(T'.phys, env.physLevel, x) <==> x in initial || Behind(T', root, held', x)
    {
      BehindShrinks(T, T', root, held, held', V, first, x, initial);
    }
  }

  /** The visit of page p gives back its frame. */
  ghost predicate GivesBack(T: PageTables.State, root: nat, held: set<nat>, held': set<nat>, V: seq<Visit>, first: nat,
      p: nat) {
    && p in held && p !in held' && p < 0x4_0000 && first <= p < first + |V|
    && V[p - first].before.frame == FrameFor(T, root, p)
  }

  lemma BehindShrinks(T: PageTables.State, T': PageTables.State, root: nat, held: set<nat>, held': set<nat>,
                      V: seq<Visit>, first: nat, x: nat, initial: set<nat>)
    requires held' <= held && forall p :: p in held ==> p < 0x4_0000 && FrameFor(T, root, p) !in initial
    requires forall p :: p in held' ==> EntryOf(T', root, p) == EntryOf(T, root, p)
    requires forall p :: first <= p < first + |V| ==> GivesBack(T, root, held, held', V, first, p)
    requires forall p :: p in held && p !in held' ==> first <= p < first + |V|
    requires forall p, q :: p in held && q in held && p != q ==> FrameFor(T, root, p) != FrameFor(T, root, q)
    ensures x in initial || Behind(T', root, held', x) <==> (x in initial || Behind(T, root, held, x)) && !Given(V, x)
  {
    hide EntryOf;
    if k :| 0 <= k < |V| && V[k].before.frame == x {
      var p := first + k;
      assert GivesBack(T, root, held, held', V, first, p);
      assert p in held && FrameFor(T, root, p) == x;
    }
    if p :| p in held && p < 0x4_0000 && FrameFor(T, root, p) == x {
      if p in held' {
        assert FrameFor(T', root, p) == x;
      } else {
        assert GivesBack(T, root, held, held', V, first, p);
        assert V[p - first].before.frame == x;
      }
    }
    if p :| p in held' && p < 0x4_0000 && FrameFor(T', root, p) == x { assert FrameFor(T, root, p) == x; }
  }

  lemma KmunmapKeepsInvariant(env: Env, root: nat, st: State, ptr: nat, s: nat, reserved: set<nat>, initial: set<nat>)
    requires Invariant(env, root, st, reserved, initial) && Legal(env, root, st, UnmapCall(ptr, s))
    ensures Invariant(env, root, Step(env, root, st, UnmapCall(ptr, s)), reserved, initial)
  {
    hide Healthy, FramesMatch, UnbackVmem, VM.Invariant, VM.Step, VM.TouchedPages, Touches, Buddy.Pages, Buddy.Span;
    hide TablesApart, BackVmem;
    if s > 0 {
      DepthPages();
      var r := Hinted(ptr);
      assert ptr == Virtual(r);
      VM.MunmapStepSafe(env.version, DEPTH, st.vm, r, s, reserved);
      GrantedPages(r, s);
      var vm' := VM.Step(env.version, DEPTH, st.vm, VM.MunmapCall(r, s));
      MunmapHeld(env.version, st.vm, r, s);
      HeldInRange(st.vm, reserved);
      forall p ensures p in vm'.held.Keys <==> p in st.vm.held.Keys && !Touches(r, s, p) {}
      KmunmapFrames(env, st.tables, root, r, s, st.vm.held.Keys, vm'.held.Keys, initial);
      if s < U64 { RangeKeepsApart(env, st.tables, root, ptr, s, initial); }
    }
  }

  lemma MunmapHeld(v: Version, vm: VM.State, r: nat, s: nat)
    requires VM.Legal(v, DEPTH, vm, VM.MunmapCall(r, s))
    ensures VM.Step(v, DEPTH, vm, VM.MunmapCall(r, s)).held == vm.held - VM.TouchedPages(DEPTH, r, s)
  {}

  // ---------- runs ----------

  ghost predicate LegalRun(env: Env, root: nat, st: State, calls: seq<Call>)
    decreases |calls|
  {
    calls == [] || (Legal(env, root, st, calls[0]) && LegalRun(env, root, Step(env, root, st, calls[0]), calls[1..]))
  }

  ghost function Run(env: Env, root: nat, st: State, calls: seq<Call>): State
    requires LegalRun(env, root, st, calls)
    decreases |calls|
  {
    if calls == [] then st else Run(env, root, Step(env, root, st, calls[0]), calls[1..])
  }

  lemma {:induction false} RunsKeepInvariant(env: Env, root: nat, st: State, calls: seq<Call>, reserved: set<nat>,
      initial: set<nat>)
    requires Invariant(env, root, st, reserved, initial) && LegalRun(env, root, st, calls)
    ensures Invariant(env, root, Run(env, root, st, calls), reserved, initial)
    decreases |calls|
  {
    hide Invariant, Step, Proper, Mappable;
    if calls != [] {
      match calls[0] {
        case MapCall(hint, s) => KmmapKeepsInvariant(env, root, st, hint, s, reserved, initial);
        case UnmapCall(ptr, s) => KmunmapKeepsInvariant(env, root, st, ptr, s, reserved, initial);
      }
      RunsKeepInvariant(env, root, Step(env, root, st, calls[0]), calls[1..], reserved, initial);
    }
  }

  /** Main result on the composition.  After any legal run every held page resolves, writable, to its own frame,
      at every offset, and its entry has no other flags; no two held pages share a frame, and none is that of a page
      table; and the used frames are the initial ones and those. */
  lemma HeldPagesResolve(env: Env, root: nat, st: State, calls: seq<Call>, reserved: set<nat>, initial: set<nat>)
    requires Invariant(env, root, st, reserved, initial) && LegalRun(env, root, st, calls)
    ensures var st' := Run(env, root, st, calls);
            && (forall p, off :: p in st'.vm.held && 0 <= off < PAGE ==>
                  && p < 0x4_0000
                  && ResolveToPhmem(st'.tables, root, ByteAddress(p, off)) ==
                       Ok(true, FrameFor(st'.tables, root, p), false))
            && (forall p, q :: p in st'.vm.held && q in st'.vm.held && p != q && p < 0x4_0000 && q < 0x4_0000 ==>
                  FrameFor(st'.tables, root, p) != FrameFor(st'.tables, root, q))
            && (forall p :: p in st'.vm.held && p < 0x4_0000 ==>
                  FrameFor(st'.tables, root, p) !in st'.tables.mem && Seen(EntryOf(st'.tables, root, p)).flags == 3)
            && (forall x: nat :: x < QuadTree.Count(env.physLevel) ==>
                  (QuadTree.Used(st'.tables.phys, env.physLevel, x) <==>
                   x in initial || Behind(st'.tables, root, st'.vm.held.Keys, x)))
  {
    hide Run, LegalRun, VM.Invariant, QuadTree.Used, QuadTree.Count, WF, PhysOk, ResolveToPhmem, Indices, NotCanonical;
    hide Find;
    RunsKeepInvariant(env, root, st, calls, reserved, initial);
    var st' := Run(env, root, st, calls);
    HeldInRange(st'.vm, reserved);
    forall p, off | p in st'.vm.held && 0 <= off < PAGE
      ensures p < 0x4_0000
      ensures ResolveToPhmem(st'.tables, root, ByteAddress(p, off)) == Ok(true, FrameFor(st'.tables, root, p), false)
    {
      assert Backed(env, st'.tables, root, p, initial);
      PlainEntry(EntryOf(st'.tables, root, p).e);
      OffsetInPage(p, off);
      ResolveAnswers(env, st'.tables, root, ByteAddress(p, off));
    }
    forall p | p in st'.vm.held && p < 0x4_0000
      ensures FrameFor(st'.tables, root, p) !in st'.tables.mem && Seen(EntryOf(st'.tables, root, p)).flags == 3
    {
      assert Backed(env, st'.tables, root, p, initial);
      NoFlags();
    }
  }

  lemma OffsetInPage(p: nat, off: nat)
    requires p < 0x4_0000 && off < PAGE
    ensures !NotCanonical(ByteAddress(p, off)) && Indices(ByteAddress(p, off)) == Spelled(p)
  {
    KernelPages(p * PAGE + off, 0);
    SpelledNumber(p);
    IndicesValue(ByteAddress(p, off));
    ValueInjective(Indices(ByteAddress(p, off)), Spelled(p));
  }

  ghost function UsedFrames(t: QuadTree.Tree, level: nat): set<nat> {
    set x: nat | x < QuadTree.Count(level) && QuadTree.Used(t, level, x)
  }

  /** The page belongs to the kernel image, as the tables the kernel is built with do. */
  ghost predicate InImage(image: SH.Bytes, f: nat) {
    f * PAGE <= image.end && image.beg < (f + 1) * PAGE
  }

  /** What the boot code leaves: well-formed tables, they and the spare ones in the kernel image or beyond the
      allocator's 4 GiB. */
  ghost predicate BootTables(env: Env, T: PageTables.State, root: nat, image: SH.Bytes) {
    && env.physLevel == SH.LEVEL && Rooted(env, T, root)
    && (forall f :: f in T.mem ==> InImage(image, f) || f >= QuadTree.Count(SH.LEVEL))
    && (forall k: nat :: InImage(image, env.supply(k)) || env.supply(k) >= QuadTree.Count(SH.LEVEL))
  }

  /** Frame x is not wholly available, or belongs to the kernel image. */
  ghost predicate Excluded(m: seq<SH.MapEntry>, image: SH.Bytes, x: nat) {
    exists b: nat :: SH.InPage(x, b) && (!SH.Available(m, b) || image.beg <= b <= image.end)
  }

  lemma ImageIsExcluded(m: seq<SH.MapEntry>, image: SH.Bytes, x: nat)
    requires image.beg <= image.end && InImage(image, x)
    ensures Excluded(m, image, x)
  {
    var b := if image.beg <= x * PAGE then x * PAGE else image.beg;
    assert SH.InPage(x, b);
  }

  /** The frames that are used at the start. */
  lemma InitialFrames(m: seq<SH.MapEntry>, image: SH.Bytes, x: nat)
    requires SH.GoodMap(m) && image.beg <= image.end
    ensures x in UsedFrames(SH.SetUp(m, image), SH.LEVEL) <==> x < QuadTree.Count(SH.LEVEL) && Excluded(m, image, x)
  {
    hide QuadTree.Used, QuadTree.Count, SH.SetUp, SH.Available;
    SH.CountOfLevel();
    if x < QuadTree.Count(SH.LEVEL) { SH.FreePagesAreAvailable(m, image, x); }
  }

  /** Where runs start: after setup_heap on any good memory map the kernel image is reserved, nothing is held, and
      the used frames are those that are not wholly available or belong to the image. */
  lemma SetupEstablishesInvariant(env: Env, root: nat, T: PageTables.State, m: seq<SH.MapEntry>, kernelBegin: nat,
                                  kernelEnd: nat, kernelZero: nat)
    requires SH.GoodMap(m) && SH.ImageOk(kernelBegin, kernelEnd, kernelZero)
             && kernelBegin < kernelEnd <= U64 - 0x4000_0000
    requires var image := SH.Image(kernelBegin, kernelEnd, kernelZero);
             BootTables(env, T, root, image) && T.phys == SH.SetUp(m, image)
    ensures var a, s := kernelBegin - (U64 - GIB2), kernelEnd - kernelBegin;
            var tree := Buddy.MarkUsed(Buddy.Fresh(DEPTH), DEPTH, a, s);
            var initial := UsedFrames(T.phys, SH.LEVEL);
            && Invariant(env, root, Kernel(VM.State(tree, map[], 0), T), VM.TouchedPages(DEPTH, a, s), initial)
            && forall x :: (x in initial <==>
                 0 <= x < QuadTree.Count(SH.LEVEL) && Excluded(m, SH.Image(kernelBegin, kernelEnd, kernelZero), x))
  {
    hide Buddy.MarkUsed, Buddy.Fresh, Buddy.Free, Buddy.Shaped, Buddy.Sound, QuadTree.Used, QuadTree.Count, Touches;
    hide SH.SetUp, SH.Available, Rooted, QuadTree.Shaped, QuadTree.Honest, SH.GoodMap, Excluded;
    var a, s := kernelBegin - (U64 - GIB2), kernelEnd - kernelBegin;
    var image := SH.Image(kernelBegin, kernelEnd, kernelZero);
    DepthPages();
    VM.FreshIsFree(DEPTH);
    VM.MarkGrant(Buddy.Fresh(DEPTH), DEPTH, a, s);
    SH.SetUpShape(m, image);
    forall x: nat ensures x in UsedFrames(T.phys, SH.LEVEL) <==> x < QuadTree.Count(SH.LEVEL) && Excluded(m, image, x)
      ensures InImage(image, x) ==> OutOfReach(env, UsedFrames(T.phys, SH.LEVEL), x)
    {
      InitialFrames(m, image, x);
      if InImage(image, x) { ImageIsExcluded(m, image, x); }
    }
    StartTables(env, T, root, image, UsedFrames(T.phys, SH.LEVEL));
  }

  lemma StartTables(env: Env, T: PageTables.State, root: nat, image: SH.Bytes, initial: set<nat>)
    requires BootTables(env, T, root, image)
    requires forall x: nat :: InImage(image, x) ==> OutOfReach(env, initial, x)
    ensures TablesApart(env, T, initial)
  {
    hide Rooted;
  }
}
