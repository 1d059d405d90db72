/** operator new and operator delete over kmmap and kmunmap. */
module HeapOnMap {
  import opened Machine
  import opened HeapAccounts
  import opened HeapTheory
  import PageTables
  import SlotMap
  import BL = BucketLists
  import KM = KernelMap
  import VM = BuddyRuns
  import BT = BuddyTheory
  import Buddy
  import KH = KernelHeap
  import Kmmap

  /** The number of the first page of the kernel's address space. */
  const FIRST: nat := 0xF_FFFF_FFF8_0000

  /** The heap's pages are held by the kernel. */
  ghost predicate Backed(pages: set<nat>, held: set<nat>) {
    forall q :: q in pages ==> FIRST <= q && q - FIRST in held
  }

  /** The kernel's numbers of these pages. */
  function Numbers(pages: set<nat>): set<nat> {
    set q | q in pages && FIRST <= q :: q - FIRST
  }

  lemma PageOf(p: nat)
    requires p < 0x4_0000
    ensures KM.Virtual(p * PAGE) == (FIRST + p) * PAGE && KM.Hinted((FIRST + p) * PAGE) == p * PAGE
    ensures (FIRST + p) * PAGE < U64
  {}

  lemma Spans()
    ensures Buddy.Span(KM.DEPTH) == 0x4000_0000 && Buddy.Pages(KM.DEPTH) == 0x4_0000
  {
    KM.DepthPages();
  }

  /** The pages of an aligned range. */
  lemma AlignedPages(p: nat, n: nat, x: nat)
    requires (p + n) * PAGE <= 0x4000_0000
    ensures x in VM.TouchedPages(KM.DEPTH, p * PAGE, n * PAGE) <==> p <= x < p + n
  {
    Spans();
  }

  /** Without a hint in its range the allocator grants whole pages. */
  lemma GrantIsAligned(t: Buddy.Tree, s: nat) returns (p: nat)
    requires Buddy.Shaped(t, KM.DEPTH) && Buddy.Sound(t, KM.DEPTH) && 0 < s && KM.GIB2 + s < U64
    ensures var g := Buddy.Mmap(t, KM.DEPTH, KM.GIB2, s);
            g != Buddy.ALLOC_NULL ==> g == p * PAGE
  {
    hide Buddy.GetRange, Buddy.Pages, Buddy.Span, BT.LowestStart, Buddy.Shaped, Buddy.Sound;
    Spans();
    NotAtHint(t, s);
    VM.ShapedReport(t, KM.DEPTH);
    p := 0;
    if s <= Buddy.Span(KM.DEPTH) {
      if t.maxdepth == -1 || s > Buddy.Span(t.maxdepth) {
        BT.GetRangeFails(t, KM.DEPTH, s);
      } else {
        BT.GetRangeDescends(t, KM.DEPTH, s);
        p := BT.LowestStart(t, KM.DEPTH, BT.OrderFor(KM.DEPTH, s));
      }
    }
  }

  lemma NotAtHint(t: Buddy.Tree, s: nat)
    requires Buddy.Shaped(t, KM.DEPTH) && 0 < s && KM.GIB2 + s < U64
    ensures !Buddy.IsRangeFree(t, KM.DEPTH, KM.GIB2, s)
  {
    Spans();
  }

  class Allocator {
    const heap: KH.Heap
    const kernel: Kmmap.Kernel

    ghost predicate Valid()
      reads heap, kernel, kernel.vmem.root.Repr, kernel.man, kernel.man.palloc.Repr
    {
      heap.Valid() && kernel.Valid() && Backed(heap.held, kernel.held.Keys)
    }

    /** An empty heap over any valid state of the mapper. */
    constructor (kernel: Kmmap.Kernel)
      requires kernel.Valid()
      ensures Valid() && fresh(heap) && this.kernel == kernel && heap.live == map[] && heap.held == {}
    {
      this.kernel := kernel;
      heap := new KH.Heap();
    }

    /** The kernel pages that are not the heap's. */
    ghost function Others(): set<nat>
      reads heap, kernel
    {
      kernel.held.Keys - Numbers(heap.held)
    }

    /** operator new: kmmap is asked if no held page has room, and what it grants is new to the heap.  None stands
        for the exception of kmmap; `raw` is what the last page holds where the bitmap goes. */
    method New(len: nat, raw: SlotMap.Bitmap) returns (r: Option<nat>)
      requires Valid() && GoodLen(len) && KH.Tidy(raw)
      requires KM.Legal(kernel.man.env, kernel.man.root, kernel.Now(), KM.MapCall(0, NumPages(len) * PAGE))
      modifies heap, kernel, kernel.vmem.root.Repr, kernel.man, kernel.man.palloc.Repr
      ensures Valid()
      ensures r.Some? ==> r.value !in old(heap.live) && heap.live == old(heap.live)[r.value := len]
      ensures r.None? || Fits(old(heap.page), Slots(len)) ==> heap.held == old(heap.held)
      ensures r.None? ==> heap.live == old(heap.live)
      ensures r.Some? && !Fits(old(heap.page), Slots(len)) ==>
                r.value % PAGE == 0 && heap.held == old(heap.held) + PageRun(r.value / PAGE, NumPages(len))
      ensures Others() == old(Others())
      ensures r.None? <==>
                && !Fits(old(heap.page), Slots(len))
                && Buddy.Mmap(old(kernel.Now()).vm.tree, KM.DEPTH, KM.GIB2, NumPages(len) * PAGE) == Buddy.ALLOC_NULL
    {
      hide KM.Invariant, Fits, KM.Step, KM.Legal, GoodLen, NumPages, KH.Tidy, Buddy.Mmap, HeapOk;
      r := heap.OperatorNew(len, None, raw);
      if r.None? {
        var q := Ask(len);
        if q.Some? {
          ghost var pages, run := heap.held, PageRun(q.value, NumPages(len));
          NumbersGrow(old(kernel.held).Keys, pages, run);
          var a := heap.TakeFresh(q.value, raw, len);
          r := Some(a);
        }
      }
    }

    /** kmmap without a hint for the pages of a block: the number of the first page granted. */
    method Ask(len: nat) returns (q: Option<nat>)
      requires Valid() && GoodLen(len)
      requires KM.Legal(kernel.man.env, kernel.man.root, kernel.Now(), KM.MapCall(0, NumPages(len) * PAGE))
      modifies kernel, kernel.vmem.root.Repr, kernel.man, kernel.man.palloc.Repr
      ensures Valid()
      ensures q.Some? ==> q.value > 0 && PageRun(q.value, NumPages(len)) !! heap.held
      ensures q.Some? ==> Backed(heap.held + PageRun(q.value, NumPages(len)), kernel.held.Keys)
      ensures q.Some? ==> kernel.held.Keys == old(kernel.held).Keys + Numbers(PageRun(q.value, NumPages(len)))
      ensures q.Some? ==> Numbers(PageRun(q.value, NumPages(len))) !! old(kernel.held).Keys
      ensures q.None? ==> kernel.held == old(kernel.held)
      ensures q.None? <==>
                Buddy.Mmap(old(kernel.Now()).vm.tree, KM.DEPTH, KM.GIB2, NumPages(len) * PAGE) == Buddy.ALLOC_NULL
    {
      hide KM.Invariant, KM.Legal, GoodLen, NumPages, Buddy.Mmap, HeapOk, KM.Step;
      ghost var st, n := kernel.Now(), NumPages(len);
      var ptr := kernel.Kmmap(0, NumPages(len) * PAGE);
      StepGrants(kernel.man.env, kernel.man.root, st, n, kernel.reserved, kernel.initial);
      if ptr.Address? {
        q := Some(ptr.a / PAGE);
        GrantedRun(kernel.man.env, kernel.man.root, st, n, kernel.reserved, kernel.initial, heap.held, ptr.a);
      } else {
        q := None;
      }
    }

    /** operator delete on a live block with its length, or on nothing.  As committed the range allocator must not
        get back an aligned pair of pages in one call. */
    method Delete(ptr: nat, len: nat)
      requires Valid() && (len == 0 || ptr == 0 || (ptr in heap.live && heap.live[ptr] == len))
      requires len != 0 && ptr % PAGE == 0 ==> Freeable(kernel.man.env.version, ptr / PAGE, NumPages(len) - 1)
      modifies heap, kernel, kernel.vmem.root.Repr, kernel.man, kernel.man.palloc.Repr
      ensures Valid()
      ensures heap.live == if len == 0 || ptr == 0 then old(heap.live) else old(heap.live) - {ptr}
      ensures heap.held <= old(heap.held) && Others() == old(Others())
      ensures var released := old(heap.held) - heap.held;
              kernel.held.Keys == old(kernel.held).Keys - Numbers(released)
    {
      hide KM.Invariant, KM.Legal, HeapOk, KM.Step, NumPages, TailPage, Heads, PageRun, Backed, Numbers, Freeable;
      ghost var pages, before := heap.held, kernel.held.Keys;
      if len != 0 && ptr != 0 {
        BlockPlace(heap.page, heap.head, heap.lists, heap.live, heap.held, ptr);
        InKernel(kernel, heap.held, ptr / PAGE);
        InKernel(kernel, heap.held, TailPage(ptr, len));
      }
      var released := heap.OperatorDelete(ptr, len);
      NumbersShrink(before, pages, released);
      NumbersApart({}, {});
      assert pages - {} == pages && pages - heap.held == released;
      if len != 0 && ptr != 0 { GiveBack(ptr, len, released, pages); }
    }

    /** The calls of kmunmap for the pages in front of a block, and for its last one. */
    method GiveBack(ptr: nat, len: nat, released: set<nat>, ghost pages: set<nat>)
      requires kernel.Valid() && Backed(pages, kernel.held.Keys)
      requires Heads(ptr, len) <= released <= Heads(ptr, len) + {TailPage(ptr, len)} && released <= pages
      requires TailPage(ptr, len) !in Heads(ptr, len) && (ptr % PAGE != 0 ==> Heads(ptr, len) == {})
      requires FIRST <= ptr / PAGE < FIRST + 0x4_0000 && FIRST <= TailPage(ptr, len) < FIRST + 0x4_0000
      requires ptr % PAGE == 0 ==> Freeable(kernel.man.env.version, ptr / PAGE, NumPages(len) - 1)
      modifies kernel, kernel.vmem.root.Repr, kernel.man, kernel.man.palloc.Repr
      ensures kernel.Valid() && Backed(pages - released, kernel.held.Keys)
      ensures kernel.held.Keys == old(kernel.held).Keys - Numbers(released)
    {
      hide KM.Invariant, NumPages, TailPage, PageRun, Backed, Numbers, Freeable;
      ghost var heads, tail := Heads(ptr, len), if TailPage(ptr, len) in released then {TailPage(ptr, len)} else {};
      assert released == heads + tail && pages - {} == pages && pages - heads - tail == pages - released;
      NumbersApart(heads, tail);
      NumbersApart({}, {});
      OnePage(TailPage(ptr, len));
      OneFreeable(kernel.man.env.version, TailPage(ptr, len));
      if ptr % PAGE == 0 { Unmap(ptr / PAGE, NumPages(len) - 1, pages); }
      if TailPage(ptr, len) in released { Unmap(TailPage(ptr, len), 1, pages - heads); }
      assert tail == {} ==> pages - heads - tail == pages - heads;
    }

    /** kmunmap of n pages of the heap, from page q on. */
    method Unmap(q: nat, n: nat, ghost pages: set<nat>)
      requires kernel.Valid() && PageRun(q, n) <= pages && Backed(pages, kernel.held.Keys)
               && FIRST <= q < FIRST + 0x4_0000 && Freeable(kernel.man.env.version, q, n)
      modifies kernel, kernel.vmem.root.Repr, kernel.man, kernel.man.palloc.Repr
      ensures kernel.Valid() && Backed(pages - PageRun(q, n), kernel.held.Keys)
      ensures kernel.held.Keys == old(kernel.held).Keys - Numbers(PageRun(q, n))
    {
      hide KM.Invariant, KM.Legal, KM.Step;
      ghost var st := kernel.Now();
      StepReleases(kernel.man.env, kernel.man.root, st, q, n, pages, kernel.reserved, kernel.initial);
      kernel.Kmunmap(q * PAGE, n * PAGE);
    }
  }

  /** The pages the kernel holds after a kmmap without hint. */
  lemma StepGrants(env: PageTables.Env, root: nat, st: KM.State, n: nat, reserved: set<nat>, initial: set<nat>)
    requires KM.Invariant(env, root, st, reserved, initial) && n > 0 && KM.Legal(env, root, st, KM.MapCall(0, n * PAGE))
    ensures var g := Buddy.Mmap(st.vm.tree, KM.DEPTH, KM.GIB2, n * PAGE);
            var st' := KM.Step(env, root, st, KM.MapCall(0, n * PAGE));
            if g == Buddy.ALLOC_NULL then st'.vm.held == st.vm.held
            else
              && g % PAGE == 0 && g + n * PAGE <= 0x4000_0000
              && st'.vm.held.Keys == st.vm.held.Keys + PageRun(g / PAGE, n) && PageRun(g / PAGE, n) !! st.vm.held.Keys
  {
    hide Buddy.Mmap, Buddy.AfterMmap, VM.TouchedPages, Buddy.Shaped, Buddy.Sound, Buddy.Free, KM.Suffices, KM.Healthy;
    hide KM.FramesMatch, KM.TablesApart, KM.Mappable, Buddy.Pages, Buddy.Span, PageRun;
    Spans();
    var s := n * PAGE;
    assert KM.Hinted(0) == KM.GIB2;
    var p := GrantIsAligned(st.vm.tree, s);
    VM.MmapStepSafe(env.version, KM.DEPTH, st.vm, KM.GIB2, s, reserved);
    var g := Buddy.Mmap(st.vm.tree, KM.DEPTH, KM.GIB2, s);
    if g != Buddy.ALLOC_NULL {
      assert g == p * PAGE && (p + n) * PAGE <= 0x4000_0000;
      RunIsTouched(p, n);
    }
  }

  lemma RunIsTouched(p: nat, n: nat)
    requires (p + n) * PAGE <= 0x4000_0000
    ensures VM.TouchedPages(KM.DEPTH, p * PAGE, n * PAGE) == PageRun(p, n)
  {
    forall x: nat ensures x in VM.TouchedPages(KM.DEPTH, p * PAGE, n * PAGE) <==> x in PageRun(p, n) {
      AlignedPages(p, n, x);
    }
  }

  lemma GrantedRun(env: PageTables.Env, root: nat, st: KM.State, n: nat, reserved: set<nat>, initial: set<nat>,
      pages: set<nat>, a: nat)
    requires KM.Invariant(env, root, st, reserved, initial) && n > 0 && KM.Legal(env, root, st, KM.MapCall(0, n * PAGE))
    requires Backed(pages, st.vm.held.Keys)
    requires var g := Buddy.Mmap(st.vm.tree, KM.DEPTH, KM.GIB2, n * PAGE); g < 0x4000_0000 && a == KM.Virtual(g)
    ensures a / PAGE > 0 && PageRun(a / PAGE, n) !! pages
    ensures var held' := KM.Step(env, root, st, KM.MapCall(0, n * PAGE)).vm.held;
            && Backed(pages + PageRun(a / PAGE, n), held'.Keys)
            && held'.Keys == st.vm.held.Keys + Numbers(PageRun(a / PAGE, n))
            && Numbers(PageRun(a / PAGE, n)) !! st.vm.held.Keys
  {
    hide Buddy.Mmap, KM.Step, KM.Invariant, KM.Legal;
    StepGrants(env, root, st, n, reserved, initial);
    var p := Buddy.Mmap(st.vm.tree, KM.DEPTH, KM.GIB2, n * PAGE) / PAGE;
    PageOf(p);
    assert a == (FIRST + p) * PAGE && a / PAGE == FIRST + p;
    forall q: nat | q in PageRun(a / PAGE, n) ensures q !in pages && q - FIRST in PageRun(p, n) {}
    ShiftedRun(p, n);
  }

  /** As committed, n pages of the heap from q on hold no aligned pair. */
  predicate Freeable(v: Version, q: nat, n: nat) {
    v.AsCommitted? && q >= FIRST ==> !VM.HoldsAlignedPair((q - FIRST) * PAGE, n * PAGE)
  }

  lemma OneFreeable(v: Version, q: nat)
    ensures Freeable(v, q, 1)
  {
    if q >= FIRST {
      VM.PairMeaning((q - FIRST) * PAGE, PAGE);
    }
  }

  /** Unmapping pages that are held. */
  lemma StepReleases(env: PageTables.Env, root: nat, st: KM.State, q: nat, n: nat, pages: set<nat>,
      reserved: set<nat>, initial: set<nat>)
    requires KM.Invariant(env, root, st, reserved, initial) && PageRun(q, n) <= pages && Backed(pages, st.vm.held.Keys)
    requires FIRST <= q < FIRST + 0x4_0000 && Freeable(env.version, q, n)
    ensures KM.Legal(env, root, st, KM.UnmapCall(q * PAGE, n * PAGE))
    ensures var held' := KM.Step(env, root, st, KM.UnmapCall(q * PAGE, n * PAGE)).vm.held;
            && held'.Keys == st.vm.held.Keys - Numbers(PageRun(q, n))
            && Backed(pages - PageRun(q, n), held'.Keys)
  {
    hide VM.TouchedPages, Buddy.Shaped, Buddy.Sound, Buddy.Free, Buddy.FreeRange, KM.FramesMatch, KM.TablesApart;
    hide Buddy.Span, Buddy.Pages, VM.Invariant;
    var p := q - FIRST;
    PageOf(p);
    Spans();
    KM.HeldInRange(st.vm, reserved);
    if n > 0 {
      assert q + n - 1 in PageRun(q, n);
      assert q + n - 1 in pages && p + n - 1 in st.vm.held.Keys;
    }
    RunIsTouched(p, n);
    ShiftedRun(p, n);
    forall x | x in PageRun(p, n) ensures x in st.vm.held.Keys {
      assert x + FIRST in PageRun(q, n);
    }
    StillBacked(pages, q, n, st.vm.held.Keys);
  }

  lemma ShiftedRun(p: nat, n: nat)
    ensures Numbers(PageRun(FIRST + p, n)) == PageRun(p, n)
  {
    forall y | y in PageRun(p, n) ensures y in Numbers(PageRun(FIRST + p, n)) {
      assert FIRST + y in PageRun(FIRST + p, n);
    }
  }

  lemma StillBacked(pages: set<nat>, q: nat, n: nat, held: set<nat>)
    requires Backed(pages, held) && q >= FIRST
    ensures Backed(pages - PageRun(q, n), held - PageRun(q - FIRST, n))
  {}

  /** Pages that come to the heap and to the kernel alike leave the kernel's other pages as they are. */
  lemma NumbersGrow(held: set<nat>, pages: set<nat>, run: set<nat>)
    requires Numbers(run) !! held
    ensures (held + Numbers(run)) - Numbers(pages + run) == held - Numbers(pages)
  {
    NumbersApart(pages, run);
    hide Numbers;
    assert (held + Numbers(run)) - (Numbers(pages) + Numbers(run)) == held - Numbers(pages);
  }

  lemma NumbersShrink(held: set<nat>, pages: set<nat>, run: set<nat>)
    requires run <= pages
    ensures (held - Numbers(run)) - Numbers(pages - run) == held - Numbers(pages)
  {
    NumbersApart(run, pages - run);
    assert run + (pages - run) == pages;
    hide Numbers;
    assert held - Numbers(run) - Numbers(pages - run) == held - (Numbers(run) + Numbers(pages - run));
  }

  lemma NumbersApart(a: set<nat>, b: set<nat>)
    ensures Numbers(a + b) == Numbers(a) + Numbers(b) && Numbers({}) == {}
  {}

  /** Where a live block lies. */
  lemma BlockPlace(page: BL.Pages, head: seq<nat>, lists: seq<seq<nat>>, live: map<nat, nat>, held: set<nat>, ptr: nat)
    requires HeapOk(page, head, lists, live, held) && ptr in live
    ensures ptr / PAGE in held && TailPage(ptr, live[ptr]) in held && TailPage(ptr, live[ptr]) !in Heads(ptr, live[ptr])
    ensures ptr % PAGE != 0 ==> Heads(ptr, live[ptr]) == {}
    ensures Heads(ptr, live[ptr]) == PageRun(ptr / PAGE, NumPages(live[ptr]) - 1)
  {
    hide BL.Linked, Bucketed, AllListed, BlocksOk, BitsOk, HeadOwned, NumPages, StartSlot, TailSlots, Heads, TailPage;
    hide NoneEmpty;
    LiveStart(page, live, held, ptr);
    LiveBitsSet(page, live, held, ptr);
    HeadsBefore(ptr, live[ptr]);
  }

  lemma HeadsBefore(ptr: nat, len: nat)
    requires BlockOk(ptr, len)
    ensures TailPage(ptr, len) !in Heads(ptr, len) && Heads(ptr, len) == PageRun(ptr / PAGE, NumPages(len) - 1)
    ensures ptr % PAGE != 0 ==> Heads(ptr, len) == {}
  {
    HeadsAreHeads(ptr, len);
  }

  lemma OnePage(q: nat)
    ensures PageRun(q, 1) == {q}
  {
    assert InRun(q, 1, q);
  }

  lemma InKernel(kernel: Kmmap.Kernel, pages: set<nat>, q: nat)
    requires kernel.Valid() && Backed(pages, kernel.held.Keys) && q in pages
    ensures FIRST <= q < FIRST + 0x4_0000
  {
    KM.HeldInRange(kernel.Now().vm, kernel.reserved);
  }
}
