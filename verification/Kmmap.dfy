/** kmmap and kmunmap on the three allocators the kernel holds. */
module Kmmap {
  import opened Machine
  import opened KernelMap
  import Buddy
  import VM = BuddyRuns
  import V = VirtualMemory
  import MM = MemoryManager
  import CB = CommittedBack
  import PageTables
  import Theory = PageTablesTheory
  import PM = PhysicalMapping
  import SH = SetupHeap
  import QuadTree

  datatype Pointer = Null | Address(a: nat) | BadAlloc

  class Kernel {
    const vmem: V.VirtualMemoryAllocator
    const man: PM.PhMemManager
    ghost const reserved: set<nat>
    ghost const initial: set<nat>
    ghost var held: map<nat, nat>
    ghost var serial: nat

    ghost predicate Built()
      reads vmem.root.Repr, man.palloc.Repr
    {
      && vmem.Valid() && vmem.root.depth == DEPTH && vmem.root.version == man.env.version
      && man.Valid()
    }

    ghost function Now(): State
      requires Built()
      reads this, vmem.root.Repr, man, man.palloc.Repr
    {
      Kernel(VM.State(vmem.root.Model(), held, serial), man.Now())
    }

    /** The invariant of every run: see KernelMap.Invariant. */
    ghost predicate Valid()
      reads this, vmem.root.Repr, man, man.palloc.Repr
    {
      Built() && Invariant(man.env, man.root, Now(), reserved, initial)
    }

    constructor (vmem: V.VirtualMemoryAllocator, man: PM.PhMemManager, ghost reserved: set<nat>,
        ghost initial: set<nat>)
      requires vmem.Valid() && vmem.root.depth == DEPTH && vmem.root.version == man.env.version && man.Valid()
      requires Invariant(man.env, man.root, Kernel(VM.State(vmem.root.Model(), map[], 0), man.Now()), reserved, initial)
      ensures Valid() && held == map[] && this.vmem == vmem && this.man == man
      ensures this.reserved == reserved && this.initial == initial
    {
      this.vmem, this.man := vmem, man;
      this.reserved, this.initial := reserved, initial;
      this.held, this.serial := map[], 0;
    }

    method Kmmap(hint: nat, sz: nat) returns (r: Pointer)
      requires Valid() && Legal(man.env, man.root, Now(), MapCall(hint, sz))
      modifies this, vmem.root.Repr, man, man.palloc.Repr
      ensures Valid() && Now() == Step(man.env, man.root, old(Now()), MapCall(hint, sz))
      ensures r.Null? <==> sz == 0
      ensures sz > 0 ==>
                var g := Buddy.Mmap(old(Now()).vm.tree, DEPTH, Hinted(hint), sz);
                if g == Buddy.ALLOC_NULL then r == BadAlloc else g < 0x4000_0000 && r == Address(Virtual(g))
    {
      hide Invariant, Buddy.Mmap, Buddy.AfterMmap, MM.BackVmem, VM.Step, Suffices, Buddy.Shaped, MM.GoodRange;
      hide MM.Rooted, MM.NotCanonical, CleanIn, CB.CleanCall, Mappable, VM.TouchedPages;
      if sz == 0 { return Null; }
      ghost var st := Now();
      KmmapKeepsInvariant(man.env, man.root, st, hint, sz, reserved, initial);
      var g := TakeRange(hint, sz);
      if g == Buddy.ALLOC_NULL { return BadAlloc; }
      MappingReady(man.env, man.root, st, g, sz, reserved, initial);
      var _ := man.BackVmem(Virtual(g), sz, 0);
      return Address(Virtual(g));
    }

    /** Asks the range allocator, two gibibytes above the hint. */
    method TakeRange(hint: nat, sz: nat) returns (g: nat)
      requires Built() && hint < U64 && 0 < sz && Hinted(hint) + sz < U64
      requires Proper(man.env, Now(), MapCall(hint, sz))
      modifies `held, `serial, vmem.root.Repr
      ensures Built() && g == Buddy.Mmap(old(Now()).vm.tree, DEPTH, Hinted(hint), sz)
      ensures Now() == Kernel(VM.Step(man.env.version, DEPTH, old(Now()).vm, VM.MmapCall(Hinted(hint), sz)),
              old(Now()).tables)
    {
      hide Buddy.Mmap, Buddy.AfterMmap, VM.TouchedPages, Suffices, Buddy.Shaped;
      ghost var d := VM.Step(man.env.version, DEPTH, Now().vm, VM.MmapCall(Hinted(hint), sz));
      g := vmem.Mmap(Add64(hint, GIB2), sz);
      held, serial := d.held, d.serial;
    }

    method Kmunmap(ptr: nat, sz: nat)
      requires Valid() && Legal(man.env, man.root, Now(), UnmapCall(ptr, sz))
      modifies this, vmem.root.Repr, man, man.palloc.Repr
      ensures Valid() && Now() == Step(man.env, man.root, old(Now()), UnmapCall(ptr, sz))
    {
      hide Theory.Covered, Invariant, Buddy.FreeRange, MM.UnbackVmem, Buddy.Shaped, MM.GoodRange, MM.Rooted;
      hide MM.NotCanonical, VM.Step, VM.HoldsAlignedPair, VM.TouchedPages, Buddy.Span, V.BuddyAlloc.Built;
      hide V.BuddyAlloc.Model;
      if sz == 0 { return; }
      ghost var st := Now();
      KmunmapKeepsInvariant(man.env, man.root, st, ptr, sz, reserved, initial);
      UnmappingReady(man.env, man.root, st, ptr, sz, reserved, initial);
      GiveRange(ptr, sz);
      man.UnbackVmem(ptr, sz);
    }

    /** Gives the range back, two gibibytes above the pointer. */
    method GiveRange(ptr: nat, sz: nat)
      requires Built() && 0 < sz && sz < U64 && Proper(man.env, Now(), UnmapCall(ptr, sz))
      modifies `held, vmem.root.Repr
      ensures Built()
      ensures Now() == Kernel(VM.Step(man.env.version, DEPTH, old(Now()).vm, VM.MunmapCall(Hinted(ptr), sz)),
              old(Now()).tables)
    {
      hide Buddy.FreeRange, Buddy.Shaped, VM.TouchedPages, VM.HoldsAlignedPair, Buddy.Span, Buddy.Pages;
      hide V.BuddyAlloc.Built, V.BuddyAlloc.Model;
      ghost var d := VM.Step(man.env.version, DEPTH, Now().vm, VM.MunmapCall(Hinted(ptr), sz));
      vmem.Munmap(Add64(ptr, GIB2), sz);
      held := d.held;
    }
  }

  lemma MappingReady(env: PageTables.Env, root: nat, st: State, g: nat, s: nat, reserved: set<nat>, initial: set<nat>)
    requires Invariant(env, root, st, reserved, initial) && 0 < s && g + s <= 0x4000_0000
    requires CleanIn(env, st.tables, root, g, s)
    ensures MM.Rooted(env, st.tables, root) && MM.GoodRange(Virtual(g), s)
    ensures env.version.AsCommitted? ==> CB.CleanCall(st.tables, root, Virtual(g), s)
    ensures (0 as bv12) & PageTables.PS == 0
  {
    KernelRange(g, s);
    NoLargeBit();
  }

  lemma UnmappingReady(env: PageTables.Env, root: nat, st: State, ptr: nat, s: nat, reserved: set<nat>,
      initial: set<nat>)
    requires Invariant(env, root, st, reserved, initial) && Legal(env, root, st, UnmapCall(ptr, s)) && s > 0
    ensures MM.Rooted(env, st.tables, root) && s < U64 && MM.GoodRange(ptr, s)
    ensures Theory.Covered(st.tables, root, MM.Indices(ptr), MM.Indices(MM.LastByte(ptr, s)), PageTables.Unback)
  {
    hide FramesMatch, VM.Invariant;
    DepthPages();
    var r := Hinted(ptr);
    assert ptr == Virtual(r);
    KernelRange(r, s);
    GrantedPages(r, s);
    HeldCovered(env, st.tables, root, r, s, st.vm.held.Keys, initial);
  }

  /** setup_heap: both halves, the boot tables taken over, nothing held. */
  method Setup(mmap: seq<SH.MapEntry>, ghost n: nat, kernelBegin: nat, kernelEnd: nat, kernelZero: nat,
               env: PageTables.Env, root: nat, tables: map<nat, seq<PageTables.Entry>>, ghost at: map<nat, seq<nat>>)
    returns (k: Kernel)
    requires n < |mmap| && mmap[n].length == 0 && SH.GoodMap(mmap[..n])
    requires SH.ImageOk(kernelBegin, kernelEnd, kernelZero) && kernelBegin < kernelEnd <= U64 - 0x4000_0000
    requires var image := SH.Image(kernelBegin, kernelEnd, kernelZero);
             BootTables(env, PageTables.State(tables, at, 0, SH.SetUp(mmap[..n], image), []), root, image)
    ensures k.Valid() && fresh(k) && k.held == map[] && k.man.env == env && k.man.root == root
    ensures k.Now().tables.mem == tables
    ensures var image := SH.Image(kernelBegin, kernelEnd, kernelZero);
            && k.initial == UsedFrames(SH.SetUp(mmap[..n], image), SH.LEVEL)
            && k.reserved == VM.TouchedPages(DEPTH, kernelBegin - (U64 - GIB2), kernelEnd - kernelBegin)
    ensures forall x: nat :: x in k.initial <==>
              x < QuadTree.Count(SH.LEVEL) && SH.Taken(mmap[..n], kernelBegin, kernelEnd, kernelZero, x)
    ensures forall v :: kernelBegin <= v <= kernelEnd ==> ImageKept(k, v, kernelEnd, kernelZero)
  {
    hide Invariant, MM.Rooted, SH.SetUp, Buddy.MarkUsed, Buddy.Fresh, VM.TouchedPages, UsedFrames, SH.GoodMap, SH.Taken,
      QuadTree.Count;
    var palloc := SH.SetupPhysical(mmap, n, kernelBegin, kernelEnd, kernelZero);
    var vmem := SH.SetupVirtual(env.version, kernelBegin, kernelEnd);
    ghost var image := SH.Image(kernelBegin, kernelEnd, kernelZero);
    var man := new PM.PhMemManager(env, palloc, root, tables, at);
    SetupEstablishesInvariant(env, root, man.Now(), mmap[..n], kernelBegin, kernelEnd, kernelZero);
    forall x: nat ensures x in UsedFrames(man.Now().phys, SH.LEVEL) <==>
        x < QuadTree.Count(SH.LEVEL) && SH.Taken(mmap[..n], kernelBegin, kernelEnd, kernelZero, x)
    {
      StartFrames(mmap[..n], kernelBegin, kernelEnd, kernelZero, x);
    }
    k := new Kernel(vmem, man, VM.TouchedPages(DEPTH, kernelBegin - (U64 - GIB2), kernelEnd - kernelBegin),
                    UsedFrames(man.Now().phys, SH.LEVEL));
    forall v | kernelBegin <= v <= kernelEnd ensures ImageKept(k, v, kernelEnd, kernelZero) {
      ImageTouched(kernelBegin - (U64 - GIB2), kernelEnd - kernelBegin, v - (U64 - GIB2));
      SH.ImageIsTaken(mmap[..n], kernelBegin, kernelEnd, kernelZero, v);
    }
  }

  /** The page and the frame of an address of the kernel image are never handed out. */
  ghost predicate ImageKept(k: Kernel, v: nat, kernelEnd: nat, kernelZero: nat)
    requires v >= U64 - GIB2
  {
    var x := (v - (U64 - GIB2) + kernelZero) / PAGE;
    && (x < QuadTree.Count(SH.LEVEL) ==> x in k.initial)
    && (v < kernelEnd ==> (v - (U64 - GIB2)) / PAGE in k.reserved)
  }

  lemma StartFrames(m: seq<SH.MapEntry>, kernelBegin: nat, kernelEnd: nat, kernelZero: nat, x: nat)
    requires SH.GoodMap(m) && SH.ImageOk(kernelBegin, kernelEnd, kernelZero)
    ensures x in UsedFrames(SH.SetUp(m, SH.Image(kernelBegin, kernelEnd, kernelZero)), SH.LEVEL) <==>
            x < QuadTree.Count(SH.LEVEL) && SH.Taken(m, kernelBegin, kernelEnd, kernelZero, x)
  {
    hide SH.SetUp, SH.Taken, QuadTree.Used, QuadTree.Count, SH.GoodMap;
    if x < QuadTree.Count(SH.LEVEL) { SH.UsedIsTaken(m, kernelBegin, kernelEnd, kernelZero, x); }
  }

  lemma ImageTouched(a: nat, s: nat, b: nat)
    requires a <= b && a + s <= 0x4000_0000
    ensures b < a + s ==> b / PAGE in VM.TouchedPages(DEPTH, a, s)
  {
    GrantedPages(a, s);
  }
}
