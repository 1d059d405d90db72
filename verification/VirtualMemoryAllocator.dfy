/** The allocator as the kernel runs it: one object per block, updated in place.  Every method is proved to move
    the tree of reports as Buddy says. */
module VirtualMemory {
  import opened Machine
  import opened Buddy
  import opened BuddyTheory

  class BuddyAlloc {
    const depth: nat
    const version: Version
    var maxdepth: int
    const child0: BuddyAlloc?
    const child1: BuddyAlloc?
    ghost const Repr: set<BuddyAlloc>

    /** The shape of the structure never changes, so this reads no mutable state. */
    ghost predicate Built()
      decreases depth
    {
      && this in Repr
      && if depth == 0 then child0 == null && child1 == null && Repr == {this}
         else
           && child0 != null && child1 != null
           && child0.depth == depth - 1 && child1.depth == depth - 1
           && child0.version == version && child1.version == version
           && Repr == {this} + child0.Repr + child1.Repr
           && this !in child0.Repr && this !in child1.Repr && child0.Repr !! child1.Repr
           && child0.Built() && child1.Built()
    }

    ghost function Model(): Tree
      requires Built()
      reads Repr
      decreases depth
    {
      if depth == 0 then Leaf(maxdepth) else Node(maxdepth, child0.Model(), child1.Model())
    }

    ghost predicate Valid()
      reads Repr
    {
      Built() && depth <= MAX_DEPTH && Shaped(Model(), depth)
    }

    constructor (v: Version, d: nat)
      requires d <= MAX_DEPTH
      ensures Valid() && fresh(Repr) && depth == d && version == v
      ensures Model() == Fresh(d)
      decreases d
    {
      hide Built, Model, Shaped;
      version := v;
      depth := d;
      maxdepth := d;
      if d == 0 {
        child0 := null;
        child1 := null;
        Repr := {this};
      } else {
        var c0 := new BuddyAlloc(v, d - 1);
        var c1 := new BuddyAlloc(v, d - 1);
        child0 := c0;
        child1 := c1;
        Repr := {this} + c0.Repr + c1.Repr;
      }
      new;
      Assembled();
      FreshShape(d);
    }

    lemma Assembled()
      requires this in Repr
      requires depth == 0 ==> child0 == null && child1 == null && Repr == {this}
      requires depth > 0 ==>
                 && child0 != null && child1 != null
                 && child0.depth == depth - 1 && child1.depth == depth - 1
                 && child0.version == version && child1.version == version
                 && Repr == {this} + child0.Repr + child1.Repr
                 && this !in child0.Repr && this !in child1.Repr && child0.Repr !! child1.Repr
                 && child0.Built() && child1.Built()
      ensures Built()
      ensures Model() == if depth == 0 then Leaf(maxdepth) else Node(maxdepth, child0.Model(), child1.Model())
    {}

    /** Sets the report of this block only. */
    method SetReport(m: int)
      requires Built()
      modifies this
      ensures Model() == WithMax(old(Model()), m)
    {
      maxdepth := m;
    }

    /** Propagates the free condition to the children if need be. */
    method Open()
      requires Valid() && depth > 0
      modifies child0, child1
      ensures Valid() && maxdepth == old(maxdepth)
      ensures child0.Model() == Opened(old(Model()), depth, old(child0.Model()))
      ensures child1.Model() == Opened(old(Model()), depth, old(child1.Model()))
      ensures child0.Valid() && child1.Valid()
    {
      ghost var t := Model();
      OpenedShape(t, depth);
      if maxdepth == depth {
        child0.SetReport(depth - 1);
        child1.SetReport(depth - 1);
      }
    }

    method MarkUsed(addr: nat, size: nat)
      requires Valid() && addr < U64 && size < U64
      modifies Repr
      ensures Valid() && Model() == Buddy.MarkUsed(old(Model()), depth, addr, size)
      decreases depth, 2
    {
      hide Shaped;
      ghost var t := Model();
      MarkUsedShape(t, depth, addr, size);
      if depth == 0 {
        if size > 0 && addr < PAGE { maxdepth := -1; }
      } else if maxdepth == -1 || size == 0 {
      } else if addr == 0 && size >= Span(depth) {
        maxdepth := -1;
      } else {
        MarkBelow(addr, size);
      }
    }

    method MarkBelow(addr: nat, size: nat)
      requires Valid() && depth > 0 && maxdepth != -1 && addr < U64 && size < U64
      requires size != 0 && !(addr == 0 && size >= Span(depth))
      modifies Repr
      ensures Built() && Model() == Buddy.MarkUsed(old(Model()), depth, addr, size)
      decreases depth, 1
    {
      hide Shaped, Buddy.MarkUsed;
      MarkUsedStep(Model(), depth, addr, size);
      assert child0.Built() && child1.Built();
      Open();
      MarkHalves(addr, size);
      maxdepth := Max(child0.maxdepth, child1.maxdepth);
    }

    method MarkHalves(addr: nat, size: nat)
      requires Valid() && depth > 0 && child0.Valid() && child1.Valid() && addr < U64 && size < U64
      modifies child0.Repr, child1.Repr
      ensures child0.Valid() && child1.Valid()
      ensures var x := LeftPart(addr, size, Span(depth - 1));
              child0.Model() == Buddy.MarkUsed(old(child0.Model()), depth - 1, x.addr, x.size)
      ensures var y := RightPart(addr, size, Span(depth - 1));
              child1.Model() == Buddy.MarkUsed(old(child1.Model()), depth - 1, y.addr, y.size)
      decreases depth, 0
    {
      hide Shaped, Buddy.MarkUsed;
      MarkNothing(child0.Model(), depth - 1, 0);
      MarkNothing(child1.Model(), depth - 1, 0);
      var mid := Span(depth - 1);
      if addr >= mid {
        child1.MarkUsed(addr - mid, size);
      } else if Add64(addr, size) <= mid {
        child0.MarkUsed(addr, size);
      } else {
        child0.MarkUsed(addr, mid - addr);
        child1.MarkUsed(0, size - mid + addr);
      }
    }

    /** Propagates the full condition to the children if need be. */
    method Fill()
      requires Valid() && depth > 0
      modifies child0, child1
      ensures Valid() && maxdepth == old(maxdepth)
      ensures child0.Model() == Filled(old(Model()), old(child0.Model()))
      ensures child1.Model() == Filled(old(Model()), old(child1.Model()))
      ensures child0.Valid() && child1.Valid()
    {
      ghost var t := Model();
      FilledShape(t, depth);
      if maxdepth == -1 {
        child0.SetReport(-1);
        child1.SetReport(-1);
      }
    }

    method FreeRange(addr: nat, size: nat)
      requires Valid() && addr < U64 && size < U64
      modifies Repr
      ensures Valid() && Model() == Buddy.FreeRange(version, old(Model()), depth, addr, size)
      decreases depth, 2
    {
      hide Shaped;
      ghost var t := Model();
      FreeRangeShape(version, t, depth, addr, size);
      if depth == 0 {
        if addr < PAGE && size != 0 { maxdepth := 0; }
      } else if addr >= Span(depth) || size == 0 {
      } else if addr == 0 && size >= Span(depth) {
        maxdepth := if version.Corrected? then depth else depth - 1;
      } else {
        FreeBelow(addr, size);
      }
    }

    method FreeBelow(addr: nat, size: nat)
      requires Valid() && depth > 0 && addr < Span(depth) && addr < U64 && size < U64
      requires size != 0 && !(addr == 0 && size >= Span(depth))
      modifies Repr
      ensures Built() && Model() == Buddy.FreeRange(version, old(Model()), depth, addr, size)
      decreases depth, 1
    {
      hide Shaped, Buddy.FreeRange;
      FreeRangeStep(version, Model(), depth, addr, size);
      assert child0.Built() && child1.Built();
      Fill();
      FreeHalves(addr, size);
      maxdepth := Max(child0.maxdepth, child1.maxdepth);
      if child0.maxdepth == depth - 1 && child1.maxdepth == depth - 1 {
        maxdepth := depth;
      }
    }

    method FreeHalves(addr: nat, size: nat)
      requires Valid() && depth > 0 && child0.Valid() && child1.Valid() && addr < U64 && size < U64
      modifies child0.Repr, child1.Repr
      ensures child0.Valid() && child1.Valid()
      ensures var x := LeftPart(addr, size, Span(depth - 1));
              child0.Model() == Buddy.FreeRange(version, old(child0.Model()), depth - 1, x.addr, x.size)
      ensures var y := RightPart(addr, size, Span(depth - 1));
              child1.Model() == Buddy.FreeRange(version, old(child1.Model()), depth - 1, y.addr, y.size)
      decreases depth, 0
    {
      hide Shaped, Buddy.FreeRange;
      FreeNothing(version, child0.Model(), depth - 1, 0);
      FreeNothing(version, child1.Model(), depth - 1, 0);
      var mid := Span(depth - 1);
      if addr >= mid {
        child1.FreeRange(addr - mid, size);
      } else if Add64(addr, size) <= mid {
        child0.FreeRange(addr, size);
      } else {
        child0.FreeRange(addr, mid - addr);
        child1.FreeRange(0, size - mid + addr);
      }
    }

    method IsRangeFree(addr: nat, size: nat) returns (b: bool)
      requires Valid() && addr < U64 && size < U64
      ensures b == Buddy.IsRangeFree(Model(), depth, addr, size)
      decreases depth
    {
      hide Shaped, Span, Pages;
      if depth == 0 {
        return Add64(addr, size) <= PAGE && maxdepth == 0;
      }
      if size == 0 { return true; }
      if maxdepth == -1 || Add64(addr, size) >= Span(depth) { return false; }
      if maxdepth == depth { return true; }
      ShapedBelow(Model(), depth);
      var mid := Span(depth - 1);
      if addr >= mid {
        b := child1.IsRangeFree(addr - mid, size);
      } else if Add64(addr, size) <= mid {
        b := child0.IsRangeFree(addr, size);
      } else {
        b := child0.IsRangeFree(addr, mid - addr);
        if b { b := child1.IsRangeFree(0, size - mid + addr); }
      }
    }

    method GetRange(size: nat) returns (r: nat)
      requires Valid() && size < U64
      modifies Repr
      ensures Valid() && r == Buddy.GetRange(old(Model()), depth, size)
      ensures Model() == AfterGetRange(old(Model()), depth, size)
      decreases depth, 1
    {
      hide Shaped;
      ghost var t := Model();
      AfterGetRangeShape(t, depth, size);
      if depth == 0 {
        if size > PAGE || maxdepth == -1 { return ALLOC_NULL; }
        maxdepth := -1;
        return 0;
      }
      if maxdepth == -1 || size > Span(maxdepth) { return ALLOC_NULL; }
      if size > Span(depth - 1) { return 0; }
      r := GetBelow(size);
    }

    method GetBelow(size: nat) returns (r: nat)
      requires Valid() && depth > 0 && maxdepth != -1 && size < U64
      requires size <= Span(maxdepth) && size <= Span(depth - 1)
      modifies Repr
      ensures Built() && r == Buddy.GetRange(old(Model()), depth, size)
      ensures Model() == AfterGetRange(old(Model()), depth, size)
      decreases depth, 0
    {
      hide Shaped, Buddy.GetRange, AfterGetRange, Span, Pages;
      GetRangeStep(Model(), depth, size);
      assert child0.Built() && child1.Built();
      Open();
      r := child0.GetRange(size);
      if r == ALLOC_NULL {
        SpanFits(depth - 1);
        r := child1.GetRange(size);
        r := Add64(Span(depth - 1), r);
      }
    }
  }

  /** get_range that goes on in the children. */
  lemma GetRangeStep(t: Tree, d: nat, s: nat)
    requires t.Node? && 0 < d <= MAX_DEPTH && t.maxdepth != -1 && s <= Span(t.maxdepth) && s <= Span(d - 1) && s < U64
    ensures Span(d - 1) < U64
    ensures var l := Opened(t, d, t.left);
            var r := Opened(t, d, t.right);
            var x := Buddy.GetRange(l, d - 1, s);
            && Buddy.GetRange(t, d, s) ==
               (if x == ALLOC_NULL then Add64(Span(d - 1), Buddy.GetRange(r, d - 1, s)) else x)
            && AfterGetRange(t, d, s) ==
               Node(t.maxdepth, AfterGetRange(l, d - 1, s), if x == ALLOC_NULL then AfterGetRange(r, d - 1, s) else r)
  {
    SpanFits(d - 1);
  }

  lemma FreeNothing(v: Version, t: Tree, d: int, a: nat)
    requires a < U64
    ensures FreeRange(v, t, d, a, 0) == t
  {}

  lemma ShapedBelow(t: Tree, d: int)
    requires Shaped(t, d)
    ensures t.Node? ==> Shaped(t.left, d - 1) && Shaped(t.right, d - 1)
  {}

  lemma {:induction false} AfterGetRangeShape(t: Tree, d: nat, s: nat)
    requires Shaped(t, d) && s < U64 && d <= MAX_DEPTH
    ensures Shaped(AfterGetRange(t, d, s), d)
    decreases d
  {
    if d > 0 {
      OpenedShape(t, d);
      AfterGetRangeShape(Opened(t, d, t.left), d - 1, s);
      AfterGetRangeShape(Opened(t, d, t.right), d - 1, s);
    }
  }

  /** The kernel's handle on the tree. */
  class VirtualMemoryAllocator {
    const root: BuddyAlloc

    ghost predicate Valid()
      reads root.Repr
    {
      root.Valid()
    }

    constructor (v: Version, depth: nat)
      requires depth <= MAX_DEPTH
      ensures Valid() && fresh(root.Repr) && root.depth == depth && root.version == v
      ensures root.Model() == Fresh(depth)
    {
      root := new BuddyAlloc(v, depth);
    }

    method Mmap(addr: nat, size: nat) returns (r: nat)
      requires Valid() && addr < U64 && size < U64
      modifies root.Repr
      ensures Valid() && r == Buddy.Mmap(old(root.Model()), root.depth, addr, size)
      ensures root.Model() == AfterMmap(old(root.Model()), root.depth, addr, size)
    {
      hide Shaped, Buddy.MarkUsed, Buddy.GetRange, AfterGetRange, Buddy.IsRangeFree;
      if size > Span(root.depth) || size == 0 { return ALLOC_NULL; }
      var free := root.IsRangeFree(addr, size);
      if free {
        root.MarkUsed(addr, size);
        r := addr;
      } else {
        r := root.GetRange(size);
        root.MarkUsed(r, size);
      }
    }

    method Munmap(addr: nat, size: nat)
      requires Valid() && addr < U64 && size < U64
      modifies root.Repr
      ensures Valid()
      ensures root.Model() == FreeRange(root.version, old(root.Model()), root.depth, addr, size)
    {
      root.FreeRange(addr, size);
    }

    method MarkUsed(addr: nat, size: nat)
      requires Valid() && addr < U64 && size < U64
      modifies root.Repr
      ensures Valid() && root.Model() == Buddy.MarkUsed(old(root.Model()), root.depth, addr, size)
    {
      root.MarkUsed(addr, size);
    }
  }

  lemma {:induction false} FreshShape(d: nat)
    ensures Shaped(Fresh(d), d)
  {
    if d > 0 { FreshShape(d - 1); }
  }
}
