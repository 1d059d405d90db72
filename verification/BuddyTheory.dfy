/** What the buddy tree's calls do to the set of free pages, and what `maxdepth` knows about it. */
module BuddyTheory {
  import opened Machine
  import opened Buddy

  // ---------- shape ----------

  lemma OpenedShape(t: Tree, d: int)
    requires Shaped(t, d) && d > 0
    ensures t.Node? && Shaped(Opened(t, d, t.left), d - 1) && Shaped(Opened(t, d, t.right), d - 1)
    ensures -1 <= Opened(t, d, t.left).maxdepth < d && -1 <= Opened(t, d, t.right).maxdepth < d
    ensures Sound(t, d) && t.maxdepth != -1 ==>
              Sound(Opened(t, d, t.left), d - 1) && Sound(Opened(t, d, t.right), d - 1)
    ensures Exact(t, d) && t.maxdepth != -1 ==>
              Exact(Opened(t, d, t.left), d - 1) && Exact(Opened(t, d, t.right), d - 1)
    ensures Sound(t, d) && t.maxdepth != -1 ==>
              Min(t.maxdepth, d - 1) == Max(Opened(t, d, t.left).maxdepth, Opened(t, d, t.right).maxdepth)
  {}

  lemma FilledShape(t: Tree, d: int)
    requires Shaped(t, d) && d > 0
    ensures Shaped(Filled(t, t.left), d - 1) && Shaped(Filled(t, t.right), d - 1)
    ensures Sound(t, d) && t.maxdepth != d ==> Sound(Filled(t, t.left), d - 1) && Sound(Filled(t, t.right), d - 1)
    ensures Exact(t, d) && t.maxdepth != d ==> Exact(Filled(t, t.left), d - 1) && Exact(Filled(t, t.right), d - 1)
  {}

  lemma {:induction false} MarkUsedShape(t: Tree, d: int, a: nat, s: nat)
    requires Shaped(t, d) && a < U64 && s < U64
    ensures Shaped(MarkUsed(t, d, a, s), d)
    ensures Sound(t, d) ==> Sound(MarkUsed(t, d, a, s), d)
    decreases d
  {
    if d > 0 && t.maxdepth != -1 && s != 0 && !(a == 0 && s >= Span(d)) {
      OpenedShape(t, d);
      var l := Opened(t, d, t.left);
      var r := Opened(t, d, t.right);
      var x := LeftPart(a, s, Span(d - 1));
      var y := RightPart(a, s, Span(d - 1));
      MarkUsedShape(l, d - 1, x.addr, x.size);
      MarkUsedShape(r, d - 1, y.addr, y.size);
    }
  }

  lemma {:induction false} FreeRangeShape(v: Version, t: Tree, d: int, a: nat, s: nat)
    requires Shaped(t, d) && a < U64 && s < U64
    ensures Shaped(FreeRange(v, t, d, a, s), d)
    decreases d
  {
    if d > 0 && a < Span(d) && s != 0 && !(a == 0 && s >= Span(d)) {
      FilledShape(t, d);
      var l := Filled(t, t.left);
      var r := Filled(t, t.right);
      var x := LeftPart(a, s, Span(d - 1));
      var y := RightPart(a, s, Span(d - 1));
      FreeRangeShape(v, l, d - 1, x.addr, x.size);
      FreeRangeShape(v, r, d - 1, y.addr, y.size);
    }
  }

  /** Both halves of a split range touch exactly the pages the range touches. */
  lemma SplitTouches(a: nat, s: nat, d: int, p: int)
    requires d > 0 && a < Span(d) && a + s < U64
    ensures var x := LeftPart(a, s, Span(d - 1));
            var y := RightPart(a, s, Span(d - 1));
            && x.addr + x.size < U64 && y.addr + y.size < U64
            && (0 <= p < Pages(d - 1) ==> Touches(x.addr, x.size, p) == Touches(a, s, p))
            && (Pages(d - 1) <= p ==> Touches(y.addr, y.size, p - Pages(d - 1)) == Touches(a, s, p))
  {}

  // ---------- mark_used ----------

  lemma MarkNothing(t: Tree, d: int, a: nat)
    requires a < U64
    ensures MarkUsed(t, d, a, 0) == t
  {}

  lemma JoinedFree(l: Tree, r: Tree, d: int, p: int)
    requires d > 0 && Shaped(l, d - 1) && Shaped(r, d - 1)
    ensures Free(Joined(l, r), d, p) == if p < Pages(d - 1) then Free(l, d - 1, p) else Free(r, d - 1, p - Pages(d - 1))
  {}

  lemma OpenedFree(t: Tree, d: int, p: int)
    requires Shaped(t, d) && d > 0 && t.maxdepth != -1
    ensures var l := Opened(t, d, t.left);
            var r := Opened(t, d, t.right);
            Free(t, d, p) == if p < Pages(d - 1) then Free(l, d - 1, p) else Free(r, d - 1, p - Pages(d - 1))
  {}

  /** The call that does not stop here goes on in both children. */
  lemma MarkUsedStep(t: Tree, d: int, a: nat, s: nat)
    requires t.Node? && d > 0 && a < U64 && s < U64
    requires t.maxdepth != -1 && s != 0 && !(a == 0 && s >= Span(d))
    ensures var x := LeftPart(a, s, Span(d - 1));
            var y := RightPart(a, s, Span(d - 1));
            MarkUsed(t, d, a, s) == Joined(MarkUsed(Opened(t, d, t.left), d - 1, x.addr, x.size),
                                           MarkUsed(Opened(t, d, t.right), d - 1, y.addr, y.size))
  {}

  lemma MarkUsedStopsPages(t: Tree, d: int, a: nat, s: nat, p: nat)
    requires Shaped(t, d) && a < U64 && s < U64 && p < Pages(d)
    requires d == 0 || t.maxdepth == -1 || s == 0 || (a == 0 && s >= Span(d))
    ensures Free(MarkUsed(t, d, a, s), d, p) <==> Free(t, d, p) && !Touches(a, s, p)
  {}

  /** Exactly the touched pages stop being free; a range beyond the end touches nothing. */
  lemma {:induction false} MarkUsedPages(t: Tree, d: int, a: nat, s: nat, p: nat)
    requires Shaped(t, d) && a < U64 && s < U64 && p < Pages(d)
    requires a < Span(d) ==> a + s < U64
    ensures Free(MarkUsed(t, d, a, s), d, p) <==> Free(t, d, p) && !Touches(a, s, p)
    decreases d
  {
    hide MarkUsed, Free, Sound;
    if d == 0 || t.maxdepth == -1 || s == 0 || (a == 0 && s >= Span(d)) {
      MarkUsedStopsPages(t, d, a, s, p);
    } else {
      OpenedShape(t, d);
      OpenedFree(t, d, p);
      MarkUsedStep(t, d, a, s);
      var l := Opened(t, d, t.left);
      var r := Opened(t, d, t.right);
      var x := LeftPart(a, s, Span(d - 1));
      var y := RightPart(a, s, Span(d - 1));
      MarkUsedShape(l, d - 1, x.addr, x.size);
      MarkUsedShape(r, d - 1, y.addr, y.size);
      JoinedFree(MarkUsed(l, d - 1, x.addr, x.size), MarkUsed(r, d - 1, y.addr, y.size), d, p);
      if a < Span(d) {
        SplitTouches(a, s, d, p);
      }
      if p < Pages(d - 1) {
        MarkUsedPages(l, d - 1, x.addr, x.size, p);
      } else {
        MarkUsedPages(r, d - 1, y.addr, y.size, p - Pages(d - 1));
      }
    }
  }

  lemma JoinedExact(l: Tree, r: Tree, d: int)
    requires d > 0 && Exact(l, d - 1) && Exact(r, d - 1)
    requires l.maxdepth <= d - 1 && r.maxdepth <= d - 1 && (l.maxdepth < d - 1 || r.maxdepth < d - 1)
    ensures Exact(Joined(l, r), d) && Joined(l, r).maxdepth < d
  {}

  lemma MarkUsedStops(t: Tree, d: int, a: nat, s: nat)
    requires Shaped(t, d) && Exact(t, d) && a < Span(d) && 0 < s && a + s < U64
    requires d == 0 || t.maxdepth == -1 || (a == 0 && s >= Span(d))
    ensures Exact(MarkUsed(t, d, a, s), d) && MarkUsed(t, d, a, s).maxdepth < d
  {}

  /** A call that touches the block keeps every report exact and never leaves the block reported wholly free. */
  lemma {:induction false} MarkUsedExact(t: Tree, d: int, a: nat, s: nat)
    requires Shaped(t, d) && Exact(t, d) && a < Span(d) && 0 < s && a + s < U64
    ensures Exact(MarkUsed(t, d, a, s), d) && MarkUsed(t, d, a, s).maxdepth < d
    decreases d
  {
    hide MarkUsed, Exact, Free, Pages;
    if d == 0 || t.maxdepth == -1 || (a == 0 && s >= Span(d)) {
      MarkUsedStops(t, d, a, s);
    } else {
      OpenedShape(t, d);
      MarkUsedStep(t, d, a, s);
      var l := Opened(t, d, t.left);
      var r := Opened(t, d, t.right);
      var x := LeftPart(a, s, Span(d - 1));
      var y := RightPart(a, s, Span(d - 1));
      if x.size > 0 { MarkUsedExact(l, d - 1, x.addr, x.size); } else { MarkNothing(l, d - 1, x.addr); }
      if y.size > 0 { MarkUsedExact(r, d - 1, y.addr, y.size); } else { MarkNothing(r, d - 1, y.addr); }
      JoinedExact(MarkUsed(l, d - 1, x.addr, x.size), MarkUsed(r, d - 1, y.addr, y.size), d);
    }
  }

  // ---------- free_range ----------

  /** No page the range touches is free, as the caller of free_range must ensure. */
  ghost predicate AllUsed(t: Tree, d: int, a: nat, s: nat) {
    forall p :: 0 <= p < Pages(d) && Touches(a, s, p) ==> !Free(t, d, p)
  }

  lemma AllUsedNotFree(t: Tree, d: int, a: nat, s: nat)
    requires d >= 0 && AllUsed(t, d, a, s) && a < Span(d) && s > 0
    ensures t.maxdepth != d
  {
    var p := a / PAGE;
    assert Touches(a, s, p);
  }

  /** The half-ranges handed to the children are used in the children. */
  lemma AllUsedBelow(t: Tree, d: int, a: nat, s: nat)
    requires Shaped(t, d) && d > 0 && AllUsed(t, d, a, s) && a < Span(d) && s > 0 && a + s < U64
    ensures var l := Filled(t, t.left);
            var r := Filled(t, t.right);
            var x := LeftPart(a, s, Span(d - 1));
            var y := RightPart(a, s, Span(d - 1));
            AllUsed(l, d - 1, x.addr, x.size) && AllUsed(r, d - 1, y.addr, y.size)
  {
    AllUsedNotFree(t, d, a, s);
    var l := Filled(t, t.left);
    var r := Filled(t, t.right);
    var x := LeftPart(a, s, Span(d - 1));
    var y := RightPart(a, s, Span(d - 1));
    forall p | 0 <= p < Pages(d - 1) && Touches(x.addr, x.size, p) ensures !Free(l, d - 1, p) {
      SplitTouches(a, s, d, p);
      assert !Free(t, d, p);
    }
    forall p | 0 <= p < Pages(d - 1) && Touches(y.addr, y.size, p) ensures !Free(r, d - 1, p) {
      SplitTouches(a, s, d, p + Pages(d - 1));
      assert !Free(t, d, p + Pages(d - 1));
    }
  }

  /** The call that does not stop here goes on in both children. */
  lemma FreeRangeStep(v: Version, t: Tree, d: int, a: nat, s: nat)
    requires t.Node? && d > 0 && a < Span(d) && a < U64 && s < U64
    requires s != 0 && !(a == 0 && s >= Span(d))
    ensures var x := LeftPart(a, s, Span(d - 1));
            var y := RightPart(a, s, Span(d - 1));
            FreeRange(v, t, d, a, s) == Coalesced(FreeRange(v, Filled(t, t.left), d - 1, x.addr, x.size),
                                                  FreeRange(v, Filled(t, t.right), d - 1, y.addr, y.size), d)
  {}

  lemma FreeRangeStopsPages(t: Tree, d: int, a: nat, s: nat, p: nat)
    requires Shaped(t, d) && a < U64 && s < U64 && p < Pages(d) && AllUsed(t, d, a, s)
    requires d == 0 || a >= Span(d) || s == 0 || (a == 0 && s >= Span(d))
    ensures Free(FreeRange(Corrected, t, d, a, s), d, p) <==> Free(t, d, p) || Touches(a, s, p)
  {}

  lemma CoalescedFree(l: Tree, r: Tree, d: int, p: int)
    requires d > 0 && Shaped(l, d - 1) && Shaped(r, d - 1) && 0 <= p < Pages(d)
    ensures Free(Coalesced(l, r, d), d, p) ==
            if p < Pages(d - 1) then Free(l, d - 1, p) else Free(r, d - 1, p - Pages(d - 1))
  {}

  lemma FilledFree(t: Tree, d: int, p: int)
    requires Shaped(t, d) && d > 0 && t.maxdepth != d
    ensures var l := Filled(t, t.left);
            var r := Filled(t, t.right);
            Free(t, d, p) == if p < Pages(d - 1) then Free(l, d - 1, p) else Free(r, d - 1, p - Pages(d - 1))
  {}

  /** Freeing used pages frees exactly the touched ones. */
  lemma {:induction false} FreeRangePages(t: Tree, d: int, a: nat, s: nat, p: nat)
    requires Shaped(t, d) && a < U64 && s < U64 && p < Pages(d)
    requires a < Span(d) ==> a + s < U64
    requires AllUsed(t, d, a, s)
    ensures Free(FreeRange(Corrected, t, d, a, s), d, p) <==> Free(t, d, p) || Touches(a, s, p)
    decreases d
  {
    hide FreeRange, Free, Sound, AllUsed;
    if d == 0 || a >= Span(d) || s == 0 || (a == 0 && s >= Span(d)) {
      FreeRangeStopsPages(t, d, a, s, p);
    } else {
      AllUsedNotFree(t, d, a, s);
      AllUsedBelow(t, d, a, s);
      FilledShape(t, d);
      FilledFree(t, d, p);
      FreeRangeStep(Corrected, t, d, a, s);
      var l := Filled(t, t.left);
      var r := Filled(t, t.right);
      var x := LeftPart(a, s, Span(d - 1));
      var y := RightPart(a, s, Span(d - 1));
      FreeRangeShape(Corrected, l, d - 1, x.addr, x.size);
      FreeRangeShape(Corrected, r, d - 1, y.addr, y.size);
      CoalescedFree(FreeRange(Corrected, l, d - 1, x.addr, x.size),
                    FreeRange(Corrected, r, d - 1, y.addr, y.size), d, p);
      SplitTouches(a, s, d, p);
      if p < Pages(d - 1) {
        FreeRangePages(l, d - 1, x.addr, x.size, p);
      } else {
        FreeRangePages(r, d - 1, y.addr, y.size, p - Pages(d - 1));
      }
    }
  }

  lemma {:induction false} FreeRangeReports(t: Tree, d: int, a: nat, s: nat)
    requires Shaped(t, d) && a < U64 && s < U64 && AllUsed(t, d, a, s)
    requires a < Span(d) ==> a + s < U64
    ensures Sound(t, d) ==> Sound(FreeRange(Corrected, t, d, a, s), d)
    ensures Exact(t, d) ==> Exact(FreeRange(Corrected, t, d, a, s), d)
    decreases d
  {
    if d > 0 && a < Span(d) && s != 0 && !(a == 0 && s >= Span(d)) {
      AllUsedNotFree(t, d, a, s);
      AllUsedBelow(t, d, a, s);
      FilledShape(t, d);
      var l := Filled(t, t.left);
      var r := Filled(t, t.right);
      var x := LeftPart(a, s, Span(d - 1));
      var y := RightPart(a, s, Span(d - 1));
      SplitTouches(a, s, d, 0);
      FreeRangeReports(l, d - 1, x.addr, x.size);
      FreeRangeReports(r, d - 1, y.addr, y.size);
    }
  }

  // ---------- is_range_free ----------

  /** One-way: an accepted range lies in the block and is wholly free. */
  lemma {:induction false} AcceptedRangeIsFree(t: Tree, d: nat, a: nat, s: nat, p: nat)
    requires Shaped(t, d) && 0 < s && a + s < U64
    requires IsRangeFree(t, d, a, s)
    ensures a + s <= Span(d)
    ensures p < Pages(d) && Touches(a, s, p) ==> Free(t, d, p)
    decreases d
  {
    if d > 0 && t.maxdepth != d {
      var m, h := Span(d - 1), Pages(d - 1);
      if a >= m {
        AcceptedRangeIsFree(t.right, d - 1, a - m, s, if p < h then 0 else p - h);
      } else if a + s <= m {
        AcceptedRangeIsFree(t.left, d - 1, a, s, p);
      } else {
        AcceptedRangeIsFree(t.left, d - 1, a, m - a, p);
        AcceptedRangeIsFree(t.right, d - 1, 0, s - m + a, if p < h then 0 else p - h);
      }
    }
  }

  // ---------- get_range ----------

  /** Page b starts an aligned block of order k inside a block of order d. */
  ghost predicate Block(d: int, k: nat, b: int) {
    if d <= k then d == k && b == 0
    else if b < Pages(d - 1) then Block(d - 1, k, b)
    else Block(d - 1, k, b - Pages(d - 1))
  }

  /** b is a multiple of 2^k. */
  ghost predicate Aligned(k: nat, b: nat) {
    k == 0 || (b % 2 == 0 && Aligned(k - 1, b / 2))
  }

  lemma {:induction false} AlignedShift(k: nat, d: nat, b: nat)
    requires k <= d
    ensures Aligned(k, b) <==> Aligned(k, b + Pages(d))
    ensures Aligned(k, b) && b < Pages(d) ==> b + Pages(k) <= Pages(d)
  {
    if k > 0 {
      AlignedShift(k - 1, d - 1, b / 2);
      assert (b + Pages(d)) / 2 == b / 2 + Pages(d - 1);
    }
  }

  /** `Block` is what it should be: an aligned run of 2^k pages that fits. */
  lemma {:induction false} BlockIsAligned(d: nat, k: nat, b: nat)
    ensures Block(d, k, b) <==> k <= d && Aligned(k, b) && b + Pages(k) <= Pages(d)
    decreases d
  {
    if d <= k {
      if d == k { ZeroAligned(k); }
    } else if b < Pages(d - 1) {
      BlockIsAligned(d - 1, k, b);
      AlignedShift(k, d - 1, b);
    } else {
      BlockIsAligned(d - 1, k, b - Pages(d - 1));
      AlignedShift(k, d - 1, b - Pages(d - 1));
    }
  }

  lemma {:induction false} ZeroAligned(k: nat)
    ensures Aligned(k, 0)
  {
    if k > 0 { ZeroAligned(k - 1); }
  }

  ghost predicate AllFree(t: Tree, d: int, b: int, n: int) {
    forall p :: b <= p < b + n ==> Free(t, d, p)
  }

  /** The least order whose block holds s bytes, at most d. */
  function OrderFor(d: nat, s: nat): (k: nat)
    ensures k <= d
    ensures s <= Span(d) ==> s <= Span(k)
    ensures k > 0 ==> s > Span(k - 1)
  {
    if d == 0 || s > Span(d - 1) then d else OrderFor(d - 1, s)
  }

  /** Where the descent for order k ends: left whenever the left child reports enough. */
  function LowestStart(t: Tree, d: int, k: nat): nat
    decreases d
  {
    if t.Leaf? || d <= k || t.maxdepth == d then 0
    else if t.left.maxdepth >= k then LowestStart(t.left, d - 1, k)
    else Pages(d - 1) + LowestStart(t.right, d - 1, k)
  }

  lemma {:induction false} FirstBlock(d: nat, k: nat)
    requires k <= d
    ensures Block(d, k, 0) && Pages(k) <= Pages(d)
  {
    if k < d { FirstBlock(d - 1, k); }
  }

  /** A sound report of k or more means a wholly free aligned block of order k, here. */
  lemma {:induction false} ReportedBlockIsFree(t: Tree, d: nat, k: nat)
    requires Shaped(t, d) && Sound(t, d) && k <= t.maxdepth
    ensures var b := LowestStart(t, d, k);
            Block(d, k, b) && b + Pages(k) <= Pages(d) && AllFree(t, d, b, Pages(k))
    decreases d
  {
    if t.maxdepth == d {
      FirstBlock(d, k);
    } else if t.left.maxdepth >= k {
      ReportedBlockIsFree(t.left, d - 1, k);
      forall p | LowestStart(t, d, k) <= p < LowestStart(t, d, k) + Pages(k) ensures Free(t, d, p) {
        assert Free(t.left, d - 1, p);
      }
    } else {
      ReportedBlockIsFree(t.right, d - 1, k);
      forall p | LowestStart(t, d, k) <= p < LowestStart(t, d, k) + Pages(k) ensures Free(t, d, p) {
        assert Free(t.right, d - 1, p - Pages(d - 1));
      }
    }
  }

  /** A block that is not reported wholly free has a used page. */
  lemma {:induction false} UsedPage(t: Tree, d: nat) returns (p: nat)
    requires Shaped(t, d) && Exact(t, d) && t.maxdepth < d
    ensures p < Pages(d) && !Free(t, d, p)
    decreases d
  {
    if t.maxdepth == -1 {
      p := 0;
    } else if t.left.maxdepth < d - 1 {
      p := UsedPage(t.left, d - 1);
    } else {
      p := UsedPage(t.right, d - 1);
      p := p + Pages(d - 1);
    }
  }

  /** With exact reports no block of a larger order, and none lower in memory, is wholly free. */
  lemma {:induction false} NoEarlierBlock(t: Tree, d: nat, k: nat, b: nat)
    requires Shaped(t, d) && Exact(t, d) && Block(d, k, b)
    requires t.maxdepth < k || b < LowestStart(t, d, k)
    ensures !AllFree(t, d, b, Pages(k))
    decreases d
  {
    if d <= k {
      var p := UsedPage(t, d);
    } else if t.maxdepth == -1 {
      assert !Free(t, d, b);
    } else if b < Pages(d - 1) {
      NoEarlierBlock(t.left, d - 1, k, b);
      BlockFits(d - 1, k, b);
      var p :| b <= p < b + Pages(k) && !Free(t.left, d - 1, p);
      assert !Free(t, d, p);
    } else {
      if t.left.maxdepth >= k {
        ExactIsSound(t.left, d - 1);
        ReportedBlockIsFree(t.left, d - 1, k);
      }
      NoEarlierBlock(t.right, d - 1, k, b - Pages(d - 1));
      var p :| b - Pages(d - 1) <= p < b - Pages(d - 1) + Pages(k) && !Free(t.right, d - 1, p);
      assert !Free(t, d, p + Pages(d - 1));
    }
  }

  lemma {:induction false} BlockFits(d: nat, k: nat, b: nat)
    requires Block(d, k, b)
    ensures b + Pages(k) <= Pages(d)
  {
    if k < d {
      if b < Pages(d - 1) { BlockFits(d - 1, k, b); } else { BlockFits(d - 1, k, b - Pages(d - 1)); }
    }
  }

  /** Main result on reports: `maxdepth` is the order of the largest wholly free aligned block. */
  lemma ReportIsLargestFreeOrder(t: Tree, d: nat, k: nat)
    requires Shaped(t, d) && Exact(t, d)
    ensures k <= t.maxdepth <==> exists b: nat :: Block(d, k, b) && AllFree(t, d, b, Pages(k))
  {
    ExactIsSound(t, d);
    if k <= t.maxdepth {
      ReportedBlockIsFree(t, d, k);
    } else {
      forall b: nat | Block(d, k, b) ensures !AllFree(t, d, b, Pages(k)) {
        NoEarlierBlock(t, d, k, b);
      }
    }
  }

  lemma {:induction false} ExactIsSound(t: Tree, d: int)
    requires Exact(t, d)
    ensures Sound(t, d)
    decreases t
  {
    if t.maxdepth != -1 && t.maxdepth != d {
      ExactIsSound(t.left, d - 1);
      ExactIsSound(t.right, d - 1);
    }
  }

  lemma OrderForIsLeast(d: nat, s: nat, m: int)
    requires 0 <= m <= d
    ensures s <= Span(m) <==> s <= Span(d) && OrderFor(d, s) <= m
  {
    SpanMonotone(m, d);
    var k := OrderFor(d, s);
    if k <= m { SpanMonotone(k, m); } else { SpanMonotone(m, k - 1); }
  }

  lemma GetRangeFails(t: Tree, d: nat, s: nat)
    requires Shaped(t, d) && 0 < s < U64 && d <= MAX_DEPTH
    requires t.maxdepth == -1 || s > Span(t.maxdepth)
    ensures GetRange(t, d, s) == ALLOC_NULL && AfterGetRange(t, d, s) == t
  {}

  lemma OrderForBelow(d: nat, s: nat)
    requires d > 0 && s <= Span(d - 1)
    ensures OrderFor(d, s) == OrderFor(d - 1, s) && Span(d) == 2 * Span(d - 1)
  {}

  /** The three ways get_range goes on, given what it finds in the children. */
  lemma GetRangeHere(t: Tree, d: nat, s: nat)
    requires Shaped(t, d) && 0 < s < U64 && d <= MAX_DEPTH
    requires 0 <= t.maxdepth && s <= Span(t.maxdepth) && (d > 0 ==> s > Span(d - 1))
    ensures GetRange(t, d, s) == 0 && OrderFor(d, s) == d && LowestStart(t, d, d) == 0 && s <= Span(d)
  {
    SpanMonotone(t.maxdepth, d);
  }

  lemma GetRangeGoesLeft(t: Tree, d: nat, s: nat)
    requires Shaped(t, d) && 0 < d <= MAX_DEPTH && 0 < s <= Span(d - 1) && s < U64
    requires 0 <= t.maxdepth && s <= Span(t.maxdepth)
    requires GetRange(Opened(t, d, t.left), d - 1, s) != ALLOC_NULL
    ensures GetRange(t, d, s) == GetRange(Opened(t, d, t.left), d - 1, s)
    ensures AfterGetRange(t, d, s) ==
            Node(t.maxdepth, AfterGetRange(Opened(t, d, t.left), d - 1, s), Opened(t, d, t.right))
  {}

  lemma GetRangeGoesRight(t: Tree, d: nat, s: nat)
    requires Shaped(t, d) && 0 < d <= MAX_DEPTH && 0 < s <= Span(d - 1) && s < U64
    requires 0 <= t.maxdepth && s <= Span(t.maxdepth)
    requires GetRange(Opened(t, d, t.left), d - 1, s) == ALLOC_NULL
    requires AfterGetRange(Opened(t, d, t.left), d - 1, s) == Opened(t, d, t.left)
    requires GetRange(Opened(t, d, t.right), d - 1, s) < Span(d - 1)
    ensures GetRange(t, d, s) == Span(d - 1) + GetRange(Opened(t, d, t.right), d - 1, s) < U64
    ensures AfterGetRange(t, d, s) ==
            Node(t.maxdepth, Opened(t, d, t.left), AfterGetRange(Opened(t, d, t.right), d - 1, s))
  {
    SpanFits(d - 1);
  }

  lemma LowestStep(t: Tree, d: nat, k: nat)
    requires Shaped(t, d) && d > k
    ensures var l := Opened(t, d, t.left);
            var r := Opened(t, d, t.right);
            LowestStart(t, d, k) ==
            if l.maxdepth >= k then LowestStart(l, d - 1, k) else Pages(d - 1) + LowestStart(r, d - 1, k)
  {}

  /** get_range goes to the lowest start whenever the report is large enough. */
  lemma {:induction false} GetRangeDescends(t: Tree, d: nat, s: nat)
    requires Shaped(t, d) && Sound(t, d) && 0 < s < U64 && d <= MAX_DEPTH
    requires 0 <= t.maxdepth && s <= Span(t.maxdepth)
    ensures GetRange(t, d, s) == PAGE * LowestStart(t, d, OrderFor(d, s))
    ensures GetRange(t, d, s) + s <= Span(d)
    decreases d
  {
    hide GetRange, AfterGetRange, LowestStart, Sound, Span, Pages, Opened, OrderFor;
    if d > 0 && s <= Span(d - 1) {
      OpenedShape(t, d);
      var l := Opened(t, d, t.left);
      var r := Opened(t, d, t.right);
      var k := OrderFor(d - 1, s);
      OrderForBelow(d, s);
      OrderForIsLeast(d, s, t.maxdepth);
      SpanFits(d - 1);
      if l.maxdepth >= k {
        OrderForIsLeast(d - 1, s, l.maxdepth);
        GetRangeDescends(l, d - 1, s);
        GetRangeGoesLeft(t, d, s);
        LowestStep(t, d, k);
      } else {
        if l.maxdepth >= 0 { OrderForIsLeast(d - 1, s, l.maxdepth); }
        GetRangeFails(l, d - 1, s);
        OrderForIsLeast(d - 1, s, r.maxdepth);
        GetRangeDescends(r, d - 1, s);
        GetRangeGoesRight(t, d, s);
        LowestStep(t, d, k);
      }
    } else {
      GetRangeHere(t, d, s);
    }
  }

  // ---------- mmap ----------

  lemma MarkLeft(t: Tree, d: int, a: nat, s: nat)
    requires t.Node? && d > 0 && t.maxdepth != -1 && 0 < s && a + s <= Span(d - 1) < U64
    ensures MarkUsed(t, d, a, s) == Joined(MarkUsed(Opened(t, d, t.left), d - 1, a, s), Opened(t, d, t.right))
  {
    MarkNothing(Opened(t, d, t.right), d - 1, 0);
  }

  lemma MarkRight(t: Tree, d: int, a: nat, s: nat)
    requires t.Node? && d > 0 && t.maxdepth != -1 && 0 < s < U64 && Span(d - 1) <= a < U64
    ensures MarkUsed(t, d, a, s) ==
            Joined(Opened(t, d, t.left), MarkUsed(Opened(t, d, t.right), d - 1, a - Span(d - 1), s))
  {
    MarkNothing(Opened(t, d, t.left), d - 1, 0);
  }

  lemma AfterGetRangeReport(t: Tree, d: nat, s: nat)
    requires Shaped(t, d) && 0 < s < U64 && d <= MAX_DEPTH
    ensures d > 0 ==> AfterGetRange(t, d, s).Node? && AfterGetRange(t, d, s).maxdepth == t.maxdepth
    ensures d == 0 ==> WithMax(AfterGetRange(t, d, s), t.maxdepth) == t
  {}

  lemma MarkAfterGetRangeHere(t: Tree, d: nat, s: nat)
    requires Shaped(t, d) && 0 < s < U64 && d <= MAX_DEPTH
    requires 0 <= t.maxdepth && s <= Span(t.maxdepth) && (d > 0 ==> s > Span(d - 1))
    ensures MarkUsed(AfterGetRange(t, d, s), d, GetRange(t, d, s), s) == MarkUsed(t, d, GetRange(t, d, s), s)
  {}

  /** What get_range leaves on its path is overwritten when mark_used follows the same path. */
  lemma {:induction false} MarkAfterGetRange(t: Tree, d: nat, s: nat)
    requires Shaped(t, d) && Sound(t, d) && 0 < s < U64 && d <= MAX_DEPTH
    requires 0 <= t.maxdepth && s <= Span(t.maxdepth)
    ensures MarkUsed(AfterGetRange(t, d, s), d, GetRange(t, d, s), s) == MarkUsed(t, d, GetRange(t, d, s), s)
    decreases d
  {
    hide GetRange, AfterGetRange, Sound, OrderFor, LowestStart, MarkUsed, Span, Pages, Free;
    if d > 0 && s <= Span(d - 1) {
      OpenedShape(t, d);
      var l := Opened(t, d, t.left);
      var r := Opened(t, d, t.right);
      SpanFits(d - 1);
      var t' := AfterGetRange(t, d, s);
      if l.maxdepth >= 0 && s <= Span(l.maxdepth) {
        MarkAfterGetRange(l, d - 1, s);
        GetRangeDescends(l, d - 1, s);
        GetRangeGoesLeft(t, d, s);
        AfterGetRangeReport(l, d - 1, s);
        MarkLeft(t, d, GetRange(t, d, s), s);
        MarkLeft(t', d, GetRange(t, d, s), s);
      } else {
        GetRangeFails(l, d - 1, s);
        RightReports(t, d, s);
        MarkAfterGetRange(r, d - 1, s);
        GetRangeDescends(r, d - 1, s);
        GetRangeGoesRight(t, d, s);
        AfterGetRangeReport(r, d - 1, s);
        MarkRight(t, d, GetRange(t, d, s), s);
        MarkRight(t', d, GetRange(t, d, s), s);
      }
    } else {
      MarkAfterGetRangeHere(t, d, s);
    }
  }

  /** If the left child is too small, the right one is large enough. */
  lemma RightReports(t: Tree, d: nat, s: nat)
    requires Shaped(t, d) && Sound(t, d) && d > 0 && 0 < s <= Span(d - 1)
    requires 0 <= t.maxdepth && s <= Span(t.maxdepth)
    requires var l := Opened(t, d, t.left); l.maxdepth == -1 || s > Span(l.maxdepth)
    ensures var r := Opened(t, d, t.right); 0 <= r.maxdepth && s <= Span(r.maxdepth)
  {}
}
