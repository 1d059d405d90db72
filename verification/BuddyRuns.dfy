/** mmap and munmap over whole runs: granted ranges are in bounds, were free, and never overlap. */
module BuddyRuns {
  import opened Machine
  import opened Buddy
  import opened BuddyTheory
  import opened BuddyHints

  /** One mmap call on sound reports, the hint not wrapping around. */
  lemma MmapGrants(t: Tree, d: nat, hint: nat, s: nat)
    requires Shaped(t, d) && Sound(t, d) && d <= MAX_DEPTH && s < U64 && hint + s < U64
    ensures Shaped(AfterMmap(t, d, hint, s), d) && Sound(AfterMmap(t, d, hint, s), d)
    ensures var r := Mmap(t, d, hint, s);
            if r == ALLOC_NULL then
              forall p :: 0 <= p < Pages(d) ==> Free(AfterMmap(t, d, hint, s), d, p) == Free(t, d, p)
            else
              && 0 < s && r + s <= Span(d)
              && (forall p :: 0 <= p < Pages(d) && Touches(r, s, p) ==> Free(t, d, p))
              && (forall p :: 0 <= p < Pages(d) ==>
                    Free(AfterMmap(t, d, hint, s), d, p) == (Free(t, d, p) && !Touches(r, s, p)))
    ensures Exact(t, d) && Mmap(t, d, hint, s) != ALLOC_NULL ==> Exact(AfterMmap(t, d, hint, s), d)
  {
    hide MarkUsed, Free, Sound, Exact, GetRange, AfterGetRange, IsRangeFree, Span, Pages, LowestStart, Shaped;
    var r := Mmap(t, d, hint, s);
    SpanFits(d);
    if s == 0 || s > Span(d) {
    } else if IsRangeFree(t, d, hint, s) {
      forall p | 0 <= p < Pages(d) && Touches(hint, s, p) ensures Free(t, d, p) {
        AcceptedRangeIsFree(t, d, hint, s, p);
      }
      AcceptedRangeIsFree(t, d, hint, s, 0);
      MarkGrant(t, d, hint, s);
    } else if t.maxdepth == -1 || s > Span(t.maxdepth) {
      GetRangeFails(t, d, s);
      MarkUsedShape(t, d, ALLOC_NULL, s);
      forall p | 0 <= p < Pages(d) ensures Free(AfterMmap(t, d, hint, s), d, p) == Free(t, d, p) {
        MarkUsedPages(t, d, ALLOC_NULL, s, p);
      }
    } else {
      ShapedReport(t, d);
      GetRangeDescends(t, d, s);
      MarkAfterGetRange(t, d, s);
      GrantedBlockIsFree(t, d, s);
      MarkGrant(t, d, r, s);
    }
  }

  lemma ShapedReport(t: Tree, d: int)
    requires Shaped(t, d)
    ensures -1 <= t.maxdepth <= d
  {}

  lemma MarkGrant(t: Tree, d: nat, r: nat, s: nat)
    requires Shaped(t, d) && Sound(t, d) && d <= MAX_DEPTH && 0 < s && r + s <= Span(d) && r + s < U64
    ensures var t' := MarkUsed(t, d, r, s);
            && Shaped(t', d) && Sound(t', d)
            && (Exact(t, d) ==> Exact(t', d))
            && forall p :: 0 <= p < Pages(d) ==> Free(t', d, p) == (Free(t, d, p) && !Touches(r, s, p))
  {
    hide MarkUsed, Free, Sound, Exact, Shaped;
    MarkUsedShape(t, d, r, s);
    if Exact(t, d) { MarkUsedExact(t, d, r, s); }
    forall p | 0 <= p < Pages(d)
      ensures Free(MarkUsed(t, d, r, s), d, p) == (Free(t, d, p) && !Touches(r, s, p))
    {
      MarkUsedPages(t, d, r, s, p);
    }
  }

  lemma GrantedBlockIsFree(t: Tree, d: nat, s: nat)
    requires Shaped(t, d) && Sound(t, d) && 0 < s < U64 && d <= MAX_DEPTH
    requires 0 <= t.maxdepth && s <= Span(t.maxdepth)
    ensures forall p :: 0 <= p < Pages(d) && Touches(GetRange(t, d, s), s, p) ==> Free(t, d, p)
  {
    hide MarkUsed, Free, Sound, Exact, Shaped, GetRange, LowestStart;
    ShapedReport(t, d);
    GetRangeDescends(t, d, s);
    OrderForIsLeast(d, s, t.maxdepth);
    ReportedBlockIsFree(t, d, OrderFor(d, s));
  }

  /** With exact reports, mmap takes a hint that lies inside a wholly free aligned block. */
  lemma MmapTakesHint(t: Tree, d: nat, hint: nat, s: nat)
    requires Shaped(t, d) && Exact(t, d) && d <= MAX_DEPTH && 0 < s && hint + s < U64 && HintFits(t, d, hint, s)
    ensures Mmap(t, d, hint, s) == hint
  {
    hide IsRangeFree, GetRange, HintFits, Shaped, Exact;
    RangeFreeIff(t, d, hint, s);
    AcceptedRangeIsFree(t, d, hint, s, 0);
  }

  /** Otherwise it fails exactly when no aligned block that could hold s bytes is wholly free, and the range that it
      chooses itself starts the lowest such block. */
  lemma MmapIsLowestFit(t: Tree, d: nat, hint: nat, s: nat)
    requires Shaped(t, d) && Exact(t, d) && d <= MAX_DEPTH && 0 < s <= Span(d) && hint + s < U64
    requires !HintFits(t, d, hint, s)
    ensures var k := OrderFor(d, s);
            var r := Mmap(t, d, hint, s);
            && (r == ALLOC_NULL <==> forall b: nat :: Block(d, k, b) ==> !AllFree(t, d, b, Pages(k)))
            && (r != ALLOC_NULL ==>
                  exists b: nat ::
                    && r == PAGE * b && Block(d, k, b) && AllFree(t, d, b, Pages(k))
                    && forall c: nat :: c < b && Block(d, k, c) ==> !AllFree(t, d, c, Pages(k)))
  {
    hide HintFits;
    RangeFreeIff(t, d, hint, s);
    hide MarkUsed, Free, Sound, Exact, Shaped, GetRange, LowestStart, AllFree, Block, OrderFor, IsRangeFree;
    var k := OrderFor(d, s);
    ExactIsSound(t, d);
    ShapedReport(t, d);
    SpanFits(d);
    ReportIsLargestFreeOrder(t, d, k);
    if t.maxdepth >= 0 { OrderForIsLeast(d, s, t.maxdepth); }
    if k <= t.maxdepth {
      GetRangeDescends(t, d, s);
      ReportedBlockIsFree(t, d, k);
      var b := LowestStart(t, d, k);
      forall c: nat | c < b && Block(d, k, c) ensures !AllFree(t, d, c, Pages(k)) {
        NoEarlierBlock(t, d, k, c);
      }
      assert Mmap(t, d, hint, s) == PAGE * b && Block(d, k, b) && AllFree(t, d, b, Pages(k));
    } else {
      GetRangeFails(t, d, s);
    }
  }

  /** A hint whose end wraps around 2^64 can be accepted by a wholly free tree, and is then handed out. That is
      the only way to leave the bounds. */
  lemma MmapStaysInBounds(t: Tree, d: nat, hint: nat, s: nat)
    requires Shaped(t, d) && Sound(t, d) && d <= MAX_DEPTH && hint < U64 && s < U64
    requires Mmap(t, d, hint, s) != ALLOC_NULL
    ensures Mmap(t, d, hint, s) + s <= Span(d) <==> !(hint + s >= U64 && IsRangeFree(t, d, hint, s))
  {
    hide MarkUsed, Free, Sound, Shaped, GetRange, LowestStart, IsRangeFree, Span, Pages;
    SpanFits(d);
    if hint + s < U64 {
      MmapGrants(t, d, hint, s);
    } else if !IsRangeFree(t, d, hint, s) {
      ShapedReport(t, d);
      if t.maxdepth == -1 || s > Span(t.maxdepth) {
        GetRangeFails(t, d, s);
      } else {
        GetRangeDescends(t, d, s);
      }
    }
  }

  lemma WrappingHintIsGranted()
    ensures Mmap(Fresh(18), 18, U64 - 4096, 4096) == U64 - 4096 > Span(18)
  {
    SpanFits(18);
    FreshIsFree(18);
  }

  lemma {:induction false} FreshIsFree(d: nat)
    ensures Shaped(Fresh(d), d) && Exact(Fresh(d), d) && Sound(Fresh(d), d) && Fresh(d).maxdepth == d
    ensures forall p :: 0 <= p < Pages(d) ==> Free(Fresh(d), d, p)
  {
    if d > 0 { FreshIsFree(d - 1); }
  }

  // ---------- what a failed call does to the reports ----------

  /** Some block on the way to the last page is reported wholly free and can be split. */
  ghost predicate Spoiled(t: Tree, d: nat) {
    t.Node? && d > 0 && t.maxdepth != -1 && (t.maxdepth == d || Spoiled(t.right, d - 1))
  }

  /** Marking a range beyond the end, as a failed mmap does, keeps the reports exact unless it splits such a block. */
  lemma {:induction false} MarkBeyondKeepsExactIff(t: Tree, d: nat, a: nat, s: nat)
    requires Shaped(t, d) && Exact(t, d) && Span(d) <= a < U64 && 0 < s < U64
    ensures Exact(MarkUsed(t, d, a, s), d) <==> !Spoiled(t, d)
    ensures !Spoiled(t, d) ==> MarkUsed(t, d, a, s).maxdepth == t.maxdepth
    decreases d
  {
    hide MarkUsed, Span;
    if d == 0 || t.maxdepth == -1 {
      MarkBeyondStops(t, d, a, s);
    } else {
      OpenedShape(t, d);
      SpanTwice(d);
      MarkRight(t, d, a, s);
      MarkBeyondKeepsExactIff(Opened(t, d, t.right), d - 1, a - Span(d - 1), s);
      MarkUsedShape(Opened(t, d, t.right), d - 1, a - Span(d - 1), s);
    }
  }

  lemma MarkBeyondStops(t: Tree, d: nat, a: nat, s: nat)
    requires Shaped(t, d) && Span(d) <= a < U64 && 0 < s < U64 && (d == 0 || t.maxdepth == -1)
    ensures MarkUsed(t, d, a, s) == t
  {}

  lemma SpanTwice(d: nat)
    requires d > 0
    ensures Span(d) == 2 * Span(d - 1)
  {}

  /** mmap fails after it has called mark_used. */
  predicate FailsMarked(t: Tree, d: nat, hint: nat, s: nat)
    requires hint < U64 && s < U64 && d <= MAX_DEPTH
  {
    0 < s <= Span(d) && Mmap(t, d, hint, s) == ALLOC_NULL
  }

  /** One mmap call keeps the reports exact if and only if it does not fail on a spoiled tree. */
  lemma MmapKeepsExactIff(t: Tree, d: nat, hint: nat, s: nat)
    requires Shaped(t, d) && Exact(t, d) && d <= MAX_DEPTH && hint + s < U64
    ensures Exact(AfterMmap(t, d, hint, s), d) <==> !(FailsMarked(t, d, hint, s) && Spoiled(t, d))
  {
    hide MarkUsed, Free, Sound, Exact, GetRange, AfterGetRange, IsRangeFree, Span, Pages, Shaped, Spoiled;
    ExactIsSound(t, d);
    SpanFits(d);
    if Mmap(t, d, hint, s) != ALLOC_NULL {
      MmapGrants(t, d, hint, s);
    } else if 0 < s <= Span(d) {
      if IsRangeFree(t, d, hint, s) { AcceptedRangeIsFree(t, d, hint, s, 0); }
      ShapedReport(t, d);
      if t.maxdepth >= 0 && s <= Span(t.maxdepth) { GetRangeDescends(t, d, s); }
      GetRangeFails(t, d, s);
      MarkBeyondKeepsExactIff(t, d, ALLOC_NULL, s);
    }
  }

  /** Concretely: four pages, one of them mapped.  A request for all four fails and splits the free upper half, so
      that the next request for two pages fails although pages 2 and 3 are free. */
  lemma FailedMmapHidesBlock()
    ensures var t1 := AfterMmap(Fresh(2), 2, 16384, 4096);
            var t2 := AfterMmap(t1, 2, 16384, 16384);
            && Exact(t1, 2) && Mmap(t1, 2, 16384, 16384) == ALLOC_NULL && Spoiled(t1, 2)
            && Mmap(t1, 2, 16384, 8192) == 8192
            && Block(2, 1, 2) && AllFree(t2, 2, 2, Pages(1)) && Mmap(t2, 2, 16384, 8192) == ALLOC_NULL
  {
    var t1 := FirstOfFour();
    var t2 := AllOfFour();
    assert t1.right == Node(1, Leaf(0), Leaf(0));
    assert Span(0) == 4096 && Span(1) == 8192 && Span(2) == 16384;
    assert Pages(0) == 1 && Pages(1) == 2 && Pages(2) == 4;
    assert GetRange(t1, 2, 8192) == 8192 by { assert GetRange(t1.right, 1, 8192) == 0; }
    assert Free(t2, 2, 2) && Free(t2, 2, 3);
  }

  /** One page is mapped. */
  lemma FirstOfFour() returns (t1: Tree)
    ensures t1 == AfterMmap(Fresh(2), 2, 16384, 4096)
    ensures t1 == Node(1, Node(0, Leaf(-1), Leaf(0)), Node(1, Leaf(0), Leaf(0)))
  {
    t1 := Node(1, Node(0, Leaf(-1), Leaf(0)), Node(1, Leaf(0), Leaf(0)));
    assert Fresh(1) == Node(1, Leaf(0), Leaf(0)) && Fresh(2) == Node(2, Fresh(1), Fresh(1));
    assert Span(0) == 4096 && Span(1) == 8192 && Span(2) == 16384;
    assert GetRange(Fresh(2), 2, 4096) == 0;
  }

  /** Then all four are asked for. */
  lemma AllOfFour() returns (t2: Tree)
    ensures var t1 := Node(1, Node(0, Leaf(-1), Leaf(0)), Node(1, Leaf(0), Leaf(0)));
            Mmap(t1, 2, 16384, 16384) == ALLOC_NULL && t2 == AfterMmap(t1, 2, 16384, 16384)
    ensures t2 == Node(0, Node(0, Leaf(-1), Leaf(0)), Node(0, Leaf(0), Leaf(0)))
  {
    t2 := Node(0, Node(0, Leaf(-1), Leaf(0)), Node(0, Leaf(0), Leaf(0)));
    var t1 := Node(1, Node(0, Leaf(-1), Leaf(0)), Node(1, Leaf(0), Leaf(0)));
    assert Span(0) == 4096 && Span(1) == 8192 && Span(2) == 16384;
    assert GetRange(t1, 2, 16384) == ALLOC_NULL;
  }

  // ---------- the order stored when a whole block is freed ----------

  /** The range contains two pages that form an aligned pair, so free_range reaches line 37 above a leaf. */
  predicate HoldsAlignedPair(a: nat, s: nat) {
    (PairIndex(a) + 1) * (2 * PAGE) <= a + s
  }

  /** The first aligned pair that does not start before address a. */
  function PairIndex(a: nat): nat {
    (a + 2 * PAGE - 1) / (2 * PAGE)
  }

  lemma PairMeaning(a: nat, s: nat)
    ensures HoldsAlignedPair(a, s) <==> exists i: nat :: a <= i * (2 * PAGE) && (i + 1) * (2 * PAGE) <= a + s
  {
    var i := PairIndex(a);
    assert a <= i * (2 * PAGE);
  }

  lemma WholeBlockHoldsPair(d: nat, s: nat)
    requires d > 0 && s >= Span(d)
    ensures HoldsAlignedPair(0, s)
  {}

  /** A pair in the range lies in one half of the block, and the other way round. */
  lemma PairSplits(a: nat, s: nat, d: nat)
    requires d > 1 && a < Span(d) && a + s <= Span(d) < U64
    ensures var x := LeftPart(a, s, Span(d - 1));
            var y := RightPart(a, s, Span(d - 1));
            HoldsAlignedPair(a, s) <==> HoldsAlignedPair(x.addr, x.size) || HoldsAlignedPair(y.addr, y.size)
  {
    var n, m := Pages(d - 2), Span(d - 1);
    assert m == (2 * PAGE) * n;
    hide Pages, Span, PairIndex;
    PairIndexes(a, n);
    PairIndexes(0, n);
  }

  lemma PairIndexes(a: nat, n: nat)
    ensures a < (2 * PAGE) * n ==> PairIndex(a) <= n
    ensures a >= (2 * PAGE) * n ==> PairIndex(a) == PairIndex(a - (2 * PAGE) * n) + n
    ensures PairIndex(0) == 0
  {}

  lemma {:induction false} SameWithoutPair(t: Tree, d: nat, a: nat, s: nat)
    requires Shaped(t, d) && d <= MAX_DEPTH && a + s <= Span(d) && !HoldsAlignedPair(a, s)
    requires a < U64 && s < U64
    ensures FreeRange(AsCommitted, t, d, a, s) == FreeRange(Corrected, t, d, a, s)
    decreases d
  {
    SpanFits(d);
    if d > 0 && a < Span(d) && s > 0 {
      if a == 0 && s >= Span(d) {
        WholeBlockHoldsPair(d, s);
      } else {
        FilledShape(t, d);
        var x := LeftPart(a, s, Span(d - 1));
        var y := RightPart(a, s, Span(d - 1));
        if d > 1 {
          PairSplits(a, s, d);
          SameWithoutPair(Filled(t, t.left), d - 1, x.addr, x.size);
          SameWithoutPair(Filled(t, t.right), d - 1, y.addr, y.size);
        }
      }
    }
  }

  /** Both reports are right after a free: the reports are exact and exactly the range became free. */
  ghost predicate FreedExactly(t: Tree, t': Tree, d: int, a: nat, s: nat) {
    && Exact(t', d)
    && forall p :: 0 <= p < Pages(d) ==> Free(t', d, p) == (Free(t, d, p) || Touches(a, s, p))
  }

  ghost predicate RangeFree(t: Tree, d: int, a: nat, s: nat) {
    forall p :: 0 <= p < Pages(d) && Touches(a, s, p) ==> Free(t, d, p)
  }

  lemma WholeBlockReportIsWrong(t: Tree, d: nat)
    requires Shaped(t, d) && d > 0 && t.maxdepth == d - 1
    ensures !(Exact(t, d) && RangeFree(t, d, 0, Span(d)))
  {
    if Exact(t, d) {
      var p := UsedPage(t, d);
      assert Touches(0, Span(d), p);
    }
  }

  lemma WholeBlockStored(t: Tree, d: nat, s: nat)
    requires Shaped(t, d) && d > 0 && Span(d) <= s < U64
    ensures FreeRange(AsCommitted, t, d, 0, s).maxdepth == d - 1
  {}

  lemma PairNeedsDepth(d: nat, a: nat, s: nat)
    requires a + s <= Span(d) && HoldsAlignedPair(a, s)
    ensures d > 0 && (d == 1 ==> a == 0 && s == Span(d)) && a < Span(d)
  {}

  lemma WrongBelow(l: Tree, r: Tree, d: nat, a: nat, s: nat)
    requires d > 0 && a < Span(d) && a + s < U64 && Shaped(l, d - 1) && Shaped(r, d - 1)
    requires var x := LeftPart(a, s, Span(d - 1));
             var y := RightPart(a, s, Span(d - 1));
             || (0 <= l.maxdepth < d - 1 && !(Exact(l, d - 1) && RangeFree(l, d - 1, x.addr, x.size)))
             || (0 <= r.maxdepth < d - 1 && !(Exact(r, d - 1) && RangeFree(r, d - 1, y.addr, y.size)))
    ensures 0 <= Coalesced(l, r, d).maxdepth < d
    ensures !(Exact(Coalesced(l, r, d), d) && RangeFree(Coalesced(l, r, d), d, a, s))
  {
    var t := Coalesced(l, r, d);
    var x := LeftPart(a, s, Span(d - 1));
    var y := RightPart(a, s, Span(d - 1));
    assert t == Joined(l, r);
    if Exact(t, d) && RangeFree(t, d, a, s) {
      forall p | 0 <= p < Pages(d - 1) && Touches(x.addr, x.size, p) ensures Free(l, d - 1, p) {
        SplitTouches(a, s, d, p);
        assert Free(t, d, p);
      }
      forall p | 0 <= p < Pages(d - 1) && Touches(y.addr, y.size, p) ensures Free(r, d - 1, p) {
        SplitTouches(a, s, d, p + Pages(d - 1));
        assert Free(t, d, p + Pages(d - 1));
      }
    }
  }

  /** The stored order `depth - 1` spoils the report or the children it exposes are not free. */
  lemma {:induction false} CommittedIsWrong(t: Tree, d: nat, a: nat, s: nat)
    requires Shaped(t, d) && d <= MAX_DEPTH && 0 < s && a + s <= Span(d) && HoldsAlignedPair(a, s)
    requires a < U64 && s < U64
    ensures var t' := FreeRange(AsCommitted, t, d, a, s);
            && 0 <= t'.maxdepth < d
            && !(Exact(t', d) && RangeFree(t', d, a, s))
    decreases d
  {
    hide Free, Exact, RangeFree, Touches, FreeRange, HoldsAlignedPair, Pages, Span;
    SpanFits(d);
    PairNeedsDepth(d, a, s);
    if a == 0 && s >= Span(d) {
      WholeBlockStored(t, d, s);
      FreeRangeShape(AsCommitted, t, d, a, s);
      WholeBlockReportIsWrong(FreeRange(AsCommitted, t, d, a, s), d);
    } else {
      FilledShape(t, d);
      HalvesFit(a, s, d);
      var x := LeftPart(a, s, Span(d - 1));
      var y := RightPart(a, s, Span(d - 1));
      PairSplits(a, s, d);
      PairPositive(x.addr, x.size);
      PairPositive(y.addr, y.size);
      if HoldsAlignedPair(x.addr, x.size) {
        CommittedIsWrong(Filled(t, t.left), d - 1, x.addr, x.size);
      } else {
        CommittedIsWrong(Filled(t, t.right), d - 1, y.addr, y.size);
      }
      WrongAbove(t, d, a, s);
    }
  }

  lemma PairPositive(a: nat, s: nat)
    ensures HoldsAlignedPair(a, s) ==> s > 0
  {}

  lemma HalvesFit(a: nat, s: nat, d: nat)
    requires d > 0 && a < Span(d) && a + s <= Span(d) < U64
    ensures var x := LeftPart(a, s, Span(d - 1));
            var y := RightPart(a, s, Span(d - 1));
            x.addr + x.size <= Span(d - 1) && y.addr + y.size <= Span(d - 1) < U64
  {}

  lemma WrongAbove(t: Tree, d: nat, a: nat, s: nat)
    requires Shaped(t, d) && 0 < d <= MAX_DEPTH && 0 < s && a < Span(d) && a + s <= Span(d) && !(a == 0 && s >= Span(d))
    requires a + s < U64 && t.Node?
    requires var x := LeftPart(a, s, Span(d - 1));
             var y := RightPart(a, s, Span(d - 1));
             var l := FreeRange(AsCommitted, Filled(t, t.left), d - 1, x.addr, x.size);
             var r := FreeRange(AsCommitted, Filled(t, t.right), d - 1, y.addr, y.size);
             || (0 <= l.maxdepth < d - 1 && !(Exact(l, d - 1) && RangeFree(l, d - 1, x.addr, x.size)))
             || (0 <= r.maxdepth < d - 1 && !(Exact(r, d - 1) && RangeFree(r, d - 1, y.addr, y.size)))
    ensures var t' := FreeRange(AsCommitted, t, d, a, s);
            0 <= t'.maxdepth < d && !(Exact(t', d) && RangeFree(t', d, a, s))
  {
    hide Free, Exact, RangeFree, Touches, FreeRange, Pages;
    FilledShape(t, d);
    FreeRangeStep(AsCommitted, t, d, a, s);
    var x := LeftPart(a, s, Span(d - 1));
    var y := RightPart(a, s, Span(d - 1));
    FreeRangeShape(AsCommitted, Filled(t, t.left), d - 1, x.addr, x.size);
    FreeRangeShape(AsCommitted, Filled(t, t.right), d - 1, y.addr, y.size);
    WrongBelow(FreeRange(AsCommitted, Filled(t, t.left), d - 1, x.addr, x.size),
               FreeRange(AsCommitted, Filled(t, t.right), d - 1, y.addr, y.size), d, a, s);
  }

  /** The code as committed frees correctly exactly when the range holds no aligned pair of pages. */
  lemma CommittedFreeIsExactIff(t: Tree, d: nat, a: nat, s: nat)
    requires Shaped(t, d) && Exact(t, d) && d <= MAX_DEPTH && 0 < s && a + s <= Span(d) && AllUsed(t, d, a, s)
    requires a < U64 && s < U64
    ensures FreedExactly(t, FreeRange(AsCommitted, t, d, a, s), d, a, s) <==> !HoldsAlignedPair(a, s)
  {
    hide Free, Exact, FreeRange, HoldsAlignedPair, Shaped, Span, Pages;
    SpanFits(d);
    if HoldsAlignedPair(a, s) {
      CommittedIsWrong(t, d, a, s);
    } else {
      SameWithoutPair(t, d, a, s);
      FreeRangeReports(t, d, a, s);
      forall p | 0 <= p < Pages(d)
        ensures Free(FreeRange(Corrected, t, d, a, s), d, p) == (Free(t, d, p) || Touches(a, s, p))
      {
        FreeRangePages(t, d, a, s, p);
      }
    }
  }

  /** Concretely: pages 0 and 1 are mapped one by one and freed together.  Afterwards the root claims a free page
      that neither leaf has, and the next one-page mmap returns the address 4095. */
  lemma CommittedFreeGoesWrong()
    ensures var t0 := Fresh(1);
            var t1 := AfterMmap(t0, 1, 8192, 4096);
            var t2 := AfterMmap(t1, 1, 8192, 4096);
            var t3 := FreeRange(AsCommitted, t2, 1, 0, 8192);
            && Mmap(t0, 1, 8192, 4096) == 0 && Mmap(t1, 1, 8192, 4096) == 4096
            && t3 == Node(0, Leaf(-1), Leaf(-1))
            && Mmap(t3, 1, 8192, 4096) == 4095
  {
    var t0 := Node(1, Leaf(0), Leaf(0));
    assert Fresh(1) == t0;
    assert Span(0) == 4096 && Span(1) == 8192;
    var t1 := Node(0, Leaf(-1), Leaf(0));
    assert GetRange(t0, 1, 4096) == 0;
    assert AfterMmap(t0, 1, 8192, 4096) == t1;
    var t2 := Node(-1, Leaf(-1), Leaf(-1));
    assert GetRange(t1, 1, 4096) == 4096;
    assert AfterMmap(t1, 1, 8192, 4096) == t2;
    var t3 := Node(0, Leaf(-1), Leaf(-1));
    assert FreeRange(AsCommitted, t2, 1, 0, 8192) == t3;
    assert GetRange(t3, 1, 4096) == 4095;
  }

  // ---------- runs ----------

  datatype Call = MmapCall(hint: nat, size: nat) | MunmapCall(addr: nat, size: nat)

  /** The allocator with, per page, the number of the mmap call that holds it. */
  datatype State = State(tree: Tree, held: map<nat, nat>, serial: nat)

  ghost function TouchedPages(d: int, a: nat, s: nat): set<nat> {
    set p: nat | p < Pages(d) && Touches(a, s, p)
  }

  /** What the caller owes: hints that do not wrap, and munmap only of pages it holds. */
  ghost predicate Legal(v: Version, d: nat, st: State, c: Call) {
    match c
    case MmapCall(hint, s) => hint + s < U64
    case MunmapCall(a, s) =>
      && a + s <= Span(d)
      && TouchedPages(d, a, s) <= st.held.Keys
      && (v.AsCommitted? ==> !HoldsAlignedPair(a, s))
  }

  ghost function Step(v: Version, d: nat, st: State, c: Call): State
    requires d <= MAX_DEPTH && Legal(v, d, st, c)
  {
    SpanFits(d);
    match c
    case MmapCall(hint, s) =>
      var r := Mmap(st.tree, d, hint, s);
      var t' := AfterMmap(st.tree, d, hint, s);
      if r == ALLOC_NULL then st.(tree := t')
      else State(t', st.held + (map p | p in TouchedPages(d, r, s) :: st.serial), st.serial + 1)
    case MunmapCall(a, s) =>
      State(FreeRange(v, st.tree, d, a, s), st.held - TouchedPages(d, a, s), st.serial)
  }

  /** A page is free exactly when no mmap holds it and it was not reserved at the start. */
  ghost predicate Invariant(d: nat, st: State, reserved: set<nat>) {
    && Shaped(st.tree, d) && Sound(st.tree, d)
    && reserved !! st.held.Keys
    && (forall p :: p in st.held ==> p < Pages(d))
    && (forall p :: 0 <= p < Pages(d) ==> (Free(st.tree, d, p) <==> p !in st.held && p !in reserved))
    && (forall p :: p in st.held ==> st.held[p] < st.serial)
  }

  lemma MmapStepSafe(v: Version, d: nat, st: State, hint: nat, s: nat, reserved: set<nat>)
    requires d <= MAX_DEPTH && hint + s < U64 && Invariant(d, st, reserved)
    ensures Invariant(d, Step(v, d, st, MmapCall(hint, s)), reserved)
    ensures var r := Mmap(st.tree, d, hint, s);
            var st' := Step(v, d, st, MmapCall(hint, s));
            if r == ALLOC_NULL then st'.held == st.held
            else
              && r + s <= Span(d)
              && TouchedPages(d, r, s) !! st.held.Keys && TouchedPages(d, r, s) !! reserved
              && (forall p :: p in TouchedPages(d, r, s) ==> p in st'.held && st'.held[p] == st.serial)
              && (forall p :: p !in TouchedPages(d, r, s) ==> (p in st'.held <==> p in st.held))
              && (forall p :: p in st.held ==> st'.held[p] == st.held[p])
  {
    hide MarkUsed, Free, Sound, Shaped, Exact, Mmap, AfterMmap, Span, Pages, Touches;
    MmapGrants(st.tree, d, hint, s);
    var r := Mmap(st.tree, d, hint, s);
    if r != ALLOC_NULL {
      forall p | p in TouchedPages(d, r, s) ensures p !in st.held && p !in reserved {
        assert Free(st.tree, d, p);
      }
    }
  }

  lemma MunmapStepSafe(v: Version, d: nat, st: State, a: nat, s: nat, reserved: set<nat>)
    requires d <= MAX_DEPTH && Invariant(d, st, reserved) && Legal(v, d, st, MunmapCall(a, s))
    ensures Invariant(d, Step(v, d, st, MunmapCall(a, s)), reserved)
  {
    hide FreeRange, Free, Sound, Shaped, Exact, Span, Pages, Touches, HoldsAlignedPair;
    SpanFits(d);
    forall p | 0 <= p < Pages(d) && Touches(a, s, p) ensures !Free(st.tree, d, p) {
      assert p in TouchedPages(d, a, s);
    }
    assert AllUsed(st.tree, d, a, s);
    if v.AsCommitted? { SameWithoutPair(st.tree, d, a, s); }
    FreeRangeShape(v, st.tree, d, a, s);
    FreeRangeReports(st.tree, d, a, s);
    forall p | 0 <= p < Pages(d)
      ensures Free(FreeRange(v, st.tree, d, a, s), d, p) == (Free(st.tree, d, p) || Touches(a, s, p))
    {
      FreeRangePages(st.tree, d, a, s, p);
    }
  }

  /** Every call of the run is legal in the state it meets. */
  ghost predicate LegalRun(v: Version, d: nat, st: State, calls: seq<Call>)
    requires d <= MAX_DEPTH
    decreases |calls|
  {
    calls == [] || (Legal(v, d, st, calls[0]) && LegalRun(v, d, Step(v, d, st, calls[0]), calls[1..]))
  }

  ghost function Run(v: Version, d: nat, st: State, calls: seq<Call>): State
    requires d <= MAX_DEPTH && LegalRun(v, d, st, calls)
    decreases |calls|
  {
    if calls == [] then st else Run(v, d, Step(v, d, st, calls[0]), calls[1..])
  }

  /** Main result on runs: after any legal calls, failed ones included, used pages are exactly the held and the
      reserved ones, so (MmapStepSafe) the next grant is in bounds and disjoint from every live range. */
  lemma {:induction false} RunsKeepInvariant(v: Version, d: nat, st: State, calls: seq<Call>, reserved: set<nat>)
    requires d <= MAX_DEPTH && Invariant(d, st, reserved) && LegalRun(v, d, st, calls)
    ensures Invariant(d, Run(v, d, st, calls), reserved)
    decreases |calls|
  {
    hide Invariant, Step, Legal;
    if calls != [] {
      StepKeepsInvariant(v, d, st, calls[0], reserved);
      RunsKeepInvariant(v, d, Step(v, d, st, calls[0]), calls[1..], reserved);
    }
  }

  lemma StepKeepsInvariant(v: Version, d: nat, st: State, c: Call, reserved: set<nat>)
    requires d <= MAX_DEPTH && Invariant(d, st, reserved) && Legal(v, d, st, c)
    ensures Invariant(d, Step(v, d, st, c), reserved)
  {
    hide Invariant, Step;
    match c
    case MmapCall(hint, s) => MmapStepSafe(v, d, st, hint, s, reserved);
    case MunmapCall(a, s) => MunmapStepSafe(v, d, st, a, s, reserved);
  }

  // ---------- exact reports over runs ----------

  /** The call is an mmap that fails and thereby splits a wholly free block. */
  ghost predicate Spoils(d: nat, st: State, c: Call)
    requires d <= MAX_DEPTH && (c.MmapCall? ==> c.hint + c.size < U64)
  {
    c.MmapCall? && FailsMarked(st.tree, d, c.hint, c.size) && Spoiled(st.tree, d)
  }

  /** One call keeps the reports exact if and only if it is not such an mmap. */
  lemma StepKeepsExactIff(v: Version, d: nat, st: State, c: Call, reserved: set<nat>)
    requires d <= MAX_DEPTH && Invariant(d, st, reserved) && Exact(st.tree, d) && Legal(v, d, st, c)
    ensures Exact(Step(v, d, st, c).tree, d) <==> !Spoils(d, st, c)
  {
    hide FreeRange, Free, Sound, Shaped, Exact, Span, Pages, Touches, HoldsAlignedPair, Spoiled, Mmap, AfterMmap;
    match c
    case MmapCall(hint, s) => MmapKeepsExactIff(st.tree, d, hint, s);
    case MunmapCall(a, s) =>
      SpanFits(d);
      forall p | 0 <= p < Pages(d) && Touches(a, s, p) ensures !Free(st.tree, d, p) {
        assert p in TouchedPages(d, a, s);
      }
      if v.AsCommitted? { SameWithoutPair(st.tree, d, a, s); }
      FreeRangeReports(st.tree, d, a, s);
  }

  /** No call of the run spoils the tree; in particular, none fails. */
  ghost predicate NeverSpoils(v: Version, d: nat, st: State, calls: seq<Call>)
    requires d <= MAX_DEPTH && LegalRun(v, d, st, calls)
    decreases |calls|
  {
    calls == [] || (!Spoils(d, st, calls[0]) && NeverSpoils(v, d, Step(v, d, st, calls[0]), calls[1..]))
  }

  lemma {:induction false} RunsKeepExact(v: Version, d: nat, st: State, calls: seq<Call>, reserved: set<nat>)
    requires d <= MAX_DEPTH && Invariant(d, st, reserved) && Exact(st.tree, d)
    requires LegalRun(v, d, st, calls) && NeverSpoils(v, d, st, calls)
    ensures Exact(Run(v, d, st, calls).tree, d)
    decreases |calls|
  {
    hide Invariant, Step, Legal, Exact, Spoils;
    if calls != [] {
      StepKeepsInvariant(v, d, st, calls[0], reserved);
      StepKeepsExactIff(v, d, st, calls[0], reserved);
      RunsKeepExact(v, d, Step(v, d, st, calls[0]), calls[1..], reserved);
    }
  }

  /** The reports of the allocator before any call, with the pages of a range reserved. */
  lemma StartIsExact(d: nat, a: nat, s: nat)
    requires d <= MAX_DEPTH && 0 < s && a + s <= Span(d) && a + s < U64
    ensures var st := State(MarkUsed(Fresh(d), d, a, s), map[], 0);
            Invariant(d, st, TouchedPages(d, a, s)) && Exact(st.tree, d)
  {
    hide MarkUsed, Free, Sound, Exact, Shaped;
    SpanFits(d);
    FreshIsFree(d);
    MarkGrant(Fresh(d), d, a, s);
  }

  /** The hint lies, as is_range_free wants it, inside an aligned block free of held and reserved pages. */
  ghost predicate HintUnheld(d: nat, st: State, reserved: set<nat>, a: nat, s: nat) {
    exists k: nat, b: nat :: Block(d, k, b) && Unheld(d, st, reserved, b, Pages(k)) && Inside(d, k, b, a, s)
  }

  lemma UnheldIsFree(d: nat, st: State, reserved: set<nat>, k: nat, b: nat)
    requires Invariant(d, st, reserved) && Block(d, k, b)
    ensures AllFree(st.tree, d, b, Pages(k)) <==> Unheld(d, st, reserved, b, Pages(k))
  {
    hide Free, Sound, Shaped, Block;
    BlockFits(d, k, b);
  }

  lemma HintUnheldIff(d: nat, st: State, reserved: set<nat>, a: nat, s: nat)
    requires Invariant(d, st, reserved)
    ensures HintUnheld(d, st, reserved, a, s) <==> HintFits(st.tree, d, a, s)
  {
    hide Block, Unheld, AllFree, Inside, Invariant;
    forall k: nat, b: nat | Block(d, k, b)
      ensures AllFree(st.tree, d, b, Pages(k)) <==> Unheld(d, st, reserved, b, Pages(k))
    {
      UnheldIsFree(d, st, reserved, k, b);
    }
  }

  lemma HintInMemory(d: nat, st: State, reserved: set<nat>, a: nat, s: nat)
    requires HintUnheld(d, st, reserved, a, s)
    ensures a + s <= Span(d)
    ensures Invariant(d, st, reserved) ==> Shaped(st.tree, d)
  {
    hide Unheld;
    var k: nat, b: nat :| Block(d, k, b) && Unheld(d, st, reserved, b, Pages(k)) && Inside(d, k, b, a, s);
    BlockFits(d, k, b);
    if k == 0 { assert Pages(k) == 1; }
  }

  /** In every state that such a run reaches, the next mmap takes a hint like that. */
  lemma RunsTakeHint(v: Version, d: nat, st: State, calls: seq<Call>, reserved: set<nat>, hint: nat, s: nat)
    requires d <= MAX_DEPTH && Invariant(d, st, reserved) && Exact(st.tree, d)
    requires LegalRun(v, d, st, calls) && NeverSpoils(v, d, st, calls)
    requires 0 < s && hint + s < U64 && HintUnheld(d, Run(v, d, st, calls), reserved, hint, s)
    ensures Mmap(Run(v, d, st, calls).tree, d, hint, s) == hint
  {
    hide Exact, LegalRun, NeverSpoils, Run, Mmap, Free, Sound, Shaped, HintFits, HintUnheld;
    RunsKeepInvariant(v, d, st, calls, reserved);
    RunsKeepExact(v, d, st, calls, reserved);
    HintUnheldIff(d, Run(v, d, st, calls), reserved, hint, s);
    MmapTakesHint(Run(v, d, st, calls).tree, d, hint, s);
  }

  /** With any other hint it fails exactly when no aligned block that could hold s bytes is free of held and reserved
      pages, and otherwise grants the lowest one. */
  lemma RunsFitLowest(v: Version, d: nat, st: State, calls: seq<Call>, reserved: set<nat>, hint: nat, s: nat)
    requires d <= MAX_DEPTH && Invariant(d, st, reserved) && Exact(st.tree, d)
    requires LegalRun(v, d, st, calls) && NeverSpoils(v, d, st, calls)
    requires 0 < s <= Span(d) && hint + s < U64 && !HintUnheld(d, Run(v, d, st, calls), reserved, hint, s)
    ensures var st' := Run(v, d, st, calls);
            var k := OrderFor(d, s);
            var r := Mmap(st'.tree, d, hint, s);
            && (r == ALLOC_NULL <==> forall b: nat :: Block(d, k, b) ==> !Unheld(d, st', reserved, b, Pages(k)))
            && (r != ALLOC_NULL ==>
                  exists b: nat ::
                    && r == PAGE * b && Block(d, k, b) && Unheld(d, st', reserved, b, Pages(k))
                    && forall c: nat :: c < b && Block(d, k, c) ==> !Unheld(d, st', reserved, c, Pages(k)))
  {
    hide HintFits, HintUnheld;
    HintUnheldIff(d, Run(v, d, st, calls), reserved, hint, s) by {
      RunsKeepInvariant(v, d, st, calls, reserved);
    }
    hide Exact, LegalRun, NeverSpoils, Run, Block, Mmap, IsRangeFree, Free, Sound, Shaped, OrderFor;
    RunsKeepInvariant(v, d, st, calls, reserved);
    RunsKeepExact(v, d, st, calls, reserved);
    var st' := Run(v, d, st, calls);
    var k := OrderFor(d, s);
    forall b: nat | Block(d, k, b)
      ensures AllFree(st'.tree, d, b, Pages(k)) <==> Unheld(d, st', reserved, b, Pages(k))
    {
      BlockFits(d, k, b);
    }
    MmapIsLowestFit(st'.tree, d, hint, s);
  }

  /** None of the n pages from b on is held or reserved. */
  ghost predicate Unheld(d: nat, st: State, reserved: set<nat>, b: nat, n: nat) {
    forall p :: b <= p < b + n ==> p !in st.held && p !in reserved
  }
}
