/** Which hints is_range_free accepts. */
module BuddyHints {
  import opened Machine
  import opened Buddy
  import opened BuddyTheory

  /** The s bytes from a on lie in the 2^k pages from page b on and end before them; in a single page they may also
      end with it, if it is the first of two. */
  ghost predicate Inside(d: nat, k: nat, b: nat, a: nat, s: nat) {
    && PAGE * b <= a
    && (a + s < PAGE * (b + Pages(k)) || (k == 0 && a + s == PAGE * (b + 1) && (d == 0 || b % 2 == 0)))
  }

  /** Some aligned block that is wholly free holds the bytes like that. */
  ghost predicate HintFits(t: Tree, d: nat, a: nat, s: nat) {
    exists k: nat, b: nat :: Block(d, k, b) && AllFree(t, d, b, Pages(k)) && Inside(d, k, b, a, s)
  }

  /** Exactly these ranges are accepted, unless the end wraps around. */
  lemma RangeFreeIff(t: Tree, d: nat, a: nat, s: nat)
    requires Shaped(t, d) && Exact(t, d) && 0 < s && a + s < U64
    ensures IsRangeFree(t, d, a, s) <==> HintFits(t, d, a, s)
  {
    hide Block, AllFree, Inside, Shaped, Exact, IsRangeFree;
    if IsRangeFree(t, d, a, s) {
      var k, b := AcceptedFits(t, d, a, s);
    }
    if k: nat, b: nat :| Block(d, k, b) && AllFree(t, d, b, Pages(k)) && Inside(d, k, b, a, s) {
      FitsAccepted(t, d, a, s, k, b);
    }
  }

  lemma EvenPages(d: nat)
    ensures d > 0 ==> Pages(d) % 2 == 0 && Pages(d) == 2 * Pages(d - 1)
  {}

  /** is_range_free below the root. */
  lemma FreeStep(t: Tree, d: nat, a: nat, s: nat)
    requires Shaped(t, d) && d > 0 && 0 < s && a + s < U64
    ensures IsRangeFree(t, d, a, s) ==> t.maxdepth != -1 && a + s < Span(d)
    ensures t.maxdepth == d ==> (IsRangeFree(t, d, a, s) <==> a + s < Span(d))
    ensures t.maxdepth != -1 && t.maxdepth != d && a + s < Span(d) ==>
              var m := Span(d - 1);
              && (a >= m ==> IsRangeFree(t, d, a, s) == IsRangeFree(t.right, d - 1, a - m, s))
              && (a + s <= m ==> IsRangeFree(t, d, a, s) == IsRangeFree(t.left, d - 1, a, s))
  {}

  /** A range across the middle of a block that is not wholly free is refused. */
  lemma AcrossRefused(t: Tree, d: nat, a: nat, s: nat)
    requires Shaped(t, d) && Exact(t, d) && d > 0 && 0 < s && a + s < U64 && t.maxdepth != d
    requires a < Span(d - 1) < a + s
    ensures !IsRangeFree(t, d, a, s)
  {}

  lemma InsideRight(d: nat, k: nat, b: nat, a: nat, s: nat)
    requires d > 0 && Block(d - 1, k, b) && a >= Span(d - 1) && a + s < Span(d)
    ensures Inside(d - 1, k, b, a - Span(d - 1), s) <==> Inside(d, k, b + Pages(d - 1), a, s)
  {
    EvenPages(d);
    EvenPages(d - 1);
    BlockOrder(d - 1, k, b);
    ShiftedInside(d - 1, k, b, a, s, Pages(d - 1), Pages(k));
  }

  /** The same, h even or 1 pages further on. */
  lemma ShiftedInside(c: nat, k: nat, b: nat, a: nat, s: nat, h: nat, n: nat)
    requires a >= PAGE * h && a + s < PAGE * (2 * h) && (if c == 0 then h == 1 && b == 0 else h % 2 == 0)
    ensures PAGE * b <= a - PAGE * h <==> PAGE * (b + h) <= a
    ensures a - PAGE * h + s < PAGE * (b + n) <==> a + s < PAGE * (b + h + n)
    ensures (k == 0 && a - PAGE * h + s == PAGE * (b + 1) && (c == 0 || b % 2 == 0)) <==>
            (k == 0 && a + s == PAGE * (b + h + 1) && (b + h) % 2 == 0)
  {
    if c > 0 { EvenSum(b, h); }
  }

  lemma EvenSum(b: nat, h: nat)
    requires h % 2 == 0
    ensures (b + h) % 2 == 0 <==> b % 2 == 0
  {}

  lemma InsideLeft(d: nat, k: nat, b: nat, a: nat, s: nat)
    requires d > 0 && Block(d - 1, k, b)
    ensures Inside(d - 1, k, b, a, s) <==> Inside(d, k, b, a, s)
  {}

  /** Bytes inside a block end before the memory, unless it is a single page. */
  lemma InsideEnds(d: nat, k: nat, b: nat, a: nat, s: nat)
    requires Block(d, k, b) && Inside(d, k, b, a, s)
    ensures d > 0 ==> a + s < Span(d)
    ensures d > 0 && Block(d - 1, k, b) && b < Pages(d - 1) ==> a + s <= Span(d - 1)
  {
    BlockFits(d, k, b);
    EvenPages(d);
    if d > 0 && Block(d - 1, k, b) { BlockFits(d - 1, k, b); }
  }

  lemma {:induction false} AcceptedFits(t: Tree, d: nat, a: nat, s: nat) returns (k: nat, b: nat)
    requires Shaped(t, d) && Exact(t, d) && 0 < s && a + s < U64 && IsRangeFree(t, d, a, s)
    ensures Block(d, k, b) && AllFree(t, d, b, Pages(k)) && Inside(d, k, b, a, s)
    decreases d
  {
    hide IsRangeFree, Block, Inside, AllFree;
    if d == 0 {
      k, b := 0, 0;
      PageFits(t, a, s);
    } else {
      FreeStep(t, d, a, s);
      if t.maxdepth == d {
        k, b := d, 0;
        WholeFits(t, d, a, s);
      } else if a >= Span(d - 1) {
        k, b := AcceptedFits(t.right, d - 1, a - Span(d - 1), s);
        RightBlockFree(t, d, k, b);
        InsideRight(d, k, b, a, s);
        b := b + Pages(d - 1);
      } else {
        if a + s > Span(d - 1) { AcrossRefused(t, d, a, s); }
        k, b := AcceptedFits(t.left, d - 1, a, s);
        LeftBlockFree(t, d, k, b);
        InsideLeft(d, k, b, a, s);
      }
    }
  }

  lemma PageFits(t: Tree, a: nat, s: nat)
    requires Shaped(t, 0) && 0 < s && a + s < U64
    ensures Block(0, 0, 0)
    ensures IsRangeFree(t, 0, a, s) <==> AllFree(t, 0, 0, Pages(0)) && Inside(0, 0, 0, a, s)
  {
    if AllFree(t, 0, 0, Pages(0)) { NoneFree(t, 0, 0); }
  }

  lemma WholeFits(t: Tree, d: nat, a: nat, s: nat)
    requires Shaped(t, d) && t.maxdepth == d > 0 && a + s < Span(d)
    ensures Block(d, d, 0) && AllFree(t, d, 0, Pages(d)) && Inside(d, d, 0, a, s)
  {}

  lemma NoneFree(t: Tree, d: nat, p: nat)
    ensures Free(t, d, p) ==> t.maxdepth != -1
  {}

  lemma LeftBlockFree(t: Tree, d: nat, k: nat, b: nat)
    requires t.Node? && d > 0 && t.maxdepth != -1 && t.maxdepth != d && Block(d - 1, k, b)
    ensures b < Pages(d - 1) && Block(d, k, b)
    ensures AllFree(t, d, b, Pages(k)) <==> AllFree(t.left, d - 1, b, Pages(k))
  {
    BlockFits(d - 1, k, b);
    BlockOrder(d - 1, k, b);
    hide Free;
    var l, c := t.left, d - 1;
    if AllFree(t, d, b, Pages(k)) {
      forall p: int | b <= p < b + Pages(k) ensures Free(l, c, p) { FreeBelow(t, d, p); }
    }
    if AllFree(t.left, d - 1, b, Pages(k)) {
      forall p: int | b <= p < b + Pages(k) ensures Free(t, d, p) { FreeBelow(t, d, p); }
    }
  }

  lemma FreeBelow(t: Tree, d: nat, p: int)
    requires t.Node? && d > 0 && t.maxdepth != -1 && t.maxdepth != d
    ensures Free(t, d, p) <==>
            if p < Pages(d - 1) then Free(t.left, d - 1, p) else Free(t.right, d - 1, p - Pages(d - 1))
  {}

  lemma RightBlockFree(t: Tree, d: nat, k: nat, b: nat)
    requires t.Node? && d > 0 && t.maxdepth != -1 && t.maxdepth != d && Block(d - 1, k, b)
    ensures Block(d, k, b + Pages(d - 1))
    ensures AllFree(t, d, b + Pages(d - 1), Pages(k)) <==> AllFree(t.right, d - 1, b, Pages(k))
  {
    BlockFits(d - 1, k, b);
    BlockOrder(d - 1, k, b);
    hide Free;
    var h, r, c := Pages(d - 1), t.right, d - 1;
    if AllFree(t, d, b + h, Pages(k)) {
      forall p: int | b <= p < b + Pages(k) ensures Free(r, c, p) { FreeBelow(t, d, p + h); }
    }
    if AllFree(t.right, d - 1, b, Pages(k)) {
      forall p: int | b + h <= p < b + h + Pages(k) ensures Free(t, d, p) { FreeBelow(t, d, p); }
    }
  }

  lemma BlockOrder(d: nat, k: nat, b: nat)
    requires Block(d, k, b)
    ensures k <= d && (k == d ==> b == 0)
  {}

  lemma {:induction false} FitsAccepted(t: Tree, d: nat, a: nat, s: nat, k: nat, b: nat)
    requires Shaped(t, d) && Exact(t, d) && 0 < s && a + s < U64
    requires Block(d, k, b) && AllFree(t, d, b, Pages(k)) && Inside(d, k, b, a, s)
    ensures IsRangeFree(t, d, a, s)
    decreases d
  {
    hide IsRangeFree, Inside;
    InsideEnds(d, k, b, a, s);
    assert Free(t, d, b);
    NoneFree(t, d, b);
    if d == 0 {
      PageFits(t, a, s);
    } else {
      FreeStep(t, d, a, s);
      if t.maxdepth != d {
        if k == d { var p := UsedPage(t, d); }
        BlockOrder(d, k, b);
        InsideStarts(d, k, b, a, s);
        if b < Pages(d - 1) {
          LeftBlockFree(t, d, k, b);
          InsideLeft(d, k, b, a, s);
          FitsAccepted(t.left, d - 1, a, s, k, b);
        } else {
          RightBlockFree(t, d, k, b - Pages(d - 1));
          InsideRight(d, k, b - Pages(d - 1), a, s);
          FitsAccepted(t.right, d - 1, a - Span(d - 1), s, k, b - Pages(d - 1));
        }
      }
    }
  }

  lemma InsideStarts(d: nat, k: nat, b: nat, a: nat, s: nat)
    requires d > 0 && Inside(d, k, b, a, s)
    ensures b >= Pages(d - 1) ==> a >= Span(d - 1)
  {}

  // ---------- hints that wrap around ----------

  /** The last block of some order is wholly free and starts at byte e or before. */
  ghost predicate LastBlockFits(t: Tree, d: nat, e: nat) {
    exists k: nat :: k <= d && LastFree(t, d, k) && PAGE * (Pages(d) - Pages(k)) <= e
  }

  ghost predicate LastFree(t: Tree, d: nat, k: nat)
    requires k <= d
  {
    AllFree(t, d, Pages(d) - Pages(k), Pages(k))
  }

  lemma {:induction false} LastBlock(d: nat, k: nat)
    requires k <= d
    ensures Pages(k) <= Pages(d) && Block(d, k, Pages(d) - Pages(k))
  {
    if k < d { LastBlock(d - 1, k); }
  }

  /** A range whose end wraps around to byte e is accepted exactly if it starts beyond the memory, e lies in it, and a
      block at its end is wholly free and holds e. */
  lemma {:induction false} WrappedFreeIff(t: Tree, d: nat, a: nat, s: nat)
    requires Shaped(t, d) && Exact(t, d) && Span(d) <= a < U64 && 0 < s < U64 <= a + s
    ensures var e := a + s - U64;
            IsRangeFree(t, d, a, s) <==> (e < Span(d) || (d == 0 && e == PAGE)) && LastBlockFits(t, d, e)
    decreases d
  {
    hide IsRangeFree, LastBlockFits, Pages;
    var e := a + s - U64;
    if d == 0 || t.maxdepth == -1 || t.maxdepth == d {
      WrappedWhole(t, d, e);
      WrappedBase(t, d, a, s);
    } else {
      WrappedStep(t, d, a, s);
      LastStep(t, d, e);
      if a - Span(d - 1) + s >= U64 {
        WrappedFreeIff(t.right, d - 1, a - Span(d - 1), s);
      } else {
        BeyondRefused(t.right, d - 1, a - Span(d - 1), s);
      }
    }
  }

  lemma WrappedBase(t: Tree, d: nat, a: nat, s: nat)
    requires Shaped(t, d) && Span(d) <= a < U64 && 0 < s < U64 <= a + s
    requires d == 0 || t.maxdepth == -1 || t.maxdepth == d
    ensures var e := a + s - U64;
            IsRangeFree(t, d, a, s) <==> (e < Span(d) || (d == 0 && e == PAGE)) && t.maxdepth == d
  {}

  lemma WrappedStep(t: Tree, d: nat, a: nat, s: nat)
    requires Shaped(t, d) && d > 0 && Span(d) <= a < U64 && 0 < s < U64 <= a + s
    requires t.maxdepth != -1 && t.maxdepth != d
    ensures Span(d) == 2 * Span(d - 1)
    ensures IsRangeFree(t, d, a, s) <==> a + s - U64 < Span(d) && IsRangeFree(t.right, d - 1, a - Span(d - 1), s)
  {}

  lemma BeyondRefused(t: Tree, d: nat, a: nat, s: nat)
    requires Shaped(t, d) && Span(d) <= a && 0 < s && a + s < U64
    ensures !IsRangeFree(t, d, a, s)
  {}

  lemma LastStep(t: Tree, d: nat, e: nat)
    requires Shaped(t, d) && Exact(t, d) && d > 0 && t.maxdepth != -1 && t.maxdepth != d
    ensures LastBlockFits(t, d, e) <==> e >= Span(d - 1) && LastBlockFits(t.right, d - 1, e - Span(d - 1))
  {
    hide LastFree, Exact;
    var m, h := Span(d - 1), Pages(d - 1);
    if k: nat :| k <= d && LastFree(t, d, k) && PAGE * (Pages(d) - Pages(k)) <= e {
      if k == d { NotWholly(t, d); }
      LastBelow(t, d, k);
      assert LastFree(t.right, d - 1, k) && PAGE * (h - Pages(k)) <= e - m;
    }
    if e >= m {
      if k: nat :| k <= d - 1 && LastFree(t.right, d - 1, k) && PAGE * (h - Pages(k)) <= e - m {
        LastBelow(t, d, k);
        assert LastFree(t, d, k);
      }
    }
  }

  lemma NotWholly(t: Tree, d: nat)
    requires Shaped(t, d) && Exact(t, d) && t.maxdepth < d
    ensures !LastFree(t, d, d)
  {
    var p := UsedPage(t, d);
  }

  lemma LastBelow(t: Tree, d: nat, k: nat)
    requires Shaped(t, d) && t.maxdepth != -1 && t.maxdepth != d && k < d
    ensures LastFree(t, d, k) <==> LastFree(t.right, d - 1, k)
    ensures Pages(k) <= Pages(d - 1) && Pages(d) == 2 * Pages(d - 1)
  {
    LastBlock(d - 1, k);
    RightBlockFree(t, d, k, Pages(d - 1) - Pages(k));
  }

  lemma WrappedWhole(t: Tree, d: nat, e: nat)
    requires Shaped(t, d) && (d == 0 || t.maxdepth == -1 || t.maxdepth == d)
    ensures LastBlockFits(t, d, e) <==> t.maxdepth == d
  {
    if t.maxdepth == d {
      assert LastFree(t, d, d);
    } else if k: nat :| k <= d && LastFree(t, d, k) && PAGE * (Pages(d) - Pages(k)) <= e {
      LastBlock(d, k);
      NoneFree(t, d, Pages(d) - Pages(k));
    }
  }
}
