/** The quad-tree refines a set of used pages. */
module QuadTreeTheory {
  import opened Machine
  import opened Bits
  import opened QuadTree

  /** A page of a node is a page of one child. */
  lemma UsedBelow(t: Tree, level: int, k: nat, p: int)
    requires Shaped(t, level) && t.Node? && k < 4 && 0 <= p < Count(level - 1)
    ensures Used(t, level, Start(k, Count(level - 1)) + p) == Used(t.kids[k], level - 1, p)
    ensures 0 <= Start(k, Count(level - 1)) + p < Count(level)
  {}

  /** Every page of a node is in exactly one child. */
  lemma PartOf(level: int, p: nat) returns (k: nat, q: nat)
    requires level > 3 && p < Count(level)
    ensures k == Part(p, Count(level - 1)) < 4 && q < Count(level - 1) && p == Start(k, Count(level - 1)) + q
  {
    k := Part(p, Count(level - 1));
    q := p - Start(k, Count(level - 1));
  }

  lemma ClearBitOf(x: bv64, j: nat)
    requires j < 64
    ensures Bit(!x, j) == !Bit(x, j)
  {
    ComplementAt(x, Index(j));
  }

  ghost predicate AllUsed(t: Tree, level: int) {
    forall p :: 0 <= p < Count(level) ==> Used(t, level, p)
  }

  lemma LeafFull(x: bv64)
    ensures x == ONES <==> AllUsed(Leaf(x), 3)
  {
    WordTests(x);
    if x != ONES {
      ComplementZero(x);
      var j := SomeBit(!x);
      ClearBitOf(x, j);
      assert !Used(Leaf(x), 3, j);
    }
  }

  /** A truthful cache: `isfull` holds exactly when every page is used. */
  lemma {:induction false} FullMeansAllUsed(t: Tree, level: int)
    requires Shaped(t, level) && Honest(t)
    ensures IsFull(t) <==> AllUsed(t, level)
    decreases level
  {
    match t
    case Leaf(x) =>
      LeafFull(x);
    case Node(_, kids) =>
      forall k | 0 <= k < 4 ensures IsFull(kids[k]) <==> AllUsed(kids[k], level - 1) {
        FullMeansAllUsed(kids[k], level - 1);
      }
      if IsFull(t) {
        forall p | 0 <= p < Count(level) ensures Used(t, level, p) {
          var k, q := PartOf(level, p);
          UsedBelow(t, level, k, q);
        }
      } else {
        var k :| 0 <= k < 4 && !IsFull(kids[k]);
        var q :| 0 <= q < Count(level - 1) && !Used(kids[k], level - 1, q);
        UsedBelow(t, level, k, q);
      }
  }

  lemma {:induction false} FreshIsEmpty(level: int)
    requires level >= 3
    ensures Shaped(Fresh(level), level) && Honest(Fresh(level)) && !IsFull(Fresh(level))
    ensures forall p :: 0 <= p < Count(level) ==> !Used(Fresh(level), level, p)
  {
    if level == 3 {
      WordTests(0);
    } else {
      FreshIsEmpty(level - 1);
      forall p | 0 <= p < Count(level) ensures !Used(Fresh(level), level, p) {
        var k, q := PartOf(level, p);
        UsedBelow(Fresh(level), level, k, q);
      }
    }
  }

  // ---------- get_page ----------

  /** The page is the lowest free one of the tree. */
  ghost predicate LowestFree(t: Tree, level: int, p: int) {
    && 0 <= p < Count(level)
    && !Used(t, level, p)
    && forall q :: 0 <= q < p ==> Used(t, level, q)
  }

  lemma LowestBit(x: bv64)
    requires x != ONES
    ensures FirstClear(x, 0) < 64 && LowestFree(Leaf(x), 3, FirstClear(x, 0))
  {
    hide Bit;
    WordTests(x);
    forall q | 0 <= q < FirstClear(x, 0) ensures Used(Leaf(x), 3, q) {
      assert Bit(x, q);
    }
  }

  lemma LowestFreeLifts(t: Tree, level: int, k: nat, p: int)
    requires Shaped(t, level) && t.Node? && Honest(t) && k < 4
    requires LowestFree(t.kids[k], level - 1, p)
    requires forall i :: 0 <= i < k ==> IsFull(t.kids[i])
    ensures LowestFree(t, level, Start(k, Count(level - 1)) + p)
  {
    hide Used;
    UsedBelow(t, level, k, p);
    forall q | 0 <= q < Start(k, Count(level - 1)) + p ensures Used(t, level, q) {
      var i, r := PartOf(level, q);
      UsedBelow(t, level, i, r);
      if i < k { FullMeansAllUsed(t.kids[i], level - 1); }
    }
  }

  lemma CountFits(level: int)
    requires level <= 10
    ensures Count(level) <= 0x10_0000
  {
    assert Count(6) == 4096;
    assert Count(8) == 0x1_0000;
    if level > 8 {
      assert level == 9 || level == 10;
    } else {
      CountMonotone(level, 8);
    }
  }

  lemma {:induction false} CountMonotone(a: int, b: int)
    requires a <= b
    ensures Count(a) <= Count(b)
    decreases b
  {
    if a < b && b > 3 { CountMonotone(a, b - 1); }
  }

  lemma GetPageNode(t: Tree, level: int, k: nat, p: nat)
    requires Shaped(t, level) && t.Node? && t.freeCache && level <= 10
    requires k == FirstGiving(t.kids, level, 0) < 4
    requires p < Count(level - 1) && GetPage(t.kids[k], level - 1) == PAGE * p
    ensures GetPage(t, level) == PAGE * (Start(k, Count(level - 1)) + p)
  {}

  /** get_page fails exactly on a full tree and otherwise returns the address of the lowest free page. */
  lemma {:induction false} GetPageIsLowest(t: Tree, level: int) returns (p: nat)
    requires Shaped(t, level) && Honest(t) && level <= 10
    ensures IsFull(t) ==> GetPage(t, level) == PH_NULL && AfterGetPage(t, level) == t
    ensures !IsFull(t) ==> GetPage(t, level) == PAGE * p < PH_NULL && LowestFree(t, level, p)
    decreases level
  {
    p := 0;
    CountFits(level);
    match t
    case Leaf(x) =>
      if x != ONES {
        LowestBit(x);
        p := FirstClear(x, 0);
      }
    case Node(free, kids) =>
      if free {
        p := GetPageFromKids(t, level);
      }
  }

  lemma {:induction false} GetPageFromKids(t: Tree, level: int) returns (p: nat)
    requires Shaped(t, level) && Honest(t) && level <= 10 && t.Node? && t.freeCache
    ensures GetPage(t, level) == PAGE * p && LowestFree(t, level, p)
    decreases level, 0
  {
    hide GetPage, LowestFree, Used, Count;
    var kids := t.kids;
    forall k | 0 <= k < 4 ensures IsFull(kids[k]) <==> GetPage(kids[k], level - 1) == PH_NULL {
      var _ := GetPageIsLowest(kids[k], level - 1);
    }
    var k := FirstGiving(kids, level, 0);
    FirstGivingIsFirst(kids, level, 0);
    var q := GetPageIsLowest(kids[k], level - 1);
    LowestFreeInRange(kids[k], level - 1, q);
    GetPageNode(t, level, k, q);
    LowestFreeLifts(t, level, k, q);
    p := Start(k, Count(level - 1)) + q;
  }

  lemma LowestFreeInRange(t: Tree, level: int, p: int)
    requires LowestFree(t, level, p)
    ensures 0 <= p < Count(level)
  {}

  lemma {:induction false} FirstGivingIsFirst(kids: seq<Tree>, level: int, i: nat)
    requires |kids| == 4 && i <= 4
    ensures var r := FirstGiving(kids, level, i);
            && (r < 4 ==> GetPage(kids[r], level - 1) != PH_NULL)
            && forall k :: i <= k < r ==> GetPage(kids[k], level - 1) == PH_NULL
    decreases 4 - i
  {
    if i < 4 { FirstGivingIsFirst(kids, level, i + 1); }
  }

  /** Replacing one child: its pages change, the other pages do not. */
  lemma UsedAfterReplace(t: Tree, level: int, free: bool, k: nat, kid: Tree, p: nat) returns (i: nat, q: nat)
    requires Shaped(t, level) && t.Node? && k < 4 && Shaped(kid, level - 1) && p < Count(level)
    ensures i < 4 && q < Count(level - 1) && p == Start(i, Count(level - 1)) + q
    ensures Used(t, level, p) == Used(t.kids[i], level - 1, q)
    ensures Used(Node(free, t.kids[k := kid]), level, p) == Used(if i == k then kid else t.kids[i], level - 1, q)
    ensures Shaped(Node(free, t.kids[k := kid]), level)
  {
    hide Used;
    i, q := PartOf(level, p);
    UsedBelow(t, level, i, q);
    UsedBelow(Node(free, t.kids[k := kid]), level, i, q);
  }

  lemma StartsApart(level: int, i: nat, q: nat, k: nat, r: nat)
    requires i < 4 && k < 4 && q < Count(level) && r < Count(level)
    ensures Start(i, Count(level)) + q == Start(k, Count(level)) + r <==> i == k && q == r
  {}

  lemma {:induction false} AfterGetPageShape(t: Tree, level: int)
    requires Shaped(t, level) && Honest(t) && level <= 10
    ensures Shaped(AfterGetPage(t, level), level) && Honest(AfterGetPage(t, level))
    decreases level
  {
    match t
    case Leaf(x) =>
    case Node(free, kids) =>
      var k := FirstGiving(kids, level, 0);
      if k < 4 { AfterGetPageShape(kids[k], level - 1); }
  }

  /** get_page marks the page it returns and no other. */
  lemma {:induction false} GetPageMarksOnlyIt(t: Tree, level: int, p: nat)
    requires Shaped(t, level) && Honest(t) && !IsFull(t) && level <= 10 && p < Count(level)
    ensures Used(AfterGetPage(t, level), level, p) <==> Used(t, level, p) || PAGE * p == GetPage(t, level)
    decreases level
  {
    hide Used, Count;
    match t
    case Leaf(x) =>
      LeafGetPage(x, p);
    case Node(free, kids) =>
      var k, r := GetPageChild(t, level);
      AfterGetPageShape(kids[k], level - 1);
      AfterGetPageNode(t, level);
      var i, q := UsedAfterReplace(t, level, AfterGetPage(t, level).freeCache, k, AfterGetPage(kids[k], level - 1), p);
      StartsApart(level - 1, i, q, k, r);
      if i == k { GetPageMarksOnlyIt(kids[k], level - 1, q); }
  }

  lemma LeafGetPage(x: bv64, p: nat)
    requires x != ONES && p < Count(3)
    ensures Used(AfterGetPage(Leaf(x), 3), 3, p) <==> Used(Leaf(x), 3, p) || PAGE * p == GetPage(Leaf(x), 3)
  {
    LowestBit(x);
    WithBitBits(x, FirstClear(x, 0), p);
  }

  lemma AfterGetPageNode(t: Tree, level: int)
    requires t.Node? && |t.kids| == 4 && t.freeCache && FirstGiving(t.kids, level, 0) < 4
    ensures var k := FirstGiving(t.kids, level, 0);
            AfterGetPage(t, level) == Refreshed(t.kids[k := AfterGetPage(t.kids[k], level - 1)])
  {}

  /** The child that gives the page, and the page in it. */
  lemma GetPageChild(t: Tree, level: int) returns (k: nat, r: nat)
    requires Shaped(t, level) && Honest(t) && level <= 10 && t.Node? && t.freeCache
    ensures k == FirstGiving(t.kids, level, 0) < 4 && r < Count(level - 1) && !IsFull(t.kids[k])
    ensures GetPage(t.kids[k], level - 1) == PAGE * r
    ensures GetPage(t, level) == PAGE * (Start(k, Count(level - 1)) + r)
  {
    hide GetPage, LowestFree, Used, Count;
    forall k | 0 <= k < 4 ensures IsFull(t.kids[k]) <==> GetPage(t.kids[k], level - 1) == PH_NULL {
      var _ := GetPageIsLowest(t.kids[k], level - 1);
    }
    k := FirstGiving(t.kids, level, 0);
    FirstGivingIsFirst(t.kids, level, 0);
    r := GetPageIsLowest(t.kids[k], level - 1);
    LowestFreeInRange(t.kids[k], level - 1, r);
    GetPageNode(t, level, k, r);
  }

  // ---------- release_page ----------

  lemma {:induction false} ReleaseShape(t: Tree, level: int, addr: nat)
    requires Shaped(t, level) && Honest(t)
    ensures Shaped(ReleasePage(t, level, addr), level) && Honest(ReleasePage(t, level, addr))
    ensures IsFull(ReleasePage(t, level, addr)) ==> IsFull(t)
    decreases level
  {
    hide ReleasePage, Part, Start;
    match t
    case Leaf(x) =>
      LeafReleaseShape(x, addr);
    case Node(free, kids) =>
      var c := PAGE * Count(level - 1);
      ReleaseNode(t, level, addr);
      if addr < 4 * c {
        ReleaseShape(kids[Part(addr, c)], level - 1, addr - Start(Part(addr, c), c));
      }
  }

  lemma LeafReleaseShape(x: bv64, addr: nat)
    ensures ReleasePage(Leaf(x), 3, addr).Leaf?
    ensures IsFull(ReleasePage(Leaf(x), 3, addr)) ==> IsFull(Leaf(x))
  {
    if addr / PAGE < 64 {
      WithoutBitBits(x, addr / PAGE, addr / PAGE);
      WordTests(WithoutBit(x, addr / PAGE));
    }
  }

  lemma ReleaseNode(t: Tree, level: int, addr: nat)
    requires Shaped(t, level) && t.Node?
    ensures var c := PAGE * Count(level - 1);
            var k := Part(addr, c);
            if addr < 4 * c then
              && 0 <= k < 4 && addr >= Start(k, c)
              && var kid := ReleasePage(t.kids[k], level - 1, addr - Start(k, c));
                 ReleasePage(t, level, addr) == Node(t.freeCache || !IsFull(kid), t.kids[k := kid])
            else ReleasePage(t, level, addr) == t && addr / PAGE >= Count(level)
  {}

  lemma HonestBelow(t: Tree)
    requires t.Node? && Honest(t)
    ensures |t.kids| == 4 && t.freeCache == SomeFree(t.kids)
    ensures forall k :: 0 <= k < 4 ==> Honest(t.kids[k])
  {}

  lemma PartScales(level: int, addr: nat)
    requires addr < 4 * (PAGE * Count(level))
    ensures var c := PAGE * Count(level);
            var k := Part(addr, c);
            && k == Part(addr / PAGE, Count(level)) < 4
            && 0 <= addr - Start(k, c) < c
            && (addr - Start(k, c)) / PAGE == addr / PAGE - Start(k, Count(level))
  {}

  /** release_page frees the page at its address and no other. */
  lemma {:induction false} ReleaseFreesOnlyIt(t: Tree, level: int, addr: nat, p: nat)
    requires Shaped(t, level) && Honest(t) && p < Count(level)
    ensures Used(ReleasePage(t, level, addr), level, p) <==> Used(t, level, p) && p != addr / PAGE
    decreases level
  {
    hide Used, ReleasePage, Part, Start, Honest;
    match t
    case Leaf(x) =>
      LeafRelease(x, addr, p);
    case Node(free, kids) =>
      var c := PAGE * Count(level - 1);
      ReleaseNode(t, level, addr);
      HonestBelow(t);
      if addr < 4 * c {
        PartScales(level - 1, addr);
        var k := Part(addr, c);
        var a := addr - Start(k, c);
        var kid := ReleasePage(kids[k], level - 1, a);
        ReleaseShape(kids[k], level - 1, a);
        var i, q := UsedAfterReplace(t, level, free || !IsFull(kid), k, kid, p);
        StartsApart(level - 1, i, q, k, a / PAGE);
        if i == k { ReleaseFreesOnlyIt(kids[k], level - 1, a, q); }
      }
  }

  lemma LeafRelease(x: bv64, addr: nat, p: nat)
    requires p < Count(3)
    ensures Used(ReleasePage(Leaf(x), 3, addr), 3, p) <==> Used(Leaf(x), 3, p) && p != addr / PAGE
  {
    if addr / PAGE < 64 { WithoutBitBits(x, addr / PAGE, p); }
  }

  /** release_page undoes get_page: the same pages are used as before. */
  lemma ReleaseUndoesGet(t: Tree, level: int, p: nat)
    requires Shaped(t, level) && Honest(t) && !IsFull(t) && level <= 10 && p < Count(level)
    ensures Used(ReleasePage(AfterGetPage(t, level), level, GetPage(t, level)), level, p) <==> Used(t, level, p)
  {
    hide Used, GetPage, AfterGetPage, ReleasePage, Count;
    var g := GetPageIsLowest(t, level);
    AfterGetPageShape(t, level);
    GetPageMarksOnlyIt(t, level, p);
    ReleaseFreesOnlyIt(AfterGetPage(t, level), level, GetPage(t, level), p);
    LowestFreeInRange(t, level, g);
    LowestIsFree(t, level, g);
    assert (PAGE * g) / PAGE == g;
  }

  lemma LowestIsFree(t: Tree, level: int, p: int)
    requires LowestFree(t, level, p)
    ensures !Used(t, level, p)
  {}

  // ---------- mark_used ----------

  lemma {:induction false} SetBitsBits(x: bv64, i: nat, k: nat, q: nat)
    requires k < 64 && q < 64
    ensures Bit(SetBits(x, i, k), q) == (Bit(x, q) || i <= q <= k)
    decreases 64 - i
  {
    hide Bit, WithBit;
    if i <= k {
      WithBitBits(x, i, q);
      SetBitsBits(WithBit(x, i), i + 1, k, q);
    }
  }

  lemma LeafMark(x: bv64, beg: nat, end: nat, p: nat)
    requires beg <= end && p < Count(3)
    ensures Used(MarkUsed(Leaf(x), 3, beg, end), 3, p) <==> Used(Leaf(x), 3, p) || beg / PAGE <= p <= end / PAGE
  {
    hide Bit;
    if beg / PAGE < 64 {
      SetBitsBits(x, beg / PAGE, if end / PAGE >= 64 then 63 else end / PAGE, p);
    }
  }

  lemma {:induction false} MarkUsedShape(t: Tree, level: int, beg: nat, end: nat)
    requires Shaped(t, level) && Honest(t) && beg <= end
    ensures Shaped(MarkUsed(t, level, beg, end), level) && Honest(MarkUsed(t, level, beg, end))
    decreases level, 1
  {
    hide MarkChild;
    match t
    case Leaf(_) =>
    case Node(_, kids) =>
      MarkChildShape(kids, level, beg, end, 0);
      MarkChildShape(kids, level, beg, end, 1);
      MarkChildShape(kids, level, beg, end, 2);
      MarkChildShape(kids, level, beg, end, 3);
  }

  lemma {:induction false} MarkChildShape(kids: seq<Tree>, level: int, beg: nat, end: nat, k: nat)
    requires level > 3 && k < |kids| == 4 && beg <= end && Shaped(kids[k], level - 1) && Honest(kids[k])
    ensures Shaped(MarkChild(kids, level, beg, end, k), level - 1) && Honest(MarkChild(kids, level, beg, end, k))
    decreases level, 0
  {
    var c := PAGE * Count(level - 1);
    var kb := Part(beg, c);
    var ke := Part(end, c);
    if kb <= k <= ke {
      var b := if k == kb then beg - Start(k, c) else 0;
      var e := if k == ke then end - Start(k, c) else c - 1;
      MarkUsedShape(kids[k], level - 1, b, e);
    }
  }

  /** The part of the range child k sees covers exactly the pages of the range in that child. */
  lemma RangeInChild(level: int, beg: nat, end: nat, k: nat, q: nat)
    requires k < 4 && beg <= end && beg < 4 * (PAGE * Count(level)) && q < Count(level)
    ensures var c := PAGE * Count(level);
            var p := Start(k, Count(level)) + q;
            beg / PAGE <= p <= end / PAGE <==>
            && Part(beg, c) <= k <= Part(end, c)
            && (if k == Part(beg, c) then (beg - Start(k, c)) / PAGE <= q else true)
            && (if k == Part(end, c) then q <= (end - Start(k, c)) / PAGE else true)
  {}

  /** mark_used adds exactly the pages that touch the inclusive byte range. */
  lemma {:induction false} MarkUsedAddsRange(t: Tree, level: int, beg: nat, end: nat, p: nat)
    requires Shaped(t, level) && Honest(t) && beg <= end && p < Count(level)
    ensures Used(MarkUsed(t, level, beg, end), level, p) <==> Used(t, level, p) || beg / PAGE <= p <= end / PAGE
    decreases level, 1
  {
    hide Used, MarkUsed, MarkChild, Honest;
    match t
    case Leaf(x) =>
      LeafMark(x, beg, end, p);
    case Node(_, kids) =>
      MarkUsedShape(t, level, beg, end);
      HonestBelow(t);
      MarkNode(t, level, beg, end);
      if beg < 4 * (PAGE * Count(level - 1)) {
        var k, q := PartOf(level, p);
        UsedBelow(t, level, k, q);
        UsedBelow(MarkUsed(t, level, beg, end), level, k, q);
        MarkChildAddsRange(kids, level, beg, end, k, q);
      }
  }

  lemma MarkNode(t: Tree, level: int, beg: nat, end: nat)
    requires t.Node? && |t.kids| == 4 && beg <= end && level > 3
    ensures if beg >= 4 * (PAGE * Count(level - 1)) then
              MarkUsed(t, level, beg, end) == t && beg / PAGE >= Count(level)
            else
              && MarkUsed(t, level, beg, end).Node? && |MarkUsed(t, level, beg, end).kids| == 4
              && forall k :: 0 <= k < 4 ==>
                   MarkUsed(t, level, beg, end).kids[k] == MarkChild(t.kids, level, beg, end, k)
  {
    hide MarkChild;
  }

  lemma {:induction false} MarkChildAddsRange(kids: seq<Tree>, level: int, beg: nat, end: nat, k: nat, q: nat)
    requires level > 3 && k < |kids| == 4 && beg <= end && Shaped(kids[k], level - 1) && Honest(kids[k])
    requires beg < 4 * (PAGE * Count(level - 1)) && q < Count(level - 1)
    ensures var p := Start(k, Count(level - 1)) + q;
            Used(MarkChild(kids, level, beg, end, k), level - 1, q) <==>
            Used(kids[k], level - 1, q) || beg / PAGE <= p <= end / PAGE
    decreases level, 0
  {
    hide Used, MarkUsed;
    var c := PAGE * Count(level - 1);
    var kb := Part(beg, c);
    var ke := Part(end, c);
    RangeInChild(level - 1, beg, end, k, q);
    if kb <= k <= ke {
      var b := if k == kb then beg - Start(k, c) else 0;
      var e := if k == ke then end - Start(k, c) else c - 1;
      MarkUsedAddsRange(kids[k], level - 1, b, e, q);
    }
  }
}
