/** The physical page allocator as the kernel runs it, updated in place. */
module PhysicalMemory {
  import opened Machine
  import opened Bits
  import opened QuadTree
  import opened QuadTreeTheory

  class PhTreeAllocator {
    const level: nat
    var freeCache: bool
    var x: bv64
    const children: seq<PhTreeAllocator>
    ghost const Repr: set<PhTreeAllocator>

    /** The shape never changes, so this reads no mutable state. */
    ghost predicate Built()
      decreases level
    {
      && this in Repr && level >= 3
      && if level == 3 then children == [] && Repr == {this}
         else
           && |children| == 4
           && (forall i :: 0 <= i < 4 ==>
                 && children[i].level == level - 1
                 && this !in children[i].Repr
                 && children[i].Repr <= Repr
                 && children[i].Built())
           && (forall i, j :: 0 <= i < j < 4 ==> children[i].Repr !! children[j].Repr)
    }

    ghost function Model(): Tree
      requires Built()
      reads Repr
      decreases level
    {
      if level == 3 then Leaf(x)
      else Node(freeCache, [children[0].Model(), children[1].Model(), children[2].Model(), children[3].Model()])
    }

    ghost predicate Valid()
      reads Repr
    {
      Built() && level <= 10 && Honest(Model())
    }

    lemma Assembled()
      requires this in Repr && level >= 3
      requires level == 3 ==> children == [] && Repr == {this}
      requires level > 3 ==>
                 && |children| == 4
                 && (forall i :: 0 <= i < 4 ==>
                       && children[i].level == level - 1 && this !in children[i].Repr
                       && children[i].Repr <= Repr && children[i].Built())
                 && (forall i, j :: 0 <= i < j < 4 ==> children[i].Repr !! children[j].Repr)
      ensures Built()
      ensures level == 3 ==> Model() == Leaf(x)
      ensures level > 3 ==>
                Model() == Node(freeCache, [children[0].Model(), children[1].Model(), children[2].Model(),
                  children[3].Model()])
    {}

    /** What the children of an object are. */
    lemma Kids()
      requires Built() && level > 3
      ensures |children| == 4 && forall i :: 0 <= i < 4 ==>
                children[i].level == level - 1 && children[i].Repr <= Repr - {this} && children[i].Built()
      ensures Model().Node? && Model().freeCache == freeCache && |Model().kids| == 4
      ensures forall i :: 0 <= i < 4 ==> Model().kids[i] == children[i].Model()
    {}

    lemma ModelShape()
      requires Built()
      ensures Shaped(Model(), level)
      decreases level
    {
      if level > 3 {
        children[0].ModelShape();
        children[1].ModelShape();
        children[2].ModelShape();
        children[3].ModelShape();
      }
    }

    constructor (depth: nat)
      requires 3 <= depth <= 10
      ensures Valid() && fresh(Repr) && level == depth && Model() == Fresh(depth)
      decreases depth, 0
    {
      hide Honest, Used, Shaped, Count, IsFull, Fresh, Built, Model;
      level := depth;
      freeCache := true;
      x := 0;
      if depth == 3 {
        children := [];
        Repr := {this};
      } else {
        var cs := MakeChildren(depth - 1);
        children := cs;
        Repr := {this} + cs[0].Repr + cs[1].Repr + cs[2].Repr + cs[3].Repr;
      }
      new;
      Assembled();
      FreshIsEmpty(depth);
      FreshKids(depth);
    }

    static method MakeChildren(d: nat) returns (cs: seq<PhTreeAllocator>)
      requires 3 <= d < 10
      ensures |cs| == 4
      ensures forall i :: 0 <= i < 4 ==> cs[i].Built() && cs[i].level == d && fresh(cs[i].Repr)
      ensures forall i :: 0 <= i < 4 ==> cs[i].Model() == Fresh(d)
      ensures forall i, j :: 0 <= i < j < 4 ==> cs[i].Repr !! cs[j].Repr
      decreases d, 1
    {
      hide Honest, Fresh, PhTreeAllocator.Built, PhTreeAllocator.Model, Shaped, Count;
      cs := [];
      for n := 0 to 4
        invariant |cs| == n
        invariant forall i :: 0 <= i < n ==> cs[i].Built() && cs[i].level == d && fresh(cs[i].Repr)
        invariant forall i :: 0 <= i < n ==> cs[i].Model() == Fresh(d)
        invariant forall i, j :: 0 <= i < j < n ==> cs[i].Repr !! cs[j].Repr
      {
        var c := new PhTreeAllocator(d);
        cs := cs + [c];
      }
    }

    function IsFullNow(): bool
      reads this
    {
      if level == 3 then x == ONES else !freeCache
    }

    lemma FullModel()
      requires Built()
      ensures IsFullNow() == IsFull(Model())
    {}

    /** Recomputes the cache from the children. */
    method Refresh()
      requires Built() && level > 3
      modifies this
      ensures Built() && Model() == Refreshed(old(Model()).kids)
    {
      hide Built, Model, IsFull;
      Kids();
      ghost var kids := Model().kids;
      freeCache := false;
      for j := 0 to 4
        invariant freeCache == exists k :: 0 <= k < j && !children[k].IsFullNow()
        invariant x == old(x)
        invariant Built() && forall k :: 0 <= k < 4 ==> children[k].Model() == kids[k]
      {
        freeCache := freeCache || !children[j].IsFullNow();
      }
      Kids();
      assert Model() == Node(freeCache, kids);
      children[0].FullModel();
      children[1].FullModel();
      children[2].FullModel();
      children[3].FullModel();
    }

    method GetPage() returns (r: nat)
      requires Valid()
      modifies Repr
      ensures Valid()
      ensures r == QuadTree.GetPage(old(Model()), level) && Model() == AfterGetPage(old(Model()), level)
      decreases level, 2
    {
      hide QuadTree.GetPage, AfterGetPage, Honest, Count;
      ghost var t := Model();
      ModelShape();
      AfterGetPageShape(t, level);
      GetPageOfFull(t, level);
      if level == 3 {
        r := GetPageOfWord();
      } else if !freeCache {
        r := PH_NULL;
      } else {
        r := GetPageOfChild();
      }
    }

    method GetPageOfWord() returns (r: nat)
      requires Built() && level == 3
      modifies this
      ensures r == QuadTree.GetPage(Leaf(old(x)), 3) && Leaf(x) == AfterGetPage(Leaf(old(x)), 3)
    {
      hide Bit;
      if x == ONES { return PH_NULL; }
      LowestBit(x);
      for j := 0 to 64
        invariant x == old(x)
        invariant FirstClear(x, 0) == FirstClear(x, j)
      {
        if !Bit(x, j) {
          x := WithBit(x, j);
          return j * PAGE;
        }
      }
      return PH_NULL;
    }

    method GetPageOfChild() returns (r: nat)
      requires Valid() && level > 3 && freeCache
      modifies Repr
      ensures Built()
      ensures r == QuadTree.GetPage(old(Model()), level) && Model() == AfterGetPage(old(Model()), level)
      decreases level, 1
    {
      hide QuadTree.GetPage, AfterGetPage, Honest, Count;
      ghost var t := Model();
      ModelShape();
      var i;
      i, r := AskChildren();
      Refresh();
      AfterGetPageNode(t, level);
      GetPageFound(t, level, i);
      r := r + Start(i, PAGE * Count(level - 1));
    }

    /** The search loop: children are asked in order until one gives a page. */
    method AskChildren() returns (i: nat, r: nat)
      requires Valid() && level > 3 && freeCache
      modifies Repr
      ensures Built()
      ensures var t := old(Model());
              && i == FirstGiving(t.kids, level, 0) < 4 && r == QuadTree.GetPage(t.kids[i], level - 1)
              && Model() == Node(true, t.kids[i := AfterGetPage(t.kids[i], level - 1)])
      decreases level, 0, 1
    {
      hide QuadTree.GetPage, AfterGetPage, Honest, Count, Built, Model;
      Kids();
      ghost var t := Model();
      ModelShape();
      HonestBelow(t);
      ghost var k, p := GetPageChild(t, level);
      i := 0;
      while true
        invariant i <= k && Built() && freeCache && Model() == t && FirstGiving(t.kids, level, i) == k
        decreases 4 - i
      {
        FirstGivingStep(t.kids, level, i);
        NullIsUnchanged(t.kids[i], level - 1);
        r := AskKid(i);
        if r != PH_NULL { break; }
        assert t.kids[i := t.kids[i]] == t.kids;
        i := i + 1;
      }
    }

    /** get_page on one child; the others stay as they are. */
    method AskKid(k: nat) returns (r: nat)
      requires Built() && 3 < level <= 10 && k < 4 && Honest(Model().kids[k])
      modifies children[k].Repr
      ensures Built() && freeCache == old(freeCache)
      ensures var kids := old(Model()).kids;
              && Model() == Node(freeCache, kids[k := AfterGetPage(kids[k], level - 1)])
              && r == QuadTree.GetPage(kids[k], level - 1)
      decreases level, 0, 0
    {
      hide QuadTree.GetPage, AfterGetPage, Honest, Count;
      assert children[k].Model() == Model().kids[k];
      r := children[k].GetPage();
    }

    method ReleasePage(addr: nat)
      requires Valid()
      modifies Repr
      ensures Valid() && Model() == QuadTree.ReleasePage(old(Model()), level, addr)
      decreases level, 1
    {
      hide QuadTree.ReleasePage, Honest, Count, Part, Start, Bit, ChildAt;
      ghost var t := Model();
      ModelShape();
      ReleaseShape(t, level, addr);
      if level == 3 {
        ReleaseWord(x, addr);
        if addr / PAGE < 64 { x := WithoutBit(x, addr / PAGE); }
      } else {
        HonestBelow(t);
        ReleaseNode(t, level, addr);
        ChildIndex(level - 1, addr);
        var c := PAGE * Count(level - 1);
        var k := ChildAt(addr, c);
        if k < 4 {
          ReleaseKid(k, addr - k * c);
          NoteFree(k);
        }
      }
    }

    /** Notes in the cache that child k has a free page, if it has one. */
    method NoteFree(k: nat)
      requires Built() && level > 3 && k < 4
      modifies this
      ensures Built() && Model() == Node(old(freeCache) || !IsFull(old(Model()).kids[k]), old(Model()).kids)
    {
      children[k].FullModel();
      if !children[k].IsFullNow() { freeCache := true; }
    }

    /** release_page on one child; the others stay as they are. */
    method ReleaseKid(k: nat, addr: nat)
      requires Built() && 3 < level <= 10 && k < 4 && Honest(Model().kids[k])
      modifies children[k].Repr
      ensures Built() && freeCache == old(freeCache)
      ensures var kids := old(Model()).kids;
              Model() == Node(freeCache, kids[k := QuadTree.ReleasePage(kids[k], level - 1, addr)])
      decreases level, 0
    {
      hide QuadTree.ReleasePage, Honest, Count;
      assert children[k].Model() == Model().kids[k];
      children[k].ReleasePage(addr);
    }

    method MarkUsed(beg: nat, end: nat)
      requires Valid() && beg <= end
      modifies Repr
      ensures Valid() && Model() == QuadTree.MarkUsed(old(Model()), level, beg, end)
      decreases level, 3, 1
    {
      hide QuadTree.MarkUsed, Honest, Count, Part, Start, Bit;
      ghost var t := Model();
      ModelShape();
      MarkUsedShape(t, level, beg, end);
      if level == 3 {
        MarkWord(beg, end);
      } else {
        MarkBelow(beg, end);
      }
    }

    method MarkBelow(beg: nat, end: nat)
      requires Valid() && level > 3 && beg <= end
      modifies Repr
      ensures Built() && Model() == QuadTree.MarkUsed(old(Model()), level, beg, end)
      decreases level, 3, 0
    {
      hide QuadTree.MarkUsed, Honest, Count, Part, Start, Bit, ChildAt;
      ghost var t := Model();
      ModelShape();
      ChildIndex(level - 1, beg);
      ChildIndex(level - 1, end);
      MarkOutside(t, level, beg, end);
      var kb := ChildAt(beg, PAGE * Count(level - 1));
      var ke := ChildAt(end, PAGE * Count(level - 1));
      if kb >= 4 { return; }
      if ke >= 4 { ke := 3; }
      MarkChildren(beg, end, kb, ke);
      Refresh();
    }

    method MarkWord(beg: nat, end: nat)
      requires Built() && level == 3 && beg <= end
      modifies this
      ensures Built() && Model() == QuadTree.MarkUsed(old(Model()), 3, beg, end)
    {
      hide Bit, WithBit;
      var kb := beg / PAGE;
      var ke := end / PAGE;
      if kb >= 64 { return; }
      if ke >= 64 { ke := 63; }
      var i := kb;
      while i <= ke
        invariant kb <= i <= ke + 1
        invariant SetBits(x, i, ke) == SetBits(old(x), kb, ke)
        invariant freeCache == old(freeCache)
      {
        x := WithBit(x, i);
        i := i + 1;
      }
    }

    /** mark_used on one child; the others stay as they are. */
    method MarkKid(k: nat, beg: nat, end: nat)
      requires Built() && 3 < level <= 10 && k < 4 && beg <= end && Honest(Model().kids[k])
      modifies children[k].Repr
      ensures Built() && freeCache == old(freeCache)
      ensures var kids := old(Model()).kids;
              Model() == Node(freeCache, kids[k := QuadTree.MarkUsed(kids[k], level - 1, beg, end)])
      decreases level, 0
    {
      hide QuadTree.MarkUsed, Honest, Count;
      assert children[k].Model() == Model().kids[k];
      children[k].MarkUsed(beg, end);
    }

    /** The first and the last child the range meets, then those between them. */
    method MarkChildren(beg: nat, end: nat, kb: nat, ke: nat)
      requires Valid() && level > 3 && beg <= end && beg < 4 * (PAGE * Count(level - 1))
      requires kb == Part(beg, PAGE * Count(level - 1)) && ke == Part(end, PAGE * Count(level - 1))
      modifies Repr
      ensures Built() && |Model().kids| == 4
      ensures forall k :: 0 <= k < 4 ==> Model().kids[k] == MarkChild(old(Model()).kids, level, beg, end, k)
      decreases level, 2
    {
      hide QuadTree.MarkUsed, Honest, Count, MarkChild, Part, Start;
      ghost var kids := Model().kids;
      HonestBelow(Model());
      var c := PAGE * Count(level - 1);
      PartOrder(level - 1, beg, end);
      if kb == ke {
        MarkKid(kb, beg - Start(kb, c), end - Start(kb, c));
        OneMarked(kids, level, beg, end, Model().kids);
      } else {
        MarkSeveral(kb, ke, beg - Start(kb, c), end - Start(ke, c));
        SeveralMarked(kids, level, beg, end, Model().kids);
      }
    }

    /** The first child from b on, the last one up to e, and those between them in full. */
    method MarkSeveral(kb: nat, ke: nat, b: nat, e: nat)
      requires Built() && 3 < level <= 10 && kb < ke < 4 && b < PAGE * Count(level - 1)
      requires forall k :: 0 <= k < 4 ==> Honest(Model().kids[k])
      modifies Repr
      ensures Built() && |Model().kids| == 4
      ensures forall k :: 0 <= k < 4 ==>
                Model().kids[k] == MarkPart(old(Model()).kids[k], level - 1, k, kb, ke, b, e,
                  PAGE * Count(level - 1) - 1)
      decreases level, 2, 0
    {
      hide QuadTree.MarkUsed, Honest, Count, Built, Model;
      Kids();
      ghost var kids := Model().kids;
      MarkKid(kb, b, PAGE * Count(level - 1) - 1);
      assert Model().kids == kids[kb := QuadTree.MarkUsed(kids[kb], level - 1, b, PAGE * Count(level - 1) - 1)];
      Kids();
      MarkKid(ke, 0, e);
      MarkMiddle(kb, ke);
    }

    method MarkMiddle(kb: nat, ke: nat)
      requires Built() && 3 < level <= 10 && kb < ke < 4
      requires forall k :: kb < k < ke ==> Honest(Model().kids[k])
      modifies Repr
      ensures Built() && |Model().kids| == 4
      ensures forall k :: 0 <= k < 4 ==>
                Model().kids[k] ==
                if kb < k < ke then QuadTree.MarkUsed(old(Model()).kids[k], level - 1, 0, PAGE * Count(level - 1) - 1)
                else old(Model()).kids[k]
      decreases level, 1
    {
      hide QuadTree.MarkUsed, Honest, Count, Built, Model;
      Kids();
      var c := PAGE * Count(level - 1);
      ghost var kids := Model().kids;
      var i := kb + 1;
      while i < ke
        invariant kb < i <= ke && Built() && Model().Node? && |Model().kids| == 4
        invariant forall k :: 0 <= k < 4 ==>
                    Model().kids[k] ==
                    if kb < k < i then QuadTree.MarkUsed(kids[k], level - 1, 0, c - 1) else kids[k]
      {
        Kids();
        MarkKid(i, 0, c - 1);
        i := i + 1;
      }
    }
  }

  /** What a child between kb and ke becomes. */
  function MarkPart(kid: Tree, level: int, k: nat, kb: nat, ke: nat, b: nat, e: nat, last: nat): Tree
    requires kb < ke && b <= last
  {
    if k < kb || k > ke then kid
    else QuadTree.MarkUsed(kid, level, if k == kb then b else 0, if k == ke then e else last)
  }

  lemma OneMarked(kids: seq<Tree>, level: int, beg: nat, end: nat, kids': seq<Tree>)
    requires |kids| == 4 && beg <= end && Part(beg, PAGE * Count(level - 1)) == Part(end, PAGE * Count(level - 1))
    requires var c := PAGE * Count(level - 1);
             var k := Part(beg, c);
             && Start(k, c) <= beg
             && kids' == kids[k := QuadTree.MarkUsed(kids[k], level - 1, beg - Start(k, c), end - Start(k, c))]
    ensures forall k :: 0 <= k < 4 ==> kids'[k] == MarkChild(kids, level, beg, end, k)
  {
    hide QuadTree.MarkUsed, Count, Start;
    MarkOutside4(kids, level, beg, end);
  }

  lemma SeveralMarked(kids: seq<Tree>, level: int, beg: nat, end: nat, kids': seq<Tree>)
    requires |kids| == |kids'| == 4 && beg <= end
    requires var c := PAGE * Count(level - 1);
             var kb := Part(beg, c);
             var ke := Part(end, c);
             && 0 <= kb < ke && Start(kb, c) <= beg < Start(kb, c) + c && Start(ke, c) <= end
             && forall k :: 0 <= k < 4 ==>
                  kids'[k] == MarkPart(kids[k], level - 1, k, kb, ke, beg - Start(kb, c), end - Start(ke, c), c - 1)
    ensures forall k :: 0 <= k < 4 ==> kids'[k] == MarkChild(kids, level, beg, end, k)
  {
    hide QuadTree.MarkUsed, Count, Start;
    MarkOutside4(kids, level, beg, end);
  }

  /** MarkChild, unfolded once for every child. */
  lemma MarkOutside4(kids: seq<Tree>, level: int, beg: nat, end: nat)
    requires |kids| == 4 && beg <= end
    ensures var c := PAGE * Count(level - 1);
            forall k: nat :: k < 4 ==>
              MarkChild(kids, level, beg, end, k) ==
              if Part(beg, c) <= k <= Part(end, c) then
                QuadTree.MarkUsed(kids[k], level - 1, if k == Part(beg, c) then beg - Start(k, c) else 0,
                                  if k == Part(end, c) then end - Start(k, c) else c - 1)
              else kids[k]
  {
    hide QuadTree.MarkUsed;
  }

  lemma PartOrder(level: int, beg: nat, end: nat)
    requires beg <= end
    ensures var c := PAGE * Count(level);
            var kb := Part(beg, c);
            var ke := Part(end, c);
            && 0 <= kb <= ke < 4 && 0 <= beg - Start(kb, c) && 0 <= end - Start(ke, c)
            && (kb < ke ==> beg - Start(kb, c) < c)
            && (kb == ke ==> beg - Start(kb, c) <= end - Start(kb, c))
  {}

  /** Dividing by n selects the part. */
  lemma Quotient(a: nat, n: nat)
    requires n > 0
    ensures a / n == 0 <==> a < n
    ensures a / n == 1 <==> n <= a < 2 * n
    ensures a / n == 2 <==> 2 * n <= a < 3 * n
    ensures a / n == 3 <==> 3 * n <= a < 4 * n
  {
    var k := a / n;
    QuotientBounds(a, n);
    if k >= 4 {
      Scaled(4, k, n);
    }
  }

  lemma Scaled(j: nat, k: nat, n: nat)
    requires j <= k
    ensures j * n <= k * n
  {}

  /** The child that the code computes for an address, by division. */
  function ChildAt(addr: nat, size: nat): (k: nat)
    requires size > 0
  {
    addr / size
  }

  /** The quotient the code computes, as the child it selects. */
  lemma ChildIndex(level: int, addr: nat)
    ensures var c := PAGE * Count(level);
            var k := ChildAt(addr, c);
            && (k < 4 <==> addr < 4 * c)
            && (k < 4 ==> k == Part(addr, c) && k * c == Start(k, c))
            && (k >= 4 ==> Part(addr, c) == 3)
  {
    hide Count;
    Quotient(addr, PAGE * Count(level));
  }

  lemma QuotientBounds(a: nat, c: nat)
    requires c > 0
    ensures (a / c) * c <= a < (a / c) * c + c
  {}

  lemma ReleaseWord(x: bv64, addr: nat)
    ensures QuadTree.ReleasePage(Leaf(x), 3, addr) ==
            if addr / PAGE < 64 then Leaf(WithoutBit(x, addr / PAGE)) else Leaf(x)
  {}

  lemma MarkOutside(t: Tree, level: int, beg: nat, end: nat)
    requires t.Node? && |t.kids| == 4 && beg <= end
    ensures var c := PAGE * Count(level - 1);
            if beg >= 4 * c then QuadTree.MarkUsed(t, level, beg, end) == t
            else
              QuadTree.MarkUsed(t, level, beg, end) ==
              Refreshed([MarkChild(t.kids, level, beg, end, 0), MarkChild(t.kids, level, beg, end, 1),
                         MarkChild(t.kids, level, beg, end, 2), MarkChild(t.kids, level, beg, end, 3)])
  {
    hide MarkChild;
  }

  lemma GetPageOfFull(t: Tree, level: int)
    ensures IsFull(t) ==> QuadTree.GetPage(t, level) == PH_NULL && AfterGetPage(t, level) == t
  {}

  lemma FirstGivingStep(kids: seq<Tree>, level: int, i: nat)
    requires |kids| == 4 && i < 4
    ensures FirstGiving(kids, level, i) ==
            if QuadTree.GetPage(kids[i], level - 1) == PH_NULL then FirstGiving(kids, level, i + 1) else i
  {}

  lemma NullIsUnchanged(t: Tree, level: int)
    requires Shaped(t, level) && Honest(t) && level <= 10
    ensures QuadTree.GetPage(t, level) == PH_NULL ==> AfterGetPage(t, level) == t
  {
    var _ := GetPageIsLowest(t, level);
  }

  lemma GetPageFound(t: Tree, level: int, k: nat)
    requires t.Node? && |t.kids| == 4 && t.freeCache && FirstGiving(t.kids, level, 0) == k < 4
    ensures QuadTree.GetPage(t, level) == QuadTree.GetPage(t.kids[k], level - 1) + Start(k, PAGE * Count(level - 1))
  {}

  lemma FreshKids(level: nat)
    ensures level > 3 ==>
              && Fresh(level).Node? && Fresh(level).freeCache
              && Fresh(level).kids == [Fresh(level - 1), Fresh(level - 1), Fresh(level - 1), Fresh(level - 1)]
    ensures level == 3 ==> Fresh(level) == Leaf(0)
  {}
}
