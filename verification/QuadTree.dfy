/** The physical page allocator of kernel/mem/phmem_allocator.hh as a value: a 4-ary tree over 64-page words. */
module QuadTree {
  import opened Machine
  import opened Bits

  const PH_NULL: nat := U64 - 1

  /** A leaf word has one bit per page, set when the page is used; a node caches whether a child has a free page. */
  datatype Tree = Leaf(x: bv64) | Node(freeCache: bool, kids: seq<Tree>)

  /** Pages below a tree of the given level; 64 pages are level 3. */
  function Count(level: int): (n: nat)
    ensures n >= 64
  {
    if level <= 3 then 64 else 4 * Count(level - 1)
  }

  ghost predicate Shaped(t: Tree, level: int) {
    match t
    case Leaf(_) => level == 3
    case Node(_, kids) => level > 3 && |kids| == 4 && forall i :: 0 <= i < 4 ==> Shaped(kids[i], level - 1)
  }

  /** Which of four parts of n units holds unit p; the last one also holds what lies beyond. */
  function Part(p: int, n: int): int {
    if p < n then 0 else if p < 2 * n then 1 else if p < 3 * n then 2 else 3
  }

  /** Where part k of n units starts. */
  function Start(k: int, n: int): int {
    if k <= 0 then 0 else if k == 1 then n else if k == 2 then 2 * n else 3 * n
  }

  predicate Used(t: Tree, level: int, p: int) {
    match t
    case Leaf(x) => 0 <= p < 64 && Bit(x, p)
    case Node(_, kids) =>
      var n := Count(level - 1);
      |kids| == 4 && Used(kids[Part(p, n)], level - 1, p - Start(Part(p, n), n))
  }

  predicate IsFull(t: Tree) {
    match t
    case Leaf(x) => x == ONES
    case Node(free, _) => !free
  }

  predicate SomeFree(kids: seq<Tree>)
    requires |kids| == 4
  {
    !IsFull(kids[0]) || !IsFull(kids[1]) || !IsFull(kids[2]) || !IsFull(kids[3])
  }

  /** Every cache tells the truth about the children. */
  ghost predicate Honest(t: Tree) {
    match t
    case Leaf(_) => true
    case Node(free, kids) => |kids| == 4 && free == SomeFree(kids) && forall i :: 0 <= i < 4 ==> Honest(kids[i])
  }

  function Fresh(level: int): Tree
  {
    if level <= 3 then Leaf(0) else
      var k := Fresh(level - 1);
      Node(true, [k, k, k, k])
  }

  // ---------- the calls ----------

  function Refreshed(kids: seq<Tree>): Tree
    requires |kids| == 4
  {
    Node(SomeFree(kids), kids)
  }

  /** The least clear bit at or after j, 64 if there is none. */
  function FirstClear(x: bv64, j: nat): (r: nat)
    requires j <= 64
    ensures j <= r <= 64
    ensures r < 64 ==> !Bit(x, r)
    ensures forall i :: j <= i < r ==> Bit(x, i)
    decreases 64 - j
  {
    if j < 64 && Bit(x, j) then FirstClear(x, j + 1) else j
  }

  /** Index of the first child whose get_page succeeds, 4 if there is none. */
  function FirstGiving(kids: seq<Tree>, level: int, i: nat): (r: nat)
    requires |kids| == 4 && i <= 4
    ensures i <= r <= 4
    decreases kids, 4 - i
  {
    if i < 4 && GetPage(kids[i], level - 1) == PH_NULL then FirstGiving(kids, level, i + 1) else i
  }

  function GetPage(t: Tree, level: int): nat
    decreases t
  {
    match t
    case Leaf(x) => if x == ONES then PH_NULL else FirstClear(x, 0) * PAGE
    case Node(free, kids) =>
      if !free || |kids| != 4 then PH_NULL
      else
        var i := FirstGiving(kids, level, 0);
        if i < 4 then GetPage(kids[i], level - 1) + Start(i, PAGE * Count(level - 1)) else PH_NULL
  }

  function AfterGetPage(t: Tree, level: int): Tree
    decreases t
  {
    match t
    case Leaf(x) => if x == ONES then t else
      var j := FirstClear(x, 0);
      if j < 64 then Leaf(WithBit(x, j)) else t
    case Node(free, kids) =>
      if !free || |kids| != 4 then t
      else
        var i := FirstGiving(kids, level, 0);
        if i < 4 then Refreshed(kids[i := AfterGetPage(kids[i], level - 1)]) else Refreshed(kids)
  }

  function ReleasePage(t: Tree, level: int, addr: nat): Tree
    decreases t
  {
    match t
    case Leaf(x) => if addr / PAGE < 64 then Leaf(WithoutBit(x, addr / PAGE)) else t
    case Node(free, kids) =>
      var c := PAGE * Count(level - 1);
      if addr >= 4 * c || |kids| != 4 then t
      else
        var k := Part(addr, c);
        var kid := ReleasePage(kids[k], level - 1, addr - Start(k, c));
        Node(free || !IsFull(kid), kids[k := kid])
  }

  /** Sets the bits from i to k. */
  function SetBits(x: bv64, i: nat, k: nat): bv64
    requires k < 64
    decreases 64 - i
  {
    if i > k then x else SetBits(WithBit(x, i), i + 1, k)
  }

  /** The inclusive byte range beg..end as the child k sees it, if it sees any of it. */
  function MarkChild(kids: seq<Tree>, level: int, beg: nat, end: nat, k: nat): Tree
    requires k < |kids| == 4 && beg <= end
    decreases kids, 0
  {
    var c := PAGE * Count(level - 1);
    var kb := Part(beg, c);
    var ke := Part(end, c);
    if kb <= k <= ke then
      var b := if k == kb then beg - Start(k, c) else 0;
      MarkUsed(kids[k], level - 1, b, if k == ke then end - Start(k, c) else c - 1)
    else kids[k]
  }

  function MarkUsed(t: Tree, level: int, beg: nat, end: nat): Tree
    requires beg <= end
    decreases t, 1
  {
    match t
    case Leaf(x) =>
      if beg / PAGE >= 64 then t else Leaf(SetBits(x, beg / PAGE, if end / PAGE >= 64 then 63 else end / PAGE))
    case Node(free, kids) =>
      if beg >= 4 * (PAGE * Count(level - 1)) || |kids| != 4 then t
      else
        Refreshed([MarkChild(kids, level, beg, end, 0), MarkChild(kids, level, beg, end, 1),
                   MarkChild(kids, level, beg, end, 2), MarkChild(kids, level, beg, end, 3)])
  }
}
