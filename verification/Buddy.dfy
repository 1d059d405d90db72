/** The buddy tree of kernel/mem/vmem_allocator.hh as a value: its calls, branch by branch. */
module Buddy {
  import opened Machine

  const ALLOC_NULL: nat := U64 - 1

  // Largest order for which `1 << (depth + 12)` is a positive C int.
  const MAX_DEPTH: nat := 18

  /** One `maxdepth` per block.  The order d of a block is passed alongside; a Leaf is one page, order 0. */
  datatype Tree = Leaf(maxdepth: int) | Node(maxdepth: int, left: Tree, right: Tree)

  function Pages(d: int): (n: nat)
    ensures n > 0
  {
    if d <= 0 then 1 else 2 * Pages(d - 1)
  }

  /** Bytes in a block of order d. */
  function Span(d: int): (n: nat)
    ensures n == PAGE * Pages(d)
  {
    if d <= 0 then PAGE else 2 * Span(d - 1)
  }

  lemma {:induction false} SpanMonotone(c: nat, d: nat)
    requires c <= d
    ensures Span(c) <= Span(d) && Pages(c) <= Pages(d)
  {
    if c < d {
      SpanMonotone(c, d - 1);
    }
  }

  lemma SpanTimes8(d: nat)
    ensures Span(d + 3) == 8 * Span(d)
  {
    assert Span(d + 3) == 2 * Span(d + 2);
  }

  lemma SpanFits(d: nat)
    requires d <= MAX_DEPTH
    ensures Span(d) <= 0x4000_0000
  {
    hide Pages;
    SpanMonotone(d, MAX_DEPTH);
    SpanTimes8(0);
    SpanTimes8(3);
    SpanTimes8(6);
    SpanTimes8(9);
    SpanTimes8(12);
    SpanTimes8(15);
  }

  /** A perfect tree of order d whose reports are in range. */
  ghost predicate Shaped(t: Tree, d: int) {
    && -1 <= t.maxdepth <= d
    && match t
       case Leaf(_) => d == 0
       case Node(_, l, r) => d > 0 && Shaped(l, d - 1) && Shaped(r, d - 1)
  }

  /** Is page p of the block free?  Below a full (-1) or wholly free (d) node the children are stale. */
  ghost predicate Free(t: Tree, d: int, p: int) {
    if t.maxdepth == -1 then false
    else if t.maxdepth == d || t.Leaf? then true
    else if p < Pages(d - 1) then Free(t.left, d - 1, p)
    else Free(t.right, d - 1, p - Pages(d - 1))
  }

  /** Every trusted node reports the maximum of its children.  Never lost. */
  ghost predicate Sound(t: Tree, d: int) {
    || t.maxdepth == -1
    || t.maxdepth == d
    || (&& t.Node?
        && t.maxdepth == Max(t.left.maxdepth, t.right.maxdepth)
        && Sound(t.left, d - 1) && Sound(t.right, d - 1))
  }

  /** In addition no wholly free node is still split.  Kept by every call that stays in bounds. */
  ghost predicate Exact(t: Tree, d: int) {
    || t.maxdepth == -1
    || t.maxdepth == d
    || (&& t.Node?
        && t.maxdepth == Max(t.left.maxdepth, t.right.maxdepth)
        && !(t.left.maxdepth == d - 1 && t.right.maxdepth == d - 1)
        && Exact(t.left, d - 1) && Exact(t.right, d - 1))
  }

  // ---------- the calls ----------

  /** The constructor. */
  function Fresh(d: nat): Tree {
    if d == 0 then Leaf(0) else Node(d, Fresh(d - 1), Fresh(d - 1))
  }

  function WithMax(t: Tree, m: int): Tree {
    match t
    case Leaf(_) => Leaf(m)
    case Node(_, l, r) => Node(m, l, r)
  }

  /** A child of t, after the free condition has been propagated to it. */
  function Opened(t: Tree, d: int, child: Tree): Tree {
    if t.maxdepth == d then WithMax(child, d - 1) else child
  }

  /** A child of t, after the full condition has been propagated to it. */
  function Filled(t: Tree, child: Tree): Tree {
    if t.maxdepth == -1 then WithMax(child, -1) else child
  }

  function Joined(l: Tree, r: Tree): Tree {
    Node(Max(l.maxdepth, r.maxdepth), l, r)
  }

  function Coalesced(l: Tree, r: Tree, d: int): Tree {
    if l.maxdepth == d - 1 && r.maxdepth == d - 1 then Node(d, l, r) else Joined(l, r)
  }

  datatype Range = Range(addr: nat, size: nat)

  /** The part of a range that goes to the left half of a block, m bytes; size 0 if it is not visited. */
  function LeftPart(a: nat, s: nat, m: nat): (r: Range)
    requires a < U64 && s < U64
    ensures r.addr < U64 && r.size < U64
  {
    if a >= m then Range(0, 0) else if Add64(a, s) <= m then Range(a, s) else Range(a, m - a)
  }

  /** The part that goes to the right half. */
  function RightPart(a: nat, s: nat, m: nat): (r: Range)
    requires a < U64 && s < U64
    ensures r.addr < U64 && r.size < U64
  {
    if a >= m then Range(a - m, s) else if Add64(a, s) <= m then Range(0, 0) else Range(0, s - m + a)
  }

  function MarkUsed(t: Tree, d: int, a: nat, s: nat): Tree
    requires a < U64 && s < U64
    decreases d
  {
    if t.Leaf? || d <= 0 then
      if s > 0 && a < PAGE then Leaf(-1) else t
    else if t.maxdepth == -1 || s == 0 then t
    else if a == 0 && s >= Span(d) then WithMax(t, -1)
    else
      var x := LeftPart(a, s, Span(d - 1));
      var y := RightPart(a, s, Span(d - 1));
      Joined(MarkUsed(Opened(t, d, t.left), d - 1, x.addr, x.size),
             MarkUsed(Opened(t, d, t.right), d - 1, y.addr, y.size))
  }

  function FreeRange(v: Version, t: Tree, d: int, a: nat, s: nat): Tree
    requires a < U64 && s < U64
    decreases d
  {
    if t.Leaf? || d <= 0 then
      if a < PAGE && s != 0 then Leaf(0) else t
    else if a >= Span(d) || s == 0 then t
    else if a == 0 && s >= Span(d) then WithMax(t, if v.Corrected? then d else d - 1)
    else
      var x := LeftPart(a, s, Span(d - 1));
      var y := RightPart(a, s, Span(d - 1));
      Coalesced(FreeRange(v, Filled(t, t.left), d - 1, x.addr, x.size),
                FreeRange(v, Filled(t, t.right), d - 1, y.addr, y.size), d)
  }

  predicate IsRangeFree(t: Tree, d: int, a: nat, s: nat)
    requires a < U64 && s < U64
    decreases d
  {
    if t.Leaf? || d <= 0 then Add64(a, s) <= PAGE && t.maxdepth == 0
    else if s == 0 then true
    else if t.maxdepth == -1 || Add64(a, s) >= Span(d) then false
    else if t.maxdepth == d then true
    else
      var m := Span(d - 1);
      if a >= m then IsRangeFree(t.right, d - 1, a - m, s)
      else if Add64(a, s) <= m then IsRangeFree(t.left, d - 1, a, s)
      else IsRangeFree(t.left, d - 1, a, m - a) && IsRangeFree(t.right, d - 1, 0, s - m + a)
  }

  /** The address get_range returns, and the tree it leaves behind: the path is opened and a leaf is marked, but
      no ancestor is updated before mark_used runs. */
  function GetRange(t: Tree, d: int, s: nat): (r: nat)
    requires s < U64 && d <= MAX_DEPTH
    ensures r < U64
    decreases d
  {
    if t.Leaf? || d <= 0 then
      if s > PAGE || t.maxdepth == -1 then ALLOC_NULL else 0
    else if t.maxdepth == -1 || s > Span(t.maxdepth) then ALLOC_NULL
    else if s > Span(d - 1) then 0
    else
      var l := Opened(t, d, t.left);
      var r := Opened(t, d, t.right);
      var x := GetRange(l, d - 1, s);
      SpanFits(d - 1);
      if x == ALLOC_NULL then Add64(Span(d - 1), GetRange(r, d - 1, s)) else x
  }

  function AfterGetRange(t: Tree, d: int, s: nat): Tree
    requires s < U64 && d <= MAX_DEPTH
    decreases d
  {
    if t.Leaf? || d <= 0 then
      if s > PAGE || t.maxdepth == -1 then t else Leaf(-1)
    else if t.maxdepth == -1 || s > Span(t.maxdepth) || s > Span(d - 1) then t
    else
      var l := Opened(t, d, t.left);
      var r := Opened(t, d, t.right);
      var r' := if GetRange(l, d - 1, s) == ALLOC_NULL then AfterGetRange(r, d - 1, s) else r;
      Node(t.maxdepth, AfterGetRange(l, d - 1, s), r')
  }

  function Mmap(t: Tree, d: nat, hint: nat, s: nat): (r: nat)
    requires hint < U64 && s < U64 && d <= MAX_DEPTH
    ensures r < U64
  {
    if s > Span(d) || s == 0 then ALLOC_NULL
    else if IsRangeFree(t, d, hint, s) then hint
    else GetRange(t, d, s)
  }

  function AfterMmap(t: Tree, d: nat, hint: nat, s: nat): Tree
    requires hint < U64 && s < U64 && d <= MAX_DEPTH
  {
    if s > Span(d) || s == 0 then t
    else if IsRangeFree(t, d, hint, s) then MarkUsed(t, d, hint, s)
    else MarkUsed(AfterGetRange(t, d, s), d, GetRange(t, d, s), s)
  }
}
