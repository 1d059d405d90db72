/** The intrusive doubly linked lists of heap pages, one per length of the largest free run. */
module BucketLists {
  import opened SlotMap

  const BUCKETS: nat := 503

  /** What the allocator keeps at the end of a page.  Pages are named by number; 0 is the null pointer. */
  datatype SmallPage = SmallPage(bitmap: Bitmap, next: nat, prev: nat)

  type Pages = map<nat, SmallPage>

  function FirstOf(l: seq<nat>): nat {
    if l == [] then 0 else l[0]
  }

  /** Position j of list l: its page is linked to its two neighbours. */
  ghost predicate LinkOk(page: Pages, l: seq<nat>, j: nat)
    requires j < |l|
  {
    && l[j] in page && l[j] != 0
    && page[l[j]].next == (if j + 1 < |l| then l[j + 1] else 0)
    && page[l[j]].prev == (if j > 0 then l[j - 1] else 0)
  }

  ghost predicate ListOk(page: Pages, h: nat, l: seq<nat>) {
    && h == FirstOf(l)
    && (forall j :: 0 <= j < |l| ==> LinkOk(page, l, j))
    && (forall i, j :: 0 <= i < j < |l| ==> l[i] != l[j])
  }

  /** All 503 lists are well formed and no page is on two of them. */
  ghost predicate Linked(page: Pages, head: seq<nat>, lists: seq<seq<nat>>) {
    && |head| == BUCKETS && |lists| == BUCKETS
    && (forall k :: 0 <= k < BUCKETS ==> ListOk(page, head[k], lists[k]))
    && (forall k, m, p :: 0 <= k < BUCKETS && 0 <= m < BUCKETS && p in lists[k] && p in lists[m] ==> k == m)
  }

  ghost predicate Listed(lists: seq<seq<nat>>, p: nat) {
    exists k :: 0 <= k < |lists| && p in lists[k]
  }

  ghost predicate SameBitmaps(page: Pages, page': Pages) {
    page'.Keys == page.Keys && forall p :: p in page ==> page'[p].bitmap == page[p].bitmap
  }

  // ---------- linking at the front ----------

  function WithPrev(page: Pages, p: nat, prev: nat): Pages {
    if p != 0 && p in page then page[p := page[p].(prev := prev)] else page
  }

  function WithNext(page: Pages, p: nat, next: nat): Pages {
    if p in page then page[p := page[p].(next := next)] else page
  }

  /** Page p is put in front of the page that headed the list. */
  function PushPages(page: Pages, h: nat, p: nat): Pages
    requires p in page
  {
    var q := WithPrev(page, h, p);
    q[p := q[p].(next := h, prev := 0)]
  }

  lemma PushList(page: Pages, h: nat, l: seq<nat>, p: nat)
    requires ListOk(page, h, l) && p in page && p != 0 && p !in l
    ensures ListOk(PushPages(page, h, p), p, [p] + l)
  {
    var page' := PushPages(page, h, p);
    var l' := [p] + l;
    forall j | 0 <= j < |l'| ensures LinkOk(page', l', j) {
      if j > 0 {
        assert LinkOk(page, l, j - 1);
        assert l[j - 1] in l;
        if j > 1 { assert l[j - 1] != l[0]; }
      }
    }
  }

  /** A list that does not meet the changed pages stays well formed. */
  lemma ListFrame(page: Pages, page': Pages, h: nat, l: seq<nat>)
    requires ListOk(page, h, l)
    requires forall q :: q in l ==>
               q in page' && q in page && page'[q].next == page[q].next && page'[q].prev == page[q].prev
    ensures ListOk(page', h, l)
  {
    forall j | 0 <= j < |l| ensures LinkOk(page', l, j) {
      assert LinkOk(page, l, j);
      assert l[j] in l;
    }
  }

  /** Relinking a page that is on no list puts it at the front of list k. */
  lemma PushKeepsLinked(page: Pages, head: seq<nat>, lists: seq<seq<nat>>, k: nat, p: nat)
    requires Linked(page, head, lists) && k < BUCKETS && p in page && p != 0 && !Listed(lists, p)
    ensures var page' := PushPages(page, head[k], p);
            && Linked(page', head[k := p], lists[k := [p] + lists[k]])
            && SameBitmaps(page, page')
  {
    var page' := PushPages(page, head[k], p);
    PushList(page, head[k], lists[k], p);
    forall m | 0 <= m < BUCKETS && m != k ensures ListOk(page', head[m], lists[m]) {
      if lists[k] != [] { assert lists[k][0] in lists[k]; }
      forall q | q in lists[m] ensures q in page && q in page' && page'[q] == page[q] {
        Member(page, head[m], lists[m], q);
        assert Listed(lists, q);
      }
      ListFrame(page, page', head[m], lists[m]);
    }
  }

  // ---------- unlinking ----------

  /** operator delete's unlinking of p, which may be anywhere in its list. */
  function CutPages(page: Pages, p: nat): Pages
    requires p in page
  {
    if page[p].prev == 0 then WithPrev(page, page[p].next, 0)
    else WithNext(WithPrev(page, page[p].next, page[p].prev), page[p].prev, page[p].next)
  }

  function CutHead(page: Pages, h: nat, p: nat): nat
    requires p in page
  {
    if page[p].prev == 0 then page[p].next else h
  }

  function Without(l: seq<nat>, j: nat): seq<nat>
    requires j < |l|
  {
    l[..j] + l[j + 1..]
  }

  lemma CutList(page: Pages, h: nat, l: seq<nat>, j: nat)
    requires ListOk(page, h, l) && j < |l|
    ensures l[j] in page && ListOk(CutPages(page, l[j]), CutHead(page, h, l[j]), Without(l, j))
  {
    assert LinkOk(page, l, j);
    var page' := CutPages(page, l[j]);
    var l' := Without(l, j);
    forall i | 0 <= i < |l'| ensures LinkOk(page', l', i) {
      var o := if i < j then i else i + 1;
      assert LinkOk(page, l, o) && l'[i] == l[o];
      if j + 1 < |l| { assert LinkOk(page, l, j + 1); }
      if j > 0 { assert LinkOk(page, l, j - 1); }
    }
  }

  lemma CutFrame(page: Pages, h: nat, l: seq<nat>, j: nat, q: nat)
    requires ListOk(page, h, l) && j < |l| && q in page && q !in l
    ensures l[j] in page && q in CutPages(page, l[j]) && CutPages(page, l[j])[q] == page[q]
  {
    assert LinkOk(page, l, j);
    if j + 1 < |l| { assert l[j + 1] in l; }
    if j > 0 { assert l[j - 1] in l; }
  }

  lemma InWithout(l: seq<nat>, j: nat, q: nat)
    requires j < |l| && forall i, m :: 0 <= i < m < |l| ==> l[i] != l[m]
    ensures q in Without(l, j) <==> q in l && q != l[j]
  {
    if q in l && q != l[j] {
      var i :| 0 <= i < |l| && l[i] == q;
      assert Without(l, j)[if i < j then i else i - 1] == q;
    }
  }

  /** Unlinking a page leaves all lists well formed, the page on none of them. */
  lemma CutKeepsLinked(page: Pages, head: seq<nat>, lists: seq<seq<nat>>, k: nat, j: nat)
    requires Linked(page, head, lists) && k < BUCKETS && j < |lists[k]|
    ensures lists[k][j] in page && lists[k][j] != 0
    ensures var p := lists[k][j];
            var page' := CutPages(page, p);
            && Linked(page', head[k := CutHead(page, head[k], p)], lists[k := Without(lists[k], j)])
            && SameBitmaps(page, page')
            && !Listed(lists[k := Without(lists[k], j)], p)
            && (forall q :: q != p ==> (Listed(lists[k := Without(lists[k], j)], q) <==> Listed(lists, q)))
  {
    hide LinkOk;
    var p := lists[k][j];
    CutList(page, head[k], lists[k], j);
    Position(page, head[k], lists[k], j);
    var page' := CutPages(page, p);
    var lists' := lists[k := Without(lists[k], j)];
    forall m | 0 <= m < BUCKETS && m != k ensures ListOk(page', head[m], lists[m]) {
      forall q | q in lists[m] ensures q in page && q in page' && page'[q] == page[q] {
        Member(page, head[m], lists[m], q);
        CutFrame(page, head[k], lists[k], j, q);
      }
      ListFrame(page, page', head[m], lists[m]);
    }
    forall q ensures q in lists'[k] <==> q in lists[k] && q != p {
      InWithout(lists[k], j, q);
    }
    forall q | q != p ensures Listed(lists', q) <==> Listed(lists, q) {
      if m :| 0 <= m < BUCKETS && q in lists[m] { assert q in lists'[m]; }
      if m :| 0 <= m < BUCKETS && q in lists'[m] { assert q in lists[m]; }
    }
  }

  lemma Position(page: Pages, h: nat, l: seq<nat>, j: nat)
    requires ListOk(page, h, l) && j < |l|
    ensures l[j] in page && l[j] != 0 && l[j] in l && (page[l[j]].prev == 0 <==> j == 0)
  {
    assert LinkOk(page, l, j);
    if j > 0 { assert LinkOk(page, l, j - 1); }
  }

  lemma Member(page: Pages, h: nat, l: seq<nat>, q: nat)
    requires ListOk(page, h, l) && q in l
    ensures q in page && q != 0
  {
    var j :| 0 <= j < |l| && l[j] == q;
    assert LinkOk(page, l, j);
  }

  /** A nonempty bucket starts with a page that has no predecessor. */
  lemma FrontOfBucket(page: Pages, h: nat, l: seq<nat>)
    requires ListOk(page, h, l)
    ensures h != 0 <==> l != []
    ensures h != 0 ==> h == l[0] && h in page && page[h].prev == 0 && h in l
  {
    if l != [] { Position(page, h, l, 0); }
  }
}
