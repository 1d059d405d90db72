/** operator new and operator delete of the kernel. */
module KernelHeap {
  import opened Machine
  import opened SlotMap
  import opened BucketLists
  import opened HeapAccounts
  import opened HeapTheory

  // ---------- the loops over slots ----------

  /** b' is b with slots o..o+n-1 set. */
  ghost predicate Marked(b: Bitmap, b': Bitmap, o: nat, n: nat) {
    forall i: nat :: i < 512 ==> (Get(b', i) <==> Get(b, i) || o <= i < o + n)
  }

  /** b' is b with slots o..o+n-1 clear. */
  ghost predicate Unmarked(b: Bitmap, b': Bitmap, o: nat, n: nat) {
    forall i: nat :: i < 512 ==> (Get(b', i) <==> Get(b, i) && !(o <= i < o + n))
  }

  lemma MarkStep(b: Bitmap, b': Bitmap, o: nat, j: nat)
    requires Marked(b, b', o, j) && o + j < 512
    ensures Marked(b, Put(b', o + j), o, j + 1)
  {
    hide Get, Put;
    forall i: nat | i < 512 ensures Get(Put(b', o + j), i) <==> Get(b, i) || o <= i < o + j + 1 {
      PutGets(b', o + j, i);
    }
  }

  lemma UnmarkStep(b: Bitmap, b': Bitmap, o: nat, j: nat)
    requires Unmarked(b, b', o, j) && o + j < 512
    ensures Unmarked(b, Cut(b', o + j), o, j + 1)
  {
    hide Get, Cut;
    forall i: nat | i < 512 ensures Get(Cut(b', o + j), i) <==> Get(b, i) && !(o <= i < o + j + 1) {
      CutGets(b', o + j, i);
    }
  }

  /** Marks a free run; the assertion that no slot is overwritten never fails. */
  method MarkSlots(b: Bitmap, offset: nat, slotlen: nat) returns (b': Bitmap)
    requires Run(b, offset, slotlen)
    ensures Marked(b, b', offset, slotlen)
  {
    hide Get, Put;
    b' := b;
    var j := 0;
    while j < slotlen
      invariant j <= slotlen && Marked(b, b', offset, j)
    {
      assert !Get(b', j + offset);
      MarkStep(b, b', offset, j);
      b' := Put(b', offset + j);
      j := j + 1;
    }
  }

  /** Clears the slots of a block; the check for a double delete never fires on slots that are all set. */
  method ClearSlots(b: Bitmap, start: nat, n: nat) returns (b': Bitmap)
    requires start + n <= SLOTS && forall i :: start <= i < start + n ==> Get(b, i)
    ensures Unmarked(b, b', start, n)
  {
    hide Get, Cut;
    b' := b;
    var i := 0;
    while i < n
      invariant i <= n && Unmarked(b, b', start, i)
    {
      assert Get(b', start + i);
      UnmarkStep(b, b', start, i);
      b' := Cut(b', start + i);
      i := i + 1;
    }
  }

  /** What the two loops write on a fresh page: the first n slots used, the other slots free, bits 502 to 511 kept. */
  ghost predicate Initialised(raw: Bitmap, b: Bitmap, n: nat) {
    forall i: nat :: i < 512 ==> (Get(b, i) <==> i < n || (i >= SLOTS && Get(raw, i)))
  }

  method InitSlots(raw: Bitmap, n: nat) returns (b: Bitmap)
    requires n <= SLOTS
    ensures Initialised(raw, b, n)
  {
    hide Get, Put, Cut;
    b := raw;
    var i := 0;
    while i < n
      invariant i <= n && Marked(raw, b, 0, i)
    {
      MarkStep(raw, b, 0, i);
      b := Put(b, i);
      i := i + 1;
    }
    ghost var half := b;
    while i < SLOTS
      invariant n <= i <= SLOTS && Unmarked(half, b, n, i - n)
    {
      UnmarkStep(half, b, n, i - n);
      b := Cut(b, i);
      i := i + 1;
    }
  }

  /** The last bit marks a page as the end of a big block. */
  lemma PutBig(b: Bitmap)
    ensures forall i: nat :: i < 512 ==> (Get(Put(b, BIG), i) <==> Get(b, i) || i == BIG)
  {
    hide Get, Put;
    forall i: nat | i < 512 ensures Get(Put(b, BIG), i) <==> Get(b, i) || i == BIG {
      PutGets(b, BIG, i);
    }
  }

  lemma CutBig(b: Bitmap)
    ensures forall i: nat :: i < 512 ==> (Get(Cut(b, BIG), i) <==> Get(b, i) && i != BIG)
  {
    hide Get, Cut;
    forall i: nat | i < 512 ensures Get(Cut(b, BIG), i) <==> Get(b, i) && i != BIG {
      CutGets(b, BIG, i);
    }
  }

  // ---------- what the code needs of its callers ----------

  /** The bucket index `502 - num_lastpg` of a fresh page is inside the table exactly for lengths whose last page
      leaves room for the trailer. */
  lemma FreshBucketIff(len: nat)
    ensures TailSlots(len) <= SLOTS <==> len % PAGE <= PAGE - TRAILER
  {}

  /** When its last block is deleted, a page comes back to all zero words exactly if the words of the fresh page
      had bits 502 to 511 clear; otherwise the page is never given back. */
  lemma FreshBitsIff(raw: Bitmap, b: Bitmap, b': Bitmap, n: nat)
    requires n <= SLOTS && Initialised(raw, b, n) && Unmarked(b, b', 0, n)
    ensures (forall w :: 0 <= w < 8 ==> b'[w] == 0) <==> Tidy(raw)
  {
    hide Get;
    ZeroWords(b');
    if Tidy(raw) {
      forall i: nat | i < 512 ensures !Get(b', i) {}
    }
    if forall i: nat :: i < 512 ==> !Get(b', i) {
      forall i: nat | SLOTS <= i < 512 ensures !Get(raw, i) { assert !Get(b', i); }
    }
  }

  /** Bits 502 to 511 are clear, as in a zeroed frame. */
  ghost predicate Tidy(b: Bitmap) {
    forall i: nat :: SLOTS <= i < 512 ==> !Get(b, i)
  }

  // ---------- the heap ----------

  class Heap {
    var page: Pages
    var head: seq<nat>
    ghost var lists: seq<seq<nat>>
    /** Live blocks, from address to length. */
    ghost var live: map<nat, nat>
    /** Page numbers obtained from kmmap and not given back. */
    ghost var held: set<nat>

    ghost predicate Valid()
      reads this
    {
      HeapOk(page, head, lists, live, held)
    }

    constructor ()
      ensures Valid() && live == map[] && held == {} && page == map[]
    {
      page, head := map[], seq(BUCKETS, i => 0);
      lists, live, held := seq(BUCKETS, i => []), map[], {};
    }

    /** Takes page p off its list; `bucket` is the list that p heads if it heads one. */
    method Unlink(p: nat, bucket: nat)
      requires p in page && |head| == BUCKETS && bucket < BUCKETS
      modifies this`page, this`head
      ensures page == CutPages(old(page), p)
      ensures head == old(head)[bucket := CutHead(old(page), old(head)[bucket], p)]
    {
      var pg := page[p];
      if pg.prev == 0 {
        if pg.next != 0 && pg.next in page { page := page[pg.next := page[pg.next].(prev := 0)]; }
        head := head[bucket := pg.next];
      } else {
        if pg.next != 0 && pg.next in page { page := page[pg.next := page[pg.next].(prev := pg.prev)]; }
        if pg.prev in page { page := page[pg.prev := page[pg.prev].(next := pg.next)]; }
      }
    }

    method Relink(p: nat, bucket: nat)
      requires p in page && |head| == BUCKETS && bucket < BUCKETS
      modifies this`page, this`head
      ensures page == PushPages(old(page), old(head)[bucket], p)
      ensures head == old(head)[bucket := p]
    {
      var h := head[bucket];
      if h != 0 && h in page { page := page[h := page[h].(prev := p)]; }
      page := page[p := page[p].(next := h, prev := 0)];
      head := head[bucket := p];
    }

    /** Serves the block from the first page of bucket i. */
    method TakeFrom(i: nat, len: nat) returns (r: nat)
      requires Valid() && GoodLen(len) && Slots(len) <= i < BUCKETS && lists[i] != []
      modifies this
      ensures Valid() && held == old(held)
      ensures r !in old(live) && live == old(live)[r := len]
      ensures r / PAGE == old(lists)[i][0] && r / PAGE in old(page)
      ensures Run(old(page)[r / PAGE].bitmap, StartSlot(r), Slots(len))
      ensures NoneBefore(old(page)[r / PAGE].bitmap, Slots(len), StartSlot(r))
    {
      hide ListOk, Bucketed, AllListed, Accounts, Longest, Run, NoneBefore, Marked, Loose, CutPages, PushPages, BlockOk;
      hide GoodLen, NumPages;
      ghost var page0, head0, lists0 := page, head, lists;
      FrontPage(page, head, lists, i);
      LenFacts(len);
      var p := head[i];
      var slotlen := (len + 7) / 8;
      var offset := FindAperture(slotlen, page[p].bitmap);
      ApertureFound(page[p].bitmap, slotlen, i, offset);
      assert offset != NONE;
      var b := MarkSlots(page[p].bitmap, offset, slotlen);
      page := page[p := page[p].(bitmap := b)];
      var newMax := FindMaxApertsize(b);
      CutLoosens(page0, head0, lists0, i, 0, b);
      TakeAccounts(page0, live, held, p, offset, len, b);
      Unlink(p, i);
      lists := lists[i := Without(lists[i], 0)];
      FinishRelink(MapBlock(page0, p, b), page, head, lists, p, newMax, live[p * PAGE + 8 * offset := len], held);
      Relink(p, newMax);
      lists := lists[newMax := [p] + lists[newMax]];
      SlotAddress(p, offset);
      r := p * PAGE + 8 * offset;
      live := live[r := len];
    }

    /** Serves the block from the fresh run of pages that kmmap granted at page q. */
    method TakeFresh(q: nat, raw: Bitmap, len: nat) returns (r: nat)
      requires Valid() && GoodLen(len) && q > 0 && PageRun(q, NumPages(len)) !! held && Tidy(raw)
      modifies this
      ensures Valid() && held == old(held) + PageRun(q, NumPages(len))
      ensures r == q * PAGE && r !in old(live) && live == old(live)[r := len]
    {
      hide Linked, Bucketed, AllListed, Accounts, Longest, Initialised, Loose, PushPages, GoodLen, NumPages, PageRun;
      ghost var page0 := page;
      LenFacts(len);
      var numpage := NumPages(len);
      var newpg := q + numpage - 1;
      var b := InitSlots(raw, TailSlots(len));
      ghost var small := b;
      if numpage > 1 {
        PutBig(b);
        b := Put(b, BIG);
      }
      FreshAccounts(page, live, held, q, len, raw, small, b);
      FreshIsLoose(page, head, lists, newpg, SmallPage(b, 0, 0));
      page := page[newpg := SmallPage(b, 0, 0)];
      FinishRelink(page, page, head, lists, newpg, SLOTS - TailSlots(len), live[q * PAGE := len],
                   held + PageRun(q, numpage));
      Relink(newpg, SLOTS - TailSlots(len));
      lists := lists[SLOTS - TailSlots(len) := [newpg] + lists[SLOTS - TailSlots(len)]];
      held := held + PageRun(q, numpage);
      r := q * PAGE;
      live := live[r := len];
    }

    /** operator new.  `grant` is the page kmmap answers with if it is asked, None when it throws; `raw` is what
        its last page holds where the bitmap goes.  kmmap is asked only when no held page has room; otherwise the
        block goes to the lowest room of a page whose longest run is the shortest that is long enough. */
    method OperatorNew(len: nat, grant: Option<nat>, raw: Bitmap) returns (r: Option<nat>)
      requires Valid() && GoodLen(len)
      requires grant.Some? ==> grant.value > 0 && PageRun(grant.value, NumPages(len)) !! held && Tidy(raw)
      modifies this
      ensures Valid()
      ensures r.Some? ==> r.value !in old(live) && live == old(live)[r.value := len]
      ensures r.None? <==> !Fits(old(page), Slots(len)) && grant.None?
      ensures r.None? ==> page == old(page) && head == old(head) && live == old(live) && held == old(held)
      ensures Fits(old(page), Slots(len)) ==>
                && held == old(held) && r.Some? && BestFit(old(page), r.value / PAGE, Slots(len))
                && Run(old(page)[r.value / PAGE].bitmap, StartSlot(r.value), Slots(len))
                && NoneBefore(old(page)[r.value / PAGE].bitmap, Slots(len), StartSlot(r.value))
      ensures !Fits(old(page), Slots(len)) && grant.Some? ==>
                r == Some(grant.value * PAGE) && held == old(held) + PageRun(grant.value, NumPages(len))
    {
      hide Accounts, Longest, Run, NoneBefore, BestFit, Fits, Bucketed, AllListed, Linked, GoodLen, NumPages, PageRun;
      hide Tidy;
      var i := (len + 7) / 8;
      while i < 503
        invariant Slots(len) <= i && (i <= BUCKETS || i == Slots(len))
        invariant EmptyFrom(lists, Slots(len), i)
        invariant Valid() && lists == old(lists) && page == old(page) && head == old(head) && live == old(live)
                  && held == old(held)
      {
        BucketEmptyIff(page, head, lists, i);
        if head[i] != 0 {
          ShortestIsBest(page, head, lists, Slots(len), i);
          var a := TakeFrom(i, len);
          FitsAt(old(page), a / PAGE, StartSlot(a), Slots(len));
          return Some(a);
        }
        i := i + 1;
      }
      NothingFits(page, head, lists, Slots(len), i);
      if grant.None? { return None; }
      var a := TakeFresh(grant.value, raw, len);
      return Some(a);
    }

    /** The end of operator delete: an all-zero page goes back to kmunmap, another one is relinked. */
    method GiveBackOrRelink(p: nat, currConseq: nat) returns (released: set<nat>)
      requires Loose(page, head, lists, p) && Longest(page[p].bitmap, currConseq)
      requires BlocksOk(page, live, held) && PagesOk(page, live, held)
      requires forall q: nat :: q in page && q != p ==> NonEmptyBits(page[q].bitmap)
      modifies this
      ensures Valid() && live == old(live) && released <= old(held) && held == old(held) - released
      ensures released == if NonEmptyBits(old(page)[p].bitmap) then {} else {p}
    {
      hide ListOk, Bucketed, AllListed, BlocksOk, NoneEmpty, PushPages, NonEmptyBits, BitsOk, HeadOwned;
      LongestUnique(page[p].bitmap, currConseq, currConseq);
      hide Longest;
      released := {};
      var deletePage := AllZero(page[p].bitmap);
      if deletePage {
        DropRestores(page, head, lists, p);
        DropEmptyPage(page, live, held, p);
        page := page - {p};
        held := held - {p};
        released := {p};
      } else {
        StillFull(page, live, held, p);
        FinishRelink(page, page, head, lists, p, currConseq, live, held);
        Relink(p, currConseq);
        lists := lists[currConseq := [p] + lists[currConseq]];
      }
    }

    /** operator delete on a live block with its length, or on nothing.  `released` are the pages kmunmap gets. */
    method OperatorDelete(ptr: nat, len: nat) returns (released: set<nat>)
      requires Valid() && (len == 0 || ptr == 0 || (ptr in live && live[ptr] == len))
      modifies this
      ensures Valid() && released <= old(held) && held == old(held) - released
      ensures len == 0 || ptr == 0 ==> released == {} && page == old(page) && head == old(head) && live == old(live)
      ensures len != 0 && ptr != 0 ==> live == old(live) - {ptr}
      ensures len != 0 && ptr != 0 ==> Heads(ptr, len) <= released <= Heads(ptr, len) + {TailPage(ptr, len)}
    {
      hide ListOk, Bucketed, AllListed, BlocksOk, PagesOk, NoneEmpty, Longest, Loose, CutPages, GoodLen, NumPages;
      hide StartSlot, TailSlots, BlockOk, Cleared, Heads, NonEmptyBits, Listed, Get, CutHead;
      released := {};
      if len == 0 || ptr == 0 { return; }
      ghost var page0, head0, lists0 := page, head, lists;
      LiveBitsSet(page, live, held, ptr);
      StartOf(ptr, len);
      var p := if ptr % PAGE == 0 then ptr / PAGE + NumPages(len) - 1 else ptr / PAGE;
      if ptr % PAGE == 0 {
        released := Heads(ptr, len);
      }
      var prevConseq := FindMaxApertsize(page[p].bitmap);
      var b := ClearBlock(page[p].bitmap, ptr, len);
      var currConseq := FindMaxApertsize(b);
      InItsBucket(page0, head0, lists0, p, prevConseq);
      ghost var j :| 0 <= j < |lists[prevConseq]| && lists[prevConseq][j] == p;
      CutLoosens(page0, head0, lists0, prevConseq, j, b);
      DeleteBits(page0, live, held, ptr, b);
      page := page[p := page[p].(bitmap := b)];
      Unlink(p, prevConseq);
      lists := lists[prevConseq := Without(lists[prevConseq], j)];
      live := live - {ptr};
      held := held - released;
      LooseAccounts(MapBlock(page0, p, b), page, live, held, p);
      var last := GiveBackOrRelink(p, currConseq);
      released := released + last;
    }
  }

  // ---------- steps of the methods ----------

  /** Where operator delete looks for the block. */
  lemma StartOf(ptr: nat, len: nat)
    requires BlockOk(ptr, len)
    ensures ptr % PAGE == 0 ==> StartSlot(ptr) == 0
    ensures ptr % PAGE != 0 ==> NumPages(len) == 1 && TailSlots(len) == Slots(len) && TailPage(ptr, len) == ptr / PAGE
    ensures NumPages(len) == 1 ==> Heads(ptr, len) == {}
    ensures StartSlot(ptr) + TailSlots(len) <= SLOTS
  {
    LenFacts(len);
  }

  /** The two ways operator delete clears a block. */
  method ClearBlock(b: Bitmap, ptr: nat, len: nat) returns (b': Bitmap)
    requires BlockOk(ptr, len)
    requires forall i: nat :: StartSlot(ptr) <= i < StartSlot(ptr) + TailSlots(len) ==> Get(b, i)
    ensures Cleared(b, b', ptr, len)
  {
    hide Get, Cut, NumPages, BlockOk;
    StartOf(ptr, len);
    if ptr % PAGE == 0 {
      b' := ClearSlots(b, 0, TailSlots(len));
      if NumPages(len) > 1 {
        CutBig(b');
        b' := Cut(b', BIG);
      }
    } else {
      b' := ClearSlots(b, ptr % PAGE / 8, (len + 7) / 8);
    }
  }

  /** The test for an empty page, word by word. */
  method AllZero(b: Bitmap) returns (r: bool)
    ensures r <==> !NonEmptyBits(b)
  {
    hide Get;
    ZeroWords(b);
    r := true;
    var i := 0;
    while i < 8
      invariant i <= 8 && r && forall w :: 0 <= w < i ==> b[w] == 0
    {
      if b[i] != 0 { return false; }
      i := i + 1;
    }
  }

  lemma LooseAccounts(page1: Pages, page: Pages, live: map<nat, nat>, held: set<nat>, p: nat)
    requires SameBitmaps(page1, page) && BlocksOk(page1, live, held) && PagesOk(page1, live, held)
    requires forall q: nat :: q in page1 && q != p ==> NonEmptyBits(page1[q].bitmap)
    ensures BlocksOk(page, live, held) && PagesOk(page, live, held)
    ensures forall q: nat :: q in page && q != p ==> NonEmptyBits(page[q].bitmap)
  {
    hide BlocksOk, PagesOk, NonEmptyBits;
    SameBitmapsAccounts(page1, page, live, held);
  }

  lemma StillFull(page: Pages, live: map<nat, nat>, held: set<nat>, p: nat)
    requires BlocksOk(page, live, held) && PagesOk(page, live, held) && p in page && NonEmptyBits(page[p].bitmap)
    requires forall q: nat :: q in page && q != p ==> NonEmptyBits(page[q].bitmap)
    ensures Accounts(page, live, held)
  {
    hide BlocksOk, PagesOk, NonEmptyBits;
  }

  lemma FrontPage(page: Pages, head: seq<nat>, lists: seq<seq<nat>>, i: nat)
    requires Linked(page, head, lists) && Bucketed(page, lists) && i < BUCKETS && lists[i] != []
    ensures head[i] == lists[i][0] && head[i] in page && head[i] != 0 && Longest(page[head[i]].bitmap, i)
  {
    hide LinkOk, Longest;
    assert ListOk(page, head[i], lists[i]);
    FrontOfBucket(page, head[i], lists[i]);
  }

  lemma BucketEmptyIff(page: Pages, head: seq<nat>, lists: seq<seq<nat>>, i: nat)
    requires Linked(page, head, lists) && i < BUCKETS
    ensures |head| == |lists| == BUCKETS && (head[i] == 0 <==> lists[i] == [])
  {
    hide LinkOk;
    assert ListOk(page, head[i], lists[i]);
    FrontOfBucket(page, head[i], lists[i]);
  }

  /** The aperture promised by the bucket is found. */
  lemma ApertureFound(b: Bitmap, slotlen: nat, k: nat, offset: nat)
    requires Longest(b, k) && 0 < slotlen <= k
    requires offset == NONE ==> forall o: nat :: !Run(b, o, slotlen)
    requires offset != NONE ==> Run(b, offset, slotlen)
    ensures offset != NONE && offset < SLOTS
  {
    ApertureIff(b, slotlen, k);
  }

  lemma FitsAt(page: Pages, p: nat, o: nat, n: nat)
    requires p in page && Run(page[p].bitmap, o, n)
    ensures Fits(page, n)
  {}

  lemma NothingFits(page: Pages, head: seq<nat>, lists: seq<seq<nat>>, n: nat, i: nat)
    requires Linked(page, head, lists) && Bucketed(page, lists) && AllListed(page, lists)
    requires EmptyFrom(lists, n, i) && (i == BUCKETS || i == n > BUCKETS) && n <= i
    ensures !Fits(page, n)
  {
    hide Linked, Bucketed, AllListed;
    if i == BUCKETS { ShortestIsBest(page, head, lists, n, i); }
  }

  lemma TakeAccounts(page: Pages, live: map<nat, nat>, held: set<nat>, p: nat, o: nat, len: nat, b: Bitmap)
    requires Accounts(page, live, held) && p in page && GoodLen(len) && Slots(len) <= SLOTS
    requires Run(page[p].bitmap, o, Slots(len)) && Marked(page[p].bitmap, b, o, Slots(len))
    ensures p * PAGE + 8 * o !in live && Accounts(MapBlock(page, p, b), live[p * PAGE + 8 * o := len], held)
  {
    hide Accounts, Run, BlockOk, Get;
    LenFacts(len);
    NewInPage(page, live, held, p, o, len, b);
  }

  lemma FreshAccounts(page: Pages, live: map<nat, nat>, held: set<nat>, q: nat, len: nat, raw: Bitmap, small: Bitmap,
      b: Bitmap)
    requires Accounts(page, live, held) && GoodLen(len) && q > 0 && PageRun(q, NumPages(len)) !! held && Tidy(raw)
    requires TailSlots(len) <= SLOTS && Initialised(raw, small, TailSlots(len))
    requires NumPages(len) == 1 ==> b == small
    requires NumPages(len) > 1 ==> forall i: nat :: i < 512 ==> (Get(b, i) <==> Get(small, i) || i == BIG)
    ensures q * PAGE !in live && q + NumPages(len) - 1 !in page && Longest(b, SLOTS - TailSlots(len))
    ensures Accounts(page[q + NumPages(len) - 1 := SmallPage(b, 0, 0)], live[q * PAGE := len],
                     held + PageRun(q, NumPages(len)))
  {
    hide Get, BlockOk, TailSlots, NumPages, GoodLen, BlocksOk, BitsOk, NoneEmpty;
    assert InRun(q, NumPages(len), q + NumPages(len) - 1);
    NewPages(page, live, held, q, len, SmallPage(b, 0, 0));
    LongestOfTail(b, TailSlots(len));
  }

  lemma FinishRelink(page0: Pages, page: Pages, head: seq<nat>, lists: seq<seq<nat>>, p: nat, k: nat,
      live: map<nat, nat>, held: set<nat>)
    requires Loose(page, head, lists, p) && k < BUCKETS && Longest(page[p].bitmap, k)
    requires SameBitmaps(page0, page) && Accounts(page0, live, held)
    ensures |head| == |lists| == BUCKETS
    ensures HeapOk(PushPages(page, head[k], p), head[k := p], lists[k := [p] + lists[k]], live, held)
  {
    hide Bucketed, AllListed, Accounts, Longest, PushPages;
    PushRestores(page, head, lists, p, k);
    SameBitmapsAccounts(page0, page, live, held);
    SameBitmapsAccounts(page, PushPages(page, head[k], p), live, held);
  }
}
