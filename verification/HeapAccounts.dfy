/** Which pages and slots live heap blocks own. */
module HeapAccounts {
  import opened Machine
  import opened SlotMap
  import opened BucketLists

  /** Bytes of a page that are not slots: two links and the bitmap. */
  const TRAILER: nat := 80

  function NumPages(len: nat): (n: nat)
    ensures n > 0
  {
    (len + TRAILER + 4095) / PAGE
  }

  /** Slots the block uses in its last page. */
  function TailSlots(len: nat): nat {
    (len % PAGE + 7) / 8
  }

  /** Sizes the allocator can serve: not zero, the slot count fits 32 bits, and the last page has room for its
      trailer. */
  predicate GoodLen(len: nat) {
    0 < len < 0x8_0000_0000 && len % PAGE <= PAGE - TRAILER
  }

  lemma LenFacts(len: nat)
    requires GoodLen(len)
    ensures NumPages(len) == len / PAGE + 1 && TailSlots(len) <= SLOTS
    ensures NumPages(len) == 1 <==> (len + 7) / 8 <= SLOTS
    ensures NumPages(len) == 1 ==> 0 < TailSlots(len) == (len + 7) / 8
  {}

  function TailPage(ptr: nat, len: nat): nat {
    ptr / PAGE + NumPages(len) - 1
  }

  function StartSlot(ptr: nat): nat {
    ptr % PAGE / 8
  }

  ghost predicate IsHead(ptr: nat, len: nat, p: nat) {
    ptr / PAGE <= p < TailPage(ptr, len)
  }

  ghost predicate Occupies(ptr: nat, len: nat, p: nat, i: nat) {
    p == TailPage(ptr, len) && StartSlot(ptr) <= i < StartSlot(ptr) + TailSlots(len)
  }

  ghost predicate BlockOk(ptr: nat, len: nat) {
    && GoodLen(len) && ptr >= PAGE && ptr % 8 == 0
    && (NumPages(len) > 1 ==> ptr % PAGE == 0)
    && StartSlot(ptr) + TailSlots(len) <= SLOTS
  }

  ghost predicate SlotOwned(live: map<nat, nat>, p: nat, i: nat) {
    exists b :: b in live && Occupies(b, live[b], p, i)
  }

  /** p is the last page of a live block of several pages. */
  ghost predicate BigTail(live: map<nat, nat>, p: nat) {
    exists b :: b in live && NumPages(live[b]) > 1 && p == TailPage(b, live[b])
  }

  ghost predicate HeadOwned(live: map<nat, nat>, p: nat) {
    exists b :: b in live && IsHead(b, live[b], p)
  }

  /** The bitmap says exactly which slots of p are live, and whether p ends a big block. */
  ghost predicate BitsOk(b: Bitmap, live: map<nat, nat>, p: nat) {
    forall i: nat :: i < 512 ==>
      (Get(b, i) <==> (i < SLOTS && SlotOwned(live, p, i)) || (i == BIG && BigTail(live, p)))
  }

  /** Two live blocks share no slot, no head page, and no last page if both are big. */
  ghost predicate Apart(b: nat, m: nat, c: nat, n: nat) {
    && (forall p: nat, i: nat :: !(Occupies(b, m, p, i) && Occupies(c, n, p, i)))
    && (forall p: nat :: !(IsHead(b, m, p) && IsHead(c, n, p)))
    && (NumPages(m) > 1 && NumPages(n) > 1 ==> TailPage(b, m) != TailPage(c, n))
  }

  ghost predicate BlocksOk(page: Pages, live: map<nat, nat>, held: set<nat>) {
    && (forall b :: b in live ==> BlockOk(b, live[b]) && TailPage(b, live[b]) in page)
    && (forall b, p: nat :: b in live && IsHead(b, live[b], p) ==> p in held && p !in page)
    && (forall b, c :: b in live && c in live && b != c ==> Apart(b, live[b], c, live[c]))
  }

  ghost predicate PagesOk(page: Pages, live: map<nat, nat>, held: set<nat>) {
    && page.Keys <= held && 0 !in held
    && (forall p: nat :: p in held ==> p in page || HeadOwned(live, p))
    && (forall p: nat :: p in page ==> BitsOk(page[p].bitmap, live, p))
  }

  ghost predicate NonEmptyBits(b: Bitmap) {
    exists i: nat :: i < 512 && Get(b, i)
  }


  /** Held pages that carry a bitmap still have something in them. */
  ghost predicate NoneEmpty(page: Pages) {
    forall p: nat :: p in page ==> NonEmptyBits(page[p].bitmap)
  }

  ghost predicate Accounts(page: Pages, live: map<nat, nat>, held: set<nat>) {
    BlocksOk(page, live, held) && PagesOk(page, live, held) && NoneEmpty(page)
  }

  /** Every held page has something live in it. */
  lemma HeldHasLive(page: Pages, live: map<nat, nat>, held: set<nat>, p: nat)
    requires Accounts(page, live, held) && p in held
    ensures exists b :: b in live
  {
    hide Get;
    if p in page {
      var i: nat :| i < 512 && Get(page[p].bitmap, i);
      assert BitsOk(page[p].bitmap, live, p);
    }
  }

  /** With no live block no page is held: deleting everything returns every page. */
  lemma NothingLiveNothingHeld(page: Pages, live: map<nat, nat>, held: set<nat>)
    requires Accounts(page, live, held) && live == map[]
    ensures held == {}
  {
    hide Accounts;
    if held != {} {
      var p :| p in held;
      HeldHasLive(page, live, held, p);
    }
  }

  // ---------- operator new in a page that is already held ----------

  /** Where a live block starts, its page is a head page or the slot is set. */
  lemma LiveStart(page: Pages, live: map<nat, nat>, held: set<nat>, ptr: nat)
    requires BlocksOk(page, live, held) && PagesOk(page, live, held) && ptr in live
    ensures ptr / PAGE in held
    ensures ptr / PAGE in page ==> StartSlot(ptr) < SLOTS && Get(page[ptr / PAGE].bitmap, StartSlot(ptr))
  {
    hide Get, Apart;
    assert BlockOk(ptr, live[ptr]);
    LenFacts(live[ptr]);
    var p := ptr / PAGE;
    if NumPages(live[ptr]) > 1 {
      assert IsHead(ptr, live[ptr], p);
    } else {
      assert Occupies(ptr, live[ptr], p, StartSlot(ptr));
      assert BitsOk(page[p].bitmap, live, p);
    }
  }

  lemma SlotAddress(p: nat, o: nat)
    requires o < SLOTS
    ensures var ptr: nat := p * PAGE + 8 * o;
            ptr / PAGE == p && StartSlot(ptr) == o && ptr % 8 == 0 && (o == 0 ==> ptr % PAGE == 0)
  {}

  lemma SmallBlock(p: nat, o: nat, len: nat)
    requires GoodLen(len) && NumPages(len) == 1 && p > 0 && o + TailSlots(len) <= SLOTS
    ensures var ptr: nat := p * PAGE + 8 * o;
            && BlockOk(ptr, len) && (forall q: nat :: !IsHead(ptr, len, q))
            && forall q: nat, i: nat :: Occupies(ptr, len, q, i) <==> q == p && o <= i < o + TailSlots(len)
  {
    LenFacts(len);
    SlotAddress(p, o);
  }

  lemma FreeNotOwned(page: Pages, live: map<nat, nat>, held: set<nat>, p: nat, o: nat, n: nat)
    requires PagesOk(page, live, held) && p in page && Run(page[p].bitmap, o, n)
    ensures forall i: nat :: o <= i < o + n ==> !SlotOwned(live, p, i)
  {
    hide Get, SlotOwned;
    assert BitsOk(page[p].bitmap, live, p);
  }

  ghost function MapBlock(page: Pages, p: nat, b: Bitmap): Pages
    requires p in page
  {
    page[p := page[p].(bitmap := b)]
  }

  /** A block on slots that nobody owns is apart from every live block. */
  lemma ApartOnFreeSlots(live: map<nat, nat>, ptr: nat, len: nat, p: nat, o: nat, n: nat)
    requires forall q: nat :: !IsHead(ptr, len, q)
    requires forall q: nat, i: nat :: Occupies(ptr, len, q, i) <==> q == p && o <= i < o + n
    requires forall i: nat :: o <= i < o + n ==> !SlotOwned(live, p, i)
    requires NumPages(len) == 1
    ensures forall c :: c in live ==> Apart(ptr, len, c, live[c]) && Apart(c, live[c], ptr, len)
  {
    hide Occupies, IsHead, NumPages, TailPage;
    forall c | c in live ensures Apart(ptr, len, c, live[c]) && Apart(c, live[c], ptr, len) {
      forall q: nat, i: nat ensures !(Occupies(ptr, len, q, i) && Occupies(c, live[c], q, i)) {
        OwnerIsOwner(live, c, q, i);
      }
    }
  }

  lemma OwnerIsOwner(live: map<nat, nat>, c: nat, q: nat, i: nat)
    requires c in live
    ensures Occupies(c, live[c], q, i) ==> SlotOwned(live, q, i)
  {
    hide Occupies;
  }

  lemma BlocksOkNew(page: Pages, live: map<nat, nat>, held: set<nat>, page': Pages, held': set<nat>, ptr: nat, len: nat)
    requires BlocksOk(page, live, held) && ptr !in live && BlockOk(ptr, len)
    requires page.Keys <= page'.Keys && held <= held' && TailPage(ptr, len) in page'
    requires forall p: nat :: p in held && p !in page ==> p !in page'
    requires forall p: nat :: IsHead(ptr, len, p) ==> p in held' && p !in page'
    requires forall c :: c in live ==> Apart(ptr, len, c, live[c]) && Apart(c, live[c], ptr, len)
    ensures BlocksOk(page', live[ptr := len], held')
  {
    hide BlockOk, Apart, IsHead, TailPage;
  }

  lemma MoreBits(b: Bitmap, b': Bitmap)
    requires NonEmptyBits(b) && forall i: nat :: i < 512 && Get(b, i) ==> Get(b', i)
    ensures NonEmptyBits(b')
  {
    hide Get;
  }

  /** Marking a free run and handing it out keeps the accounts. */
  lemma NewInPage(page: Pages, live: map<nat, nat>, held: set<nat>, p: nat, o: nat, len: nat, b': Bitmap)
    requires Accounts(page, live, held) && p in page && GoodLen(len) && NumPages(len) == 1
    requires Run(page[p].bitmap, o, TailSlots(len))
    requires forall i: nat :: i < 512 ==> (Get(b', i) <==> Get(page[p].bitmap, i) || o <= i < o + TailSlots(len))
    ensures var ptr: nat := p * PAGE + 8 * o;
            && ptr !in live && BlockOk(ptr, len)
            && Accounts(MapBlock(page, p, b'), live[ptr := len], held)
  {
    hide Get, BlockOk, TailSlots, NumPages, GoodLen, StartSlot, TailPage, Occupies, IsHead, Apart, SlotOwned, BigTail;
    hide HeadOwned, NonEmptyBits;
    var ptr: nat := p * PAGE + 8 * o;
    LenFacts(len);
    SmallBlock(p, o, len);
    SlotAddress(p, o);
    FreeInRun(page[p].bitmap, o, TailSlots(len), o);
    if ptr in live { LiveStart(page, live, held, ptr); }
    FreeNotOwned(page, live, held, p, o, TailSlots(len));
    SmallTail(ptr, len, p);
    ApartOnFreeSlots(live, ptr, len, p, o, TailSlots(len));
    var page' := MapBlock(page, p, b');
    var live' := live[ptr := len];
    BlocksOkNew(page, live, held, page', held, ptr, len);
    OwnersAfterNew(live, ptr, len);
    forall q: nat | q in page' ensures BitsOk(page'[q].bitmap, live', q) && NonEmptyBits(page'[q].bitmap) {
      assert BitsOk(page[q].bitmap, live, q) && NonEmptyBits(page[q].bitmap);
      if q == p {
        MarkedBits(page[p].bitmap, b', live, ptr, len, p, o, TailSlots(len));
        MoreBits(page[p].bitmap, b');
      } else {
        OtherBits(page, live, q, ptr, len);
      }
    }
  }

  /** The bitmap of the page that serves the block agrees with the new owners. */
  lemma MarkedBits(b: Bitmap, b': Bitmap, live: map<nat, nat>, ptr: nat, len: nat, p: nat, o: nat, n: nat)
    requires BitsOk(b, live, p) && ptr !in live && NumPages(len) == 1 && o + n <= SLOTS
    requires forall i: nat :: Occupies(ptr, len, p, i) <==> o <= i < o + n
    requires forall i: nat :: i < 512 ==> (Get(b', i) <==> Get(b, i) || o <= i < o + n)
    ensures BitsOk(b', live[ptr := len], p)
  {
    hide Get, NumPages, TailPage, Occupies, SlotOwned, BigTail;
    OwnersAfterNew(live, ptr, len);
    var live' := live[ptr := len];
    forall i: nat | i < 512
      ensures Get(b', i) <==> (i < SLOTS && SlotOwned(live', p, i)) || (i == BIG && BigTail(live', p))
    {
      assert SlotOwned(live', p, i) <==> SlotOwned(live, p, i) || Occupies(ptr, len, p, i);
      assert BigTail(live', p) <==> BigTail(live, p);
    }
  }

  lemma SmallTail(ptr: nat, len: nat, p: nat)
    requires NumPages(len) == 1 && ptr / PAGE == p
    ensures TailPage(ptr, len) == p
  {}

  /** What a new block adds to the owned slots, last pages and head pages. */
  lemma OwnersAfterNew(live: map<nat, nat>, ptr: nat, len: nat)
    requires ptr !in live
    ensures forall p: nat, i: nat :: SlotOwned(live[ptr := len], p, i) <==>
            SlotOwned(live, p, i) || Occupies(ptr, len, p, i)
    ensures forall p: nat :: BigTail(live[ptr := len], p) <==>
            BigTail(live, p) || (NumPages(len) > 1 && p == TailPage(ptr, len))
    ensures forall p: nat :: HeadOwned(live[ptr := len], p) <==> HeadOwned(live, p) || IsHead(ptr, len, p)
  {
    hide Occupies, NumPages, TailPage, IsHead;
    var live' := live[ptr := len];
    forall p: nat, i: nat ensures SlotOwned(live', p, i) <==> SlotOwned(live, p, i) || Occupies(ptr, len, p, i) {
      if b :| b in live && Occupies(b, live[b], p, i) { assert b in live' && live'[b] == live[b]; }
      if Occupies(ptr, len, p, i) { assert ptr in live'; }
    }
    forall p: nat ensures BigTail(live', p) <==> BigTail(live, p) || (NumPages(len) > 1 && p == TailPage(ptr, len)) {
      if b :| b in live && NumPages(live[b]) > 1 && p == TailPage(b, live[b]) {
        assert b in live' && live'[b] == live[b];
      }
      if NumPages(len) > 1 && p == TailPage(ptr, len) { assert ptr in live'; }
    }
    forall p: nat ensures HeadOwned(live', p) <==> HeadOwned(live, p) || IsHead(ptr, len, p) {
      if b :| b in live && IsHead(b, live[b], p) { assert b in live' && live'[b] == live[b]; }
      if IsHead(ptr, len, p) { assert ptr in live'; }
    }
  }

  // ---------- operator new with fresh pages ----------

  predicate InRun(q: nat, n: nat, p: nat) {
    q <= p < q + n
  }

  function PageRun(q: nat, n: nat): set<nat> {
    set p: nat | q <= p < q + n && InRun(q, n, p)
  }

  lemma FreshBlock(q: nat, len: nat)
    requires GoodLen(len) && q > 0
    ensures var ptr: nat := q * PAGE;
            && BlockOk(ptr, len) && TailPage(ptr, len) == q + NumPages(len) - 1
            && (forall p: nat :: IsHead(ptr, len, p) <==> q <= p < q + NumPages(len) - 1)
            && (forall p: nat, i: nat :: Occupies(ptr, len, p, i) <==>
                 p == TailPage(ptr, len) && 0 <= i < TailSlots(len))
  {
    LenFacts(len);
    SlotAddress(q, 0);
  }

  lemma NewPages(page: Pages, live: map<nat, nat>, held: set<nat>, q: nat, len: nat, pg: SmallPage)
    requires Accounts(page, live, held) && GoodLen(len) && q > 0 && PageRun(q, NumPages(len)) !! held
    requires forall i: nat :: i < 512 ==> (Get(pg.bitmap, i) <==> i < TailSlots(len) || (i == BIG && NumPages(len) > 1))
    ensures var ptr: nat := q * PAGE;
            && ptr !in live && BlockOk(ptr, len)
            && Accounts(page[q + NumPages(len) - 1 := pg], live[ptr := len], held + PageRun(q, NumPages(len)))
  {
    hide Get, BlockOk, TailSlots, NumPages, GoodLen, StartSlot, TailPage, Occupies, IsHead, Apart, SlotOwned, BigTail;
    hide HeadOwned, BitsOk;
    LenFacts(len);
    FreshBlock(q, len);
    SlotAddress(q, 0);
    var n := NumPages(len);
    var t: nat := q + n - 1;
    var ptr: nat := q * PAGE;
    assert InRun(q, n, q) && InRun(q, n, t);
    if ptr in live { LiveStart(page, live, held, ptr); }
    var live', held' := live[ptr := len], held + PageRun(q, n);
    var page' := page[t := pg];
    OwnersAfterNew(live, ptr, len);
    forall p: nat | InRun(q, n, p) ensures p in PageRun(q, n) && p !in held && p !in page {}
    ApartOnFreshPages(page, live, held, ptr, len, q, n);
    BlocksOkNew(page, live, held, page', held', ptr, len);
    FreshBits(page, live, held, ptr, len, t, pg.bitmap);
    forall p: nat | p in page' ensures BitsOk(page'[p].bitmap, live', p) && NonEmptyBits(page'[p].bitmap) {
      if p != t { assert BitsOk(page[p].bitmap, live, p) && NonEmptyBits(page[p].bitmap); }
      if p != t { OtherBits(page, live, p, ptr, len); }
    }
    forall p: nat | p in held' ensures p in page' || HeadOwned(live', p) {
      if InRun(q, n, p) && p != t { assert IsHead(ptr, len, p); }
    }
  }

  lemma OtherBits(page: Pages, live: map<nat, nat>, p: nat, ptr: nat, len: nat)
    requires p in page && BitsOk(page[p].bitmap, live, p) && ptr !in live && p != TailPage(ptr, len)
    ensures BitsOk(page[p].bitmap, live[ptr := len], p)
  {
    hide Get, SlotOwned, BigTail;
    OwnersAfterNew(live, ptr, len);
  }

  lemma ApartOnFreshPages(page: Pages, live: map<nat, nat>, held: set<nat>, ptr: nat, len: nat, q: nat, n: nat)
    requires BlocksOk(page, live, held) && page.Keys <= held
    requires forall p: nat :: InRun(q, n, p) ==> p !in held
    requires InRun(q, n, TailPage(ptr, len)) && forall p: nat :: IsHead(ptr, len, p) ==> InRun(q, n, p)
    ensures forall c :: c in live ==> Apart(ptr, len, c, live[c]) && Apart(c, live[c], ptr, len)
  {
    hide BlockOk, NumPages, TailPage, IsHead, InRun;
    forall c | c in live ensures Apart(ptr, len, c, live[c]) && Apart(c, live[c], ptr, len) {
      assert TailPage(c, live[c]) in page;
    }
  }

  lemma FreshBits(page: Pages, live: map<nat, nat>, held: set<nat>, ptr: nat, len: nat, t: nat, b: Bitmap)
    requires BlocksOk(page, live, held) && t !in page && ptr !in live && t == TailPage(ptr, len)
    requires forall i: nat :: Occupies(ptr, len, t, i) <==> i < TailSlots(len)
    requires TailSlots(len) <= SLOTS
    requires TailSlots(len) > 0 || NumPages(len) > 1
    requires forall i: nat :: i < 512 ==> (Get(b, i) <==> i < TailSlots(len) || (i == BIG && NumPages(len) > 1))
    ensures BitsOk(b, live[ptr := len], t) && NonEmptyBits(b)
  {
    hide Get, BlockOk, TailSlots, NumPages, GoodLen, StartSlot, TailPage, Occupies, SlotOwned, BigTail;
    OwnersAfterNew(live, ptr, len);
    Unowned(page, live, held, t);
    var live' := live[ptr := len];
    forall i: nat | i < 512
      ensures Get(b, i) <==> (i < SLOTS && SlotOwned(live', t, i)) || (i == BIG && BigTail(live', t))
    {
      assert SlotOwned(live', t, i) <==> Occupies(ptr, len, t, i);
      assert BigTail(live', t) <==> NumPages(len) > 1;
    }
    if NumPages(len) > 1 { assert Get(b, BIG); } else { assert Get(b, 0); }
  }

  lemma Unowned(page: Pages, live: map<nat, nat>, held: set<nat>, t: nat)
    requires BlocksOk(page, live, held) && t !in page
    ensures (forall i: nat :: !SlotOwned(live, t, i)) && !BigTail(live, t)
  {
    hide BlockOk, TailPage, StartSlot, TailSlots, NumPages;
  }

  // ---------- operator delete ----------

  /** What goes away with a block. */
  lemma OwnersAfterDelete(page: Pages, live: map<nat, nat>, held: set<nat>, ptr: nat)
    requires BlocksOk(page, live, held) && ptr in live
    ensures var len := live[ptr];
            var live' := live - {ptr};
            && (forall p: nat, i: nat :: SlotOwned(live', p, i) <==> SlotOwned(live, p, i) && !Occupies(ptr, len, p, i))
            && (forall p: nat :: BigTail(live', p) <==>
                 BigTail(live, p) && !(NumPages(len) > 1 && p == TailPage(ptr, len)))
            && (forall p: nat :: HeadOwned(live', p) <==> HeadOwned(live, p) && !IsHead(ptr, len, p))
  {
    hide Occupies, NumPages, TailPage, IsHead, BlockOk;
    var len := live[ptr];
    var live' := live - {ptr};
    assert forall c :: c in live' ==> c in live && live'[c] == live[c] && Apart(ptr, len, c, live[c]);
    forall p: nat, i: nat ensures SlotOwned(live', p, i) <==> SlotOwned(live, p, i) && !Occupies(ptr, len, p, i) {
      if b :| b in live && Occupies(b, live[b], p, i) { if b != ptr { assert b in live'; } }
    }
    forall p: nat ensures BigTail(live', p) <==> BigTail(live, p) && !(NumPages(len) > 1 && p == TailPage(ptr, len)) {
      if b :| b in live && NumPages(live[b]) > 1 && p == TailPage(b, live[b]) { if b != ptr { assert b in live'; } }
    }
    forall p: nat ensures HeadOwned(live', p) <==> HeadOwned(live, p) && !IsHead(ptr, len, p) {
      if b :| b in live && IsHead(b, live[b], p) { if b != ptr { assert b in live'; } }
    }
  }

  /** The slots of a live block are set, and so is the mark of a big one. */
  lemma LiveBitsSet(page: Pages, live: map<nat, nat>, held: set<nat>, ptr: nat)
    requires BlocksOk(page, live, held) && PagesOk(page, live, held) && ptr in live
    ensures BlockOk(ptr, live[ptr]) && TailPage(ptr, live[ptr]) in page
    ensures var len := live[ptr];
            && (forall i: nat :: StartSlot(ptr) <= i < StartSlot(ptr) + TailSlots(len) ==>
                  i < SLOTS && Get(page[TailPage(ptr, len)].bitmap, i))
            && (NumPages(len) > 1 ==> Get(page[TailPage(ptr, len)].bitmap, BIG))
  {
    hide Get, NumPages, TailPage, StartSlot, TailSlots, GoodLen;
    var len := live[ptr];
    var t := TailPage(ptr, len);
    assert BlockOk(ptr, len) && BitsOk(page[t].bitmap, live, t);
    forall i: nat | StartSlot(ptr) <= i < StartSlot(ptr) + TailSlots(len) ensures i < SLOTS && Get(page[t].bitmap, i) {
      assert Occupies(ptr, len, t, i);
      assert SlotOwned(live, t, i);
    }
    if NumPages(len) > 1 { assert BigTail(live, t); }
  }

  /** The bitmap of the last page after the block's slots, and its mark, are cleared. */
  ghost predicate Cleared(b: Bitmap, b': Bitmap, ptr: nat, len: nat) {
    forall i: nat :: i < 512 ==>
      (Get(b', i) <==>
       Get(b, i) && !(StartSlot(ptr) <= i < StartSlot(ptr) + TailSlots(len)) && !(i == BIG && NumPages(len) > 1))
  }

  /** The head pages of a block, which kmunmap takes first. */
  function Heads(ptr: nat, len: nat): set<nat> {
    PageRun(ptr / PAGE, NumPages(len) - 1)
  }

  lemma HeadsAreHeads(ptr: nat, len: nat)
    ensures forall p: nat :: p in Heads(ptr, len) <==> IsHead(ptr, len, p)
  {
    hide NumPages;
    forall p: nat ensures p in Heads(ptr, len) <==> IsHead(ptr, len, p) {
      assert InRun(ptr / PAGE, NumPages(len) - 1, p) <==> IsHead(ptr, len, p);
    }
  }

  /** Accounts without NoneEmpty, after the bits are cleared and before the empty page is dropped. */
  lemma DeleteBits(page: Pages, live: map<nat, nat>, held: set<nat>, ptr: nat, b': Bitmap)
    requires Accounts(page, live, held) && ptr in live
    requires TailPage(ptr, live[ptr]) in page && Cleared(page[TailPage(ptr, live[ptr])].bitmap, b', ptr, live[ptr])
    ensures var len := live[ptr];
            var page' := MapBlock(page, TailPage(ptr, len), b');
            var held' := held - Heads(ptr, len);
            && BlocksOk(page', live - {ptr}, held') && PagesOk(page', live - {ptr}, held')
            && Heads(ptr, len) <= held
            && forall p: nat :: p in page && p != TailPage(ptr, len) ==> NonEmptyBits(page'[p].bitmap)
  {
    hide Get, NumPages, TailPage, StartSlot, TailSlots, GoodLen, BlockOk, Apart, SlotOwned, BigTail, HeadOwned, Heads;
    hide IsHead, NonEmptyBits;
    var len := live[ptr];
    var t := TailPage(ptr, len);
    var live' := live - {ptr};
    var page' := MapBlock(page, t, b');
    HeadsAreHeads(ptr, len);
    OwnersAfterDelete(page, live, held, ptr);
    HeadsApart(page, live, held, ptr);
    BlockFits(ptr, len);
    forall p: nat | p in page' ensures BitsOk(page'[p].bitmap, live', p) {
      assert BitsOk(page[p].bitmap, live, p);
      if p == t {
        ClearedBits(page[t].bitmap, b', live, live', ptr, len, t);
      } else {
        ElsewhereBits(page[p].bitmap, live, live', ptr, len, p);
      }
    }
  }

  lemma BlockFits(ptr: nat, len: nat)
    requires BlockOk(ptr, len)
    ensures StartSlot(ptr) + TailSlots(len) <= SLOTS
  {}

  lemma HeadsApart(page: Pages, live: map<nat, nat>, held: set<nat>, ptr: nat)
    requires BlocksOk(page, live, held) && ptr in live
    ensures forall c, p: nat :: c in live && c != ptr && IsHead(c, live[c], p) ==> !IsHead(ptr, live[ptr], p)
  {
    hide IsHead, Occupies, NumPages, TailPage, BlockOk;
    forall c, p: nat | c in live && c != ptr && IsHead(c, live[c], p) ensures !IsHead(ptr, live[ptr], p) {
      assert Apart(c, live[c], ptr, live[ptr]);
    }
  }

  lemma ClearedBits(b: Bitmap, b': Bitmap, live: map<nat, nat>, live': map<nat, nat>, ptr: nat, len: nat, t: nat)
    requires BitsOk(b, live, t) && Cleared(b, b', ptr, len) && t == TailPage(ptr, len)
    requires forall i: nat :: SlotOwned(live', t, i) <==> SlotOwned(live, t, i) && !Occupies(ptr, len, t, i)
    requires BigTail(live', t) <==> BigTail(live, t) && !(NumPages(len) > 1)
    requires StartSlot(ptr) + TailSlots(len) <= SLOTS
    ensures BitsOk(b', live', t)
  {
    hide Get, SlotOwned, BigTail, NumPages, TailPage, StartSlot, TailSlots;
  }

  lemma ElsewhereBits(b: Bitmap, live: map<nat, nat>, live': map<nat, nat>, ptr: nat, len: nat, p: nat)
    requires BitsOk(b, live, p) && p != TailPage(ptr, len)
    requires forall i: nat :: SlotOwned(live', p, i) <==> SlotOwned(live, p, i) && !Occupies(ptr, len, p, i)
    requires BigTail(live', p) <==> BigTail(live, p)
    ensures BitsOk(b, live', p)
  {
    hide Get, SlotOwned, BigTail, NumPages, TailPage, StartSlot, TailSlots;
  }

  /** A page that still ends a live block has a bit set. */
  lemma TailNotEmpty(page: Pages, live: map<nat, nat>, held: set<nat>, c: nat)
    requires BlocksOk(page, live, held) && PagesOk(page, live, held) && c in live
    ensures TailPage(c, live[c]) in page && NonEmptyBits(page[TailPage(c, live[c])].bitmap)
  {
    hide Get, NumPages, TailPage, StartSlot, TailSlots;
    LiveBitsSet(page, live, held, c);
    LenFacts(live[c]);
    if NumPages(live[c]) == 1 { assert Get(page[TailPage(c, live[c])].bitmap, StartSlot(c)); }
  }

  /** A page whose last bit was cleared ends no live block, so it can be given back. */
  lemma DropEmptyPage(page: Pages, live: map<nat, nat>, held: set<nat>, t: nat)
    requires BlocksOk(page, live, held) && PagesOk(page, live, held)
    requires forall p: nat :: p in page && p != t ==> NonEmptyBits(page[p].bitmap)
    requires t in page && !NonEmptyBits(page[t].bitmap)
    ensures Accounts(page - {t}, live, held - {t})
  {
    hide NonEmptyBits, BitsOk, BlockOk, TailPage, IsHead, Apart;
    forall c | c in live ensures TailPage(c, live[c]) != t {
      TailNotEmpty(page, live, held, c);
    }
  }
}
