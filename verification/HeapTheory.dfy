/** The invariant of the heap and what every step of operator new and operator delete does to it. */
module HeapTheory {
  import opened Machine
  import opened SlotMap
  import opened BucketLists
  import opened HeapAccounts

  /** Every listed page is in the bucket of its longest free run. */
  ghost predicate Bucketed(page: Pages, lists: seq<seq<nat>>) {
    forall k, p :: 0 <= k < |lists| && p in lists[k] ==> p in page && Longest(page[p].bitmap, k)
  }

  /** Every page with a bitmap is on a list. */
  ghost predicate AllListed(page: Pages, lists: seq<seq<nat>>) {
    forall p :: p in page ==> Listed(lists, p)
  }

  /** Every page with a bitmap is on exactly one well-formed list, the one for its longest free run; bitmaps, live
      blocks and held pages agree. */
  ghost predicate HeapOk(page: Pages, head: seq<nat>, lists: seq<seq<nat>>, live: map<nat, nat>, held: set<nat>) {
    Linked(page, head, lists) && Bucketed(page, lists) && AllListed(page, lists) && Accounts(page, live, held)
  }

  function Slots(len: nat): nat {
    (len + 7) / 8
  }

  /** Some held page has room for n consecutive slots. */
  ghost predicate Fits(page: Pages, n: nat) {
    exists p, o: nat :: p in page && Run(page[p].bitmap, o, n)
  }

  /** p is a page with the shortest longest run that still has n slots. */
  ghost predicate BestFit(page: Pages, p: nat, n: nat) {
    && p in page
    && exists k :: Longest(page[p].bitmap, k) && n <= k && NoneShorter(page, n, k)
  }

  ghost predicate NoneShorter(page: Pages, n: nat, k: nat) {
    forall q, m: nat :: q in page && Longest(page[q].bitmap, m) && n <= m ==> k <= m
  }

  /** The lists before bucket k are empty from bucket n on. */
  ghost predicate EmptyFrom(lists: seq<seq<nat>>, n: nat, k: nat) {
    forall m: nat :: n <= m < k && m < |lists| ==> lists[m] == []
  }

  lemma ShortestIsBest(page: Pages, head: seq<nat>, lists: seq<seq<nat>>, n: nat, k: nat)
    requires Linked(page, head, lists) && Bucketed(page, lists) && AllListed(page, lists)
    requires n <= k <= BUCKETS && EmptyFrom(lists, n, k)
    ensures forall q, m: nat :: q in page && Longest(page[q].bitmap, m) && n <= m ==> k <= m
    ensures k == BUCKETS ==> !Fits(page, n)
    ensures k < BUCKETS && lists[k] != [] ==> lists[k][0] in page && BestFit(page, lists[k][0], n)
  {
    hide ListOk, Longest, Run;
    forall q, m: nat | q in page && Longest(page[q].bitmap, m) && n <= m ensures k <= m < BUCKETS {
      InItsBucket(page, head, lists, q, m);
    }
    if k == BUCKETS {
      forall q, o: nat | q in page ensures !Run(page[q].bitmap, o, n) {
        if Run(page[q].bitmap, o, n) {
          var m: nat :| m < BUCKETS && Longest(page[q].bitmap, m) by { SomeLongest(page, head, lists, q); }
          RunWithinLongest(page[q].bitmap, o, n, m);
        }
      }
    } else if lists[k] != [] {
      assert lists[k][0] in lists[k];
      assert NoneShorter(page, n, k);
    }
  }

  lemma RunWithinLongest(b: Bitmap, o: nat, n: nat, m: nat)
    requires Longest(b, m) && Run(b, o, n)
    ensures n <= m
  {}

  lemma SomeLongest(page: Pages, head: seq<nat>, lists: seq<seq<nat>>, q: nat)
    requires Linked(page, head, lists) && Bucketed(page, lists) && AllListed(page, lists) && q in page
    ensures exists m: nat :: m < BUCKETS && Longest(page[q].bitmap, m)
  {
    hide Longest, ListOk;
    var m :| 0 <= m < BUCKETS && q in lists[m];
    assert Longest(page[q].bitmap, m);
  }

  lemma InItsBucket(page: Pages, head: seq<nat>, lists: seq<seq<nat>>, q: nat, m: nat)
    requires Linked(page, head, lists) && Bucketed(page, lists) && AllListed(page, lists)
    requires q in page && Longest(page[q].bitmap, m)
    ensures m < BUCKETS && q in lists[m]
  {
    hide Longest, ListOk;
    var k :| 0 <= k < BUCKETS && q in lists[k];
    LongestUnique(page[q].bitmap, k, m);
  }

  // ---------- steps ----------

  lemma BitmapKeepsLinked(page: Pages, head: seq<nat>, lists: seq<seq<nat>>, p: nat, b: Bitmap)
    requires Linked(page, head, lists) && p in page
    ensures Linked(MapBlock(page, p, b), head, lists)
  {
    hide LinkOk;
    var page' := MapBlock(page, p, b);
    forall k | 0 <= k < BUCKETS ensures ListOk(page', head[k], lists[k]) {
      forall q | q in lists[k] ensures q in page { Member(page, head[k], lists[k], q); }
      ListFrame(page, page', head[k], lists[k]);
    }
  }

  /** Adding a page that is not in the map, or removing one that is on no list, does not disturb the lists. */
  lemma UnlistedKeepsLinked(page: Pages, page': Pages, head: seq<nat>, lists: seq<seq<nat>>, p: nat)
    requires Linked(page, head, lists)
    requires forall q :: q in page && q != p ==> q in page' && page'[q] == page[q]
    requires !Listed(lists, p)
    ensures Linked(page', head, lists)
  {
    hide LinkOk;
    forall k | 0 <= k < BUCKETS ensures ListOk(page', head[k], lists[k]) {
      forall q | q in lists[k] ensures q in page && q != p {
        Member(page, head[k], lists[k], q);
        assert Listed(lists, q);
      }
      ListFrame(page, page', head[k], lists[k]);
    }
  }

  lemma ListedIsPage(page: Pages, head: seq<nat>, lists: seq<seq<nat>>, p: nat)
    requires Linked(page, head, lists) && Listed(lists, p)
    ensures p in page && p != 0
  {
    hide ListOk;
    var k :| 0 <= k < |lists| && p in lists[k];
    Member(page, head[k], lists[k], p);
  }

  lemma SameBitmapsAccounts(page: Pages, page': Pages, live: map<nat, nat>, held: set<nat>)
    requires SameBitmaps(page, page')
    ensures BlocksOk(page, live, held) == BlocksOk(page', live, held)
    ensures PagesOk(page, live, held) == PagesOk(page', live, held)
    ensures Accounts(page, live, held) == Accounts(page', live, held)
  {
    hide BlockOk, Apart, IsHead, TailPage, BitsOk, NonEmptyBits, HeadOwned;
    assert page.Keys == page'.Keys;
  }

  /** The state after p's bitmap became b, and p was unlinked from position j of list k. */
  ghost predicate Loose(page: Pages, head: seq<nat>, lists: seq<seq<nat>>, p: nat) {
    && Linked(page, head, lists) && Bucketed(page, lists) && p in page && p != 0 && !Listed(lists, p)
    && forall q :: q in page && q != p ==> Listed(lists, q)
  }

  lemma CutLoosens(page: Pages, head: seq<nat>, lists: seq<seq<nat>>, k: nat, j: nat, b: Bitmap)
    requires Linked(page, head, lists) && Bucketed(page, lists) && AllListed(page, lists)
    requires k < BUCKETS && j < |lists[k]|
    ensures lists[k][j] in page
    ensures var p := lists[k][j];
            var page1 := MapBlock(page, p, b);
            var page2 := CutPages(page1, p);
            && Loose(page2, head[k := CutHead(page1, head[k], p)], lists[k := Without(lists[k], j)], p)
            && SameBitmaps(page1, page2)
  {
    hide LinkOk, ListOk, Longest;
    Member(page, head[k], lists[k], lists[k][j]);
    var p := lists[k][j];
    var page1 := MapBlock(page, p, b);
    BitmapKeepsLinked(page, head, lists, p, b);
    CutKeepsLinked(page1, head, lists, k, j);
    var page2 := CutPages(page1, p);
    var lists' := lists[k := Without(lists[k], j)];
    forall m, q | 0 <= m < BUCKETS && q in lists'[m] ensures q in page2 && Longest(page2[q].bitmap, m) {
      assert q in lists[m];
      assert Listed(lists', q);
    }
  }

  /** Relinking it in the bucket of its longest run restores the invariant of the lists. */
  lemma PushRestores(page: Pages, head: seq<nat>, lists: seq<seq<nat>>, p: nat, k: nat)
    requires Loose(page, head, lists, p) && k < BUCKETS && Longest(page[p].bitmap, k)
    ensures var page' := PushPages(page, head[k], p);
            var lists' := lists[k := [p] + lists[k]];
            && Linked(page', head[k := p], lists') && Bucketed(page', lists') && AllListed(page', lists')
            && SameBitmaps(page, page')
  {
    hide LinkOk, ListOk, Longest;
    PushKeepsLinked(page, head, lists, k, p);
    var page' := PushPages(page, head[k], p);
    var lists' := lists[k := [p] + lists[k]];
    forall m, q | 0 <= m < BUCKETS && q in lists'[m] ensures q in page' && Longest(page'[q].bitmap, m) {
      if q !in lists[m] { assert q == p && m == k; }
    }
    forall q | q in page' ensures Listed(lists', q) {
      if q == p { assert p in lists'[k]; }
      else {
        var m :| 0 <= m < |lists| && q in lists[m];
        assert q in lists'[m];
      }
    }
  }

  /** Giving the loose page back also restores it. */
  lemma DropRestores(page: Pages, head: seq<nat>, lists: seq<seq<nat>>, p: nat)
    requires Loose(page, head, lists, p)
    ensures Linked(page - {p}, head, lists) && Bucketed(page - {p}, lists) && AllListed(page - {p}, lists)
  {
    hide ListOk, Longest;
    UnlistedKeepsLinked(page, page - {p}, head, lists, p);
    forall m, q | 0 <= m < BUCKETS && q in lists[m] ensures q in page - {p} && Longest((page - {p})[q].bitmap, m) {
      assert Listed(lists, q);
    }
  }

  /** A fresh page is loose. */
  lemma FreshIsLoose(page: Pages, head: seq<nat>, lists: seq<seq<nat>>, p: nat, pg: SmallPage)
    requires Linked(page, head, lists) && Bucketed(page, lists) && AllListed(page, lists) && p !in page && p != 0
    ensures Loose(page[p := pg], head, lists, p)
  {
    hide ListOk, Longest;
    if Listed(lists, p) { ListedIsPage(page, head, lists, p); }
    UnlistedKeepsLinked(page, page[p := pg], head, lists, p);
  }

  /** The longest run of a page whose first n slots are used. */
  lemma LongestOfTail(b: Bitmap, n: nat)
    requires n <= SLOTS && forall i: nat :: i < SLOTS ==> (Get(b, i) <==> i < n)
    ensures Longest(b, SLOTS - n)
  {
    hide Get;
    assert Run(b, n, SLOTS - n);
    forall o: nat, k: nat | Run(b, o, k) ensures k <= SLOTS - n {
      if k > 0 { FreeInRun(b, o, k, o); }
    }
  }

  /** A page is held exactly while a live block has a slot, a head page or its last page there. */
  lemma HeldIsOwned(page: Pages, live: map<nat, nat>, held: set<nat>, p: nat)
    requires Accounts(page, live, held)
    ensures p in held <==> HeadOwned(live, p) || BigTail(live, p) || exists i: nat :: SlotOwned(live, p, i)
  {
    hide Get, NumPages, StartSlot, TailSlots, BlockOk, Apart, IsHead, TailPage;
    if p in page {
      assert BitsOk(page[p].bitmap, live, p);
      var i: nat :| i < 512 && Get(page[p].bitmap, i);
    }
    if p !in page { Unowned(page, live, held, p); }
  }

  ghost predicate InBlock(b: nat, m: nat, p: nat, i: nat) {
    IsHead(b, m, p) || Occupies(b, m, p, i)
  }

  /** A byte of a block lies in one of its head pages or in one of its slots. */
  lemma ByteOwner(b: nat, m: nat, x: nat)
    requires BlockOk(b, m) && b <= x < b + m
    ensures InBlock(b, m, x / PAGE, x % PAGE / 8)
  {
    LenFacts(m);
    if NumPages(m) == 1 { assert b % PAGE + m <= PAGE - TRAILER + 7; }
  }

  lemma BlocksMeetNowhere(page: Pages, live: map<nat, nat>, held: set<nat>, b: nat, c: nat, p: nat, i: nat)
    requires BlocksOk(page, live, held) && b in live && c in live && b != c
    ensures !(InBlock(b, live[b], p, i) && InBlock(c, live[c], p, i))
  {
    hide BlockOk, TailPage, IsHead;
    assert Apart(b, live[b], c, live[c]);
    assert TailPage(b, live[b]) in page && TailPage(c, live[c]) in page;
  }

  /** Two live blocks overlap in no byte. */
  lemma LiveBlocksDisjoint(page: Pages, live: map<nat, nat>, held: set<nat>, b: nat, c: nat, x: nat)
    requires Accounts(page, live, held) && b in live && c in live && b != c
    requires b <= x < b + live[b]
    ensures !(c <= x < c + live[c])
  {
    hide Apart, BitsOk, NonEmptyBits, InBlock;
    assert BlockOk(b, live[b]) && BlockOk(c, live[c]);
    BlocksMeetNowhere(page, live, held, b, c, x / PAGE, x % PAGE / 8);
    ByteOwner(b, live[b], x);
    if c <= x < c + live[c] { ByteOwner(c, live[c], x); }
  }

  /** No byte of a live block lies in the last 80 bytes of a page with a bitmap, where the bitmap and the two links
      are. */
  lemma BlocksAvoidTrailers(page: Pages, live: map<nat, nat>, held: set<nat>, b: nat, p: nat, x: nat)
    requires Accounts(page, live, held) && b in live && b <= x < b + live[b] && p in page
    ensures !(p * PAGE + 4016 <= x < (p + 1) * PAGE)
  {
    hide Apart, BitsOk, NonEmptyBits, NumPages, StartSlot, TailSlots, TailPage;
    assert BlockOk(b, live[b]);
    ByteOwner(b, live[b], x);
    if x / PAGE == p {
      assert !IsHead(b, live[b], p);
      OwnedSlot(b, live[b], p, x % PAGE / 8);
    }
  }

  lemma OwnedSlot(b: nat, m: nat, p: nat, i: nat)
    requires BlockOk(b, m) && Occupies(b, m, p, i)
    ensures i < SLOTS
  {}
}
