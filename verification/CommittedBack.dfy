/** back_vmem as committed: when it keeps the page tables well formed, and a call where it does not. */
module CommittedBack {
  import opened Machine
  import opened PagePath
  import opened PageTables
  import opened PageTablesTheory
  import opened MemoryManager
  import opened CommittedRange
  import opened EitherCrawl
  import CommittedCrawl
  import QuadTree

  /** The range of the call, over the tables before it. */
  ghost predicate CleanCall(S: State, root: nat, a: nat, size: nat)
    requires a < U64 && size < U64
  {
    Clean(S, root, Indices(a), Indices(LastByte(a, size)))
  }

  ghost function Committed(env: Env, supply: nat -> nat): Env {
    Env(AsCommitted, supply, env.physLevel)
  }

  /** The committed back_vmem keeps the tables well formed, whatever frames its fresh tables get, if and only if
      the range is clean. */
  lemma CommittedBackIff(env: Env, S: State, root: nat, a: nat, size: nat, flags: bv12)
    requires Rooted(env, S, root) && flags & PS == 0 && GoodRange(a, size)
    ensures CleanCall(S, root, a, size) <==>
            forall supply: nat -> nat :: GoodSupply(S, supply) ==>
              Rooted(Committed(env, supply), BackVmem(Committed(env, supply), S, root, a, size, flags), root)
  {
    hide WF, Indices, Crawl, Clean, Like, Bad, NotCanonical;
    if CleanCall(S, root, a, size) {
      forall supply: nat -> nat | GoodSupply(S, supply)
        ensures Rooted(Committed(env, supply), BackVmem(Committed(env, supply), S, root, a, size, flags), root)
      {
        CleanBack(env, supply, S, root, a, size, flags);
      }
    } else {
      var m := Bound(S.mem.Keys);
      var supply := Sixteens(m);
      SixteensGood(S, m);
      Resupplied(env, supply, S, LEVELS);
      var cor := Env(Corrected, supply, env.physLevel);
      RangeReady(cor, S, root, a, size, Back(flags));
      LikeRefl(S, LEVELS);
      SpoiledCrawl(cor, S, S, root, Indices(a), Indices(LastByte(a, size)), flags, m, LEVELS);
      BadIsNotWF(Committed(env, supply), BackVmem(Committed(env, supply), S, root, a, size, flags), LEVELS);
    }
  }

  lemma SixteensGood(S: State, m: nat)
    requires forall x :: x in S.mem.Keys ==> x < m
    ensures GoodSupply(S, Sixteens(m)) && KeysOk(S, m)
  {
    forall k | k >= S.next ensures Sixteens(m)(k) !in S.mem {
      assert Sixteens(m)(k) >= m;
      assert Sixteens(m)(k) !in S.mem.Keys;
    }
  }

  /** Well-formedness asks no more of the supply. */
  lemma Resupplied(env: Env, supply: nat -> nat, S: State, top: nat)
    requires WF(env, S, top) && GoodSupply(S, supply)
    ensures forall v :: WF(Env(v, supply, env.physLevel), S, top)
  {
    hide TableOk;
  }

  /** Over a clean range every address resolves as it does after the corrected call, so the range is mapped and
      other addresses are kept. */
  lemma CleanBack(env: Env, supply: nat -> nat, S: State, root: nat, a: nat, size: nat, flags: bv12)
    requires Rooted(env, S, root) && flags & PS == 0 && GoodRange(a, size)
    requires GoodSupply(S, supply) && CleanCall(S, root, a, size)
    ensures var S' := BackVmem(Committed(env, supply), S, root, a, size, flags);
            var T' := BackVmem(Env(Corrected, supply, env.physLevel), S, root, a, size, flags);
            && Rooted(Committed(env, supply), S', root) && S'.phys == T'.phys && S'.log == T'.log
            && forall b :: 0 <= b < U64 ==> ResolveToPhmem(S', root, b) == ResolveToPhmem(T', root, b)
  {
    hide WF, Indices, Crawl, CleanCall, BackVmem, NotCanonical, ResolveToPhmem, Find;
    var com := Committed(env, supply);
    Resupplied(env, supply, S, LEVELS);
    assert Right(com) == Env(Corrected, supply, env.physLevel);
    BackBeside(com, S, root, a, size, flags);
    var S' := BackVmem(com, S, root, a, size, flags);
    var T' := BackVmem(Right(com), S, root, a, size, flags);
    forall b: nat | b < U64 ensures ResolveToPhmem(S', root, b) == ResolveToPhmem(T', root, b) {
      if NotCanonical(b) {
        BadAddressStays(S, T', root, b);
        BadAddressStays(S, S', root, b);
      } else {
        ResolveAnswers(com, S', root, b);
        ResolveAnswers(Right(com), T', root, b);
      }
    }
  }

  /** Either version is ready for back_vmem over such a range. */
  lemma BackReady(env: Env, S: State, root: nat, a: nat, size: nat, flags: bv12)
    requires Rooted(env, S, root) && flags & PS == 0 && GoodRange(a, size)
    requires env.version.AsCommitted? ==> CleanCall(S, root, a, size)
    ensures Ready(env, S, S, root, Indices(a), Indices(LastByte(a, size)), Back(flags), LEVELS)
  {
    hide WF, Indices, CrawlReady, CleanFrom;
    RightRooted(env, S, root);
    BackCovers(S, root, a, size, flags);
    RangeReady(Right(env), S, root, a, size, Back(flags));
    LikeRefl(S, LEVELS);
  }

  lemma UnbackReady(env: Env, S: State, root: nat, a: nat, size: nat)
    requires Rooted(env, S, root) && GoodRange(a, size)
    requires Covered(S, root, Indices(a), Indices(LastByte(a, size)), Unback)
    ensures Ready(env, S, S, root, Indices(a), Indices(LastByte(a, size)), Unback, LEVELS)
  {
    hide WF, Indices, CrawlReady, Covered;
    RightRooted(env, S, root);
    RangeReady(Right(env), S, root, a, size, Unback);
  }

  /** In either version, over such a range: the walks, the visits and the frame allocator of the corrected call. */
  lemma BackBeside(env: Env, S: State, root: nat, a: nat, size: nat, flags: bv12)
    requires Rooted(env, S, root) && flags & PS == 0 && GoodRange(a, size)
    requires env.version.AsCommitted? ==> CleanCall(S, root, a, size)
    ensures var S' := BackVmem(env, S, root, a, size, flags);
            var T' := BackVmem(Right(env), S, root, a, size, flags);
            && Rooted(env, S', root) && Rooted(Right(env), T', root) && S'.phys == T'.phys && S'.log == T'.log
            && forall q :: |q| == LEVELS && Path(q) ==> Find(S', root, q) == Find(T', root, q)
  {
    hide WF, Indices, Crawl, Clean, Like, NotCanonical, Find;
    RightRooted(env, S, root);
    BackCovers(S, root, a, size, flags);
    RangeKeeps(Right(env), S, root, a, size, Back(flags));
    if env.version.Corrected? {
      assert Right(env) == env;
    } else {
      assert Right(env).(version := AsCommitted) == env;
      RangeReady(Right(env), S, root, a, size, Back(flags));
      LikeRefl(S, LEVELS);
      LikeCrawl(Right(env), S, S, root, Indices(a), Indices(LastByte(a, size)), flags, LEVELS);
      var S' := BackVmem(env, S, root, a, size, flags);
      var T' := BackVmem(Right(env), S, root, a, size, flags);
      LikeRooted(Right(env), S', T', root);
      forall q | |q| == LEVELS && Path(q) ensures Find(S', root, q) == Find(T', root, q) {
        LikeFind(Right(env), S', T', root, q, LEVELS);
      }
    }
  }

  /** unback_vmem over tables that exist is the same in either version. */
  lemma UnbackBeside(env: Env, S: State, root: nat, a: nat, size: nat)
    requires Rooted(env, S, root) && GoodRange(a, size)
    requires Covered(S, root, Indices(a), Indices(LastByte(a, size)), Unback)
    ensures UnbackVmem(env, S, root, a, size) == UnbackVmem(Right(env), S, root, a, size)
    ensures Rooted(Right(env), S, root)
    ensures forall T :: Rooted(Right(env), T, root) ==> Rooted(env, T, root)
  {
    hide Indices, Crawl, CrawlReady, NotCanonical, TableOk;
    RightRooted(env, S, root);
    RangeReady(Right(env), S, root, a, size, Unback);
    CommittedCrawl.SameOnExistingTables(Right(env), env.version, S, root, Indices(a), Indices(LastByte(a, size)),
      Unback, LEVELS);
    assert Right(env).(version := env.version) == env;
  }

  lemma RightRooted(env: Env, S: State, root: nat)
    requires Rooted(env, S, root)
    ensures Rooted(Right(env), S, root)
  {
    hide TableOk;
  }

  lemma LikeRooted(env: Env, S: State, T: State, root: nat)
    requires Like(S, T, LEVELS) && Rooted(env, T, root)
    ensures forall v :: Rooted(env.(version := v), S, root)
    ensures S.phys == T.phys && S.log == T.log
  {
    hide WF;
    forall v ensures WF(env.(version := v), S, LEVELS) {
      LikeWF(env, v, S, T, LEVELS);
    }
    assert root in T.mem.Keys;
  }

  // ---------- a call that goes wrong ----------

  /** An entry that leads to a table. */
  function To(frame: nat): Entry {
    Entry(frame, 515)
  }

  /** The tables of the first six megabytes, but for the second two: one directory on each of the upper three
      levels, leaf tables for the first and the third two megabytes. */
  function SixMegabytes(phys: QuadTree.Tree): State {
    State(map[1 := ZeroTable()[0 := To(2)], 2 := ZeroTable()[0 := To(3)], 3 := ZeroTable()[0 := To(4)][2 := To(17)],
              4 := ZeroTable(), 17 := ZeroTable()],
          map[1 := [], 2 := [0], 3 := [0, 0], 4 := [0, 0, 0], 17 := [0, 0, 2]], 0, phys, [])
  }

  /** The next fresh table is frame 16. */
  function From16(): nat -> nat {
    k => 16 + 16 * k
  }

  function Surroundings(level: nat): Env {
    Env(AsCommitted, From16(), level)
  }

  lemma ToBits()
    ensures Has(To(1), OS_CRAWLABLE) && Has(To(1), P) && Has(To(1), RW) && !Has(To(1), PS)
    ensures (515 as bv12) | P | RW | 0 == 515
    ensures (((515 as bv12) | OS_CRAWLABLE) & !PS) | P | RW | 0 == 515
    ensures Has(Entry(0, P | RW | 0), P) && Has(Entry(0, P | RW | 0), RW)
  {}

  lemma Leads(at: map<nat, seq<nat>>, t: seq<Entry>, place: seq<nat>, i: nat, frame: nat)
    requires TableOk(at, t, place, LEVELS) && i < ENTRIES && frame in at && at[frame] == place + [i]
    ensures TableOk(at, t[i := To(frame)], place, LEVELS)
  {
    hide Has;
    ToBits();
    HasFlags();
    assert DirOk(at, To(frame), place + [i], LEVELS);
    ReplacedEntry(at, t, place, LEVELS, i, To(frame));
  }

  lemma SixTablesOk(at: map<nat, seq<nat>>)
    requires at == map[1 := [], 2 := [0], 3 := [0, 0], 4 := [0, 0, 0], 17 := [0, 0, 2]]
    ensures TableOk(at, ZeroTable()[0 := To(2)], [], LEVELS) && TableOk(at, ZeroTable()[0 := To(3)], [0], LEVELS)
    ensures TableOk(at, ZeroTable()[0 := To(4)][2 := To(17)], [0, 0], LEVELS)
    ensures TableOk(at, ZeroTable(), [0, 0, 0], LEVELS) && TableOk(at, ZeroTable(), [0, 0, 2], LEVELS)
  {
    hide TableOk, To;
    FreshTableOk(at, [], LEVELS);
    FreshTableOk(at, [0], LEVELS);
    FreshTableOk(at, [0, 0], LEVELS);
    FreshTableOk(at, [0, 0, 0], LEVELS);
    FreshTableOk(at, [0, 0, 2], LEVELS);
    Leads(at, ZeroTable(), [], 0, 2);
    Leads(at, ZeroTable(), [0], 0, 3);
    Leads(at, ZeroTable(), [0, 0], 0, 4);
    Leads(at, ZeroTable()[0 := To(4)], [0, 0], 2, 17);
  }

  lemma SixMegabytesOk(level: nat, phys: QuadTree.Tree)
    ensures Rooted(Surroundings(level), SixMegabytes(phys), 1)
  {
    hide TableOk, To, ZeroTable;
    var S := SixMegabytes(phys);
    SixTablesOk(S.at);
    assert S.mem[1] == ZeroTable()[0 := To(2)] && S.mem[2] == ZeroTable()[0 := To(3)]
      && S.mem[4] == S.mem[17] == ZeroTable();
    assert S.at.Keys == {1, 2, 3, 4, 17} == S.mem.Keys;
    forall k: nat ensures From16()(k) !in S.mem {
      assert From16()(k) == 16 + 16 * k;
    }
  }

  /** Bits are those of the flags. */
  lemma HasFlags()
    ensures forall a: Entry, b: Entry, bit: bv12 :: a.flags == b.flags ==> Has(a, bit) == Has(b, bit)
  {}

  /** A directory entry that is in place stays as it is. */
  lemma EnterPlaced(env: Env, S: State, f: nat, i: nat, s0: nat, e0: nat, frame: nat)
    requires HasTable(S, f) && i < ENTRIES && e0 < ENTRIES && S.mem[f][i] == To(frame)
    ensures Enter(env, S, f, i, s0, e0, Back(0)) == S
  {
    ToBits();
    HasFlags();
    assert S.mem[f][i := To(frame)] == S.mem[f];
    assert S.mem[f := S.mem[f]] == S.mem;
  }

  lemma {:induction false} VisitsKeepOthers(env: Env, S: State, f: nat, i: nat, e0: nat, op: Op)
    ensures var S' := VisitPages(env, S, f, i, e0, op);
            && S'.at == S.at && S'.next == S.next && S'.mem.Keys == S.mem.Keys
            && (forall g :: g in S.mem && g != f ==> S'.mem[g] == S.mem[g])
            && (HasTable(S, f) ==> HasTable(S', f))
    decreases ENTRIES - i
  {
    hide PageCallback, PhysAfter;
    if i <= e0 && i < ENTRIES && HasTable(S, f) {
      VisitsKeepOthers(env, VisitPage(env, S, f, i, op), f, i + 1, e0, op);
    }
  }

  /** A directory whose range lies below one entry in place hands the crawl on. */
  lemma OneEntry(env: Env, S: State, f: nat, s: seq<nat>, e: seq<nat>, frame: nat)
    requires |s| == |e| > 1 && s[0] == e[0] == 0 && HasTable(S, f) && S.mem[f][0] == To(frame)
    ensures Crawl(env, S, f, s, e, Back(0)) == Crawl(env, S, frame, s[1..], e[1..], Back(0))
  {
    hide Enter;
    EnterPlaced(env, S, f, 0, 0, 0, frame);
    var R := Crawl(env, S, frame, s[1..], e[1..], Back(0));
    assert CrawlEntries(env, R, f, 1, s, e, Back(0)) == R;
  }

  /** The three entries of the lowest directory: the table of the second is taken for that of the third. */
  lemma ThreeEntries(env: Env, S: State) returns (R: State)
    requires env.version.AsCommitted? && env.supply(S.next) == 16 && HasTable(S, 3) && HasTable(S, 4) && HasTable(S, 17)
    requires S.mem[3][0] == To(4) && S.mem[3][1] == ZERO && S.mem[3][2] == To(17)
    ensures R == Crawl(env, S, 3, [0, 511], [2, 0], Back(0))
    ensures HasTable(R, 3) && R.mem[3][1] == To(17) && R.mem[3][2] == To(17)
    ensures HasTable(R, 17) && Has(R.mem[17][0], P) && Has(R.mem[17][0], RW)
    ensures forall g :: g in S.mem && g !in {3, 4, 16, 17} ==> g in R.mem && R.mem[g] == S.mem[g]
  {
    hide Enter, VisitPages, VisitPage;
    var s, e := [0, 511], [2, 0];
    EnterPlaced(env, S, 3, 0, 0, 2, 4);
    var A := VisitPages(env, S, 4, 511, 511, Back(0));
    VisitsKeepOthers(env, S, 4, 511, 511, Back(0));
    assert CrawlEntries(env, S, 3, 0, s, e, Back(0)) == CrawlEntries(env, A, 3, 1, s, e, Back(0));
    var B := Enter(env, A, 3, 1, 0, 2, Back(0));
    SecondEntry(env, A);
    assert First(1) == [0] && Last(1) == [511];
    var C := VisitPages(env, B, 17, 0, 511, Back(0));
    VisitsKeepOthers(env, B, 17, 0, 511, Back(0));
    assert CrawlEntries(env, A, 3, 1, s, e, Back(0)) == CrawlEntries(env, C, 3, 2, s, e, Back(0));
    EnterPlaced(env, C, 3, 2, 0, 2, 17);
    R := VisitPages(env, C, 17, 0, 0, Back(0));
    VisitsKeepOthers(env, C, 17, 0, 0, Back(0));
    OneVisit(env, C);
    assert CrawlEntries(env, R, 3, 3, s, e, Back(0)) == R;
  }

  lemma SecondEntry(env: Env, A: State)
    requires env.version.AsCommitted? && env.supply(A.next) == 16 && HasTable(A, 3) && HasTable(A, 17)
    requires A.mem[3][1] == ZERO && A.mem[3][2] == To(17)
    ensures var B := Enter(env, A, 3, 1, 0, 2, Back(0));
            && HasTable(B, 3) && B.mem[3] == A.mem[3][1 := To(17)] && HasTable(B, 17)
            && forall g :: g in A.mem && g !in {3, 16} ==> g in B.mem && B.mem[g] == A.mem[g]
  {
    ToBits();
    ZeroHasNothing();
    assert OrNibble(16, 17) == 17;
  }

  lemma OneVisit(env: Env, C: State)
    requires HasTable(C, 17)
    ensures var R := VisitPages(env, C, 17, 0, 0, Back(0));
            HasTable(R, 17) && Has(R.mem[17][0], P) && Has(R.mem[17][0], RW)
  {
    ToBits();
    HasFlags();
    assert VisitPages(env, C, 17, 0, 0, Back(0)) == VisitPage(env, C, 17, 0, Back(0));
  }

  lemma TheIndices()
    ensures Indices(0x1F_F000) == [0, 0, 0, 511] && LastByte(0x1F_F000, 0x20_2000) == 0x40_0FFF
    ensures Indices(0x40_0FFF) == [0, 0, 2, 0]
  {
    IndexValues(0x1F_F000);
    IndexValues(0x40_0FFF);
  }

  /** What the tables hold where the call goes. */
  lemma SixMegabytesHold(phys: QuadTree.Tree)
    ensures var S := SixMegabytes(phys);
            && HasTable(S, 1) && HasTable(S, 2) && HasTable(S, 3) && HasTable(S, 4) && HasTable(S, 17) && S.next == 0
            && S.mem[1] == ZeroTable()[0 := To(2)] && S.mem[2] == ZeroTable()[0 := To(3)]
            && S.mem[3][0] == To(4) && S.mem[3][1] == ZERO && S.mem[3][2] == To(17)
  {}

  lemma TheCall(env: Env, S: State)
    ensures GoodRange(0x1F_F000, 0x20_2000)
    ensures BackVmem(env, S, 1, 0x1F_F000, 0x20_2000, 0) == Crawl(env, S, 1, [0, 0, 0, 511], [0, 0, 2, 0], Back(0))
  {
    hide Indices, Crawl, LastByte;
    TheIndices();
  }

  /** back_vmem for the pages from 1ff000 to 400fff, hexadecimal: afterwards the addresses 200000 and 400000
      resolve to the same frame, as the entry of the second two megabytes leads to the table of the third. */
  lemma CommittedBackAliases(level: nat, phys: QuadTree.Tree)
    ensures var env, S := Surroundings(level), SixMegabytes(phys);
            var S' := BackVmem(env, S, 1, 0x1F_F000, 0x20_2000, 0);
            && Rooted(env, S, 1) && GoodRange(0x1F_F000, 0x20_2000) && !CleanCall(S, 1, 0x1F_F000, 0x20_2000)
            && ResolveToPhmem(S', 1, 0x20_0000).Ok?
            && ResolveToPhmem(S', 1, 0x20_0000) == ResolveToPhmem(S', 1, 0x40_0000)
  {
    hide Indices, Rooted, LastByte, SixMegabytes, BackVmem, GoodRange, ResolveToPhmem, CleanCall, Crawl;
    var env, S := Surroundings(level), SixMegabytes(phys);
    SixMegabytesOk(level, phys);
    SixMegabytesHold(phys);
    TheCall(env, S);
    OneEntry(env, S, 1, [0, 0, 0, 511], [0, 0, 2, 0], 2);
    OneEntry(env, S, 2, [0, 0, 511], [0, 2, 0], 3);
    assert [0, 0, 0, 511][1..] == [0, 0, 511] && [0, 0, 2, 0][1..] == [0, 2, 0];
    assert [0, 0, 511][1..] == [0, 511] && [0, 2, 0][1..] == [2, 0];
    var R := ThreeEntries(env, S);
    NotClean(phys);
    BothResolve(R);
  }

  lemma BothResolve(R: State)
    requires 1 in R.mem && 2 in R.mem && HasTable(R, 3) && HasTable(R, 17)
    requires R.mem[1] == ZeroTable()[0 := To(2)] && R.mem[2] == ZeroTable()[0 := To(3)]
    requires R.mem[3][1] == To(17) && R.mem[3][2] == To(17) && Has(R.mem[17][0], P) && Has(R.mem[17][0], RW)
    ensures ResolveToPhmem(R, 1, 0x20_0000).Ok? && ResolveToPhmem(R, 1, 0x20_0000) == ResolveToPhmem(R, 1, 0x40_0000)
  {
    ToBits();
    HasFlags();
    hide Has;
  }

  lemma NotClean(phys: QuadTree.Tree)
    ensures !CleanCall(SixMegabytes(phys), 1, 0x1F_F000, 0x20_2000)
  {
    ToBits();
    HasFlags();
    ZeroHasNothing();
    TheIndices();
    hide Has, Indices, LastByte;
    var S := SixMegabytes(phys);
    assert !CleanEntry(S, 3, 1, [0, 511], [2, 0]);
    assert !Clean(S, 3, [0, 511], [2, 0]);
    assert [0, 0, 511][1..] == [0, 511] && [0, 2, 0][1..] == [2, 0];
    assert !CleanEntry(S, 2, 0, [0, 0, 511], [0, 2, 0]);
    assert !Clean(S, 2, [0, 0, 511], [0, 2, 0]);
    assert [0, 0, 0, 511][1..] == [0, 0, 511] && [0, 0, 2, 0][1..] == [0, 2, 0];
    assert !CleanEntry(S, 1, 0, [0, 0, 0, 511], [0, 0, 2, 0]);
  }
}
