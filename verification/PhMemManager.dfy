/** The page-table code as the kernel runs it: tables overwritten in place, frames from the physical allocator. */
module PhysicalMapping {
  import opened Machine
  import opened PagePath
  import opened PageTables
  import opened PageTablesTheory
  import opened MemoryManager
  import opened CommittedRange
  import opened CommittedBack
  import opened EitherCrawl
  import QuadTree
  import QT = QuadTreeTheory
  import PM = PhysicalMemory

  const TO_THE_END: nat := U64 - 1
  const FROM_THE_BEGINNING: nat := 0

  lemma EndIndices(lv: nat)
    requires lv <= 5
    ensures Digits(TO_THE_END / PAGE, lv) == Last(lv) && Digits(FROM_THE_BEGINNING / PAGE, lv) == First(lv)
  {
    var n := TO_THE_END / PAGE;
    assert n == 0xf_ffff_ffff_ffff;
    assert Down(n, 1) == 0x7ff_ffff_ffff;
    assert Down(n, 2) == 0x3_ffff_ffff by { DownStep(n, 1); }
    assert Down(n, 3) == 0x1ff_ffff by { DownStep(n, 2); }
    assert Down(n, 4) == 0xffff by { DownStep(n, 3); }
    forall j | 0 < j <= lv ensures Digit(n, j) == ENTRIES - 1 && Digit(0, j) == 0 {
      ZeroDown(j - 1);
    }
  }

  lemma {:induction false} ZeroDown(k: nat)
    ensures Down(0, k) == 0
  {
    if k > 0 { ZeroDown(k - 1); }
  }

  class PhMemManager {
    const env: Env
    const palloc: PM.PhTreeAllocator
    const root: nat
    var mem: map<nat, seq<Entry>>
    var offset: nat
    ghost var at: map<nat, seq<nat>>
    ghost var log: seq<Visit>

    ghost predicate Valid()
      reads palloc.Repr
    {
      palloc.Valid() && palloc.level == env.physLevel
    }

    ghost function Now(): State
      requires Valid()
      reads this, palloc.Repr
    {
      State(mem, at, offset, palloc.Model(), log)
    }

    constructor (env: Env, palloc: PM.PhTreeAllocator, root: nat, mem: map<nat, seq<Entry>>,
                 ghost at: map<nat, seq<nat>>)
      requires palloc.Valid() && palloc.level == env.physLevel
      ensures Valid() && this.env == env && this.palloc == palloc && this.root == root
      ensures Now() == State(mem, at, 0, palloc.Model(), [])
    {
      this.env, this.palloc, this.root := env, palloc, root;
      this.mem, this.at, this.offset, this.log := mem, at, 0, [];
    }

    /** The new entry of a page, and its frame taken or released. */
    method ChangePage(e: Entry, op: Op) returns (e': Entry)
      requires Valid()
      modifies palloc.Repr
      ensures Valid() && e' == PageCallback(op, old(palloc.Model()), env.physLevel, e)
      ensures palloc.Model() == PhysAfter(op, old(palloc.Model()), env.physLevel, e)
    {
      hide QuadTree.GetPage, QuadTree.AfterGetPage, QuadTree.ReleasePage, FrameOf, QuadTree.Honest;
      hide PM.PhTreeAllocator.Built, PM.PhTreeAllocator.Model;
      match op {
        case Back(flags) =>
          var page := palloc.GetPage();
          e' := Entry(FrameOf(page), P | RW | flags);
        case Unback =>
          e' := Entry(e.frame, e.flags & !P);
          palloc.ReleasePage(e'.frame * PAGE);
      }
    }

    /** callback_page of back_vmem or unback_vmem on entry i of a leaf table. */
    method CallbackPage(f: nat, i: nat, op: Op)
      requires Valid() && HasTable(Now(), f) && i < ENTRIES
      modifies this, palloc.Repr
      ensures Valid() && Now() == VisitPage(env, old(Now()), f, i, op)
    {
      hide QuadTree.GetPage, QuadTree.AfterGetPage, QuadTree.ReleasePage, FrameOf, QuadTree.Honest;
      hide PM.PhTreeAllocator.Built, PM.PhTreeAllocator.Model, PageCallback, PhysAfter;
      var e := mem[f][i];
      var e' := ChangePage(e, op);
      mem := mem[f := mem[f][i := e']];
      log := log + [Visit(at[f] + [i], e, e')];
    }

    method CrawlTablesLvl1(start: nat, end: nat, table: nat, op: Op)
      requires Valid() && table in mem && table in at && WF(env, Now(), |at[table]| + 1)
      requires Digit(start / PAGE, 1) <= Digit(end / PAGE, 1)
      modifies this, palloc.Repr
      ensures Valid()
      ensures Now() == VisitPages(env, old(Now()), table, Digit(start / PAGE, 1), Digit(end / PAGE, 1), op)
    {
      hide WF, VisitPage, Digit;
      ghost var S := Now();
      ghost var top := |at[table]| + 1;
      var startIndex := Digit(start / PAGE, 1);
      var endIndex := Digit(end / PAGE, 1);
      WFTable(env, S, table, top);
      VisitKeeps(env, S, table, startIndex, op, top);
      CallbackPage(table, startIndex, op);
      if startIndex == endIndex { return; }
      var i := startIndex + 1;
      while i <= endIndex
        invariant startIndex < i <= endIndex + 1 && Valid()
        invariant WF(env, Now(), top) && table in mem && table in at && at == S.at
        invariant VisitPages(env, S, table, startIndex, endIndex, op) == VisitPages(env, Now(), table, i, endIndex, op)
      {
        WFTable(env, Now(), table, top);
        VisitKeeps(env, Now(), table, i, op, top);
        CallbackPage(table, i, op);
        i := i + 1;
      }
    }

    /** Makes sure a directory entry leads to a table, then calls callback_dir on it. */
    method EnterDirectory(f: nat, i: nat, s0: nat, e0: nat, op: Op)
      requires Valid() && HasTable(Now(), f) && i < ENTRIES && e0 < ENTRIES
      modifies this
      ensures Valid() && Now() == Enter(env, old(Now()), f, i, s0, e0, op)
    {
      hide QuadTree.Honest, DirCallback, NewEntry, Has;
      if !Has(mem[f][i], OS_CRAWLABLE) {
        var newtable := env.supply(offset);
        var e := NewEntry(env.version, mem[f], i, s0, e0, newtable);
        offset := offset + 1;
        at := at[newtable := at[f] + [i]];
        mem := mem[newtable := ZeroTable()][f := mem[f][i := DirCallback(op, e)]];
      } else {
        mem := mem[f := mem[f][i := DirCallback(op, mem[f][i])]];
      }
    }

    /** One entry of a directory: enter it, then crawl its table from lo to hi. */
    method CrawlEntry(ghost T: State, ghost s: seq<nat>, ghost e: seq<nat>, lv: nat, i: nat, s0: nat, e0: nat, lo: nat,
                      hi: nat, f: nat, op: Op, ghost top: nat)
      returns (ghost T2: State)
      requires Valid() && 1 < lv <= 5 && ReadyFrom(env, Now(), T, f, i, s, e, op, top) && |s| == |e| == lv
      requires s[0] == s0 <= i <= e0 == e[0] && lo < U64 && hi < U64
      requires Digits(lo / PAGE, lv - 1) == Lo(s, i) && Digits(hi / PAGE, lv - 1) == Hi(e, i)
      modifies this, palloc.Repr
      ensures Valid() && ReadyFrom(env, Now(), T2, f, i + 1, s, e, op, top)
      ensures CrawlEntries(env, old(Now()), f, i, s, e, op) == CrawlEntries(env, Now(), f, i + 1, s, e, op)
      decreases lv, 0
    {
      hide ReadyFrom, Ready, Enter, Crawl, CrawlEntries, Digits, Lo, Hi, QuadTree.Honest;
      ghost var S := Now();
      ghost var S1, S2, T1;
      S1, S2, T1, T2 := StepBeside(env, S, T, f, i, s, e, op, top);
      EnterDirectory(f, i, s0, e0, op);
      CrawlTables(lv - 1, lo, hi, mem[f][i].frame, op, T1, top);
    }

    /** crawl_tables<lv>.  T is the state of the corrected crawl beside this one. */
    method CrawlTables(lv: nat, start: nat, end: nat, table: nat, op: Op, ghost T: State, ghost top: nat)
      requires Valid() && 0 < lv <= 5 && start < U64 && end < U64
      requires Ready(env, Now(), T, table, Digits(start / PAGE, lv), Digits(end / PAGE, lv), op, top)
      modifies this, palloc.Repr
      ensures Valid()
      ensures Now() == Crawl(env, old(Now()), table, Digits(start / PAGE, lv), Digits(end / PAGE, lv), op)
      decreases lv, 1
    {
      hide CrawlEntries, ReadyFrom, WF, QuadTree.Honest, Lo, Hi, VisitPages, Digit, Digits;
      ghost var s, e := Digits(start / PAGE, lv), Digits(end / PAGE, lv);
      ghost var S := Now();
      ReadyTable(env, S, T, table, s[0], s, e, op, top);
      DigitsHead(start / PAGE, lv);
      DigitsHead(end / PAGE, lv);
      if lv == 1 {
        CrawlTablesLvl1(start, end, table, op);
        return;
      }
      EndIndices(lv - 1);
      var startIndex := Digit(start / PAGE, lv);
      var endIndex := Digit(end / PAGE, lv);
      if startIndex == endIndex {
        LoHiAt(s, e, startIndex);
        ghost var T2 := CrawlEntry(T, s, e, lv, startIndex, startIndex, endIndex, start, end, table, op, top);
        PastTheEnd(env, Now(), table, s, e, op);
        return;
      }
      LoHiAt(s, e, startIndex);
      ghost var U := CrawlEntry(T, s, e, lv, startIndex, startIndex, endIndex, start, TO_THE_END, table, op, top);
      var i := startIndex + 1;
      while i < endIndex
        invariant startIndex < i <= endIndex && Valid() && ReadyFrom(env, Now(), U, table, i, s, e, op, top)
        invariant CrawlEntries(env, S, table, startIndex, s, e, op) == CrawlEntries(env, Now(), table, i, s, e, op)
      {
        LoHiAt(s, e, i);
        U := CrawlEntry(U, s, e, lv, i, startIndex, endIndex, FROM_THE_BEGINNING, TO_THE_END, table, op, top);
        i := i + 1;
      }
      LoHiAt(s, e, endIndex);
      U := CrawlEntry(U, s, e, lv, endIndex, startIndex, endIndex, FROM_THE_BEGINNING, end, table, op, top);
      PastTheEnd(env, Now(), table, s, e, op);
    }

    /** phmem_manager::back_vmem on the current address space; as committed, over a clean range. */
    method BackVmem(a: nat, size: nat, flags: bv12) returns (ok: bool)
      requires Valid() && Rooted(env, Now(), root) && flags & PS == 0 && a < U64 && size < U64
      requires NotCanonical(a) || (GoodRange(a, size) && (env.version.AsCommitted? ==> CleanCall(Now(), root, a, size)))
      modifies this, palloc.Repr
      ensures Valid() && ok == !NotCanonical(a)
      ensures Now() == MemoryManager.BackVmem(env, old(Now()), root, a, size, flags)
    {
      hide Ready, WF, Crawl, QuadTree.Honest, Digits;
      if NotCanonical(a) { return false; }
      BackReady(env, Now(), root, a, size, flags);
      CrawlTables(4, a, LastByte(a, size), root, Back(flags), Now(), LEVELS);
      return true;
    }

    /** phmem_manager::unback_vmem. */
    method UnbackVmem(a: nat, size: nat)
      requires Valid() && Rooted(env, Now(), root)
      requires a < U64 && size < U64 && (NotCanonical(a) || GoodRange(a, size))
      requires !NotCanonical(a) ==> Covered(Now(), root, Indices(a), Indices(LastByte(a, size)), Unback)
      modifies this, palloc.Repr
      ensures Valid() && Now() == MemoryManager.UnbackVmem(env, old(Now()), root, a, size)
    {
      hide Ready, WF, Crawl, QuadTree.Honest, Digits, Covered;
      if NotCanonical(a) { return; }
      UnbackReady(env, Now(), root, a, size);
      CrawlTables(4, a, LastByte(a, size), root, Unback, Now(), LEVELS);
    }
  }

  lemma DigitsHead(n: nat, lv: nat)
    requires lv > 0
    ensures |Digits(n, lv)| == lv && Digits(n, lv)[0] == Digit(n, lv) && Digits(n, lv)[1..] == Digits(n, lv - 1)
  {}

  lemma LoHiAt(s: seq<nat>, e: seq<nat>, i: nat)
    requires |s| == |e| > 0
    ensures Lo(s, i) == if i == s[0] then s[1..] else First(|s| - 1)
    ensures Hi(e, i) == if i == e[0] then e[1..] else Last(|e| - 1)
  {}
}
