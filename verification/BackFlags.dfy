/** The flags that back_vmem leaves in the entries on the way to a page. */
module BackFlags {
  import opened Machine
  import opened PagePath
  import opened PageTables
  import opened PageTablesTheory
  import opened MemoryManager
  import opened CommittedRange
  import opened EitherCrawl
  import opened CommittedBack
  import QuadTree

  /** All of these bits are set. */
  predicate Contains(x: bv12, bits: bv12) {
    x & bits == bits
  }

  /** No other bits are set. */
  predicate Inside(x: bv12, bits: bv12) {
    x | bits == bits
  }

  /** Directory entries that lead to a table keep leading there, and keep the bits if they have them. */
  ghost predicate MarksKept(S: State, S': State, bits: bv12, top: nat) {
    forall g, i ::
      g in S.mem && g in S.at && |S.at[g]| < top - 1 && 0 <= i < |S.mem[g]| && Has(S.mem[g][i], OS_CRAWLABLE) ==>
        && g in S'.mem && g in S'.at && |S'.mem[g]| == |S.mem[g]| && S'.at[g] == S.at[g]
        && Has(S'.mem[g][i], OS_CRAWLABLE) && S'.mem[g][i].frame == S.mem[g][i].frame
        && (Contains(S.mem[g][i].flags, bits) ==> Contains(S'.mem[g][i].flags, bits))
  }

  /** The directory entries on the way from table f along q have the bits. */
  ghost predicate PathMarked(S: State, f: nat, q: seq<nat>, bits: bv12)
    decreases |q|
  {
    |q| > 1 ==>
      && HasTable(S, f) && q[0] < ENTRIES && Has(S.mem[f][q[0]], OS_CRAWLABLE)
      && Contains(S.mem[f][q[0]].flags, bits) && PathMarked(S, S.mem[f][q[0]].frame, q[1..], bits)
  }

  lemma MarksTrans(S: State, S': State, S'': State, bits: bv12, top: nat)
    requires MarksKept(S, S', bits, top) && MarksKept(S', S'', bits, top)
    ensures MarksKept(S, S'', bits, top)
  {
    hide Has, Contains;
  }

  lemma {:induction false} PathKept(env: Env, S: State, S': State, f: nat, q: seq<nat>, bits: bv12, top: nat)
    requires WF(env, S, top) && MarksKept(S, S', bits, top) && f in S.mem && |S.at[f]| + |q| == top
    requires PathMarked(S, f, q, bits)
    ensures PathMarked(S', f, q, bits)
    decreases |q|
  {
    hide WF, Has, Contains;
    if |q| > 1 {
      WFTable(env, S, f, top);
      WFChild(env, S, f, q[0], top);
      PathKept(env, S, S', S.mem[f][q[0]].frame, q[1..], bits, top);
    }
  }

  lemma FlagBits(x: bv12, f: bv12, bits: bv12)
    ensures Contains(x | P | RW | f, P | RW | f)
    ensures Contains(x, bits) ==> Contains(x | P | RW | f, bits)
    ensures x & OS_CRAWLABLE != 0 ==> (x | P | RW | f) & OS_CRAWLABLE != 0
  {}

  lemma CrawlableBit(x: bv12)
    ensures (x | OS_CRAWLABLE) & !PS & OS_CRAWLABLE != 0
  {}

  /** Entry i of a directory now leads to a table, with the bits; the other entries are as they were. */
  ghost predicate PutMarked(S: State, S': State, f: nat, i: nat, bits: bv12) {
    && HasTable(S, f) && HasTable(S', f) && i < ENTRIES && S'.at[f] == S.at[f]
    && Has(S'.mem[f][i], OS_CRAWLABLE) && Contains(S'.mem[f][i].flags, bits)
    && (Has(S.mem[f][i], OS_CRAWLABLE) ==> S'.mem[f][i].frame == S.mem[f][i].frame)
    && (forall j :: 0 <= j < ENTRIES && j != i ==> S'.mem[f][j] == S.mem[f][j])
    && (forall g :: g in S.mem && g in S.at && g != f ==>
          && g in S'.mem && g in S'.at && S'.mem[g] == S.mem[g] && S'.at[g] == S.at[g])
  }

  lemma PutKeepsMarks(S: State, S': State, f: nat, i: nat, bits: bv12, top: nat)
    requires PutMarked(S, S', f, i, bits)
    ensures MarksKept(S, S', bits, top)
  {
    hide Has, Contains;
  }

  lemma EnterMarks(env: Env, S: State, f: nat, i: nat, s0: nat, e0: nat, flags: bv12, top: nat)
    requires WF(env, S, top) && f in S.mem && HasTable(S, f) && |S.at[f]| < top - 1 && i < ENTRIES && e0 < ENTRIES
    ensures var S1 := Enter(env, S, f, i, s0, e0, Back(flags));
            && MarksKept(S, S1, P | RW | flags, top) && HasTable(S1, f) && S1.at[f] == S.at[f]
            && Has(S1.mem[f][i], OS_CRAWLABLE) && Contains(S1.mem[f][i].flags, P | RW | flags)
  {
    hide MarksKept, Has, Contains, DirCallback, NewEntry;
    var S1, bits := Enter(env, S, f, i, s0, e0, Back(flags)), P | RW | flags;
    EnterPutMarked(env, S, f, i, s0, e0, flags, top);
    PutKeepsMarks(S, S1, f, i, bits, top);
  }

  lemma EnterPutMarked(env: Env, S: State, f: nat, i: nat, s0: nat, e0: nat, flags: bv12, top: nat)
    requires WF(env, S, top) && HasTable(S, f) && |S.at[f]| < top - 1 && i < ENTRIES && e0 < ENTRIES
    ensures PutMarked(S, Enter(env, S, f, i, s0, e0, Back(flags)), f, i, P | RW | flags)
  {
    hide Has, Contains, DirCallback, NewEntry, TableOk;
    EnteredHas(S.mem[f][i], flags);
    EnteredHas(NewEntry(env.version, S.mem[f], i, s0, e0, env.supply(S.next)), flags);
    NewIsCrawlable(env.version, S.mem[f], i, s0, e0, env.supply(S.next));
  }

  lemma EnteredHas(e: Entry, flags: bv12)
    ensures var e' := DirCallback(Back(flags), e);
            && Contains(e'.flags, P | RW | flags) && e'.frame == e.frame
            && (Has(e, OS_CRAWLABLE) ==> Has(e', OS_CRAWLABLE))
  {
    FlagBits(e.flags, flags, P | RW | flags);
  }

  lemma NewIsCrawlable(v: Version, table: seq<Entry>, i: nat, s0: nat, e0: nat, frame: nat)
    requires |table| == ENTRIES && i < ENTRIES && e0 < ENTRIES
    ensures Has(NewEntry(v, table, i, s0, e0, frame), OS_CRAWLABLE)
  {
    CrawlableBit(table[i].flags);
    CrawlableBit(table[e0].flags);
  }

  lemma VisitsMark(env: Env, S: State, f: nat, i: nat, e0: nat, op: Op, bits: bv12, top: nat)
    requires WF(env, S, top) && f in S.mem && |S.at[f]| == top - 1
    ensures MarksKept(S, VisitPages(env, S, f, i, e0, op), bits, top)
  {
    hide TableOk, VisitPages, Has, Contains;
    VisitsKeepOthers(env, S, f, i, e0, op);
  }

  /** A crawl of back_vmem, in either version, marks the way to every page of the range. */
  lemma {:induction false} CrawlMarks(env: Env, S: State, T: State, f: nat, s: seq<nat>, e: seq<nat>, flags: bv12,
      top: nat)
    requires Ready(env, S, T, f, s, e, Back(flags), top)
    ensures var S' := Crawl(env, S, f, s, e, Back(flags));
            && MarksKept(S, S', P | RW | flags, top)
            && forall q :: InRange(s, e, q) ==> PathMarked(S', f, q, P | RW | flags)
    decreases |s|, 0
  {
    hide WF, CrawlEntries, VisitPages, MarksKept, ReadyFrom, Value, Has;
    ReadyTable(env, S, T, f, s[0], s, e, Back(flags), top);
    if |s| == 1 {
      VisitsMark(env, S, f, s[0], e[0], Back(flags), P | RW | flags, top);
    } else {
      ReadyPaths(env, S, T, f, s[0], s, e, Back(flags), top);
      EntriesMark(env, S, T, f, s[0], s, e, flags, top);
      forall q | InRange(s, e, q)
        ensures PathMarked(Crawl(env, S, f, s, e, Back(flags)), f, q, P | RW | flags)
      {
        InRangeFirst(s, e, q);
      }
    }
  }

  lemma InRangeFirst(s: seq<nat>, e: seq<nat>, q: seq<nat>)
    requires InRange(s, e, q) && |s| > 0 && Path(s) && Path(e)
    ensures s[0] <= q[0] <= e[0]
  {
    if q[0] < s[0] { FirstDigitDecides(q, s); }
    if e[0] < q[0] { FirstDigitDecides(e, q); }
  }

  lemma {:induction false} EntriesMark(env: Env, S: State, T: State, f: nat, i: nat, s: seq<nat>, e: seq<nat>,
      flags: bv12, top: nat)
    requires ReadyFrom(env, S, T, f, i, s, e, Back(flags), top) && |s| > 1 && s[0] <= i <= e[0] + 1
    ensures var S' := CrawlEntries(env, S, f, i, s, e, Back(flags));
            && MarksKept(S, S', P | RW | flags, top)
            && forall q :: InRange(s, e, q) && |q| > 0 && i <= q[0] <= e[0] ==> PathMarked(S', f, q, P | RW | flags)
    decreases |s| - 1, 1, ENTRIES - i
  {
    hide WF, Crawl, MarksKept, ReadyFrom, Ready, Value, Has, Lo, Hi, Enter, Contains, PathMarked, InRange;
    ReadyTable(env, S, T, f, i, s, e, Back(flags), top);
    var op, bits := Back(flags), P | RW | flags;
    if i <= e[0] {
      var S1, S2, T1, T2 := StepBeside(env, S, T, f, i, s, e, op, top);
      EnterMarks(env, S, f, i, s[0], e[0], flags, top);
      var c := S1.mem[f][i].frame;
      CrawlMarks(env, S1, T1, c, Lo(s, i), Hi(e, i), flags, top);
      MarksTrans(S, S1, S2, bits, top);
      ReadyTable(env, S2, T2, f, i + 1, s, e, op, top);
      EntriesMark(env, S2, T2, f, i + 1, s, e, flags, top);
      var S' := CrawlEntries(env, S, f, i, s, e, op);
      MarksTrans(S, S2, S', bits, top);
      ReadyPaths(env, S, T, f, i, s, e, op, top);
      forall q | InRange(s, e, q) && |q| > 0 && i <= q[0] <= e[0] ensures PathMarked(S', f, q, bits) {
        if q[0] == i {
          RangeLength(s, e, q);
          BelowEntry(s, e, i, q);
          EntryMarked(S1, S2, f, i, q, bits, top);
          PathKept(env, S2, S', f, q, bits, top);
        }
      }
    } else {
      MarksRefl(S, bits, top);
    }
  }

  lemma MarksRefl(S: State, bits: bv12, top: nat)
    ensures MarksKept(S, S, bits, top)
  {}

  lemma RangeLength(s: seq<nat>, e: seq<nat>, q: seq<nat>)
    requires InRange(s, e, q)
    ensures |q| == |s| == |e|
  {}

  lemma BelowEntry(s: seq<nat>, e: seq<nat>, i: nat, q: seq<nat>)
    requires InRange(s, e, q) && |s| > 1 && q[0] == i && Path(s) && Path(e)
    ensures InRange(Lo(s, i), Hi(e, i), q[1..])
  {
    assert [i] + q[1..] == q;
    RangeSplits(s, e, i, q[1..]);
  }

  lemma ReadyPaths(env: Env, S: State, T: State, f: nat, i: nat, s: seq<nat>, e: seq<nat>, op: Op, top: nat)
    requires ReadyFrom(env, S, T, f, i, s, e, op, top)
    ensures Path(s) && Path(e)
  {}

  lemma EntryMarked(S1: State, S2: State, f: nat, i: nat, q: seq<nat>, bits: bv12, top: nat)
    requires HasTable(S1, f) && HasTable(S2, f) && |S1.at[f]| < top - 1 && i < ENTRIES && |q| > 1 && q[0] == i
    requires Has(S1.mem[f][i], OS_CRAWLABLE) && Contains(S1.mem[f][i].flags, bits) && MarksKept(S1, S2, bits, top)
    requires PathMarked(S2, S1.mem[f][i].frame, q[1..], bits)
    ensures PathMarked(S2, f, q, bits)
  {
    hide Has, Contains;
  }

  // ---------- back_vmem ----------

  /** The entries that an address leads to, level by level: three in directories, one for its page. */
  function EntryOn(S: State, root: nat, b: nat, level: nat): Entry
    requires 1 <= level <= 4
    decreases 4 - level
  {
    var f := if level == 4 then root else EntryOn(S, root, b, level + 1).frame;
    var n := PageNumber(b);
    var k := if level == 4 then n / 0x800_0000 else if level == 3 then n / 0x4_0000
             else if level == 2 then n / 0x200 else n;
    TableAt(S, f)[k % ENTRIES]
  }

  /** After back_vmem, in either version, the three directory entries on the way to a page of the range have the
      requested flags beside P and RW, and the entry of the page has these and no others. */
  lemma BackMarks(env: Env, S: State, root: nat, a: nat, size: nat, flags: bv12, b: nat)
    requires Rooted(env, S, root) && flags & PS == 0 && GoodRange(a, size)
    requires env.version.AsCommitted? ==> CleanCall(S, root, a, size)
    requires b < U64 && PageNumber(a) <= PageNumber(b) <= LastPage(a, size)
    ensures var S' := BackVmem(env, S, root, a, size, flags);
            && (forall level :: 2 <= level <= 4 ==> Contains(EntryOn(S', root, b, level).flags, P | RW | flags))
            && EntryOn(S', root, b, 1).flags == P | RW | flags
  {
    hide WF, Indices, Crawl, CleanCall, Ready, Find, InRange, Chained, PathMarked, Contains, NewVisits, EntryOn;
    BackReady(env, S, root, a, size, flags);
    var s, e, q := Indices(a), Indices(LastByte(a, size)), Indices(b);
    CrawlMarks(env, S, S, root, s, e, flags, LEVELS);
    InRangeIsNumber(a, size, b);
    var S' := BackVmem(env, S, root, a, size, flags);
    BackBeside(env, S, root, a, size, flags);
    BackCovers(S, root, a, size, flags);
    RightRooted(env, S, root);
    RangeVisited(Right(env), S, root, a, size, Back(flags), b);
    RangeKeeps(Right(env), S, root, a, size, Back(flags));
    var T' := BackVmem(Right(env), S, root, a, size, flags);
    var k := PageNumber(b) - PageNumber(a);
    VisitsCallBack(Back(flags), env.physLevel, S.phys, NewVisits(S, T'), T'.phys, k);
    WayMarked(env, S', root, b, P | RW | flags);
  }

  lemma WayMarked(env: Env, S: State, root: nat, b: nat, bits: bv12)
    requires Rooted(env, S, root) && b < U64 && PathMarked(S, root, Indices(b), bits)
    ensures forall level :: 2 <= level <= 4 ==> Contains(EntryOn(S, root, b, level).flags, bits)
    ensures Find(S, root, Indices(b)) == Page(EntryOn(S, root, b, 1))
  {
    hide WF, Find, Has, Contains, TableAt, Indices;
    IndexValues(b);
    var q := Indices(b);
    FindStep(env, S, root, q);
    var v4 := TableAt(S, root)[q[0]];
    assert Has(v4, OS_CRAWLABLE) && PathMarked(S, v4.frame, q[1..], bits);
    FindStep(env, S, v4.frame, q[1..]);
    var v3 := TableAt(S, v4.frame)[q[1]];
    assert Has(v3, OS_CRAWLABLE) && PathMarked(S, v3.frame, q[1..][1..], bits);
    FindStep(env, S, v3.frame, q[1..][1..]);
    var v2 := TableAt(S, v3.frame)[q[2]];
    FindLeaf(env, S, v2.frame, q[1..][1..][1..]);
    assert EntryOn(S, root, b, 4) == v4;
    assert EntryOn(S, root, b, 3) == v3;
    assert EntryOn(S, root, b, 2) == v2;
    assert EntryOn(S, root, b, 1) == TableAt(S, v2.frame)[q[3]];
  }

  // ---------- no other flags ----------

  /** Entry i of table f. */
  function FlagsAt(S: State, f: nat, i: nat): bv12 {
    if f in S.mem && i < |S.mem[f]| then S.mem[f][i].flags else 0
  }

  ghost predicate AddsAt(S: State, S': State, f: nat, i: nat, bits: bv12) {
    Inside(FlagsAt(S', f, i), FlagsAt(S, f, i) | bits)
  }

  ghost predicate AddsOnly(S: State, S': State, bits: bv12) {
    forall f: nat, i: nat :: AddsAt(S, S', f, i, bits)
  }

  lemma InsideTrans(x: bv12, y: bv12, z: bv12, bits: bv12)
    ensures Inside(z, y | bits) && Inside(y, x | bits) ==> Inside(z, x | bits)
    ensures Inside(x, x | bits) && Inside(0, x | bits)
  {}

  lemma AddsTrans(S: State, S': State, S'': State, bits: bv12)
    requires AddsOnly(S, S', bits) && AddsOnly(S', S'', bits)
    ensures AddsOnly(S, S'', bits)
  {
    hide AddsAt;
    forall f: nat, i: nat ensures AddsAt(S, S'', f, i, bits) {
      AddsAtTrans(S, S', S'', f, i, bits);
    }
  }

  lemma AddsAtTrans(S: State, S': State, S'': State, f: nat, i: nat, bits: bv12)
    requires AddsAt(S, S', f, i, bits) && AddsAt(S', S'', f, i, bits)
    ensures AddsAt(S, S'', f, i, bits)
  {
    hide Inside, FlagsAt;
    InsideTrans(FlagsAt(S, f, i), FlagsAt(S', f, i), FlagsAt(S'', f, i), bits);
  }

  lemma AddsNothing(S: State, bits: bv12)
    ensures AddsOnly(S, S, bits)
  {
    hide FlagsAt, Inside;
    forall f: nat, i: nat ensures AddsAt(S, S, f, i, bits) {
      InsideTrans(FlagsAt(S, f, i), 0, 0, bits);
    }
  }

  /** One entry is written, in a table that may be fresh. */
  lemma PutAdds(S: State, S': State, f: nat, i: nat, e: Entry, nf: nat, bits: bv12)
    requires HasTable(S, f) && i < ENTRIES && Inside(e.flags, S.mem[f][i].flags | bits)
    requires S'.mem == S.mem[f := S.mem[f][i := e]] || S'.mem == S.mem[nf := ZeroTable()][f := S.mem[f][i := e]]
    ensures AddsOnly(S, S', bits)
  {
    hide Inside, AddsAt, ZeroTable;
    forall g: nat, j: nat ensures AddsAt(S, S', g, j, bits) {
      if g == f && j == i {
        AddsHere(S, S', f, i, bits);
      } else {
        AddsSame(S, S', g, j, bits);
      }
    }
  }

  lemma AddsHere(S: State, S': State, f: nat, i: nat, bits: bv12)
    requires f in S.mem && f in S'.mem && i < |S.mem[f]| && i < |S'.mem[f]|
    requires Inside(S'.mem[f][i].flags, S.mem[f][i].flags | bits)
    ensures AddsAt(S, S', f, i, bits)
  {
    hide Inside;
  }

  lemma AddsSame(S: State, S': State, g: nat, j: nat, bits: bv12)
    requires FlagsAt(S', g, j) == FlagsAt(S, g, j) || FlagsAt(S', g, j) == 0
    ensures AddsAt(S, S', g, j, bits)
  {
    hide Inside, FlagsAt;
    InsideTrans(FlagsAt(S, g, j), 0, 0, bits);
  }

  /** The flags of a directory entry that was entered, over flags x. */
  function Entered(x: bv12, crawlable: bool, f: bv12): bv12 {
    if crawlable then x | P | RW | f else ((x | OS_CRAWLABLE) & !PS) | P | RW | f
  }

  function Allowed(f: bv12): bv12 {
    OS_CRAWLABLE | P | RW | f
  }

  lemma EntryBits(x: bv12, crawlable: bool, f: bv12)
    ensures Inside(Entered(x, crawlable, f), x | Allowed(f)) && Inside(P | RW | f, x | Allowed(f))
  {}

  lemma EnteredFlags(e: Entry, table: seq<Entry>, i: nat, s0: nat, e0: nat, frame: nat, flags: bv12)
    requires |table| == ENTRIES && i < ENTRIES && e0 < ENTRIES && e == table[i]
    ensures DirCallback(Back(flags), e).flags == Entered(e.flags, true, flags)
    ensures DirCallback(Back(flags), NewEntry(Corrected, table, i, s0, e0, frame)).flags ==
            Entered(e.flags, false, flags)
  {}

  lemma EnterPuts(env: Env, S: State, f: nat, i: nat, s0: nat, e0: nat, op: Op)
    requires HasTable(S, f) && i < ENTRIES && e0 < ENTRIES
    ensures var S1 := Enter(env, S, f, i, s0, e0, op);
            var nf := env.supply(S.next);
            if Has(S.mem[f][i], OS_CRAWLABLE) then S1.mem == S.mem[f := S.mem[f][i := DirCallback(op, S.mem[f][i])]]
            else S1.mem == S.mem[nf := ZeroTable()][f :=
                   S.mem[f][i := DirCallback(op, NewEntry(env.version, S.mem[f], i, s0, e0, nf))]]
  {
    hide Has, DirCallback, NewEntry;
  }

  lemma EnterAdds(env: Env, S: State, f: nat, i: nat, s0: nat, e0: nat, flags: bv12)
    requires env.version.Corrected? && HasTable(S, f) && i < ENTRIES && e0 < ENTRIES
    ensures AddsOnly(S, Enter(env, S, f, i, s0, e0, Back(flags)), Allowed(flags))
  {
    hide Inside, AddsOnly, ZeroTable, Enter, Entered, Allowed, Has, DirCallback, NewEntry;
    var S1, nf := Enter(env, S, f, i, s0, e0, Back(flags)), env.supply(S.next);
    EnterPuts(env, S, f, i, s0, e0, Back(flags));
    EnteredFlags(S.mem[f][i], S.mem[f], i, s0, e0, nf, flags);
    EntryBits(S.mem[f][i].flags, Has(S.mem[f][i], OS_CRAWLABLE), flags);
    PutAdds(S, S1, f, i, S1.mem[f][i], nf, Allowed(flags));
  }

  lemma {:induction false} VisitsAdd(env: Env, S: State, f: nat, i: nat, e0: nat, flags: bv12)
    ensures AddsOnly(S, VisitPages(env, S, f, i, e0, Back(flags)), Allowed(flags))
    decreases ENTRIES - i
  {
    hide Inside, AddsOnly, PhysAfter, Allowed;
    var bits := Allowed(flags);
    if i > e0 || i >= ENTRIES || !HasTable(S, f) {
      AddsNothing(S, bits);
    } else {
      var S1 := VisitPage(env, S, f, i, Back(flags));
      EntryBits(S.mem[f][i].flags, true, flags);
      PutAdds(S, S1, f, i, S1.mem[f][i], 0, bits);
      VisitsAdd(env, S1, f, i + 1, e0, flags);
      AddsTrans(S, S1, VisitPages(env, S, f, i, e0, Back(flags)), bits);
    }
  }

  lemma {:induction false} CrawlAdds(env: Env, S: State, f: nat, s: seq<nat>, e: seq<nat>, flags: bv12)
    requires env.version.Corrected? && |s| == |e|
    ensures AddsOnly(S, Crawl(env, S, f, s, e, Back(flags)), Allowed(flags))
    decreases |s|, 0
  {
    hide AddsOnly, VisitPages, CrawlEntries, Allowed;
    if |s| == 0 {
      AddsNothing(S, Allowed(flags));
    } else if |s| == 1 {
      VisitsAdd(env, S, f, s[0], e[0], flags);
    } else {
      EntriesAdd(env, S, f, s[0], s, e, flags);
    }
  }

  lemma {:induction false} EntriesAdd(env: Env, S: State, f: nat, i: nat, s: seq<nat>, e: seq<nat>, flags: bv12)
    requires env.version.Corrected? && |s| == |e| > 1
    ensures AddsOnly(S, CrawlEntries(env, S, f, i, s, e, Back(flags)), Allowed(flags))
    decreases |s| - 1, 1, ENTRIES - i
  {
    hide AddsOnly, Crawl, Enter, Lo, Hi, Allowed;
    var op, bits := Back(flags), Allowed(flags);
    if i > e[0] || i >= ENTRIES || e[0] >= ENTRIES || !HasTable(S, f) {
      AddsNothing(S, bits);
    } else {
      var S1 := Enter(env, S, f, i, s[0], e[0], op);
      EnterHasTable(env, S, f, i, s[0], e[0], op);
      var c := S1.mem[f][i].frame;
      var S2 := Crawl(env, S1, c, Lo(s, i), Hi(e, i), op);
      EnterAdds(env, S, f, i, s[0], e[0], flags);
      CrawlAdds(env, S1, c, Lo(s, i), Hi(e, i), flags);
      EntriesAdd(env, S2, f, i + 1, s, e, flags);
      AddsTrans(S, S1, S2, bits);
      AddsTrans(S, S2, CrawlEntries(env, S, f, i, s, e, op), bits);
    }
  }

  /** As corrected back_vmem sets no bit, in any entry of any table, but the requested ones, P, RW and OS_CRAWLABLE. */
  lemma BackAddsOnly(env: Env, S: State, root: nat, a: nat, size: nat, flags: bv12, f: nat, i: nat)
    requires env.version.Corrected? && a < U64 && size < U64
    ensures Inside(FlagsAt(BackVmem(env, S, root, a, size, flags), f, i), FlagsAt(S, f, i) | Allowed(flags))
  {
    hide Inside, FlagsAt, Crawl, Indices, Allowed;
    if NotCanonical(a) {
      AddsNothing(S, Allowed(flags));
    } else {
      CrawlAdds(env, S, root, Indices(a), Indices(LastByte(a, size)), flags);
    }
    assert AddsAt(S, BackVmem(env, S, root, a, size, flags), f, i, Allowed(flags));
  }

  /** As committed a fresh entry strictly inside the range takes over the flags of the end entry, but for the one of a
      large page. */
  lemma EnterInherits(env: Env, S: State, f: nat, i: nat, s0: nat, e0: nat, flags: bv12, bits: bv12)
    requires env.version.AsCommitted? && HasTable(S, f) && s0 < i < e0 < ENTRIES && !Has(S.mem[f][i], OS_CRAWLABLE)
    requires Contains(S.mem[f][e0].flags, bits) && bits & PS == 0
    ensures var S1 := Enter(env, S, f, i, s0, e0, Back(flags));
            HasTable(S1, f) && Contains(S1.mem[f][i].flags, bits)
  {
    var e := NewEntry(env.version, S.mem[f], i, s0, e0, env.supply(S.next));
    Inherited(S.mem[f][e0].flags, flags, bits);
    assert e.flags == (S.mem[f][e0].flags | OS_CRAWLABLE) & !PS;
    hide Contains, NewEntry;
  }

  lemma Inherited(x: bv12, f: bv12, bits: bv12)
    requires Contains(x, bits) && bits & PS == 0
    ensures Contains(((x | OS_CRAWLABLE) & !PS) | P | RW | f, bits)
  {}

  // ---------- unback_vmem ----------

  /** Every entry is as it was, or without P. */
  ghost predicate ClearsOnly(S: State, S': State) {
    S'.mem.Keys == S.mem.Keys && forall f: nat, i: nat :: Cleared(S, S', f, i)
  }

  /** An entry without P. */
  function Absent(e: Entry): Entry {
    Entry(e.frame, e.flags & !P)
  }

  ghost predicate Cleared(S: State, S': State, f: nat, i: nat) {
    f in S.mem && f in S'.mem && i < |S.mem[f]| ==>
      && |S'.mem[f]| == |S.mem[f]|
      && (S'.mem[f][i] == S.mem[f][i] || S'.mem[f][i] == Absent(S.mem[f][i]))
  }

  lemma AbsentTwice(e: Entry)
    ensures Absent(Absent(e)) == Absent(e)
  {}

  lemma ClearsTrans(S: State, S': State, S'': State)
    requires ClearsOnly(S, S') && ClearsOnly(S', S'')
    ensures ClearsOnly(S, S'')
  {
    hide Cleared;
    forall f: nat, i: nat ensures Cleared(S, S'', f, i) {
      ClearedTrans(S, S', S'', f, i);
    }
  }

  lemma ClearedTrans(S: State, S': State, S'': State, f: nat, i: nat)
    requires Cleared(S, S', f, i) && Cleared(S', S'', f, i) && S'.mem.Keys == S.mem.Keys
    ensures Cleared(S, S'', f, i)
  {
    hide Absent;
    if f in S.mem && i < |S.mem[f]| {
      assert f in S'.mem.Keys;
      AbsentTwice(S.mem[f][i]);
    }
  }

  lemma {:induction false} VisitsClear(env: Env, S: State, f: nat, i: nat, e0: nat)
    ensures ClearsOnly(S, VisitPages(env, S, f, i, e0, Unback))
    decreases ENTRIES - i
  {
    hide PhysAfter, ClearsOnly;
    if i > e0 || i >= ENTRIES || !HasTable(S, f) {
      ClearsNothing(S);
    } else {
      var S1 := VisitPage(env, S, f, i, Unback);
      VisitClears(env, S, f, i);
      VisitsClear(env, S1, f, i + 1, e0);
      ClearsTrans(S, S1, VisitPages(env, S, f, i, e0, Unback));
    }
  }

  lemma ClearsNothing(S: State)
    ensures ClearsOnly(S, S)
  {}

  lemma VisitClears(env: Env, S: State, f: nat, i: nat)
    requires HasTable(S, f) && i < ENTRIES
    ensures ClearsOnly(S, VisitPage(env, S, f, i, Unback))
  {
    hide PhysAfter;
  }

  /** A directory entry in place is left alone. */
  lemma EnterClears(env: Env, S: State, f: nat, i: nat, s0: nat, e0: nat)
    requires HasTable(S, f) && i < ENTRIES && e0 < ENTRIES && Has(S.mem[f][i], OS_CRAWLABLE)
    ensures ClearsOnly(S, Enter(env, S, f, i, s0, e0, Unback))
  {
    hide Has;
  }

  lemma {:induction false} CrawlClears(env: Env, S: State, T: State, f: nat, s: seq<nat>, e: seq<nat>, top: nat)
    requires Ready(env, S, T, f, s, e, Unback, top)
    ensures ClearsOnly(S, Crawl(env, S, f, s, e, Unback))
    decreases |s|, 0
  {
    hide ClearsOnly, VisitPages, CrawlEntries, ReadyFrom;
    ReadyTable(env, S, T, f, s[0], s, e, Unback, top);
    if |s| == 1 {
      VisitsClear(env, S, f, s[0], e[0]);
    } else {
      EntriesClear(env, S, T, f, s[0], s, e, top);
    }
  }

  lemma {:induction false} EntriesClear(env: Env, S: State, T: State, f: nat, i: nat, s: seq<nat>, e: seq<nat>,
      top: nat)
    requires ReadyFrom(env, S, T, f, i, s, e, Unback, top) && |s| > 1 && s[0] <= i <= e[0] + 1
    ensures ClearsOnly(S, CrawlEntries(env, S, f, i, s, e, Unback))
    decreases |s| - 1, 1, ENTRIES - i
  {
    hide ClearsOnly, Crawl, ReadyFrom, Ready, Lo, Hi, Enter, Has;
    ReadyTable(env, S, T, f, i, s, e, Unback, top);
    if i <= e[0] {
      var S1, S2, T1, T2 := StepBeside(env, S, T, f, i, s, e, Unback, top);
      EntryInPlace(env, S, T, f, i, s, e, top);
      EnterClears(env, S, f, i, s[0], e[0]);
      CrawlClears(env, S1, T1, S1.mem[f][i].frame, Lo(s, i), Hi(e, i), top);
      EntriesClear(env, S2, T2, f, i + 1, s, e, top);
      ClearsTrans(S, S1, S2);
      ClearsTrans(S, S2, CrawlEntries(env, S, f, i, s, e, Unback));
    } else {
      ClearsNothing(S);
    }
  }

  lemma EntryInPlace(env: Env, S: State, T: State, f: nat, i: nat, s: seq<nat>, e: seq<nat>, top: nat)
    requires ReadyFrom(env, S, T, f, i, s, e, Unback, top) && |s| > 1 && s[0] <= i <= e[0]
    ensures HasTable(S, f) && i < ENTRIES && Has(S.mem[f][i], OS_CRAWLABLE)
  {
    hide CrawlReady, Enter;
    EntryReady(Right(env), T, f, i, s, e, Unback, top);
  }

  /** unback_vmem over tables that exist, in either version: no table is added, and every entry of every table is as it
      was, or the same without P. */
  lemma UnbackClearsOnly(env: Env, S: State, root: nat, a: nat, size: nat)
    requires Rooted(env, S, root) && GoodRange(a, size)
    requires Covered(S, root, Indices(a), Indices(LastByte(a, size)), Unback)
    ensures ClearsOnly(S, UnbackVmem(env, S, root, a, size))
  {
    hide Ready, Crawl, Indices, ClearsOnly, Covered;
    UnbackReady(env, S, root, a, size);
    CrawlClears(env, S, S, root, Indices(a), Indices(LastByte(a, size)), LEVELS);
  }
}
