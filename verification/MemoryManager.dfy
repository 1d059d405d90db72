/** back_vmem, unback_vmem and resolve_to_phmem over four levels of tables. */
module MemoryManager {
  import opened Machine
  import opened PagePath
  import opened PageTables
  import opened PageTablesTheory
  import QuadTree
  import QT = QuadTreeTheory

  const HALF: nat := 0x8000_0000_0000_0000
  const SPACE: nat := 0x1_0000_0000_0000
  const LEVELS: nat := 4

  /** The guard on addresses: as a signed number, at most -2^48 or at least 2^48. */
  predicate NotCanonical(a: nat)
    requires a < U64
  {
    var signed := a as int - (if a >= HALF then U64 else 0);
    signed + SPACE <= 0 || signed >= SPACE
  }

  /** As an unsigned number: neither among the first nor among the last 2^48 addresses. */
  lemma NotCanonicalIff(a: nat)
    requires a < U64
    ensures NotCanonical(a) <==> 0x1_0000_0000_0000 <= a <= 0xffff_0000_0000_0000
  {}

  /** The page an address lies in, among the 2^36 that the tables index. */
  function PageNumber(a: nat): (n: nat)
    ensures n < 0x10_0000_0000
  {
    a % SPACE / PAGE
  }

  /** The indices a crawl or a walk derives from an address. */
  function Indices(a: nat): (p: seq<nat>)
    ensures |p| == LEVELS && Path(p)
  {
    Digits(a / PAGE, LEVELS)
  }

  /** They spell the page number. */
  lemma IndicesValue(a: nat)
    requires a < U64
    ensures Value(Indices(a)) == PageNumber(a)
  {
    var n := PageNumber(a);
    assert a / PAGE % 0x10_0000_0000 == n;
    DigitsOfRemainder(a / PAGE);
    FourLevels();
    DigitsValue(n, LEVELS);
  }

  lemma FourLevels()
    ensures Pages(LEVELS) == 0x10_0000_0000
  {
    assert Pages(2) == 0x4_0000;
  }

  lemma ShiftParts(m: nat, w: nat)
    ensures (m + ENTRIES * w) / ENTRIES == m / ENTRIES + w && (m + ENTRIES * w) % ENTRIES == m % ENTRIES
  {}

  lemma DigitsOfRemainder(n: nat)
    ensures Digits(n % 0x10_0000_0000, LEVELS) == Digits(n, LEVELS)
  {
    var m, t := n % 0x10_0000_0000, n / 0x10_0000_0000;
    assert n == m + ENTRIES * (0x800_0000 * t);
    ShiftParts(m, 0x800_0000 * t);
    ShiftParts(Down(m, 1), 0x4_0000 * t);
    ShiftParts(Down(m, 2), ENTRIES * t);
    ShiftParts(Down(m, 3), t);
    assert Down(n, 1) == Down(m, 1) + ENTRIES * (0x4_0000 * t);
    DownStep(n, 1);
    DownStep(m, 1);
    assert Down(n, 2) == Down(m, 2) + ENTRIES * (ENTRIES * t);
    DownStep(n, 2);
    DownStep(m, 2);
    assert Down(n, 3) == Down(m, 3) + ENTRIES * t;
    assert Digit(n, 4) == Digit(m, 4) && Digit(n, 3) == Digit(m, 3);
    assert Digit(n, 2) == Digit(m, 2) && Digit(n, 1) == Digit(m, 1);
    SameDigits(n, m);
  }

  lemma SameDigits(n: nat, m: nat)
    requires Digit(n, 4) == Digit(m, 4) && Digit(n, 3) == Digit(m, 3)
    requires Digit(n, 2) == Digit(m, 2) && Digit(n, 1) == Digit(m, 1)
    ensures Digits(n, LEVELS) == Digits(m, LEVELS)
  {
    hide Digit;
    assert Digits(n, LEVELS) == [Digit(n, 4), Digit(n, 3), Digit(n, 2), Digit(n, 1)];
    assert Digits(m, LEVELS) == [Digit(m, 4), Digit(m, 3), Digit(m, 2), Digit(m, 1)];
  }

  lemma DownIsShift(n: nat, k: nat)
    requires k < 4
    ensures Down(n, k) ==
            if k == 0 then n else if k == 1 then n / 0x200 else if k == 2 then n / 0x4_0000 else n / 0x800_0000
  {
    if k > 0 { DownStep(n, k - 1); }
    if k > 1 { DownStep(n, k - 2); }
    if k > 2 { DownStep(n, 0); }
  }

  // ---------- the calls ----------

  /** The last byte of the range, in 64 bits. */
  function LastByte(a: nat, size: nat): (r: nat)
    requires a < U64 && size < U64
    ensures r < U64
  {
    (a + U64 - 1 + size) % U64
  }

  function BackVmem(env: Env, S: State, root: nat, a: nat, size: nat, flags: bv12): State
    requires a < U64 && size < U64
  {
    if NotCanonical(a) then S else Crawl(env, S, root, Indices(a), Indices(LastByte(a, size)), Back(flags))
  }

  function UnbackVmem(env: Env, S: State, root: nat, a: nat, size: nat): State
    requires a < U64 && size < U64
  {
    if NotCanonical(a) then S else Crawl(env, S, root, Indices(a), Indices(LastByte(a, size)), Unback)
  }

  /** A physical address is the frame's address plus the low 12 bits of the virtual one, or, for a large page,
      OR-ed with its low 21 bits. */
  datatype Resolved = Ok(rw: bool, frame: nat, large: bool) | NotMapped(rw: bool) | BadAddress

  function TableAt(S: State, f: nat): (t: seq<Entry>)
    ensures |t| == ENTRIES
  {
    if f in S.mem && |S.mem[f]| == ENTRIES then S.mem[f] else ZeroTable()
  }

  /** resolve_to_phmem, level by level. */
  function ResolveToPhmem(S: State, root: nat, a: nat): Resolved
    requires a < U64
  {
    if NotCanonical(a) then BadAddress
    else
      var n := PageNumber(a);
      var v4 := TableAt(S, root)[n / 0x800_0000];
      var rw4 := Has(v4, RW);
      if !Has(v4, P) then NotMapped(rw4)
      else
        var v3 := TableAt(S, v4.frame)[n / 0x4_0000 % ENTRIES];
        var rw3 := rw4 && Has(v3, RW);
        if !Has(v3, P) then NotMapped(rw3)
        else
          var v2 := TableAt(S, v3.frame)[n / 0x200 % ENTRIES];
          var rw2 := rw3 && Has(v2, RW);
          if !Has(v2, P) then NotMapped(rw2)
          else if Has(v2, PS) then Ok(rw2, v2.frame, true)
          else
            var v1 := TableAt(S, v2.frame)[n % ENTRIES];
            var rw1 := rw2 && Has(v1, RW);
            if !Has(v1, P) then NotMapped(rw1) else Ok(rw1, v1.frame, false)
  }

  // ---------- what resolving says about well-formed tables ----------

  /** The root table of the address space. */
  ghost predicate Rooted(env: Env, S: State, root: nat) {
    WF(env, S, LEVELS) && root in S.mem && S.at[root] == []
  }

  /** The answer that goes with what the walk finds. */
  function Answer(l: Look): Resolved {
    match l
    case Page(e) => if Has(e, P) then Ok(Has(e, RW), e.frame, false) else NotMapped(Has(e, RW))
    case Stop(e) => if Has(e, P) then Ok(Has(e, RW), e.frame, true) else NotMapped(Has(e, RW))
  }

  lemma IndexValues(a: nat)
    requires a < U64
    ensures var n := PageNumber(a);
            var q := Indices(a);
            && q[0] == n / 0x800_0000 && q[1] == n / 0x4_0000 % ENTRIES && q[2] == n / 0x200 % ENTRIES
            && q[3] == n % ENTRIES
  {
    var n := a / PAGE;
    assert n % 0x10_0000_0000 == PageNumber(a);
    DigitsOfRemainder(n);
    var m := PageNumber(a);
    assert Indices(a) == Digits(m, LEVELS);
    DownIsShift(m, 3);
    DownIsShift(m, 2);
    DownIsShift(m, 1);
    assert Indices(a)[0] == Digit(m, 4) && Indices(a)[1] == Digit(m, 3);
    assert Indices(a)[2] == Digit(m, 2) && Indices(a)[3] == Digit(m, 1);
  }

  /** The walk from a directory: on to the next table, or stop. */
  lemma FindStep(env: Env, S: State, f: nat, q: seq<nat>)
    requires WF(env, S, LEVELS) && f in S.mem && |S.at[f]| + |q| == LEVELS && |q| > 1 && q[0] < ENTRIES
    ensures TableAt(S, f) == S.mem[f]
    ensures var e := TableAt(S, f)[q[0]];
            if Has(e, OS_CRAWLABLE) then
              && Has(e, P) && Has(e, RW) && !Has(e, PS)
              && e.frame in S.mem && |S.at[e.frame]| == |S.at[f]| + 1
              && Find(S, f, q) == Find(S, e.frame, q[1..])
            else
              && Find(S, f, q) == Stop(e)
              && (e == ZERO || (|q| == 2 && Has(e, P) && Has(e, PS)))
  {
    WFChild(env, S, f, q[0], LEVELS);
    WFTable(env, S, f, LEVELS);
  }

  lemma FindLeaf(env: Env, S: State, f: nat, q: seq<nat>)
    requires WF(env, S, LEVELS) && f in S.mem && |S.at[f]| + |q| == LEVELS && |q| == 1 && q[0] < ENTRIES
    ensures TableAt(S, f) == S.mem[f] && Find(S, f, q) == Page(TableAt(S, f)[q[0]])
  {
    WFTable(env, S, f, LEVELS);
  }

  /** resolve_to_phmem answers according to what the walk finds. */
  lemma ResolveAnswers(env: Env, S: State, root: nat, a: nat)
    requires Rooted(env, S, root) && a < U64 && !NotCanonical(a)
    ensures ResolveToPhmem(S, root, a) == Answer(Find(S, root, Indices(a)))
  {
    hide WF, Find, Has, TableAt, Indices;
    IndexValues(a);
    ZeroHasNothing();
    var q := Indices(a);
    FindStep(env, S, root, q);
    var v4 := TableAt(S, root)[q[0]];
    if Has(v4, OS_CRAWLABLE) {
      FindStep(env, S, v4.frame, q[1..]);
      var v3 := TableAt(S, v4.frame)[q[1]];
      if Has(v3, OS_CRAWLABLE) {
        FindStep(env, S, v3.frame, q[1..][1..]);
        var v2 := TableAt(S, v3.frame)[q[2]];
        if Has(v2, OS_CRAWLABLE) {
          FindLeaf(env, S, v2.frame, q[1..][1..][1..]);
        }
      }
    }
  }

  // ---------- ranges ----------

  /** A nonempty range of canonical addresses that does not run past the top of its 48-bit space. */
  ghost predicate GoodRange(a: nat, size: nat) {
    a < U64 && 0 < size < U64 && !NotCanonical(a) && a % SPACE + size <= SPACE
  }

  function LastPage(a: nat, size: nat): nat
    requires 0 < size
  {
    (a % SPACE + size - 1) / PAGE
  }

  lemma RangeIndices(a: nat, size: nat)
    requires GoodRange(a, size)
    ensures Value(Indices(a)) == PageNumber(a) <= LastPage(a, size) == Value(Indices(LastByte(a, size)))
  {
    hide Indices, Digits;
    IndicesValue(a);
    IndicesValue(LastByte(a, size));
    LastByteIn48(a, size);
  }

  lemma LastByteIn48(a: nat, size: nat)
    requires GoodRange(a, size)
    ensures LastByte(a, size) % SPACE == a % SPACE + size - 1
  {
    var r := a % SPACE;
    assert a == SPACE * (a / SPACE) + r;
    assert a + size - 1 < U64;
    assert LastByte(a, size) == a + size - 1;
    assert a + size - 1 == SPACE * (a / SPACE) + (r + size - 1);
  }

  lemma RangeReady(env: Env, S: State, root: nat, a: nat, size: nat, op: Op)
    requires Rooted(env, S, root) && env.version.Corrected? && OpOk(op) && GoodRange(a, size)
    requires Covered(S, root, Indices(a), Indices(LastByte(a, size)), op)
    ensures CrawlReady(env, S, root, Indices(a), Indices(LastByte(a, size)), op, LEVELS)
  {
    hide WF, Covered, Indices;
    RangeIndices(a, size);
    WFTable(env, S, root, LEVELS);
  }

  lemma InRangeIsNumber(a: nat, size: nat, b: nat)
    requires GoodRange(a, size) && b < U64
    ensures InRange(Indices(a), Indices(LastByte(a, size)), Indices(b)) <==>
            PageNumber(a) <= PageNumber(b) <= LastPage(a, size)
  {
    hide Indices;
    RangeIndices(a, size);
    IndicesValue(b);
  }

  /** The visits made between two states. */
  function NewVisits(S: State, S': State): seq<Visit> {
    if |S.log| <= |S'.log| then S'.log[|S.log|..] else []
  }

  lemma WFKeys(env: Env, S: State)
    requires WF(env, S, LEVELS)
    ensures S.at.Keys == S.mem.Keys
  {}

  /** What a crawl over a range does: one visit per page, its result found afterwards; the tables stay well formed. */
  lemma RangeVisited(env: Env, S: State, root: nat, a: nat, size: nat, op: Op, b: nat)
    requires Rooted(env, S, root) && env.version.Corrected? && OpOk(op) && GoodRange(a, size)
    requires Covered(S, root, Indices(a), Indices(LastByte(a, size)), op)
    requires b < U64 && PageNumber(a) <= PageNumber(b) <= LastPage(a, size)
    ensures var S' := Crawl(env, S, root, Indices(a), Indices(LastByte(a, size)), op);
            var V := NewVisits(S, S');
            var k := PageNumber(b) - PageNumber(a);
            && |V| == LastPage(a, size) - PageNumber(a) + 1
            && V[k].path == Indices(b)
            && Find(S', root, Indices(b)) == Page(V[k].after)
            && V[k].before == Seen(Find(S, root, Indices(b)))
  {
    hide WF, Covered, Indices, Find, Crawl, CrawlReady, Chained;
    RangeReady(env, S, root, a, size, op);
    var s, e := Indices(a), Indices(LastByte(a, size));
    CrawlTraced(env, S, root, s, e, op, LEVELS);
    RangeIndices(a, size);
    WFTable(env, S, root, LEVELS);
    var S' := Crawl(env, S, root, s, e, op);
    var V := NewVisits(S, S');
    var k := PageNumber(b) - PageNumber(a);
    assert VisitOk(S, S', root, V[k], LEVELS, Value(s) + k);
    var q := V[k].path[|S.at[root]|..];
    assert q == V[k].path;
    IndicesValue(b);
    ValueInjective(q, Indices(b));
  }

  lemma RangeKeeps(env: Env, S: State, root: nat, a: nat, size: nat, op: Op)
    requires Rooted(env, S, root) && env.version.Corrected? && OpOk(op) && GoodRange(a, size)
    requires Covered(S, root, Indices(a), Indices(LastByte(a, size)), op)
    ensures var S' := Crawl(env, S, root, Indices(a), Indices(LastByte(a, size)), op);
            && Rooted(env, S', root)
            && |NewVisits(S, S')| == LastPage(a, size) - PageNumber(a) + 1
            && Chained(op, env.physLevel, S.phys, NewVisits(S, S'), S'.phys)
            && Grows(S, S', [], LEVELS)
  {
    hide WF, Covered, Indices, Find, Crawl, Chained;
    RangeReady(env, S, root, a, size, op);
    var s, e := Indices(a), Indices(LastByte(a, size));
    CrawlKeeps(env, S, root, s, e, op, LEVELS);
    CrawlTraced(env, S, root, s, e, op, LEVELS);
    RangeIndices(a, size);
    var S' := Crawl(env, S, root, s, e, op);
    WFTable(env, S, root, LEVELS);
    WFKeys(env, S');
  }

  // ---------- back_vmem ----------

  lemma PageBits(f: bv12)
    ensures (P | RW | f) & P != 0 && (P | RW | f) & RW != 0
    ensures (f & !P) & P == 0
  {}

  lemma BackCovers(S: State, root: nat, a: nat, size: nat, flags: bv12)
    requires a < U64 && size < U64
    ensures Covered(S, root, Indices(a), Indices(LastByte(a, size)), Back(flags))
  {
    hide Indices;
    BackCovered(S, root, Indices(a), Indices(LastByte(a, size)), Back(flags));
  }

  lemma VisitsCallBack(op: Op, level: nat, phys: QuadTree.Tree, V: seq<Visit>, phys': QuadTree.Tree, k: nat)
    requires Chained(op, level, phys, V, phys') && k < |V|
    ensures op.Back? ==> V[k].after.flags == P | RW | op.flags
    ensures op.Unback? ==> V[k].after == Entry(V[k].before.frame, V[k].before.flags & !P)
    decreases |V|
  {
    hide QuadTree.GetPage, QuadTree.AfterGetPage, QuadTree.ReleasePage, FrameOf;
    if k > 0 {
      VisitsCallBack(op, level, PhysAfter(op, phys, level, V[0].before), V[1..], phys', k - 1);
    }
  }

  /** After back_vmem every address of the range resolves, writable, to the frame its page was given and the same
      offset in it. */
  lemma BackMapsRange(env: Env, S: State, root: nat, a: nat, size: nat, flags: bv12, b: nat)
    requires Rooted(env, S, root) && env.version.Corrected? && flags & PS == 0 && GoodRange(a, size)
    requires b < U64 && !NotCanonical(b) && PageNumber(a) <= PageNumber(b) <= LastPage(a, size)
    ensures var S' := BackVmem(env, S, root, a, size, flags);
            var V := NewVisits(S, S');
            && Rooted(env, S', root) && PageNumber(b) - PageNumber(a) < |V|
            && ResolveToPhmem(S', root, b) == Ok(true, V[PageNumber(b) - PageNumber(a)].after.frame, false)
  {
    hide WF, Covered, Indices, Find, Crawl, Chained, ResolveToPhmem;
    BackCovers(S, root, a, size, flags);
    RangeVisited(env, S, root, a, size, Back(flags), b);
    RangeKeeps(env, S, root, a, size, Back(flags));
    var S' := BackVmem(env, S, root, a, size, flags);
    var k := PageNumber(b) - PageNumber(a);
    VisitsCallBack(Back(flags), env.physLevel, S.phys, NewVisits(S, S'), S'.phys, k);
    PageBits(flags);
    ResolveAnswers(env, S', root, b);
  }

  /** Every other address resolves as before; only a large page whose table the range also needs is given up. */
  lemma BackKeepsOthers(env: Env, S: State, root: nat, a: nat, size: nat, flags: bv12, b: nat)
    requires Rooted(env, S, root) && env.version.Corrected? && flags & PS == 0 && GoodRange(a, size)
    requires b < U64 && !(PageNumber(a) <= PageNumber(b) <= LastPage(a, size))
    ensures var S' := BackVmem(env, S, root, a, size, flags);
            var old_ := ResolveToPhmem(S, root, b);
            || ResolveToPhmem(S', root, b) == old_
            || (&& old_.Ok? && old_.large && ResolveToPhmem(S', root, b) == NotMapped(false)
                && SharesTable(Indices(a), Indices(LastByte(a, size)), Indices(b)))
  {
    hide WF, Covered, Indices, Crawl, CrawlReady, Chained, SharesTable;
    if !NotCanonical(b) {
      BackCovers(S, root, a, size, flags);
      RangeReady(env, S, root, a, size, Back(flags));
      RangeKeeps(env, S, root, a, size, Back(flags));
      InRangeIsNumber(a, size, b);
      OutsideAnswer(env, S, root, Indices(a), Indices(LastByte(a, size)), Back(flags), Indices(b));
      ResolveAnswers(env, S, root, b);
      ResolveAnswers(env, BackVmem(env, S, root, a, size, flags), root, b);
    }
  }

  lemma OutsideAnswer(env: Env, S: State, root: nat, s: seq<nat>, e: seq<nat>, op: Op, q: seq<nat>)
    requires CrawlReady(env, S, root, s, e, op, LEVELS) && Path(q) && |q| == |s| == LEVELS && !InRange(s, e, q)
    requires S.at[root] == []
    ensures var A := Answer(Find(S, root, q));
            var A' := Answer(Find(Crawl(env, S, root, s, e, op), root, q));
            A' == A || (A.Ok? && A.large && A' == NotMapped(false) && SharesTable(s, e, q))
  {
    hide WF, Covered, Crawl, SharesTable, Find, Has;
    CrawlOutside(env, S, root, s, e, op, LEVELS, q);
    StopsAtZeroOrLarge(env, S, root, q);
    ZeroHasNothing();
  }

  lemma {:induction false} StopsAtZeroOrLarge(env: Env, S: State, f: nat, q: seq<nat>)
    requires WF(env, S, LEVELS) && f in S.mem && |S.at[f]| + |q| == LEVELS && Path(q)
    ensures Find(S, f, q).Stop? ==> Find(S, f, q).e == ZERO || Has(Find(S, f, q).e, P)
    decreases |q|
  {
    hide WF, Has, Find;
    if |q| == 0 {
      WFTable(env, S, f, LEVELS);
    } else if |q| == 1 {
      FindLeaf(env, S, f, q);
    } else {
      FindStep(env, S, f, q);
      var e := TableAt(S, f)[q[0]];
      if Has(e, OS_CRAWLABLE) { StopsAtZeroOrLarge(env, S, e.frame, q[1..]); }
    }
  }

  // ---------- unback_vmem ----------

  /** After unback_vmem on pages whose tables exist, no address of the range is mapped. */
  lemma UnbackUnmapsRange(env: Env, S: State, root: nat, a: nat, size: nat, b: nat)
    requires Rooted(env, S, root) && env.version.Corrected? && GoodRange(a, size)
    requires Covered(S, root, Indices(a), Indices(LastByte(a, size)), Unback)
    requires b < U64 && !NotCanonical(b) && PageNumber(a) <= PageNumber(b) <= LastPage(a, size)
    ensures var S' := UnbackVmem(env, S, root, a, size);
            Rooted(env, S', root) && ResolveToPhmem(S', root, b).NotMapped?
  {
    hide WF, Covered, Indices, Find, Crawl, Chained, ResolveToPhmem;
    RangeVisited(env, S, root, a, size, Unback, b);
    RangeKeeps(env, S, root, a, size, Unback);
    var S' := UnbackVmem(env, S, root, a, size);
    var k := PageNumber(b) - PageNumber(a);
    var V := NewVisits(S, S');
    VisitsCallBack(Unback, env.physLevel, S.phys, V, S'.phys, k);
    PageBits(V[k].before.flags);
    ResolveAnswers(env, S', root, b);
  }

  /** Every other address resolves exactly as before. */
  lemma UnbackKeepsOthers(env: Env, S: State, root: nat, a: nat, size: nat, b: nat)
    requires Rooted(env, S, root) && env.version.Corrected? && GoodRange(a, size)
    requires Covered(S, root, Indices(a), Indices(LastByte(a, size)), Unback)
    requires b < U64 && !(PageNumber(a) <= PageNumber(b) <= LastPage(a, size))
    ensures ResolveToPhmem(UnbackVmem(env, S, root, a, size), root, b) == ResolveToPhmem(S, root, b)
  {
    hide WF, Covered, Indices, Crawl, CrawlReady, Chained, SharesTable, Find, ResolveToPhmem;
    if !NotCanonical(b) {
      var s, e := Indices(a), Indices(LastByte(a, size));
      RangeReady(env, S, root, a, size, Unback);
      RangeKeeps(env, S, root, a, size, Unback);
      InRangeIsNumber(a, size, b);
      ReadyFacts(env, S, root, s, e, Unback);
      CrawlOutside(env, S, root, s, e, Unback, LEVELS, Indices(b));
      if SharesTable(s, e, Indices(b)) { SharedTableExists(S, root, s, e, Indices(b)); }
      ResolveAnswers(env, S, root, b);
      ResolveAnswers(env, UnbackVmem(env, S, root, a, size), root, b);
    } else {
      BadAddressStays(S, UnbackVmem(env, S, root, a, size), root, b);
    }
  }

  lemma ReadyFacts(env: Env, S: State, root: nat, s: seq<nat>, e: seq<nat>, op: Op)
    requires CrawlReady(env, S, root, s, e, op, LEVELS)
    ensures Covered(S, root, s, e, op)
  {}

  lemma BadAddressStays(S: State, S': State, root: nat, b: nat)
    requires b < U64 && NotCanonical(b)
    ensures ResolveToPhmem(S, root, b) == ResolveToPhmem(S', root, b) == BadAddress
  {}

  /** A page that shares its table with a page that has one, has one. */
  lemma SharedTableExists(S: State, f: nat, s: seq<nat>, e: seq<nat>, q: seq<nat>)
    requires Covered(S, f, s, e, Unback) && SharesTable(s, e, q) && Path(q)
    ensures Find(S, f, q).Page?
  {
    var p :| InRange(s, e, p) && |p| == |q| > 1 && p[..|p| - 1] == q[..|q| - 1];
    SameTable(S, f, p, q);
    ReachesFindsPage(S, f, q);
  }

  lemma {:induction false} SameTable(S: State, f: nat, p: seq<nat>, q: seq<nat>)
    requires Reaches(S, f, p) && |p| == |q| && p[..|p| - 1] == q[..|q| - 1] && Path(q)
    ensures Reaches(S, f, q)
    decreases |p|
  {
    if |p| > 1 {
      assert p[0] == p[..|p| - 1][0] == q[..|q| - 1][0] == q[0];
      assert p[1..][..|p| - 2] == p[..|p| - 1][1..];
      assert q[1..][..|q| - 2] == q[..|q| - 1][1..];
      SameTable(S, S.mem[f][p[0]].frame, p[1..], q[1..]);
    }
  }
}
