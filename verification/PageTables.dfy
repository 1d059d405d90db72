/** The page tables of kernel/mem/phmem_manager.cc and the crawl over them, as values. */
module PageTables {
  import opened Machine
  import opened PagePath
  import QuadTree

  // Bits of a page-table entry.
  const P: bv12 := 1
  const RW: bv12 := 2
  const PS: bv12 := 128
  const OS_CRAWLABLE: bv12 := 512

  /** An entry: the frame number of its address bits 12..51, and its low twelve bits. */
  datatype Entry = Entry(frame: nat, flags: bv12)

  const ZERO: Entry := Entry(0, 0)

  predicate Has(e: Entry, bit: bv12) {
    e.flags & bit != 0
  }

  /** What a crawl does with the entries it meets: back_vmem or unback_vmem. */
  datatype Op = Back(flags: bv12) | Unback

  /** One call of callback_page: the page, its entry before and after. */
  datatype Visit = Visit(path: seq<nat>, before: Entry, after: Entry)

  /** Table frames with their entries; `at` records the indices that lead from the root to each table, `next` how
      many fresh tables were taken, `log` the calls of callback_page. */
  datatype State = State(
    mem: map<nat, seq<Entry>>,
    at: map<nat, seq<nat>>,
    next: nat,
    phys: QuadTree.Tree,
    log: seq<Visit>)

  /** Fixed surroundings of a crawl: `supply(k)` is the frame of the k-th fresh zeroed table that is taken. */
  datatype Env = Env(version: Version, supply: nat -> nat, physLevel: nat)

  function ZeroTable(): (t: seq<Entry>)
    ensures |t| == ENTRIES && forall i :: 0 <= i < ENTRIES ==> t[i] == ZERO
  {
    seq(ENTRIES, _ => ZERO)
  }

  predicate HasTable(S: State, f: nat) {
    f in S.mem && f in S.at && |S.mem[f]| == ENTRIES
  }

  // ---------- directory entries ----------

  /** What OR-ing two addresses, the other one cut to sixteen bits, does to the frame number. */
  function OrNibble(frame: nat, other: nat): nat {
    frame - frame % 16 + Or4(frame % 16, other % 16)
  }

  function Or4(a: nat, b: nat): nat
    requires a < 16 && b < 16
  {
    (if a / 8 == 1 || b / 8 == 1 then 8 else 0)
    + (if a / 4 % 2 == 1 || b / 4 % 2 == 1 then 4 else 0)
    + (if a / 2 % 2 == 1 || b / 2 % 2 == 1 then 2 else 0)
    + (if a % 2 == 1 || b % 2 == 1 then 1 else 0)
  }

  /** The entry written for a fresh table: its own low twelve bits, made crawlable, not large.  As committed, the
      entries strictly inside a range take sixteen bits from the end entry, and the end entry keeps sixteen bits of
      its own. */
  function NewEntry(v: Version, table: seq<Entry>, i: nat, s0: nat, e0: nat, frame: nat): Entry
    requires |table| == ENTRIES && i < ENTRIES && e0 < ENTRIES
  {
    var flags := if v.AsCommitted? && s0 < i < e0 then table[e0].flags else table[i].flags;
    var address := if v.AsCommitted? && s0 < i <= e0 then OrNibble(frame, table[e0].frame) else frame;
    Entry(address, (flags | OS_CRAWLABLE) & !PS)
  }

  function DirCallback(op: Op, e: Entry): Entry {
    match op
    case Back(f) => Entry(e.frame, e.flags | P | RW | f)
    case Unback => e
  }

  /** Makes sure entry i leads to a table, then calls callback_dir on it. */
  function Enter(env: Env, S: State, f: nat, i: nat, s0: nat, e0: nat, op: Op): State
    requires HasTable(S, f) && i < ENTRIES && e0 < ENTRIES
  {
    if Has(S.mem[f][i], OS_CRAWLABLE) then
      S.(mem := S.mem[f := S.mem[f][i := DirCallback(op, S.mem[f][i])]])
    else
      var nf := env.supply(S.next);
      var e := NewEntry(env.version, S.mem[f], i, s0, e0, nf);
      S.(mem := S.mem[nf := ZeroTable()][f := S.mem[f][i := DirCallback(op, e)]],
         at := S.at[nf := S.at[f] + [i]],
         next := S.next + 1)
  }

  // ---------- pages ----------

  /** The frame number that an entry for the address holds. */
  function FrameOf(address: nat): nat {
    address / PAGE % 0x100_0000_0000
  }

  function PageCallback(op: Op, phys: QuadTree.Tree, level: int, e: Entry): Entry {
    match op
    case Back(f) => Entry(FrameOf(QuadTree.GetPage(phys, level)), P | RW | f)
    case Unback => Entry(e.frame, e.flags & !P)
  }

  function PhysAfter(op: Op, phys: QuadTree.Tree, level: int, e: Entry): QuadTree.Tree {
    match op
    case Back(_) => QuadTree.AfterGetPage(phys, level)
    case Unback => QuadTree.ReleasePage(phys, level, e.frame * PAGE)
  }

  /** callback_page on entry i of the leaf table f. */
  function VisitPage(env: Env, S: State, f: nat, i: nat, op: Op): State
    requires HasTable(S, f) && i < ENTRIES
  {
    var e := S.mem[f][i];
    var e' := PageCallback(op, S.phys, env.physLevel, e);
    S.(mem := S.mem[f := S.mem[f][i := e']],
       phys := PhysAfter(op, S.phys, env.physLevel, e),
       log := S.log + [Visit(S.at[f] + [i], e, e')])
  }

  // ---------- the crawl ----------

  function VisitPages(env: Env, S: State, f: nat, i: nat, e0: nat, op: Op): State
    decreases ENTRIES - i
  {
    if i > e0 || i >= ENTRIES || !HasTable(S, f) then S
    else VisitPages(env, VisitPage(env, S, f, i, op), f, i + 1, e0, op)
  }

  /** The sub-range of entry i: the whole table, except at the ends of the range. */
  function Lo(s: seq<nat>, i: nat): (r: seq<nat>)
    requires |s| > 0
    ensures |r| == |s| - 1
  {
    if i == s[0] then s[1..] else First(|s| - 1)
  }

  function Hi(e: seq<nat>, i: nat): (r: seq<nat>)
    requires |e| > 0
    ensures |r| == |e| - 1
  {
    if i == e[0] then e[1..] else Last(|e| - 1)
  }

  /** crawl_tables over the pages from s to e below table f; the number of indices left is the level. */
  function Crawl(env: Env, S: State, f: nat, s: seq<nat>, e: seq<nat>, op: Op): State
    requires |s| == |e|
    decreases |s|, 0
  {
    if |s| == 0 then S
    else if |s| == 1 then VisitPages(env, S, f, s[0], e[0], op)
    else CrawlEntries(env, S, f, s[0], s, e, op)
  }

  /** The entries of a directory from i on. */
  function CrawlEntries(env: Env, S: State, f: nat, i: nat, s: seq<nat>, e: seq<nat>, op: Op): State
    requires |s| == |e| > 1
    decreases |s| - 1, 1, ENTRIES - i
  {
    if i > e[0] || i >= ENTRIES || e[0] >= ENTRIES || !HasTable(S, f) then S
    else
      var S1 := Enter(env, S, f, i, s[0], e[0], op);
      var S2 := Crawl(env, S1, S1.mem[f][i].frame, Lo(s, i), Hi(e, i), op);
      CrawlEntries(env, S2, f, i + 1, s, e, op)
  }
}
