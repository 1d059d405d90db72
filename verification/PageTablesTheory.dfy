/** What a crawl keeps, which pages it visits, and what it leaves alone. */
module PageTablesTheory {
  import opened Machine
  import opened PagePath
  import opened PageTables
  import QuadTree

  // ---------- well-formed tables ----------

  /** A directory entry at the given place: it leads to the table recorded there, present and writable; or it is
      empty; or, in a page directory, it is a large page. */
  ghost predicate DirOk(at: map<nat, seq<nat>>, e: Entry, place: seq<nat>, top: nat) {
    if Has(e, OS_CRAWLABLE) then
      Has(e, P) && Has(e, RW) && !Has(e, PS) && e.frame in at && at[e.frame] == place
    else e == ZERO || (|place| == top - 1 && Has(e, P) && Has(e, PS))
  }

  ghost predicate TableOk(at: map<nat, seq<nat>>, t: seq<Entry>, place: seq<nat>, top: nat) {
    && |t| == ENTRIES && Path(place) && |place| < top
    && (|place| < top - 1 ==> forall i :: 0 <= i < ENTRIES ==> DirOk(at, t[i], place + [i], top))
  }

  ghost predicate WF(env: Env, S: State, top: nat) {
    && S.at.Keys == S.mem.Keys
    && (forall f :: f in S.mem ==> TableOk(S.at, S.mem[f], S.at[f], top))
    && (forall k :: k >= S.next ==> env.supply(k) !in S.mem)
    && (forall j: nat, k: nat :: j < k ==> env.supply(j) != env.supply(k))
  }

  /** The operations the theorems cover: back_vmem without the large-page bit, or unback_vmem. */
  ghost predicate OpOk(op: Op) {
    op.Back? ==> op.flags & PS == 0
  }

  lemma DirBits(flags: bv12, f: bv12)
    requires f & PS == 0
    ensures var g := ((flags | OS_CRAWLABLE) & !PS) | P | RW | f;
            g & OS_CRAWLABLE != 0 && g & P != 0 && g & RW != 0 && g & PS == 0
    ensures flags & OS_CRAWLABLE != 0 && flags & PS == 0 ==>
              var g := flags | P | RW | f;
              g & OS_CRAWLABLE != 0 && g & P != 0 && g & RW != 0 && g & PS == 0
  {}

  // ---------- growth ----------

  ghost predicate AtGrows(at: map<nat, seq<nat>>, at': map<nat, seq<nat>>) {
    forall f :: f in at ==> f in at' && at'[f] == at[f]
  }

  /** Tables not below `pre` keep their entries, and tables that appear are below `pre`. */
  ghost predicate OnlyBelow(S: State, S': State, pre: seq<nat>) {
    && (forall g :: g in S.mem && g in S.at && !(pre <= S.at[g]) ==> g in S'.mem && S'.mem[g] == S.mem[g])
    && (forall g :: g in S'.at && g !in S.at ==> pre <= S'.at[g])
  }

  /** Crawlable directory entries keep leading where they led. */
  ghost predicate LinksKept(S: State, S': State, top: nat) {
    forall g, i ::
      g in S.mem && g in S.at && |S.at[g]| < top - 1 && 0 <= i < |S.mem[g]| && Has(S.mem[g][i], OS_CRAWLABLE) ==>
      && g in S'.mem && |S'.mem[g]| == |S.mem[g]|
      && Has(S'.mem[g][i], OS_CRAWLABLE) && S'.mem[g][i].frame == S.mem[g][i].frame
  }

  /** What every part of a crawl below `pre` keeps. */
  ghost predicate Grows(S: State, S': State, pre: seq<nat>, top: nat) {
    AtGrows(S.at, S'.at) && OnlyBelow(S, S', pre) && LinksKept(S, S', top) && S.log <= S'.log
  }

  // ---------- a crawl keeps the tables well formed ----------

  lemma TableOkGrows(at: map<nat, seq<nat>>, at': map<nat, seq<nat>>, t: seq<Entry>, place: seq<nat>, top: nat)
    requires AtGrows(at, at') && TableOk(at, t, place, top)
    ensures TableOk(at', t, place, top)
  {
    hide Has, Path;
    if |place| < top - 1 {
      forall i | 0 <= i < ENTRIES ensures DirOk(at', t[i], place + [i], top) {
        assert DirOk(at, t[i], place + [i], top);
      }
    }
  }

  /** Entering entry i of a directory: afterwards it leads to the table recorded for it. */
  lemma EnterWF(env: Env, S: State, f: nat, i: nat, s0: nat, e0: nat, op: Op, top: nat)
    requires env.version.Corrected? && WF(env, S, top) && OpOk(op) && f in S.mem && |S.at[f]| < top - 1
    requires i < ENTRIES && e0 < ENTRIES
    requires op.Unback? ==> Has(S.mem[f][i], OS_CRAWLABLE)
    ensures HasTable(S, f)
    ensures var S' := Enter(env, S, f, i, s0, e0, op);
            && WF(env, S', top) && AtGrows(S.at, S'.at)
            && HasTable(S', f) && S'.at[f] == S.at[f]
            && Has(S'.mem[f][i], OS_CRAWLABLE)
            && S'.mem[f][i].frame in S'.mem && S'.at[S'.mem[f][i].frame] == S.at[f] + [i]
  {
    assert TableOk(S.at, S.mem[f], S.at[f], top);
    assert DirOk(S.at, S.mem[f][i], S.at[f] + [i], top);
    var S' := Enter(env, S, f, i, s0, e0, op);
    var e := S.mem[f][i];
    EnterEntry(env, S, f, i, s0, e0, op, top);
    if Has(e, OS_CRAWLABLE) {
      forall g | g in S'.mem ensures TableOk(S'.at, S'.mem[g], S'.at[g], top) {
        assert TableOk(S.at, S.mem[g], S.at[g], top);
        if g == f { ReplacedEntry(S.at, S.mem[f], S.at[f], top, i, S'.mem[f][i]); }
      }
    } else {
      var nf := env.supply(S.next);
      assert nf !in S.mem;
      assert AtGrows(S.at, S'.at);
      forall g | g in S'.mem ensures TableOk(S'.at, S'.mem[g], S'.at[g], top) {
        if g == nf {
          FreshTableOk(S'.at, S.at[f] + [i], top);
        } else {
          assert TableOk(S.at, S.mem[g], S.at[g], top);
          TableOkGrows(S.at, S'.at, S.mem[g], S.at[g], top);
          if g == f { ReplacedEntry(S'.at, S.mem[f], S.at[f], top, i, S'.mem[f][i]); }
        }
      }
    }
  }

  lemma EnterEntry(env: Env, S: State, f: nat, i: nat, s0: nat, e0: nat, op: Op, top: nat)
    requires env.version.Corrected? && OpOk(op) && HasTable(S, f) && i < ENTRIES && e0 < ENTRIES
    requires DirOk(S.at, S.mem[f][i], S.at[f] + [i], top)
    requires op.Unback? ==> Has(S.mem[f][i], OS_CRAWLABLE)
    requires env.supply(S.next) !in S.mem
    ensures var S' := Enter(env, S, f, i, s0, e0, op);
            && f in S'.mem && |S'.mem[f]| == ENTRIES
            && Has(S'.mem[f][i], OS_CRAWLABLE)
            && DirOk(S'.at, S'.mem[f][i], S.at[f] + [i], top)
            && S'.mem[f] == S.mem[f][i := S'.mem[f][i]]
            && S'.mem[f][i].frame == if Has(S.mem[f][i], OS_CRAWLABLE) then S.mem[f][i].frame else env.supply(S.next)
  {
    if op.Back? { DirBits(S.mem[f][i].flags, op.flags); }
  }

  lemma ReplacedEntry(at: map<nat, seq<nat>>, t: seq<Entry>, place: seq<nat>, top: nat, i: nat, e: Entry)
    requires TableOk(at, t, place, top) && i < ENTRIES && DirOk(at, e, place + [i], top)
    ensures TableOk(at, t[i := e], place, top)
  {}

  lemma FreshTableOk(at: map<nat, seq<nat>>, place: seq<nat>, top: nat)
    requires Path(place) && |place| < top
    ensures TableOk(at, ZeroTable(), place, top)
  {
    ZeroHasNothing();
  }

  lemma ZeroHasNothing()
    ensures !Has(ZERO, OS_CRAWLABLE) && !Has(ZERO, P) && !Has(ZERO, PS) && !Has(ZERO, RW)
  {}

  lemma GrowsTrans(env: Env, S: State, S': State, S'': State, pre: seq<nat>, top: nat)
    requires WF(env, S, top) && WF(env, S', top)
    requires Grows(S, S', pre, top) && Grows(S', S'', pre, top)
    ensures Grows(S, S'', pre, top)
  {
    hide Has, TableOk;
    forall g, i | g in S.mem && g in S.at && |S.at[g]| < top - 1 && 0 <= i < |S.mem[g]|
      && Has(S.mem[g][i], OS_CRAWLABLE)
      ensures g in S''.mem && |S''.mem[g]| == |S.mem[g]|
      ensures Has(S''.mem[g][i], OS_CRAWLABLE) && S''.mem[g][i].frame == S.mem[g][i].frame
    {
      assert Has(S'.mem[g][i], OS_CRAWLABLE);
    }
  }

  lemma GrowsWiden(S: State, S': State, pre: seq<nat>, i: nat, top: nat)
    requires Grows(S, S', pre + [i], top)
    ensures Grows(S, S', pre, top)
  {
    hide Has, LinksKept;
    forall g | g in S.at && pre + [i] <= S.at[g] ensures pre <= S.at[g] {
      assert pre <= pre + [i];
    }
    forall g | g in S'.at && g !in S.at ensures pre <= S'.at[g] {
      assert pre <= pre + [i] <= S'.at[g];
    }
  }

  lemma EnterGrows(env: Env, S: State, f: nat, i: nat, s0: nat, e0: nat, op: Op, top: nat)
    requires env.version.Corrected? && WF(env, S, top) && OpOk(op) && f in S.mem && |S.at[f]| < top - 1
    requires i < ENTRIES && e0 < ENTRIES
    requires op.Unback? ==> Has(S.mem[f][i], OS_CRAWLABLE)
    ensures Grows(S, Enter(env, S, f, i, s0, e0, op), S.at[f], top)
    ensures Enter(env, S, f, i, s0, e0, op).log == S.log && Enter(env, S, f, i, s0, e0, op).phys == S.phys
  {
    assert TableOk(S.at, S.mem[f], S.at[f], top);
    assert DirOk(S.at, S.mem[f][i], S.at[f] + [i], top);
    EnterEntry(env, S, f, i, s0, e0, op, top);
    hide Has, DirCallback, NewEntry, DirOk, TableOk;
    var S' := Enter(env, S, f, i, s0, e0, op);
    assert env.supply(S.next) !in S.mem;
    assert S.at[f] <= S.at[f] + [i];
  }

  // ---------- reaching a page ----------

  /** Every table on the way to the page exists. */
  ghost predicate Reaches(S: State, f: nat, q: seq<nat>)
    decreases |q|
  {
    && HasTable(S, f) && |q| > 0 && q[0] < ENTRIES
    && (|q| > 1 ==> Has(S.mem[f][q[0]], OS_CRAWLABLE) && Reaches(S, S.mem[f][q[0]].frame, q[1..]))
  }

  /** unback_vmem is for ranges whose tables exist. */
  ghost predicate Covered(S: State, f: nat, s: seq<nat>, e: seq<nat>, op: Op) {
    op.Unback? ==> forall q :: InRange(s, e, q) ==> Reaches(S, f, q)
  }

  lemma WFTable(env: Env, S: State, f: nat, top: nat)
    requires WF(env, S, top) && f in S.mem
    ensures HasTable(S, f) && TableOk(S.at, S.mem[f], S.at[f], top) && |S.at[f]| < top
  {}

  /** A crawlable directory entry leads to the table one level down. */
  lemma WFChild(env: Env, S: State, f: nat, i: nat, top: nat)
    requires WF(env, S, top) && f in S.mem && |S.at[f]| < top - 1 && i < ENTRIES
    ensures HasTable(S, f) && DirOk(S.at, S.mem[f][i], S.at[f] + [i], top)
    ensures Has(S.mem[f][i], OS_CRAWLABLE) ==>
              S.mem[f][i].frame in S.mem && S.at[S.mem[f][i].frame] == S.at[f] + [i]
  {
    WFTable(env, S, f, top);
    assert DirOk(S.at, S.mem[f][i], S.at[f] + [i], top);
  }

  lemma {:induction false} ReachesGrows(env: Env, S: State, S': State, pre: seq<nat>, f: nat, q: seq<nat>, top: nat)
    requires WF(env, S, top) && WF(env, S', top) && Grows(S, S', pre, top)
    requires f in S.mem && |S.at[f]| + |q| == top && Reaches(S, f, q)
    ensures f in S'.mem && Reaches(S', f, q)
    decreases |q|
  {
    hide Has, TableOk, DirOk;
    WFTable(env, S', f, top);
    if |q| > 1 {
      WFChild(env, S, f, q[0], top);
      ReachesGrows(env, S, S', pre, S.mem[f][q[0]].frame, q[1..], top);
    }
  }

  // ---------- ranges, entry by entry ----------

  lemma RangeSplits(s: seq<nat>, e: seq<nat>, i: nat, q: seq<nat>)
    requires Path(s) && Path(e) && |s| == |e| > 0 && i < ENTRIES && |q| == |s| - 1 && Path(q)
    ensures InRange(s, e, [i] + q) <==> s[0] <= i <= e[0] && InRange(Lo(s, i), Hi(e, i), q)
  {
    var p := [i] + q;
    assert p[1..] == q && Path(p);
    assert s[0] < ENTRIES && e[0] < ENTRIES;
    if i < s[0] { FirstDigitDecides(p, s); } else if i > s[0] { FirstDigitDecides(s, p); } else { TailDecides(s, p); }
    if i < e[0] { FirstDigitDecides(p, e); } else if i > e[0] { FirstDigitDecides(e, p); } else { TailDecides(p, e); }
    FirstIsLeast(q);
  }

  lemma LoHiPaths(s: seq<nat>, e: seq<nat>, i: nat)
    requires Path(s) && Path(e) && |s| == |e| > 0 && Value(s) <= Value(e) && s[0] <= i <= e[0]
    ensures Path(Lo(s, i)) && Path(Hi(e, i)) && Value(Lo(s, i)) <= Value(Hi(e, i)) && i < ENTRIES
    ensures InRange(s, e, [i] + Lo(s, i))
  {
    FirstIsLeast(Lo(s, i));
    FirstIsLeast(Hi(e, i));
    if s[0] == e[0] { TailDecides(s, e); }
    RangeSplits(s, e, i, Lo(s, i));
  }

  lemma RangeOrder(s: seq<nat>, e: seq<nat>)
    requires Path(s) && Path(e) && |s| == |e| > 0 && Value(s) <= Value(e)
    ensures s[0] <= e[0] < ENTRIES
  {
    if s[0] > e[0] { FirstDigitDecides(e, s); }
  }

  lemma CoveredEntry(S: State, f: nat, s: seq<nat>, e: seq<nat>, i: nat, op: Op)
    requires Path(s) && Path(e) && |s| == |e| > 1 && Value(s) <= Value(e) && s[0] <= i <= e[0]
    requires Covered(S, f, s, e, op) && op.Unback?
    ensures HasTable(S, f) && i < ENTRIES && Has(S.mem[f][i], OS_CRAWLABLE)
    ensures Covered(S, S.mem[f][i].frame, Lo(s, i), Hi(e, i), op)
  {
    hide Has, Value, Lo, Hi;
    LoHiPaths(s, e, i);
    var q := [i] + Lo(s, i);
    assert Reaches(S, f, q) && q[0] == i;
    forall q | InRange(Lo(s, i), Hi(e, i), q) ensures Reaches(S, S.mem[f][i].frame, q) {
      RangeSplits(s, e, i, q);
      var p := [i] + q;
      assert Reaches(S, f, p) && p[1..] == q && p[0] == i;
    }
  }

  lemma CoveredGrows(env: Env, S: State, S': State, pre: seq<nat>, f: nat, s: seq<nat>, e: seq<nat>, op: Op, top: nat)
    requires WF(env, S, top) && WF(env, S', top) && Grows(S, S', pre, top)
    requires f in S.mem && |S.at[f]| + |s| == top && Covered(S, f, s, e, op)
    ensures Covered(S', f, s, e, op)
  {
    hide Has, TableOk, DirOk, WF, Grows;
    if op.Unback? {
      forall q | InRange(s, e, q) ensures Reaches(S', f, q) {
        ReachesGrows(env, S, S', pre, f, q, top);
      }
    }
  }

  // ---------- a crawl keeps all of this ----------

  lemma VisitKeeps(env: Env, S: State, f: nat, i: nat, op: Op, top: nat)
    requires WF(env, S, top) && f in S.mem && |S.at[f]| == top - 1 && i < ENTRIES
    ensures HasTable(S, f)
    ensures var S' := VisitPage(env, S, f, i, op);
            && WF(env, S', top) && Grows(S, S', S.at[f], top)
            && S'.at == S.at && S'.mem.Keys == S.mem.Keys
  {
    hide Has, PageCallback, PhysAfter, DirOk;
    WFTable(env, S, f, top);
    var S' := VisitPage(env, S, f, i, op);
    forall g | g in S'.mem ensures TableOk(S'.at, S'.mem[g], S'.at[g], top) {
      assert TableOk(S.at, S.mem[g], S.at[g], top);
    }
  }

  lemma GrowsRefl(S: State, pre: seq<nat>, top: nat)
    ensures Grows(S, S, pre, top)
  {}

  lemma {:induction false} VisitPagesKeeps(env: Env, S: State, f: nat, i: nat, e0: nat, op: Op, top: nat)
    requires WF(env, S, top) && f in S.mem && f in S.at && |S.at[f]| == top - 1
    ensures var S' := VisitPages(env, S, f, i, e0, op);
            WF(env, S', top) && Grows(S, S', S.at[f], top) && S'.at == S.at && S'.mem.Keys == S.mem.Keys
    decreases ENTRIES - i
  {
    hide WF, Grows, VisitPage;
    GrowsRefl(S, S.at[f], top);
    if i <= e0 && i < ENTRIES {
      VisitKeeps(env, S, f, i, op, top);
      var S1 := VisitPage(env, S, f, i, op);
      VisitPagesKeeps(env, S1, f, i + 1, e0, op, top);
      GrowsTrans(env, S, S1, VisitPages(env, S1, f, i + 1, e0, op), S.at[f], top);
    }
  }

  /** The situation in which crawl_tables is called on table f. */
  ghost predicate CrawlReady(env: Env, S: State, f: nat, s: seq<nat>, e: seq<nat>, op: Op, top: nat) {
    && env.version.Corrected? && WF(env, S, top) && OpOk(op)
    && f in S.mem && f in S.at && |s| > 0 && |S.at[f]| + |s| == top
    && |s| == |e| && Path(s) && Path(e) && Value(s) <= Value(e)
    && Covered(S, f, s, e, op)
  }

  /** Entering entry i makes the crawl of its table ready. */
  lemma EntryReady(env: Env, S: State, f: nat, i: nat, s: seq<nat>, e: seq<nat>, op: Op, top: nat)
    requires CrawlReady(env, S, f, s, e, op, top) && |s| > 1 && s[0] <= i <= e[0]
    ensures HasTable(S, f) && i < ENTRIES && e[0] < ENTRIES
    ensures op.Unback? ==> Has(S.mem[f][i], OS_CRAWLABLE)
    ensures var S1 := Enter(env, S, f, i, s[0], e[0], op);
            && HasTable(S1, f) && S1.at[f] == S.at[f] && Has(S1.mem[f][i], OS_CRAWLABLE)
            && var c := S1.mem[f][i].frame;
               && CrawlReady(env, S1, c, Lo(s, i), Hi(e, i), op, top)
               && S1.at[c] == S.at[f] + [i]
               && CrawlReady(env, S1, f, s, e, op, top)
               && Grows(S, S1, S.at[f], top)
               && S1.log == S.log && S1.phys == S.phys
  {
    hide WF, Grows, Enter, Reaches, Has, Covered, Value, Lo, Hi;
    LoHiPaths(s, e, i);
    RangeOrder(s, e);
    WFTable(env, S, f, top);
    if op.Unback? { CoveredEntry(S, f, s, e, i, op); }
    EnterWF(env, S, f, i, s[0], e[0], op, top);
    EnterGrows(env, S, f, i, s[0], e[0], op, top);
    var S1 := Enter(env, S, f, i, s[0], e[0], op);
    CoveredGrows(env, S, S1, S.at[f], f, s, e, op, top);
    if op.Unback? {
      CoveredEntry(S1, f, s, e, i, op);
    } else {
      BackCovered(S1, S1.mem[f][i].frame, Lo(s, i), Hi(e, i), op);
    }
  }

  lemma BackCovered(S: State, f: nat, s: seq<nat>, e: seq<nat>, op: Op)
    requires op.Back?
    ensures Covered(S, f, s, e, op)
  {}

  lemma {:induction false} CrawlKeeps(env: Env, S: State, f: nat, s: seq<nat>, e: seq<nat>, op: Op, top: nat)
    requires CrawlReady(env, S, f, s, e, op, top)
    ensures var S' := Crawl(env, S, f, s, e, op);
            WF(env, S', top) && Grows(S, S', S.at[f], top)
    decreases |s|, 0
  {
    hide WF, Grows, CrawlEntries, VisitPages;
    if |s| == 1 {
      VisitPagesKeeps(env, S, f, s[0], e[0], op, top);
    } else {
      RangeOrder(s, e);
      CrawlEntriesKeeps(env, S, f, s[0], s, e, op, top);
    }
  }

  lemma {:induction false} CrawlEntriesKeeps(env: Env, S: State, f: nat, i: nat, s: seq<nat>, e: seq<nat>, op: Op,
      top: nat)
    requires CrawlReady(env, S, f, s, e, op, top) && |s| > 1 && s[0] <= i <= e[0] + 1
    ensures var S' := CrawlEntries(env, S, f, i, s, e, op);
            WF(env, S', top) && Grows(S, S', S.at[f], top)
    decreases |s| - 1, 1, ENTRIES - i
  {
    hide WF, Grows, Enter, Crawl, Covered, Value;
    GrowsRefl(S, S.at[f], top);
    if i <= e[0] {
      EntryReady(env, S, f, i, s, e, op, top);
      var S1 := Enter(env, S, f, i, s[0], e[0], op);
      var c := S1.mem[f][i].frame;
      CrawlKeeps(env, S1, c, Lo(s, i), Hi(e, i), op, top);
      var S2 := Crawl(env, S1, c, Lo(s, i), Hi(e, i), op);
      StillReady(env, S1, S2, f, s, e, i, op, top);
      CrawlEntriesKeeps(env, S2, f, i + 1, s, e, op, top);
      var S3 := CrawlEntries(env, S2, f, i + 1, s, e, op);
      GrowsTrans(env, S1, S2, S3, S.at[f], top);
      GrowsTrans(env, S, S1, S3, S.at[f], top);
    }
  }

  /** After a crawl below one entry, the directory is ready for the next. */
  lemma StillReady(env: Env, S: State, S': State, f: nat, s: seq<nat>, e: seq<nat>, i: nat, op: Op, top: nat)
    requires CrawlReady(env, S, f, s, e, op, top) && WF(env, S', top) && Grows(S, S', S.at[f] + [i], top)
    ensures CrawlReady(env, S', f, s, e, op, top) && Grows(S, S', S.at[f], top) && S'.at[f] == S.at[f]
    ensures HasTable(S', f) && S'.mem[f] == S.mem[f]
  {
    hide TableOk, LinksKept, Covered, Value;
    GrowsWiden(S, S', S.at[f], i, top);
    CoveredGrows(env, S, S', S.at[f], f, s, e, op, top);
    WFTable(env, S', f, top);
    assert !(S.at[f] + [i] <= S.at[f]);
  }

  // ---------- what a walk finds ----------

  /** The walk for page q below table f: the page's own entry, or the directory entry where it stops. */
  datatype Look = Page(e: Entry) | Stop(e: Entry)

  ghost function Find(S: State, f: nat, q: seq<nat>): Look
    decreases |q|
  {
    if !HasTable(S, f) || |q| == 0 || q[0] >= ENTRIES then Stop(ZERO)
    else if |q| == 1 then Page(S.mem[f][q[0]])
    else if Has(S.mem[f][q[0]], OS_CRAWLABLE) then Find(S, S.mem[f][q[0]].frame, q[1..])
    else Stop(S.mem[f][q[0]])
  }

  lemma {:induction false} ReachesFindsPage(S: State, f: nat, q: seq<nat>)
    ensures Reaches(S, f, q) <==> Find(S, f, q).Page?
    decreases |q|
  {
    if |q| > 1 && HasTable(S, f) && q[0] < ENTRIES {
      ReachesFindsPage(S, S.mem[f][q[0]].frame, q[1..]);
    }
  }

  lemma PrefixExtends(p: seq<nat>, a: seq<nat>, q: seq<nat>)
    ensures p <= a ==> p <= a + q
  {}

  /** A change elsewhere does not change what a walk from table f finds. */
  lemma {:induction false} FindFrame(env: Env, S: State, S': State, pre: seq<nat>, f: nat, q: seq<nat>, top: nat)
    requires WF(env, S, top) && WF(env, S', top) && Grows(S, S', pre, top)
    requires f in S.mem && |S.at[f]| + |q| == top && Path(q)
    requires !(pre <= S.at[f] + q)
    ensures Find(S', f, q) == Find(S, f, q)
    decreases |q|
  {
    hide Has, TableOk, DirOk, LinksKept;
    if |q| > 0 {
      PrefixExtends(pre, S.at[f], q);
      WFTable(env, S, f, top);
      WFTable(env, S', f, top);
      assert S'.mem[f] == S.mem[f];
      if |q| > 1 && Has(S.mem[f][q[0]], OS_CRAWLABLE) {
        WFChild(env, S, f, q[0], top);
        assert S.at[f] + [q[0]] + q[1..] == S.at[f] + q;
        FindFrame(env, S, S', pre, S.mem[f][q[0]].frame, q[1..], top);
      }
    }
  }

  /** The directory of a page is the directory of some page of the range. */
  ghost predicate SharesTable(s: seq<nat>, e: seq<nat>, q: seq<nat>) {
    exists p :: InRange(s, e, p) && |p| == |q| > 1 && p[..|p| - 1] == q[..|q| - 1]
  }

  /** A page outside the range: its walk ends as before; or it stopped, and now finds the empty entry of a table
      that the crawl built for a neighbour. */
  ghost predicate FoundAfter(S: State, S': State, f: nat, q: seq<nat>, s: seq<nat>, e: seq<nat>) {
    || Find(S', f, q) == Find(S, f, q)
    || (Find(S, f, q).Stop? && Find(S', f, q) == Page(ZERO) && SharesTable(s, e, q))
  }

  lemma FindInZeroTable(env: Env, S: State, f: nat, q: seq<nat>, top: nat)
    requires WF(env, S, top) && f in S.mem && |S.at[f]| + |q| == top && Path(q)
    requires S.mem[f] == ZeroTable()
    ensures Find(S, f, q) == if |q| == 1 then Page(ZERO) else Stop(ZERO)
  {
    ZeroHasNothing();
    WFTable(env, S, f, top);
  }

  /** Tables below `pre` are the same in both states. */
  ghost predicate AgreeBelow(S: State, S': State, pre: seq<nat>) {
    forall g :: g in S.mem && g in S.at && pre <= S.at[g] ==> g in S'.mem && g in S'.at && S'.mem[g] == S.mem[g]
  }

  lemma {:induction false} FindAgree(env: Env, S: State, S': State, f: nat, q: seq<nat>, top: nat)
    requires WF(env, S, top) && f in S.mem && |S.at[f]| + |q| == top && Path(q)
    requires AgreeBelow(S, S', S.at[f])
    ensures Find(S', f, q) == Find(S, f, q)
    decreases |q|
  {
    hide Has, TableOk, DirOk;
    WFTable(env, S, f, top);
    if |q| > 1 && Has(S.mem[f][q[0]], OS_CRAWLABLE) {
      WFChild(env, S, f, q[0], top);
      assert forall g :: g in S.at && S.at[f] + [q[0]] <= S.at[g] ==> S.at[f] <= S.at[g];
      FindAgree(env, S, S', S.mem[f][q[0]].frame, q[1..], top);
    }
  }

  // ---------- one entry of a directory ----------

  lemma EnterElsewhere(env: Env, S: State, f: nat, i: nat, s0: nat, e0: nat, op: Op, top: nat)
    requires env.version.Corrected? && WF(env, S, top) && f in S.mem && i < ENTRIES && e0 < ENTRIES
    ensures HasTable(S, f)
    ensures var S1 := Enter(env, S, f, i, s0, e0, op);
            && (forall g :: g in S.mem && g != f ==> g in S1.mem && g in S1.at && S1.mem[g] == S.mem[g])
            && f in S1.mem && |S1.mem[f]| == ENTRIES
            && (forall j :: 0 <= j < ENTRIES && j != i ==> S1.mem[f][j] == S.mem[f][j])
            && (if Has(S.mem[f][i], OS_CRAWLABLE) then S1.mem[f][i].frame == S.mem[f][i].frame
                else S1.mem[f][i].frame in S1.mem && S1.mem[S1.mem[f][i].frame] == ZeroTable())
  {
    hide Has, TableOk;
    WFTable(env, S, f, top);
  }

  /** Other entries of the directory lead to what they led to. */
  lemma EnterOther(env: Env, S: State, f: nat, i: nat, s: seq<nat>, e: seq<nat>, op: Op, top: nat, q: seq<nat>)
    requires CrawlReady(env, S, f, s, e, op, top) && |s| > 1 && s[0] <= i <= e[0] && i < ENTRIES && e[0] < ENTRIES
    requires Path(q) && |q| == |s| && q[0] != i
    ensures HasTable(S, f) && Find(Enter(env, S, f, i, s[0], e[0], op), f, q) == Find(S, f, q)
  {
    hide Has, TableOk, DirOk, Enter, Covered, Value;
    EntryReady(env, S, f, i, s, e, op, top);
    EnterElsewhere(env, S, f, i, s[0], e[0], op, top);
    var S1 := Enter(env, S, f, i, s[0], e[0], op);
    if Has(S.mem[f][q[0]], OS_CRAWLABLE) {
      WFChild(env, S, f, q[0], top);
      FindAgree(env, S, S1, S.mem[f][q[0]].frame, q[1..], top);
    }
  }

  /** The entry itself: its table is the one it led to, or a fresh empty one. */
  lemma EnterSame(env: Env, S: State, f: nat, i: nat, s: seq<nat>, e: seq<nat>, op: Op, top: nat, q: seq<nat>)
    requires CrawlReady(env, S, f, s, e, op, top) && |s| > 1 && s[0] <= i <= e[0] && i < ENTRIES && e[0] < ENTRIES
    requires Path(q) && |q| == |s| - 1
    ensures HasTable(S, f)
    ensures var S1 := Enter(env, S, f, i, s[0], e[0], op);
            var c := S1.mem[f][i].frame;
            if Has(S.mem[f][i], OS_CRAWLABLE) then Find(S1, c, q) == Find(S, f, [i] + q)
            else
              && Find(S, f, [i] + q) == Stop(S.mem[f][i]) && (|q| > 1 ==> S.mem[f][i] == ZERO)
              && Find(S1, c, q) == if |q| == 1 then Page(ZERO) else Stop(ZERO)
  {
    hide Has, TableOk, Enter, Covered, Value;
    EntryReady(env, S, f, i, s, e, op, top);
    EnterElsewhere(env, S, f, i, s[0], e[0], op, top);
    var S1 := Enter(env, S, f, i, s[0], e[0], op);
    var c := S1.mem[f][i].frame;
    assert ([i] + q)[1..] == q;
    WFChild(env, S, f, i, top);
    if Has(S.mem[f][i], OS_CRAWLABLE) {
      FindAgree(env, S, S1, c, q, top);
    } else {
      FindInZeroTable(env, S1, c, q, top);
    }
  }

  // ---------- pages outside the range ----------

  lemma {:induction false} VisitPagesOther(env: Env, S: State, f: nat, i: nat, e0: nat, op: Op, j: nat)
    requires HasTable(S, f) && j < ENTRIES && !(i <= j <= e0)
    ensures var S' := VisitPages(env, S, f, i, e0, op);
            HasTable(S', f) && S'.mem[f][j] == S.mem[f][j]
    decreases ENTRIES - i
  {
    hide PageCallback, PhysAfter;
    if i <= e0 && i < ENTRIES {
      VisitPagesOther(env, VisitPage(env, S, f, i, op), f, i + 1, e0, op, j);
    }
  }

  /** One step of a directory crawl: the states after entering entry i and after crawling its table. */
  lemma StepStates(env: Env, S: State, f: nat, i: nat, s: seq<nat>, e: seq<nat>, op: Op,
      top: nat) returns (S1: State, S2: State)
    requires CrawlReady(env, S, f, s, e, op, top) && |s| > 1 && s[0] <= i <= e[0]
    ensures HasTable(S, f) && i < ENTRIES && e[0] < ENTRIES
    ensures S1 == Enter(env, S, f, i, s[0], e[0], op) && HasTable(S1, f)
    ensures CrawlReady(env, S1, S1.mem[f][i].frame, Lo(s, i), Hi(e, i), op, top)
            && S1.at[S1.mem[f][i].frame] == S.at[f] + [i]
    ensures Has(S1.mem[f][i], OS_CRAWLABLE) && S1.at[f] == S.at[f] && S1.log == S.log && S1.phys == S.phys
    ensures S2 == Crawl(env, S1, S1.mem[f][i].frame, Lo(s, i), Hi(e, i), op)
    ensures CrawlReady(env, S1, f, s, e, op, top) && CrawlReady(env, S2, f, s, e, op, top)
    ensures Grows(S, S1, S.at[f], top) && Grows(S1, S2, S.at[f] + [i], top)
    ensures HasTable(S2, f) && S2.mem[f] == S1.mem[f] && S2.at[f] == S.at[f]
    ensures CrawlEntries(env, S, f, i, s, e, op) == CrawlEntries(env, S2, f, i + 1, s, e, op)
  {
    hide WF, Grows, Enter, Crawl, Covered, Value, Lo, Hi;
    EntryReady(env, S, f, i, s, e, op, top);
    S1 := Enter(env, S, f, i, s[0], e[0], op);
    var c := S1.mem[f][i].frame;
    CrawlKeeps(env, S1, c, Lo(s, i), Hi(e, i), op, top);
    S2 := Crawl(env, S1, c, Lo(s, i), Hi(e, i), op);
    StillReady(env, S1, S2, f, s, e, i, op, top);
  }

  /** Entries already passed are not touched again. */
  lemma {:induction false} EntriesBefore(env: Env, S: State, f: nat, i: nat, s: seq<nat>, e: seq<nat>, op: Op,
      top: nat, q: seq<nat>)
    requires CrawlReady(env, S, f, s, e, op, top) && |s| > 1 && s[0] <= i <= e[0] + 1
    requires Path(q) && |q| == |s| && (q[0] < i || q[0] > e[0])
    ensures Find(CrawlEntries(env, S, f, i, s, e, op), f, q) == Find(S, f, q)
    decreases ENTRIES - i
  {
    hide WF, Grows, Enter, Crawl, Covered, Value, Lo, Hi, Find;
    if i <= e[0] {
      var S1, S2 := StepStates(env, S, f, i, s, e, op, top);
      EnterOther(env, S, f, i, s, e, op, top, q);
      PrefixDiffers(S.at[f], i, q);
      FindFrame(env, S1, S2, S.at[f] + [i], f, q, top);
      EntriesBefore(env, S2, f, i + 1, s, e, op, top, q);
    }
  }

  lemma PrefixDiffers(pre: seq<nat>, i: nat, q: seq<nat>)
    requires |q| > 0 && q[0] != i
    ensures !(pre + [i] <= pre + q)
  {
    assert (pre + [i])[|pre|] == i && (pre + q)[|pre|] == q[0];
  }

  lemma SharesLifts(s: seq<nat>, e: seq<nat>, i: nat, q: seq<nat>)
    requires Path(s) && Path(e) && |s| == |e| > 1 && Value(s) <= Value(e) && s[0] <= i <= e[0]
    requires Path(q) && |q| == |s| - 1
    ensures |q| == 1 ==> SharesTable(s, e, [i] + q)
    ensures SharesTable(Lo(s, i), Hi(e, i), q) ==> SharesTable(s, e, [i] + q)
  {
    hide Value, Lo, Hi;
    LoHiPaths(s, e, i);
    if |q| == 1 {
      var p := [i] + Lo(s, i);
      assert p[..|p| - 1] == [i] == ([i] + q)[..|q|];
    }
    if SharesTable(Lo(s, i), Hi(e, i), q) {
      var p :| InRange(Lo(s, i), Hi(e, i), p) && |p| == |q| > 1 && p[..|p| - 1] == q[..|q| - 1];
      RangeSplits(s, e, i, p);
      var p' := [i] + p;
      assert p'[..|p'| - 1] == [i] + p[..|p| - 1];
      assert ([i] + q)[..|q|] == [i] + q[..|q| - 1];
    }
  }

  /** A page outside the range is found as FoundAfter says. */
  lemma {:induction false} CrawlOutside(env: Env, S: State, f: nat, s: seq<nat>, e: seq<nat>, op: Op, top: nat,
      q: seq<nat>)
    requires CrawlReady(env, S, f, s, e, op, top) && Path(q) && |q| == |s| && !InRange(s, e, q)
    ensures FoundAfter(S, Crawl(env, S, f, s, e, op), f, q, s, e)
    decreases |s|, 0
  {
    hide WF, Grows, CrawlEntries, VisitPages, Covered;
    RangeOrder(s, e);
    if |s| == 1 {
      SingleDigit(s, e, q);
      WFTable(env, S, f, top);
      VisitPagesOther(env, S, f, s[0], e[0], op, q[0]);
    } else {
      CrawlEntriesOutside(env, S, f, s[0], s, e, op, top, q);
    }
  }

  lemma SingleDigit(s: seq<nat>, e: seq<nat>, q: seq<nat>)
    requires |s| == |e| == |q| == 1 && Path(q)
    ensures InRange(s, e, q) <==> s[0] <= q[0] <= e[0]
  {
    assert s[..0] == e[..0] == q[..0] == [];
  }

  lemma {:induction false} CrawlEntriesOutside(env: Env, S: State, f: nat, i: nat, s: seq<nat>, e: seq<nat>, op: Op,
      top: nat, q: seq<nat>)
    requires CrawlReady(env, S, f, s, e, op, top) && |s| > 1 && s[0] <= i <= e[0] + 1
    requires Path(q) && |q| == |s| && !InRange(s, e, q)
    ensures FoundAfter(S, CrawlEntries(env, S, f, i, s, e, op), f, q, s, e)
    decreases |s| - 1, 2, ENTRIES - i
  {
    hide WF, Grows, Enter, Crawl, Covered, Value, Lo, Hi, CrawlEntries, SharesTable;
    if i > e[0] || q[0] < i || q[0] > e[0] {
      EntriesBefore(env, S, f, i, s, e, op, top, q);
    } else {
      var S1, S2 := StepStates(env, S, f, i, s, e, op, top);
      if q[0] == i {
        OutsideOneEntry(env, S, f, i, s, e, op, top, q);
        EntriesBefore(env, S2, f, i + 1, s, e, op, top, q);
      } else {
        EnterOther(env, S, f, i, s, e, op, top, q);
        PrefixDiffers(S.at[f], i, q);
        FindFrame(env, S1, S2, S.at[f] + [i], f, q, top);
        CrawlEntriesOutside(env, S2, f, i + 1, s, e, op, top, q);
      }
    }
  }

  /** The page lies below the entry being crawled, but outside the part of the range there. */
  lemma {:induction false} OutsideOneEntry(env: Env, S: State, f: nat, i: nat, s: seq<nat>, e: seq<nat>, op: Op,
      top: nat, q: seq<nat>)
    requires CrawlReady(env, S, f, s, e, op, top) && |s| > 1 && s[0] <= i <= e[0]
    requires Path(q) && |q| == |s| && !InRange(s, e, q) && q[0] == i
    ensures HasTable(S, f) && i < ENTRIES && e[0] < ENTRIES
    ensures var S1 := Enter(env, S, f, i, s[0], e[0], op);
            HasTable(S1, f) &&
            FoundAfter(S, Crawl(env, S1, S1.mem[f][i].frame, Lo(s, i), Hi(e, i), op), f, q, s, e)
    decreases |s| - 1, 1
  {
    hide WF, Grows, Enter, Crawl, Covered, Value, Lo, Hi, CrawlEntries, SharesTable;
    var S1, S2 := StepStates(env, S, f, i, s, e, op, top);
    var c := S1.mem[f][i].frame;
    var q' := q[1..];
    assert q == [i] + q';
    RangeSplits(s, e, i, q');
    CrawlOutside(env, S1, c, Lo(s, i), Hi(e, i), op, top, q');
    EnterSame(env, S, f, i, s, e, op, top, q');
    SharesLifts(s, e, i, q');
  }

  // ---------- pages of the range ----------

  /** The entry a walk presents to callback_page: its own, or an empty one where the table is missing. */
  ghost function Seen(l: Look): Entry {
    if l.Page? then l.e else ZERO
  }

  /** A visit of the page with number n below table f, and what is found there before and after. */
  ghost predicate VisitOk(S: State, S': State, f: nat, v: Visit, digits: nat, n: nat)
    requires f in S.at
  {
    && S.at[f] <= v.path && |v.path| == |S.at[f]| + digits
    && var q := v.path[|S.at[f]|..];
       && Path(q) && Value(q) == n
       && v.before == Seen(Find(S, f, q))
       && Find(S', f, q) == Page(v.after)
  }

  /** The physical allocator goes through the visits one by one, in order. */
  ghost predicate Chained(op: Op, level: nat, phys: QuadTree.Tree, V: seq<Visit>, phys': QuadTree.Tree)
    decreases |V|
  {
    if V == [] then phys' == phys
    else
      && V[0].after == PageCallback(op, phys, level, V[0].before)
      && Chained(op, level, PhysAfter(op, phys, level, V[0].before), V[1..], phys')
  }

  /** The calls of callback_page made between two states: one for each page number from..to, in order. */
  ghost predicate Traced(env: Env, S: State, S': State, f: nat, digits: nat, from: nat, to: nat, op: Op)
    requires f in S.at
  {
    && S.log <= S'.log
    && var V := S'.log[|S.log|..];
       && from + |V| == to + 1
       && (forall k :: 0 <= k < |V| ==> VisitOk(S, S', f, V[k], digits, from + k))
       && Chained(op, env.physLevel, S.phys, V, S'.phys)
  }

  lemma {:induction false} ChainedConcat(op: Op, level: nat, p: QuadTree.Tree, V: seq<Visit>, p': QuadTree.Tree,
      W: seq<Visit>, p'': QuadTree.Tree)
    requires Chained(op, level, p, V, p') && Chained(op, level, p', W, p'')
    ensures Chained(op, level, p, V + W, p'')
    decreases |V|
  {
    hide PageCallback, PhysAfter;
    if V == [] {
      assert V + W == W;
    } else {
      ChainedConcat(op, level, PhysAfter(op, p, level, V[0].before), V[1..], p', W, p'');
      assert (V + W)[1..] == V[1..] + W;
    }
  }

  /** One page of a leaf table. */
  lemma VisitTraced(env: Env, S: State, f: nat, i: nat, op: Op, top: nat)
    requires WF(env, S, top) && f in S.mem && f in S.at && |S.at[f]| == top - 1 && i < ENTRIES
    ensures HasTable(S, f) && Traced(env, S, VisitPage(env, S, f, i, op), f, 1, i, i, op)
  {
    hide PageCallback, PhysAfter, TableOk;
    WFTable(env, S, f, top);
    var S' := VisitPage(env, S, f, i, op);
    var v := S'.log[|S.log|];
    assert S'.log[|S.log|..] == [v];
    assert v.path[|S.at[f]|..] == [i];
    SingleValue(i);
    assert [v][1..] == [];
    assert Chained(op, env.physLevel, S'.phys, [v][1..], S'.phys);
    assert VisitOk(S, S', f, v, 1, i);
    assert Chained(op, env.physLevel, S.phys, [v], S'.phys);
  }

  lemma SingleValue(i: nat)
    ensures Value([i]) == i
  {
    assert [i][..0] == [];
  }

  /** A visit of the first stretch is not disturbed by the second. */
  lemma VisitKept(S: State, S': State, S'': State, f: nat, v: Visit, digits: nat, n: nat, mid: nat)
    requires f in S.at && VisitOk(S, S', f, v, digits, n) && n <= mid
    requires forall q :: Path(q) && |q| == digits && n <= Value(q) <= mid ==> Find(S'', f, q) == Find(S', f, q)
    ensures VisitOk(S, S'', f, v, digits, n)
  {
    hide Find, Value, Path, Seen;
  }

  /** A visit of the second stretch meets what was there before the first. */
  lemma VisitMeets(S: State, S': State, S'': State, f: nat, v: Visit, digits: nat, n: nat)
    requires f in S.at && f in S'.at && S'.at[f] == S.at[f] && VisitOk(S', S'', f, v, digits, n)
    requires forall q :: Path(q) && |q| == digits && Value(q) == n ==> Seen(Find(S', f, q)) == Seen(Find(S, f, q))
    ensures VisitOk(S, S'', f, v, digits, n)
  {
    hide Find, Value, Path, Seen;
  }

  /** Two stretches of visits make one, if neither disturbs what the other finds. */
  lemma TracedConcat(env: Env, S: State, S': State, S'': State, f: nat, digits: nat, from: nat, mid: nat, to: nat,
      op: Op)
    requires f in S.at && f in S'.at && S'.at[f] == S.at[f] && from <= mid + 1
    requires Traced(env, S, S', f, digits, from, mid, op) && Traced(env, S', S'', f, digits, mid + 1, to, op)
    requires forall q :: Path(q) && |q| == digits && from <= Value(q) <= mid ==> Find(S'', f, q) == Find(S', f, q)
    requires forall q :: Path(q) && |q| == digits && mid < Value(q) <= to ==>
               Seen(Find(S', f, q)) == Seen(Find(S, f, q))
    ensures Traced(env, S, S'', f, digits, from, to, op)
  {
    hide Find, Chained, Value, Path, Seen, VisitOk;
    var V, W := S'.log[|S.log|..], S''.log[|S'.log|..];
    var U := S''.log[|S.log|..];
    assert U == V + W;
    ChainedConcat(op, env.physLevel, S.phys, V, S'.phys, W, S''.phys);
    forall k | 0 <= k < |U| ensures VisitOk(S, S'', f, U[k], digits, from + k) {
      if k < |V| {
        VisitKept(S, S', S'', f, V[k], digits, from + k, mid);
      } else {
        VisitMeets(S, S', S'', f, W[k - |V|], digits, from + k);
      }
    }
  }

  lemma {:induction false} VisitPagesTraced(env: Env, S: State, f: nat, i: nat, e0: nat, op: Op, top: nat)
    requires WF(env, S, top) && f in S.mem && f in S.at && |S.at[f]| == top - 1 && i <= e0 < ENTRIES
    ensures Traced(env, S, VisitPages(env, S, f, i, e0, op), f, 1, i, e0, op)
    decreases ENTRIES - i
  {
    hide WF, Grows, VisitPage, Traced;
    WFTable(env, S, f, top);
    VisitTraced(env, S, f, i, op, top);
    VisitKeeps(env, S, f, i, op, top);
    var S1 := VisitPage(env, S, f, i, op);
    WFTable(env, S1, f, top);
    var S2 := VisitPages(env, S1, f, i + 1, e0, op);
    if i < e0 {
      VisitPagesTraced(env, S1, f, i + 1, e0, op, top);
      VisitPagesKeeps(env, S1, f, i + 1, e0, op, top);
      WFTable(env, S2, f, top);
      forall q | Path(q) && |q| == 1 && i <= Value(q) <= i ensures Find(S2, f, q) == Find(S1, f, q) {
        SingleValueOf(q);
        VisitPagesOther(env, S1, f, i + 1, e0, op, q[0]);
      }
      forall q | Path(q) && |q| == 1 && i < Value(q) <= e0 ensures Seen(Find(S1, f, q)) == Seen(Find(S, f, q)) {
        SingleValueOf(q);
        VisitOther(env, S, f, i, op, q[0]);
      }
      TracedConcat(env, S, S1, S2, f, 1, i, i, e0, op);
    }
  }

  lemma SingleValueOf(q: seq<nat>)
    requires |q| == 1
    ensures Value(q) == q[0]
  {
    assert q == [q[0]];
    SingleValue(q[0]);
  }

  lemma VisitOther(env: Env, S: State, f: nat, i: nat, op: Op, j: nat)
    requires HasTable(S, f) && i < ENTRIES && j < ENTRIES && j != i
    ensures HasTable(VisitPage(env, S, f, i, op), f) && VisitPage(env, S, f, i, op).mem[f][j] == S.mem[f][j]
  {
    hide PageCallback, PhysAfter;
  }

  /** Visits below one entry are visits of the directory. */
  lemma LiftTraced(env: Env, S: State, S1: State, S2: State, f: nat, i: nat, s: seq<nat>, e: seq<nat>, op: Op,
      top: nat, from: nat, to: nat)
    requires CrawlReady(env, S, f, s, e, op, top) && |s| > 1 && s[0] <= i <= e[0] && i < ENTRIES && e[0] < ENTRIES
    requires HasTable(S, f) && S1 == Enter(env, S, f, i, s[0], e[0], op) && HasTable(S1, f)
    requires S1.log == S.log && S1.phys == S.phys && HasTable(S2, f) && S2.mem[f] == S1.mem[f]
    requires Has(S1.mem[f][i], OS_CRAWLABLE)
    requires S1.mem[f][i].frame in S1.at && S1.at[S1.mem[f][i].frame] == S.at[f] + [i]
    requires Traced(env, S1, S2, S1.mem[f][i].frame, |s| - 1, from, to, op)
    ensures var base := Value([i] + First(|s| - 1));
            Traced(env, S, S2, f, |s|, base + from, base + to, op)
  {
    hide Has, WF, Value, Chained, Enter, Covered;
    var c := S1.mem[f][i].frame;
    var V := S2.log[|S.log|..];
    var base := Value([i] + First(|s| - 1));
    forall k | 0 <= k < |V| ensures VisitOk(S, S2, f, V[k], |s|, base + from + k) {
      assert VisitOk(S1, S2, c, V[k], |s| - 1, from + k);
      var q' := V[k].path[|S1.at[c]|..];
      var q := V[k].path[|S.at[f]|..];
      PathBelow(S.at[f], i, V[k].path);
      assert q == [i] + q' && q[1..] == q';
      ValueBelow(i, q');
      EnterSame(env, S, f, i, s, e, op, top, q');
    }
  }

  lemma PathBelow(pre: seq<nat>, i: nat, p: seq<nat>)
    requires pre + [i] <= p
    ensures pre <= p && p[|pre|..] == [i] + p[|pre| + 1..]
  {
    assert p[|pre|] == (pre + [i])[|pre|];
    assert pre <= pre + [i];
  }

  /** crawl_tables calls callback_page exactly once, in increasing order, for every page number of the range and
      for no other, for any number of levels; each call meets the entry the page had, and its result stays. */
  lemma {:induction false} CrawlTraced(env: Env, S: State, f: nat, s: seq<nat>, e: seq<nat>, op: Op, top: nat)
    requires CrawlReady(env, S, f, s, e, op, top)
    ensures Traced(env, S, Crawl(env, S, f, s, e, op), f, |s|, Value(s), Value(e), op)
    decreases |s|, 0
  {
    hide WF, Grows, CrawlEntries, VisitPages, Covered, Traced;
    RangeOrder(s, e);
    if |s| == 1 {
      SingleValueOf(s);
      SingleValueOf(e);
      VisitPagesTraced(env, S, f, s[0], e[0], op, top);
    } else {
      assert [s[0]] + Lo(s, s[0]) == s;
      CrawlEntriesTraced(env, S, f, s[0], s, e, op, top);
    }
  }

  lemma {:induction false} CrawlEntriesTraced(env: Env, S: State, f: nat, i: nat, s: seq<nat>, e: seq<nat>, op: Op,
      top: nat)
    requires CrawlReady(env, S, f, s, e, op, top) && |s| > 1 && s[0] <= i <= e[0]
    ensures Traced(env, S, CrawlEntries(env, S, f, i, s, e, op), f, |s|, Value([i] + Lo(s, i)), Value(e), op)
    decreases |s| - 1, 1, ENTRIES - i
  {
    hide WF, Grows, Enter, Crawl, Covered, Value, CrawlEntries, Traced, Find;
    var S1, S2 := StepStates(env, S, f, i, s, e, op, top);
    CrawlTraced(env, S1, S1.mem[f][i].frame, Lo(s, i), Hi(e, i), op, top);
    LiftTraced(env, S, S1, S2, f, i, s, e, op, top, Value(Lo(s, i)), Value(Hi(e, i)));
    ValueBelow(i, Lo(s, i));
    ValueBelow(i, Hi(e, i));
    if i == e[0] {
      assert [i] + Hi(e, i) == e;
      PastTheEnd(env, S2, f, s, e, op);
    } else {
      NextEntry(i, |s| - 1);
      var mid := Value([i] + Hi(e, i));
      CrawlEntriesTraced(env, S2, f, i + 1, s, e, op, top);
      var S3 := CrawlEntries(env, S2, f, i + 1, s, e, op);
      forall q | Path(q) && |q| == |s| && Value([i] + Lo(s, i)) <= Value(q) <= mid
        ensures Find(S3, f, q) == Find(S2, f, q)
      {
        EntryOfNumber(i, q);
        EntriesBefore(env, S2, f, i + 1, s, e, op, top, q);
      }
      forall q | Path(q) && |q| == |s| && mid < Value(q) <= Value(e)
        ensures Seen(Find(S2, f, q)) == Seen(Find(S, f, q))
      {
        EntryOfNumber(i, q);
        EnterOther(env, S, f, i, s, e, op, top, q);
        PrefixDiffers(S.at[f], i, q);
        FindFrame(env, S1, S2, S.at[f] + [i], f, q, top);
      }
      TracedConcat(env, S, S2, S3, f, |s|, Value([i] + Lo(s, i)), mid, Value(e), op);
    }
  }

  lemma PastTheEnd(env: Env, S: State, f: nat, s: seq<nat>, e: seq<nat>, op: Op)
    requires |s| == |e| > 1
    ensures CrawlEntries(env, S, f, e[0] + 1, s, e, op) == S
  {}
}
