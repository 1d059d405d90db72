/** Where the crawl as committed and the corrected one do the same: all tables in place. */
module CommittedCrawl {
  import opened Machine
  import opened PagePath
  import opened PageTables
  import opened PageTablesTheory

  /** With every table of the range in place no entry is written anew, so the version makes no difference. */
  lemma {:induction false} SameOnExistingTables(env: Env, v: Version, S: State, f: nat, s: seq<nat>, e: seq<nat>,
      op: Op, top: nat)
    requires CrawlReady(env, S, f, s, e, op, top)
    requires forall q :: InRange(s, e, q) ==> Reaches(S, f, q)
    ensures Crawl(env.(version := v), S, f, s, e, op) == Crawl(env, S, f, s, e, op)
    decreases |s|, 0
  {
    hide WF, Grows, CrawlEntries, Covered, VisitPage;
    RangeOrder(s, e);
    if |s| == 1 {
      SameVisits(env, v, S, f, s[0], e[0], op);
    } else {
      SameEntries(env, v, S, f, s[0], s, e, op, top);
    }
  }

  lemma {:induction false} SameVisits(env: Env, v: Version, S: State, f: nat, i: nat, e0: nat, op: Op)
    ensures VisitPages(env.(version := v), S, f, i, e0, op) == VisitPages(env, S, f, i, e0, op)
    decreases ENTRIES - i
  {
    if !(i > e0 || i >= ENTRIES || !HasTable(S, f)) {
      SameVisits(env, v, VisitPage(env, S, f, i, op), f, i + 1, e0, op);
    }
  }

  lemma {:induction false} SameEntries(env: Env, v: Version, S: State, f: nat, i: nat, s: seq<nat>, e: seq<nat>,
      op: Op, top: nat)
    requires CrawlReady(env, S, f, s, e, op, top) && |s| > 1 && s[0] <= i <= e[0] + 1
    requires forall q :: InRange(s, e, q) ==> Reaches(S, f, q)
    ensures CrawlEntries(env.(version := v), S, f, i, s, e, op) == CrawlEntries(env, S, f, i, s, e, op)
    decreases |s| - 1, 1, ENTRIES - i
  {
    hide WF, Grows, Crawl, Covered, Value, Lo, Hi, Reaches, Has, DirCallback, NewEntry;
    if i <= e[0] {
      var S1, S2 := StepStates(env, S, f, i, s, e, op, top);
      assert Covered(S, f, s, e, Unback) by { AllReach(S, f, s, e); }
      CoveredEntry(S, f, s, e, i, Unback);
      ReachAfterStep(env, S, S1, S2, f, s, e, i, op, top);
      SameOnExistingTables(env, v, S1, S1.mem[f][i].frame, Lo(s, i), Hi(e, i), op, top);
      SameEntries(env, v, S2, f, i + 1, s, e, op, top);
    }
  }

  lemma AllReach(S: State, f: nat, s: seq<nat>, e: seq<nat>)
    requires forall q :: InRange(s, e, q) ==> Reaches(S, f, q)
    ensures Covered(S, f, s, e, Unback)
  {}

  lemma ReachAfterStep(env: Env, S: State, S1: State, S2: State, f: nat, s: seq<nat>, e: seq<nat>, i: nat, op: Op,
      top: nat)
    requires CrawlReady(env, S, f, s, e, op, top) && |s| > 1 && s[0] <= i <= e[0] && i < ENTRIES
    requires CrawlReady(env, S1, f, s, e, op, top) && CrawlReady(env, S2, f, s, e, op, top)
    requires Grows(S, S1, S.at[f], top) && Grows(S1, S2, S.at[f] + [i], top)
    requires forall q :: InRange(s, e, q) ==> Reaches(S, f, q)
    ensures HasTable(S1, f)
    ensures forall q :: InRange(Lo(s, i), Hi(e, i), q) ==> Reaches(S1, S1.mem[f][i].frame, q)
    ensures forall q :: InRange(s, e, q) ==> Reaches(S2, f, q)
  {
    hide WF, Grows, Value, Lo, Hi, Reaches, Has, InRange;
    WFTable(env, S1, f, top);
    AllReach(S, f, s, e);
    CoveredGrows(env, S, S1, S.at[f], f, s, e, Unback, top);
    CoveredGrows(env, S1, S2, S.at[f] + [i], f, s, e, Unback, top);
    CoveredEntry(S1, f, s, e, i, Unback);
  }
}
