/** A crawl in either version, beside the corrected crawl that it follows. */
module EitherCrawl {
  import opened Machine
  import opened PagePath
  import opened PageTables
  import opened PageTablesTheory
  import opened CommittedRange
  import CommittedCrawl

  ghost function Right(env: Env): Env {
    env.(version := Corrected)
  }

  /** State S of a crawl and state T of the corrected one: the same, or alike while back_vmem as committed runs. */
  ghost predicate Beside(env: Env, S: State, T: State, op: Op, top: nat) {
    if env.version.AsCommitted? && op.Back? then Like(S, T, top) else S == T
  }

  /** The crawl of a range may start, or go on from entry i of its first directory. */
  ghost predicate ReadyFrom(env: Env, S: State, T: State, f: nat, i: nat, s: seq<nat>, e: seq<nat>, op: Op, top: nat) {
    && CrawlReady(Right(env), T, f, s, e, op, top) && Beside(env, S, T, op, top)
    && (env.version.AsCommitted? && op.Back? && |s| > 1 && HasTable(T, f) && e[0] < ENTRIES ==>
          CleanFrom(T, f, i, s, e))
  }

  ghost predicate Ready(env: Env, S: State, T: State, f: nat, s: seq<nat>, e: seq<nat>, op: Op, top: nat) {
    |s| > 0 && ReadyFrom(env, S, T, f, s[0], s, e, op, top)
  }

  lemma ReadyTable(env: Env, S: State, T: State, f: nat, i: nat, s: seq<nat>, e: seq<nat>, op: Op, top: nat)
    requires ReadyFrom(env, S, T, f, i, s, e, op, top)
    ensures |s| == |e| > 0 && s[0] <= e[0] < ENTRIES && HasTable(S, f) && HasTable(T, f) && |S.at[f]| + |s| == top
    ensures WF(env, S, top)
  {
    hide WF, CleanFrom;
    RangeOrder(s, e);
    WFTable(Right(env), T, f, top);
    LikeRefl(T, top);
    LikeTables(Right(env), S, T, f, top);
    LikeWF(Right(env), env.version, S, T, top);
    assert Right(env).(version := env.version) == env;
  }

  /** One entry of a directory, in both. */
  lemma StepBeside(env: Env, S: State, T: State, f: nat, i: nat, s: seq<nat>, e: seq<nat>, op: Op, top: nat)
    returns (S1: State, S2: State, T1: State, T2: State)
    requires ReadyFrom(env, S, T, f, i, s, e, op, top) && |s| > 1 && s[0] <= i <= e[0]
    ensures HasTable(S, f) && i < ENTRIES && e[0] < ENTRIES
    ensures S1 == Enter(env, S, f, i, s[0], e[0], op) && HasTable(S1, f)
    ensures S2 == Crawl(env, S1, S1.mem[f][i].frame, Lo(s, i), Hi(e, i), op)
    ensures Ready(env, S1, T1, S1.mem[f][i].frame, Lo(s, i), Hi(e, i), op, top)
    ensures ReadyFrom(env, S2, T2, f, i + 1, s, e, op, top)
    ensures CrawlEntries(env, S, f, i, s, e, op) == CrawlEntries(env, S2, f, i + 1, s, e, op)
  {
    hide WF, Grows, Crawl, CrawlReady, Value, Has, Enter, Like, Clean, TableOk, CleanEntry;
    ReadyTable(env, S, T, f, i, s, e, op, top);
    T1, T2 := StepStates(Right(env), T, f, i, s, e, op, top);
    if env.version.Corrected? {
      S1, S2 := T1, T2;
      assert Right(env) == env;
    } else if op.Back? {
      S1, S2, T1, T2 := StepLike(env, S, T, f, i, s, e, op, top);
    } else {
      S1, S2 := T1, T2;
      SameUnback(env, S, f, i, s, e, T1, top);
    }
  }

  /** back_vmem as committed, over a clean range. */
  lemma StepLike(env: Env, S: State, T: State, f: nat, i: nat, s: seq<nat>, e: seq<nat>, op: Op, top: nat)
    returns (S1: State, S2: State, T1: State, T2: State)
    requires ReadyFrom(env, S, T, f, i, s, e, op, top) && env.version.AsCommitted? && op.Back?
    requires |s| == |e| > 1 && s[0] <= i <= e[0] < ENTRIES && HasTable(S, f) && HasTable(T, f)
    ensures S1 == Enter(env, S, f, i, s[0], e[0], op) && HasTable(S1, f)
    ensures S2 == Crawl(env, S1, S1.mem[f][i].frame, Lo(s, i), Hi(e, i), op)
    ensures Ready(env, S1, T1, S1.mem[f][i].frame, Lo(s, i), Hi(e, i), op, top)
    ensures ReadyFrom(env, S2, T2, f, i + 1, s, e, op, top)
    ensures CrawlEntries(env, S, f, i, s, e, op) == CrawlEntries(env, S2, f, i + 1, s, e, op)
  {
    hide WF, Grows, Crawl, CrawlReady, Value, Lo, Hi, Has, Enter, Like, Clean, TableOk, CleanEntry;
    assert CleanEntry(T, f, i, s, e);
    assert Right(env).(version := AsCommitted) == env;
    ReadyOp(Right(env), T, f, s, e, op, top);
    S1, S2, T1, T2 := StepAlike(Right(env), S, T, f, i, s, e, op.flags, top);
    var U1, U2 := StepStates(Right(env), T, f, i, s, e, op, top);
    SameLinks(S1, T1, f, i, top);
    CleanBelow(Right(env), T, f, i, s, e, op, top);
    forall j | i + 1 <= j <= e[0] ensures CleanEntry(T2, f, j, s, e) {
      CleanBehind(Right(env), T, T1, T2, f, i, j, s, e, op, top);
    }
    var c := S1.mem[f][i].frame;
    assert U1 == T1 && T1.mem[f][i].frame == c;
    CleanIsFrom(T1, c, Lo(s, i), Hi(e, i));
    assert CrawlReady(Right(env), T2, f, s, e, op, top);
    assert Beside(env, S2, T2, op, top);
    assert CleanFrom(T2, f, i + 1, s, e);
  }

  lemma CleanBelow(env: Env, T: State, f: nat, i: nat, s: seq<nat>, e: seq<nat>, op: Op, top: nat)
    requires CrawlReady(env, T, f, s, e, op, top) && |s| > 1 && s[0] <= i <= e[0] < ENTRIES && HasTable(T, f)
    requires CleanEntry(T, f, i, s, e)
    ensures var T1 := Enter(env, T, f, i, s[0], e[0], op);
            HasTable(T1, f) && Clean(T1, T1.mem[f][i].frame, Lo(s, i), Hi(e, i))
  {
    hide WF, CrawlReady, Value, Lo, Hi, Has, Enter, Clean;
    CleanChild(env, T, f, i, s, e, op, top);
  }

  lemma CleanIsFrom(S: State, f: nat, s: seq<nat>, e: seq<nat>)
    requires |s| == |e| && Clean(S, f, s, e)
    ensures |s| > 1 && HasTable(S, f) && e[0] < ENTRIES ==> CleanFrom(S, f, s[0], s, e)
  {}

  lemma ReadyOp(env: Env, S: State, f: nat, s: seq<nat>, e: seq<nat>, op: Op, top: nat)
    requires CrawlReady(env, S, f, s, e, op, top)
    ensures OpOk(op)
  {}

  /** unback_vmem meets only tables that exist, so that the version makes no difference. */
  lemma SameUnback(env: Env, S: State, f: nat, i: nat, s: seq<nat>, e: seq<nat>, S1: State, top: nat)
    requires CrawlReady(Right(env), S, f, s, e, Unback, top) && |s| > 1 && s[0] <= i <= e[0] < ENTRIES && HasTable(S, f)
    requires S1 == Enter(Right(env), S, f, i, s[0], e[0], Unback) && HasTable(S1, f)
    requires CrawlReady(Right(env), S1, S1.mem[f][i].frame, Lo(s, i), Hi(e, i), Unback, top)
    ensures S1 == Enter(env, S, f, i, s[0], e[0], Unback)
    ensures var c := S1.mem[f][i].frame;
            Crawl(env, S1, c, Lo(s, i), Hi(e, i), Unback) == Crawl(Right(env), S1, c, Lo(s, i), Hi(e, i), Unback)
  {
    hide WF, Crawl, Value, Lo, Hi;
    EntryReady(Right(env), S, f, i, s, e, Unback, top);
    var c := S1.mem[f][i].frame;
    CommittedCrawl.SameOnExistingTables(Right(env), env.version, S1, c, Lo(s, i), Hi(e, i), Unback, top);
    assert Right(env).(version := env.version) == env;
  }
}
