/** When the crawl as committed keeps the page tables well formed, whatever frames the fresh tables get. */
module CommittedRange {
  import opened Machine
  import opened PagePath
  import opened PageTables
  import opened PageTablesTheory

  // ---------- the tables before the call ----------

  /** No entry of the range, after its first, that lacks a table gets one whose frame is spoiled: the frame of the
      end entry is a multiple of 16, here and in every table met below. */
  ghost predicate Clean(S: State, f: nat, s: seq<nat>, e: seq<nat>)
    requires |s| == |e|
    decreases |s|, 0
  {
    |s| > 1 && HasTable(S, f) && e[0] < ENTRIES ==> CleanFrom(S, f, s[0], s, e)
  }

  ghost predicate CleanFrom(S: State, f: nat, i: nat, s: seq<nat>, e: seq<nat>)
    requires |s| == |e| > 1 && HasTable(S, f) && e[0] < ENTRIES
    decreases |s| - 1, 2
  {
    forall j :: i <= j <= e[0] ==> CleanEntry(S, f, j, s, e)
  }

  ghost predicate CleanEntry(S: State, f: nat, j: nat, s: seq<nat>, e: seq<nat>)
    requires |s| == |e| > 1 && HasTable(S, f) && j <= e[0] < ENTRIES
    decreases |s| - 1, 1
  {
    if Has(S.mem[f][j], OS_CRAWLABLE) then Clean(S, S.mem[f][j].frame, Lo(s, j), Hi(e, j))
    else j <= s[0] || S.mem[f][e[0]].frame % 16 == 0
  }

  /** A change elsewhere leaves a table and what is below it as clean as it was. */
  lemma {:induction false} CleanAgree(env: Env, S: State, S': State, f: nat, s: seq<nat>, e: seq<nat>, top: nat)
    requires WF(env, S, top) && f in S.mem && |S.at[f]| + |s| == top && |s| == |e|
    requires AgreeBelow(S, S', S.at[f])
    ensures Clean(S', f, s, e) == Clean(S, f, s, e)
    decreases |s|
  {
    hide WF, TableOk, DirOk, Has, Lo, Hi;
    if |s| > 1 && e[0] < ENTRIES {
      WFTable(env, S, f, top);
      assert S'.mem[f] == S.mem[f];
      forall j | s[0] <= j <= e[0] ensures CleanEntry(S', f, j, s, e) == CleanEntry(S, f, j, s, e) {
        if Has(S.mem[f][j], OS_CRAWLABLE) {
          WFChild(env, S, f, j, top);
          var c := S.mem[f][j].frame;
          AgreesDown(S, S', S.at[f], j);
          CleanAgree(env, S, S', c, Lo(s, j), Hi(e, j), top);
        }
      }
      assert HasTable(S, f) && HasTable(S', f);
      assert CleanFrom(S', f, s[0], s, e) == CleanFrom(S, f, s[0], s, e);
    }
  }

  lemma AgreesDown(S: State, S': State, pre: seq<nat>, j: nat)
    requires AgreeBelow(S, S', pre)
    ensures AgreeBelow(S, S', pre + [j])
  {
    forall g | g in S.mem && g in S.at && pre + [j] <= S.at[g] ensures pre <= S.at[g] {
      assert pre <= pre + [j];
    }
  }

  /** A fresh table is clean. */
  lemma ZeroIsClean(S: State, f: nat, s: seq<nat>, e: seq<nat>)
    requires |s| == |e| && HasTable(S, f) && S.mem[f] == ZeroTable()
    ensures Clean(S, f, s, e)
  {
    ZeroHasNothing();
  }

  // ---------- states that differ in flags that do not matter ----------

  /** The same entry, or two that lead to the same table. */
  ghost predicate LikeEntry(a: Entry, b: Entry) {
    || a == b
    || (&& a.frame == b.frame
        && Has(a, OS_CRAWLABLE) && Has(a, P) && Has(a, RW) && !Has(a, PS)
        && Has(b, OS_CRAWLABLE) && Has(b, P) && Has(b, RW) && !Has(b, PS))
  }

  ghost predicate LikeTable(t: seq<Entry>, u: seq<Entry>) {
    |t| == |u| && forall i :: 0 <= i < |t| ==> LikeEntry(t[i], u[i])
  }

  ghost predicate Like(S: State, T: State, top: nat) {
    && S.at == T.at && S.next == T.next && S.phys == T.phys && S.log == T.log && S.mem.Keys == T.mem.Keys
    && (forall g :: g in T.mem && g in T.at ==>
          LikeTable(S.mem[g], T.mem[g]) && (|T.at[g]| >= top - 1 ==> S.mem[g] == T.mem[g]))
  }

  lemma LikeRefl(S: State, top: nat)
    ensures Like(S, S, top)
  {}

  lemma LikeWF(env: Env, v: Version, S: State, T: State, top: nat)
    requires Like(S, T, top) && WF(env, T, top)
    ensures WF(env.(version := v), S, top)
  {
    hide Has;
    forall g | g in S.mem ensures TableOk(S.at, S.mem[g], S.at[g], top) {
      assert TableOk(T.at, T.mem[g], T.at[g], top);
      assert LikeTable(S.mem[g], T.mem[g]);
      if |T.at[g]| < top - 1 {
        forall i | 0 <= i < ENTRIES ensures DirOk(S.at, S.mem[g][i], S.at[g] + [i], top) {
          assert LikeEntry(S.mem[g][i], T.mem[g][i]);
          assert DirOk(T.at, T.mem[g][i], T.at[g] + [i], top);
        }
      }
    }
  }

  /** A walk finds the same in both. */
  lemma {:induction false} LikeFind(env: Env, S: State, T: State, f: nat, q: seq<nat>, top: nat)
    requires Like(S, T, top) && WF(env, T, top) && f in T.mem && |T.at[f]| + |q| == top && Path(q)
    ensures Find(S, f, q) == Find(T, f, q)
    decreases |q|
  {
    hide WF, TableOk, DirOk, Has;
    if |q| > 0 {
      WFTable(env, T, f, top);
      LikeWF(env, env.version, S, T, top);
      WFTable(env.(version := env.version), S, f, top);
      assert LikeTable(S.mem[f], T.mem[f]);
      assert LikeEntry(S.mem[f][q[0]], T.mem[f][q[0]]);
      if |q| > 1 && Has(T.mem[f][q[0]], OS_CRAWLABLE) {
        WFChild(env, T, f, q[0], top);
        LikeFind(env, S, T, T.mem[f][q[0]].frame, q[1..], top);
      }
    }
  }

  lemma Nibble(b: nat)
    requires b < 16
    ensures b == 8 * (b / 8) + 4 * (b / 4 % 2) + 2 * (b / 2 % 2) + b % 2 && b / 8 < 2
  {
    var c, d := b / 2, b / 4;
    assert b / 8 == d / 2 && b / 4 == c / 2;
  }

  lemma OrZero(b: nat)
    requires b < 16
    ensures Or4(b, 0) == b && Or4(0, b) == b
  {
    Nibble(b);
  }

  lemma OrFits(a: nat, b: nat)
    requires a < 16 && b < 16
    ensures Or4(a, b) < 16
  {}

  lemma OrNothing(frame: nat, other: nat)
    ensures OrNibble(frame, other) == frame <==> OrNibble(frame, other) % 16 == frame % 16
    ensures other % 16 == 0 ==> OrNibble(frame, other) == frame
    ensures frame % 16 == 0 ==> OrNibble(frame, other) == frame + other % 16
  {
    hide Or4;
    OrZero(frame % 16);
    OrZero(other % 16);
    OrFits(frame % 16, other % 16);
    var n, q := Or4(frame % 16, other % 16), frame / 16;
    assert frame == 16 * q + frame % 16 && OrNibble(frame, other) == 16 * q + n;
    assert (16 * q + n) % 16 == n;
  }

  /** Entering an entry that is clean. */
  lemma LikeEnter(env: Env, S: State, T: State, f: nat, i: nat, s0: nat, e0: nat, flags: bv12, top: nat)
    requires Like(S, T, top) && WF(env, T, top) && env.version.Corrected? && flags & PS == 0
    requires f in T.mem && |T.at[f]| < top - 1 && s0 <= i <= e0 < ENTRIES
    requires HasTable(T, f) && (Has(T.mem[f][i], OS_CRAWLABLE) || i <= s0 || T.mem[f][e0].frame % 16 == 0)
    ensures HasTable(S, f)
    ensures Like(Enter(env.(version := AsCommitted), S, f, i, s0, e0, Back(flags)),
                 Enter(env, T, f, i, s0, e0, Back(flags)), top)
  {
    assert LikeTable(S.mem[f], T.mem[f]);
    assert LikeEntry(S.mem[f][i], T.mem[f][i]) && LikeEntry(S.mem[f][e0], T.mem[f][e0]);
    var S' := Enter(env.(version := AsCommitted), S, f, i, s0, e0, Back(flags));
    var T' := Enter(env, T, f, i, s0, e0, Back(flags));
    WFChild(env, T, f, i, top);
    EnteredAlike(env, S, T, f, i, s0, e0, flags);
    assert T.at.Keys == T.mem.Keys;
    hide Has, NewEntry, DirCallback, WF, DirOk;
    EnterKeepsLike(env, S, T, f, i, s0, e0, flags, top);
  }

  /** The entry written. */
  lemma EnteredAlike(env: Env, S: State, T: State, f: nat, i: nat, s0: nat, e0: nat, flags: bv12)
    requires HasTable(S, f) && HasTable(T, f) && s0 <= i <= e0 < ENTRIES && flags & PS == 0 && env.version.Corrected?
    requires S.next == T.next && LikeEntry(S.mem[f][i], T.mem[f][i]) && LikeEntry(S.mem[f][e0], T.mem[f][e0])
    requires Has(T.mem[f][i], OS_CRAWLABLE) || i <= s0 || T.mem[f][e0].frame % 16 == 0
    requires Has(T.mem[f][i], OS_CRAWLABLE) ==> !Has(T.mem[f][i], PS)
    ensures LikeEntry(Enter(env.(version := AsCommitted), S, f, i, s0, e0, Back(flags)).mem[f][i],
                      Enter(env, T, f, i, s0, e0, Back(flags)).mem[f][i])
  {
    DirBits(S.mem[f][i].flags, flags);
    DirBits(T.mem[f][i].flags, flags);
    DirBits(S.mem[f][e0].flags, flags);
    OrNothing(env.supply(S.next), S.mem[f][e0].frame);
    hide OrNibble;
  }

  /** One entry of a directory is replaced on both sides. */
  lemma PutLike(S: State, T: State, f: nat, i: nat, a: Entry, b: Entry, top: nat)
    requires Like(S, T, top) && HasTable(S, f) && HasTable(T, f) && |T.at[f]| < top - 1 && i < ENTRIES
             && LikeEntry(a, b)
    ensures Like(S.(mem := S.mem[f := S.mem[f][i := a]]), T.(mem := T.mem[f := T.mem[f][i := b]]), top)
  {
    hide LikeEntry;
    assert LikeTable(S.mem[f], T.mem[f]);
    assert LikeTable(S.mem[f][i := a], T.mem[f][i := b]);
  }

  /** A fresh table is added on both sides. */
  lemma AddLike(S: State, T: State, nf: nat, place: seq<nat>, top: nat)
    requires Like(S, T, top) && nf !in T.mem && T.at.Keys == T.mem.Keys
    ensures Like(S.(mem := S.mem[nf := ZeroTable()], at := S.at[nf := place], next := S.next + 1),
                 T.(mem := T.mem[nf := ZeroTable()], at := T.at[nf := place], next := T.next + 1), top)
  {
    assert LikeTable(ZeroTable(), ZeroTable());
  }

  lemma EnterKeepsLike(env: Env, S: State, T: State, f: nat, i: nat, s0: nat, e0: nat, flags: bv12, top: nat)
    requires Like(S, T, top) && HasTable(S, f) && HasTable(T, f) && |T.at[f]| < top - 1 && s0 <= i <= e0 < ENTRIES
    requires T.at.Keys == T.mem.Keys && env.supply(T.next) !in T.mem && LikeEntry(S.mem[f][i], T.mem[f][i])
    requires LikeEntry(Enter(env.(version := AsCommitted), S, f, i, s0, e0, Back(flags)).mem[f][i],
                       Enter(env, T, f, i, s0, e0, Back(flags)).mem[f][i])
    ensures Like(Enter(env.(version := AsCommitted), S, f, i, s0, e0, Back(flags)),
                 Enter(env, T, f, i, s0, e0, Back(flags)), top)
  {
    var a := Enter(env.(version := AsCommitted), S, f, i, s0, e0, Back(flags)).mem[f][i];
    var b := Enter(env, T, f, i, s0, e0, Back(flags)).mem[f][i];
    hide NewEntry, DirCallback, Like, LikeTable;
    SameLinks(S, T, f, i, top);
    if Has(T.mem[f][i], OS_CRAWLABLE) {
      PutLike(S, T, f, i, a, b, top);
    } else {
      var nf := env.supply(T.next);
      var S1 := S.(mem := S.mem[nf := ZeroTable()], at := S.at[nf := S.at[f] + [i]], next := S.next + 1);
      var T1 := T.(mem := T.mem[nf := ZeroTable()], at := T.at[nf := T.at[f] + [i]], next := T.next + 1);
      AddLike(S, T, nf, T.at[f] + [i], top);
      PutLike(S1, T1, f, i, a, b, top);
    }
  }

  lemma SameLinks(S: State, T: State, f: nat, i: nat, top: nat)
    requires Like(S, T, top) && HasTable(S, f) && HasTable(T, f) && i < ENTRIES
    ensures S.at == T.at && S.next == T.next && S.log == T.log && S.phys == T.phys
    ensures LikeEntry(S.mem[f][i], T.mem[f][i])
    ensures Has(S.mem[f][i], OS_CRAWLABLE) == Has(T.mem[f][i], OS_CRAWLABLE) && S.mem[f][i].frame == T.mem[f][i].frame
  {
    assert LikeTable(S.mem[f], T.mem[f]);
  }

  /** The pages of a leaf table. */
  lemma {:induction false} LikeVisits(env: Env, S: State, T: State, f: nat, i: nat, e0: nat, op: Op, top: nat)
    requires Like(S, T, top) && WF(env, T, top) && f in T.mem && |T.at[f]| == top - 1
    ensures Like(VisitPages(env.(version := AsCommitted), S, f, i, e0, op), VisitPages(env, T, f, i, e0, op), top)
    decreases ENTRIES - i
  {
    hide WF, TableOk, PageCallback, PhysAfter, Grows;
    WFTable(env, T, f, top);
    if i <= e0 && i < ENTRIES {
      VisitKeeps(env, T, f, i, op, top);
      LikeVisits(env, VisitPage(env.(version := AsCommitted), S, f, i, op), VisitPage(env, T, f, i, op), f, i + 1, e0,
                 op, top);
    }
  }

  // ---------- a clean range ----------

  /** What is below the entry just entered is clean. */
  lemma CleanChild(env: Env, T: State, f: nat, i: nat, s: seq<nat>, e: seq<nat>, op: Op, top: nat)
    requires CrawlReady(env, T, f, s, e, op, top) && |s| > 1 && s[0] <= i <= e[0] < ENTRIES && HasTable(T, f)
    ensures HasTable(Enter(env, T, f, i, s[0], e[0], op), f)
    ensures var T1 := Enter(env, T, f, i, s[0], e[0], op);
            var c := T1.mem[f][i].frame;
            if Has(T.mem[f][i], OS_CRAWLABLE) then
              c == T.mem[f][i].frame && (Clean(T1, c, Lo(s, i), Hi(e, i)) <==> Clean(T, c, Lo(s, i), Hi(e, i)))
            else Clean(T1, c, Lo(s, i), Hi(e, i))
  {
    hide Has, TableOk, DirOk, Covered, Value, Lo, Hi, Enter, Clean;
    EntryReady(env, T, f, i, s, e, op, top);
    EnterElsewhere(env, T, f, i, s[0], e[0], op, top);
    var T1 := Enter(env, T, f, i, s[0], e[0], op);
    var c := T1.mem[f][i].frame;
    WFTable(env, T1, c, top);
    if Has(T.mem[f][i], OS_CRAWLABLE) {
      WFChild(env, T, f, i, top);
      CleanAgree(env, T, T1, c, Lo(s, i), Hi(e, i), top);
    } else {
      ZeroIsClean(T1, c, Lo(s, i), Hi(e, i));
    }
  }

  /** The entries behind are as clean as they were. */
  lemma CleanBehind(env: Env, T: State, T1: State, T2: State, f: nat, i: nat, j: nat, s: seq<nat>, e: seq<nat>,
      op: Op, top: nat)
    requires CrawlReady(env, T, f, s, e, op, top) && |s| > 1 && s[0] <= i < j <= e[0] < ENTRIES && HasTable(T, f)
    requires T1 == Enter(env, T, f, i, s[0], e[0], op) && HasTable(T1, f)
    requires Grows(T1, T2, T.at[f] + [i], top) && HasTable(T2, f) && T2.mem[f] == T1.mem[f]
    ensures CleanEntry(T2, f, j, s, e) == CleanEntry(T, f, j, s, e)
  {
    hide Has, TableOk, DirOk, Covered, Value, Lo, Hi, Enter, LinksKept;
    EnterElsewhere(env, T, f, i, s[0], e[0], op, top);
    assert T2.mem[f][j] == T.mem[f][j] && T2.mem[f][e[0]] == T.mem[f][e[0]];
    if Has(T.mem[f][j], OS_CRAWLABLE) {
      WFChild(env, T, f, j, top);
      var c := T.mem[f][j].frame;
      forall g | g in T.mem && g in T.at && T.at[c] <= T.at[g]
        ensures g in T2.mem && g in T2.at && T2.mem[g] == T.mem[g]
      {
        OtherBranch(T.at[f], i, j, T.at[g]);
        assert g in T1.mem && g in T1.at && T1.mem[g] == T.mem[g];
        AtKept(env, T, T1, f, i, s[0], e[0], op, g);
      }
      CleanAgree(env, T, T2, c, Lo(s, j), Hi(e, j), top);
    }
  }

  lemma OtherBranch(pre: seq<nat>, i: nat, j: nat, p: seq<nat>)
    requires i != j && pre + [j] <= p
    ensures !(pre + [i] <= p) && p != pre
  {
    assert p[|pre|] == j;
  }

  lemma AtKept(env: Env, T: State, T1: State, f: nat, i: nat, s0: nat, e0: nat, op: Op, g: nat)
    requires HasTable(T, f) && i < ENTRIES && e0 < ENTRIES && T1 == Enter(env, T, f, i, s0, e0, op)
    requires g in T.mem && g in T.at && (env.supply(T.next) !in T.mem)
    ensures g in T1.at && T1.at[g] == T.at[g]
  {}

  /** Over a clean range the committed crawl does what the corrected one does, up to flags that do not matter. */
  lemma {:induction false} LikeCrawl(env: Env, S: State, T: State, f: nat, s: seq<nat>, e: seq<nat>, flags: bv12,
      top: nat)
    requires CrawlReady(env, T, f, s, e, Back(flags), top) && Like(S, T, top) && Clean(T, f, s, e)
    ensures Like(Crawl(env.(version := AsCommitted), S, f, s, e, Back(flags)), Crawl(env, T, f, s, e, Back(flags)), top)
    decreases |s|, 0
  {
    hide WF, Grows, CrawlEntries, VisitPages, Like;
    RangeOrder(s, e);
    if |s| == 1 {
      LikeVisits(env, S, T, f, s[0], e[0], Back(flags), top);
    } else {
      WFTable(env, T, f, top);
      LikeEntries(env, S, T, f, s[0], s, e, flags, top);
    }
  }

  lemma {:induction false} LikeEntries(env: Env, S: State, T: State, f: nat, i: nat, s: seq<nat>, e: seq<nat>,
      flags: bv12, top: nat)
    requires CrawlReady(env, T, f, s, e, Back(flags), top) && |s| > 1 && s[0] <= i <= e[0] + 1 && e[0] < ENTRIES
    requires Like(S, T, top) && HasTable(T, f) && CleanFrom(T, f, i, s, e)
    ensures Like(CrawlEntries(env.(version := AsCommitted), S, f, i, s, e, Back(flags)),
                 CrawlEntries(env, T, f, i, s, e, Back(flags)), top)
    decreases |s| - 1, 2, ENTRIES - i
  {
    hide WF, Grows, Crawl, Value, Lo, Hi, Has, Enter, Like, Clean, TableOk;
    if i <= e[0] {
      assert CleanEntry(T, f, i, s, e);
      var S1, S2, T1, T2 := StepAlike(env, S, T, f, i, s, e, flags, top);
      forall j | i + 1 <= j <= e[0] ensures CleanEntry(T2, f, j, s, e) {
        CleanBehind(env, T, T1, T2, f, i, j, s, e, Back(flags), top);
      }
      LikeEntries(env, S2, T2, f, i + 1, s, e, flags, top);
    }
  }

  /** One clean entry of a directory: the states after entering it and after crawling its table, on both sides. */
  lemma {:induction false} StepAlike(env: Env, S: State, T: State, f: nat, i: nat, s: seq<nat>, e: seq<nat>,
      flags: bv12, top: nat)
    returns (S1: State, S2: State, T1: State, T2: State)
    requires CrawlReady(env, T, f, s, e, Back(flags), top) && |s| > 1 && s[0] <= i <= e[0] < ENTRIES
    requires Like(S, T, top) && HasTable(T, f) && CleanEntry(T, f, i, s, e)
    ensures HasTable(S, f) && T1 == Enter(env, T, f, i, s[0], e[0], Back(flags)) && HasTable(T1, f)
    ensures S1 == Enter(env.(version := AsCommitted), S, f, i, s[0], e[0], Back(flags)) && HasTable(S1, f)
    ensures T2 == Crawl(env, T1, T1.mem[f][i].frame, Lo(s, i), Hi(e, i), Back(flags))
    ensures S2 == Crawl(env.(version := AsCommitted), S1, S1.mem[f][i].frame, Lo(s, i), Hi(e, i), Back(flags))
    ensures Like(S1, T1, top) && Like(S2, T2, top) && Grows(T1, T2, T.at[f] + [i], top)
    ensures CrawlReady(env, T2, f, s, e, Back(flags), top) && HasTable(T2, f) && T2.mem[f] == T1.mem[f]
    ensures CrawlEntries(env, T, f, i, s, e, Back(flags)) == CrawlEntries(env, T2, f, i + 1, s, e, Back(flags))
    ensures CrawlEntries(env.(version := AsCommitted), S, f, i, s, e, Back(flags)) ==
            CrawlEntries(env.(version := AsCommitted), S2, f, i + 1, s, e, Back(flags))
    decreases |s| - 1, 1
  {
    hide WF, Grows, Crawl, Value, Lo, Hi, Has, Enter, Like, Clean, TableOk;
    T1, T2 := StepStates(env, T, f, i, s, e, Back(flags), top);
    LikeEnter(env, S, T, f, i, s[0], e[0], flags, top);
    S1 := Enter(env.(version := AsCommitted), S, f, i, s[0], e[0], Back(flags));
    LikeTables(env, S, T, f, top);
    LikeTables(env, S1, T1, f, top);
    SameLinks(S1, T1, f, i, top);
    CleanChild(env, T, f, i, s, e, Back(flags), top);
    LikeCrawl(env, S1, T1, T1.mem[f][i].frame, Lo(s, i), Hi(e, i), flags, top);
    S2 := Crawl(env.(version := AsCommitted), S1, S1.mem[f][i].frame, Lo(s, i), Hi(e, i), Back(flags));
    EntriesStep(env.(version := AsCommitted), S, f, i, s, e, Back(flags));
  }

  lemma EntriesStep(env: Env, S: State, f: nat, i: nat, s: seq<nat>, e: seq<nat>, op: Op)
    requires |s| == |e| > 1 && i <= e[0] < ENTRIES && HasTable(S, f)
    ensures var S1 := Enter(env, S, f, i, s[0], e[0], op);
            && f in S1.mem && |S1.mem[f]| == ENTRIES
            && CrawlEntries(env, S, f, i, s, e, op) ==
               CrawlEntries(env, Crawl(env, S1, S1.mem[f][i].frame, Lo(s, i), Hi(e, i), op), f, i + 1, s, e, op)
  {
    hide Enter;
    EnterHasTable(env, S, f, i, s[0], e[0], op);
  }

  lemma EnterHasTable(env: Env, S: State, f: nat, i: nat, s0: nat, e0: nat, op: Op)
    requires HasTable(S, f) && i < ENTRIES && e0 < ENTRIES
    ensures var S1 := Enter(env, S, f, i, s0, e0, op); f in S1.mem && |S1.mem[f]| == ENTRIES
  {}

  lemma LikeTables(env: Env, S: State, T: State, f: nat, top: nat)
    requires Like(S, T, top) && HasTable(T, f)
    ensures HasTable(S, f)
  {
    assert S.mem.Keys == T.mem.Keys && f in T.mem.Keys;
    assert f in S.mem;
    assert LikeTable(S.mem[f], T.mem[f]);
  }

  // ---------- a range that is not clean ----------

  /** Supplies that a call can meet: frames that hold no table yet, each once. */
  ghost predicate GoodSupply(S: State, supply: nat -> nat) {
    && (forall k :: k >= S.next ==> supply(k) !in S.mem)
    && (forall j: nat, k: nat :: j < k ==> supply(j) != supply(k))
  }

  /** A supply of multiples of 16 beyond all tables. */
  function Sixteens(m: nat): nat -> nat {
    k => 16 * (m + k)
  }

  lemma {:induction false} Bound(a: set<nat>) returns (m: nat)
    ensures forall x :: x in a ==> x < m
  {
    if a == {} {
      m := 0;
    } else {
      var x :| x in a;
      m := Bound(a - {x});
      assert forall y :: y in a ==> y == x || y in a - {x};
      m := if m > x then m else x + 1;
    }
  }

  /** The frames of the tables are below 16 m or multiples of 16. */
  ghost predicate KeysOk(S: State, m: nat) {
    forall g :: g in S.mem ==> g < 16 * m || g % 16 == 0
  }

  /** Entry i of table g leads to a frame that is no multiple of 16 and holds no table. */
  ghost predicate BadEntry(S: State, g: nat, i: nat, top: nat) {
    && HasTable(S, g) && |S.at[g]| < top - 1 && i < ENTRIES
    && Has(S.mem[g][i], OS_CRAWLABLE) && S.mem[g][i].frame % 16 != 0 && S.mem[g][i].frame !in S.mem
  }

  ghost predicate LooseDir(S: State, e: Entry, place: seq<nat>) {
    Has(e, OS_CRAWLABLE) ==>
      if e.frame in S.mem then e.frame in S.at && S.at[e.frame] == place else e.frame % 16 != 0
  }

  /** Well formed but for such entries. */
  ghost predicate Loose(S: State, m: nat, top: nat) {
    && S.at.Keys == S.mem.Keys && KeysOk(S, m)
    && (forall k :: k >= S.next ==> Sixteens(m)(k) !in S.mem)
    && (forall g :: g in S.mem ==> |S.mem[g]| == ENTRIES && |S.at[g]| < top)
    && (forall g, i :: g in S.mem && 0 <= i < |S.mem[g]| && |S.at[g]| < top - 1 ==>
         LooseDir(S, S.mem[g][i], S.at[g] + [i]))
  }

  ghost predicate BadKept(S: State, S': State, top: nat) {
    forall g: nat, i: nat :: BadEntry(S, g, i, top) ==> BadEntry(S', g, i, top)
  }

  /** An entry of a directory is replaced by one that is not worse; other bad entries stay bad. */
  lemma LoosePut(S: State, f: nat, i: nat, e: Entry, m: nat, top: nat)
    requires Loose(S, m, top) && f in S.mem && |S.at[f]| < top - 1 && i < ENTRIES && LooseDir(S, e, S.at[f] + [i])
    requires Has(S.mem[f][i], OS_CRAWLABLE) ==> Has(e, OS_CRAWLABLE) && e.frame == S.mem[f][i].frame
    ensures var S' := S.(mem := S.mem[f := S.mem[f][i := e]]);
            Loose(S', m, top) && BadKept(S, S', top)
  {
    hide Has;
    var S' := S.(mem := S.mem[f := S.mem[f][i := e]]);
    assert S'.mem.Keys == S.mem.Keys;
    forall g, k | g in S'.mem && 0 <= k < |S'.mem[g]| && |S'.at[g]| < top - 1
      ensures LooseDir(S', S'.mem[g][k], S'.at[g] + [k])
    {
      assert LooseDir(S, S.mem[g][k], S.at[g] + [k]);
    }
  }

  /** A fresh table is added. */
  lemma LooseAdd(S: State, place: seq<nat>, m: nat, top: nat)
    requires Loose(S, m, top) && |place| < top
    ensures var nf := Sixteens(m)(S.next);
            var S' := S.(mem := S.mem[nf := ZeroTable()], at := S.at[nf := place], next := S.next + 1);
            Loose(S', m, top) && BadKept(S, S', top) && nf !in S.mem && nf % 16 == 0
  {
    hide Has;
    ZeroHasNothing();
    var nf := Sixteens(m)(S.next);
    var S' := S.(mem := S.mem[nf := ZeroTable()], at := S.at[nf := place], next := S.next + 1);
    assert nf == 16 * (m + S.next);
    forall g, k | g in S'.mem && 0 <= k < |S'.mem[g]| && |S'.at[g]| < top - 1
      ensures LooseDir(S', S'.mem[g][k], S'.at[g] + [k])
    {
      if g != nf { assert LooseDir(S, S.mem[g][k], S.at[g] + [k]); }
    }
  }

  /** The state with a fresh table for entry i of f. */
  function WithTable(S: State, f: nat, i: nat, nf: nat): State
    requires f in S.at
  {
    S.(mem := S.mem[nf := ZeroTable()], at := S.at[nf := S.at[f] + [i]], next := S.next + 1)
  }

  function WithEntry(S: State, f: nat, i: nat, e: Entry): State
    requires f in S.mem && i < |S.mem[f]|
  {
    S.(mem := S.mem[f := S.mem[f][i := e]])
  }

  /** What Enter makes of the entry. */
  lemma EntersEntry(env: Env, S: State, f: nat, i: nat, s0: nat, e0: nat, flags: bv12)
    requires env.version.AsCommitted? && HasTable(S, f) && i < ENTRIES && e0 < ENTRIES && env.supply(S.next) != f
    ensures var S' := Enter(env, S, f, i, s0, e0, Back(flags));
            f in S'.mem && |S'.mem[f]| == ENTRIES && Has(S'.mem[f][i], OS_CRAWLABLE)
    ensures var S' := Enter(env, S, f, i, s0, e0, Back(flags));
            var e := S'.mem[f][i];
            var nf := env.supply(S.next);
            if Has(S.mem[f][i], OS_CRAWLABLE) then S' == WithEntry(S, f, i, e) && e.frame == S.mem[f][i].frame
            else
              && S' == WithEntry(WithTable(S, f, i, nf), f, i, e)
              && e.frame == if s0 < i <= e0 then OrNibble(nf, S.mem[f][e0].frame) else nf
  {
    CrawlableBits(S.mem[f][i].flags, flags);
    CrawlableBits(S.mem[f][e0].flags, flags);
    hide OrNibble;
  }

  lemma CrawlableBits(g: bv12, f: bv12)
    ensures (((g | OS_CRAWLABLE) & !PS) | P | RW | f) & OS_CRAWLABLE != 0
    ensures g & OS_CRAWLABLE != 0 ==> (g | P | RW | f) & OS_CRAWLABLE != 0
  {}

  lemma LooseEnter(env: Env, S: State, f: nat, i: nat, s0: nat, e0: nat, flags: bv12, m: nat, top: nat)
    requires env.version.AsCommitted? && env.supply == Sixteens(m) && Loose(S, m, top)
    requires f in S.mem && |S.at[f]| < top - 1 && i < ENTRIES && e0 < ENTRIES
    ensures HasTable(S, f)
    ensures var S' := Enter(env, S, f, i, s0, e0, Back(flags));
            && Loose(S', m, top) && BadKept(S, S', top) && HasTable(S', f) && S'.at[f] == S.at[f]
            && (S'.mem[f][i].frame in S'.mem ==>
                 S'.mem[f][i].frame in S'.at && S'.at[S'.mem[f][i].frame] == S.at[f] + [i])
            && (!Has(S.mem[f][i], OS_CRAWLABLE) && s0 < i <= e0 && S.mem[f][e0].frame % 16 != 0 ==>
                 BadEntry(S', f, i, top))
  {
    assert f in S.at.Keys && Sixteens(m)(S.next) !in S.mem;
    EntersEntry(env, S, f, i, s0, e0, flags);
    hide Has, Enter, OrNibble, BadEntry, BadKept;
    var e := Enter(env, S, f, i, s0, e0, Back(flags)).mem[f][i];
    assert LooseDir(S, S.mem[f][i], S.at[f] + [i]);
    if Has(S.mem[f][i], OS_CRAWLABLE) {
      LoosePut(S, f, i, e, m, top);
    } else {
      var nf := env.supply(S.next);
      LooseAdd(S, S.at[f] + [i], m, top);
      var S1 := WithTable(S, f, i, nf);
      OrNothing(nf, S.mem[f][e0].frame);
      NewIsLoose(S, S1, nf, e, S.at[f] + [i], m, top);
      LoosePut(S1, f, i, e, m, top);
      BadKeptTrans(S, S1, Enter(env, S, f, i, s0, e0, Back(flags)), top);
      if s0 < i <= e0 && S.mem[f][e0].frame % 16 != 0 { NewIsBad(WithEntry(S1, f, i, e), f, i, top); }
    }
  }

  lemma NewIsLoose(S: State, S1: State, nf: nat, e: Entry, place: seq<nat>, m: nat, top: nat)
    requires Loose(S1, m, top) && nf % 16 == 0 && nf >= 16 * m && nf in S1.mem && nf in S1.at && S1.at[nf] == place
    requires e.frame == nf || (nf < e.frame < nf + 16)
    ensures LooseDir(S1, e, place) && (e.frame != nf ==> e.frame % 16 != 0 && e.frame !in S1.mem)
  {}

  lemma NewIsBad(S: State, f: nat, i: nat, top: nat)
    requires HasTable(S, f) && |S.at[f]| < top - 1 && i < ENTRIES && Has(S.mem[f][i], OS_CRAWLABLE)
    requires S.mem[f][i].frame % 16 != 0 && S.mem[f][i].frame !in S.mem
    ensures BadEntry(S, f, i, top)
  {}

  lemma BadKeptTrans(S: State, S': State, S'': State, top: nat)
    requires BadKept(S, S', top) && BadKept(S', S'', top)
    ensures BadKept(S, S'', top)
  {
    hide BadEntry;
  }

  lemma LooseVisit(env: Env, S: State, f: nat, i: nat, op: Op, m: nat, top: nat)
    requires Loose(S, m, top) && HasTable(S, f) && |S.at[f]| == top - 1 && i < ENTRIES
    ensures var S' := VisitPage(env, S, f, i, op);
            Loose(S', m, top) && BadKept(S, S', top) && HasTable(S', f) && S'.at == S.at && S'.mem.Keys == S.mem.Keys
  {
    hide Has, PageCallback, PhysAfter;
    var S' := VisitPage(env, S, f, i, op);
    forall g, k | g in S'.mem && 0 <= k < |S'.mem[g]| && |S'.at[g]| < top - 1
      ensures LooseDir(S', S'.mem[g][k], S'.at[g] + [k])
    {
      assert LooseDir(S, S.mem[g][k], S.at[g] + [k]);
    }
  }

  lemma {:induction false} LooseVisits(env: Env, S: State, f: nat, i: nat, e0: nat, op: Op, m: nat, top: nat)
    requires Loose(S, m, top) && (f in S.mem ==> HasTable(S, f) && |S.at[f]| == top - 1)
    ensures var S' := VisitPages(env, S, f, i, e0, op);
            Loose(S', m, top) && BadKept(S, S', top) && AtGrows(S.at, S'.at)
    decreases ENTRIES - i
  {
    hide Loose, BadEntry, VisitPage;
    if i <= e0 && i < ENTRIES && HasTable(S, f) {
      LooseVisit(env, S, f, i, op, m, top);
      LooseVisits(env, VisitPage(env, S, f, i, op), f, i + 1, e0, op, m, top);
    }
  }

  /** Whatever the committed crawl does from there, bad entries stay bad. */
  lemma {:induction false} LooseCrawl(env: Env, S: State, f: nat, s: seq<nat>, e: seq<nat>, flags: bv12, m: nat,
      top: nat)
    requires env.version.AsCommitted? && env.supply == Sixteens(m) && Loose(S, m, top)
    requires |s| == |e| && (f in S.mem ==> HasTable(S, f) && |S.at[f]| + |s| == top)
    ensures var S' := Crawl(env, S, f, s, e, Back(flags));
            Loose(S', m, top) && BadKept(S, S', top) && AtGrows(S.at, S'.at)
    decreases |s|, 0
  {
    hide Loose, BadEntry, VisitPages, CrawlEntries;
    if |s| == 1 {
      LooseVisits(env, S, f, s[0], e[0], Back(flags), m, top);
    } else if |s| > 1 {
      LooseEntries(env, S, f, s[0], s, e, flags, m, top);
    }
  }

  lemma {:induction false} LooseEntries(env: Env, S: State, f: nat, i: nat, s: seq<nat>, e: seq<nat>, flags: bv12,
      m: nat, top: nat)
    requires env.version.AsCommitted? && env.supply == Sixteens(m) && Loose(S, m, top)
    requires |s| == |e| > 1 && (f in S.mem ==> HasTable(S, f) && |S.at[f]| + |s| == top)
    ensures var S' := CrawlEntries(env, S, f, i, s, e, Back(flags));
            Loose(S', m, top) && BadKept(S, S', top) && AtGrows(S.at, S'.at)
    decreases |s| - 1, 2, ENTRIES - i
  {
    hide Loose, BadEntry, Enter, Crawl;
    if i <= e[0] < ENTRIES && HasTable(S, f) {
      var S1, S2 := LooseStep(env, S, f, i, s, e, flags, m, top);
      LooseEntries(env, S2, f, i + 1, s, e, flags, m, top);
      BadKeptTrans(S, S1, S2, top);
      BadKeptTrans(S, S2, CrawlEntries(env, S, f, i, s, e, Back(flags)), top);
    }
  }

  /** One entry of a directory, bad or not. */
  lemma {:induction false} LooseStep(env: Env, S: State, f: nat, i: nat, s: seq<nat>, e: seq<nat>, flags: bv12,
      m: nat, top: nat)
    returns (S1: State, S2: State)
    requires env.version.AsCommitted? && env.supply == Sixteens(m) && Loose(S, m, top)
    requires |s| == |e| > 1 && HasTable(S, f) && |S.at[f]| + |s| == top && i <= e[0] < ENTRIES
    ensures S1 == Enter(env, S, f, i, s[0], e[0], Back(flags)) && HasTable(S1, f)
    ensures S2 == Crawl(env, S1, S1.mem[f][i].frame, Lo(s, i), Hi(e, i), Back(flags))
    ensures CrawlEntries(env, S, f, i, s, e, Back(flags)) == CrawlEntries(env, S2, f, i + 1, s, e, Back(flags))
    ensures Loose(S2, m, top) && BadKept(S, S1, top) && BadKept(S1, S2, top) && AtGrows(S.at, S2.at)
    ensures f in S2.mem ==> HasTable(S2, f) && |S2.at[f]| + |s| == top
    ensures !Has(S.mem[f][i], OS_CRAWLABLE) && s[0] < i <= e[0] && S.mem[f][e[0]].frame % 16 != 0 ==>
              BadEntry(S1, f, i, top)
    decreases |s| - 1, 1
  {
    hide Loose, BadEntry, BadKept, Enter, Crawl, Has, Lo, Hi;
    LooseEnter(env, S, f, i, s[0], e[0], flags, m, top);
    EntriesStep(env, S, f, i, s, e, Back(flags));
    S1 := Enter(env, S, f, i, s[0], e[0], Back(flags));
    var c := S1.mem[f][i].frame;
    if c in S1.mem { LooseTable(S1, c, m, top); }
    LooseCrawl(env, S1, c, Lo(s, i), Hi(e, i), flags, m, top);
    S2 := Crawl(env, S1, c, Lo(s, i), Hi(e, i), Back(flags));
    if f in S2.mem { LooseTable(S2, f, m, top); }
    EnterAt(env, S, f, i, s[0], e[0], Back(flags), m, top);
  }

  lemma LooseTable(S: State, f: nat, m: nat, top: nat)
    requires Loose(S, m, top) && f in S.mem
    ensures HasTable(S, f)
  {
    assert f in S.mem.Keys;
  }

  lemma EnterAt(env: Env, S: State, f: nat, i: nat, s0: nat, e0: nat, op: Op, m: nat, top: nat)
    requires HasTable(S, f) && i < ENTRIES && e0 < ENTRIES && env.supply == Sixteens(m) && Loose(S, m, top)
    ensures AtGrows(S.at, Enter(env, S, f, i, s0, e0, op).at)
  {
    hide Has;
  }

  /** A well-formed state whose tables have such frames is loose. */
  lemma WFIsLoose(env: Env, S: State, m: nat, top: nat)
    requires WF(env, S, top) && env.supply == Sixteens(m) && KeysOk(S, m)
    ensures Loose(S, m, top)
  {
    hide Has;
    forall g, i | g in S.mem && 0 <= i < |S.mem[g]| && |S.at[g]| < top - 1
      ensures LooseDir(S, S.mem[g][i], S.at[g] + [i])
    {
      assert TableOk(S.at, S.mem[g], S.at[g], top);
      assert DirOk(S.at, S.mem[g][i], S.at[g] + [i], top);
    }
    forall g | g in S.mem ensures |S.mem[g]| == ENTRIES && |S.at[g]| < top {
      assert TableOk(S.at, S.mem[g], S.at[g], top);
    }
  }

  ghost predicate Bad(S: State, top: nat) {
    exists g: nat, i: nat :: BadEntry(S, g, i, top)
  }

  lemma WFLeads(env: Env, S: State, g: nat, i: nat, top: nat)
    requires WF(env, S, top) && HasTable(S, g) && |S.at[g]| < top - 1 && i < ENTRIES && Has(S.mem[g][i], OS_CRAWLABLE)
    ensures S.mem[g][i].frame in S.mem
  {
    hide Has;
    assert TableOk(S.at, S.mem[g], S.at[g], top);
    assert DirOk(S.at, S.mem[g][i], S.at[g] + [i], top);
    assert S.mem[g][i].frame in S.at.Keys;
  }

  lemma BadIsNotWF(env: Env, S: State, top: nat)
    requires Bad(S, top)
    ensures !WF(env, S, top)
  {
    hide WF, Has;
    var g: nat, i: nat :| BadEntry(S, g, i, top);
    if WF(env, S, top) { WFLeads(env, S, g, i, top); }
  }

  lemma BadStays(S: State, S': State, top: nat)
    requires Bad(S, top) && BadKept(S, S', top)
    ensures Bad(S', top)
  {
    hide BadEntry;
    var g: nat, i: nat :| BadEntry(S, g, i, top);
    assert BadEntry(S', g, i, top);
  }

  /** Over a range that is not clean the committed crawl leaves a bad entry, with such a supply. */
  lemma {:induction false} SpoiledCrawl(env: Env, S: State, T: State, f: nat, s: seq<nat>, e: seq<nat>, flags: bv12,
      m: nat, top: nat)
    requires CrawlReady(env, T, f, s, e, Back(flags), top) && Like(S, T, top) && !Clean(T, f, s, e)
    requires env.supply == Sixteens(m) && KeysOk(T, m)
    ensures Bad(Crawl(env.(version := AsCommitted), S, f, s, e, Back(flags)), top)
    decreases |s|, 0
  {
    assert |s| > 1;
    hide WF, Grows, CrawlEntries, VisitPages, Like, KeysOk;
    RangeOrder(s, e);
    WFTable(env, T, f, top);
    SpoiledEntries(env, S, T, f, s[0], s, e, flags, m, top);
  }

  lemma {:induction false} SpoiledEntries(env: Env, S: State, T: State, f: nat, i: nat, s: seq<nat>, e: seq<nat>,
      flags: bv12, m: nat, top: nat)
    requires CrawlReady(env, T, f, s, e, Back(flags), top) && |s| > 1 && s[0] <= i <= e[0] + 1 && e[0] < ENTRIES
    requires Like(S, T, top) && HasTable(T, f) && !CleanFrom(T, f, i, s, e)
    requires env.supply == Sixteens(m) && KeysOk(T, m)
    ensures Bad(CrawlEntries(env.(version := AsCommitted), S, f, i, s, e, Back(flags)), top)
    decreases |s| - 1, 2, ENTRIES - i
  {
    hide WF, Grows, Crawl, Value, Lo, Hi, Has, Enter, Like, Clean, TableOk, Loose, BadEntry, KeysOk, CleanEntry;
    LikeTables(env, S, T, f, top);
    LikeLoose(env, S, T, m, top);
    WFTable(env, T, f, top);
    SameLinks(S, T, f, i, top);
    if CleanEntry(T, f, i, s, e) {
      var S1, S2, T1, T2 := StepAlike(env, S, T, f, i, s, e, flags, top);
      forall j | i + 1 <= j <= e[0] ensures CleanEntry(T2, f, j, s, e) == CleanEntry(T, f, j, s, e) {
        CleanBehind(env, T, T1, T2, f, i, j, s, e, Back(flags), top);
      }
      var U1, U2 := LooseStep(env.(version := AsCommitted), S, f, i, s, e, flags, m, top);
      SameKeys(env, S2, T2, m, top);
      SpoiledEntries(env, S2, T2, f, i + 1, s, e, flags, m, top);
    } else {
      SpoiledStep(env, S, T, f, i, s, e, flags, m, top);
    }
  }

  lemma LikeLoose(env: Env, S: State, T: State, m: nat, top: nat)
    requires Like(S, T, top) && WF(env, T, top) && env.supply == Sixteens(m) && KeysOk(T, m)
    ensures Loose(S, m, top)
  {
    hide WF, LikeTable;
    LikeWF(env, env.version, S, T, top);
    assert forall g :: g in S.mem <==> g in S.mem.Keys;
    WFIsLoose(env.(version := env.version), S, m, top);
  }

  lemma SameKeys(env: Env, S: State, T: State, m: nat, top: nat)
    requires Like(S, T, top) && Loose(S, m, top)
    ensures KeysOk(T, m)
  {
    forall g | g in T.mem ensures g < 16 * m || g % 16 == 0 {
      assert g in T.mem.Keys;
    }
  }

  /** The entry that is not clean gets a bad frame itself, or one below it does. */
  lemma {:induction false} SpoiledStep(env: Env, S: State, T: State, f: nat, i: nat, s: seq<nat>, e: seq<nat>,
      flags: bv12, m: nat, top: nat)
    requires CrawlReady(env, T, f, s, e, Back(flags), top) && |s| > 1 && s[0] <= i <= e[0] < ENTRIES
    requires Like(S, T, top) && HasTable(T, f) && HasTable(S, f) && !CleanEntry(T, f, i, s, e)
    requires env.supply == Sixteens(m) && KeysOk(T, m) && Loose(S, m, top)
    ensures Bad(CrawlEntries(env.(version := AsCommitted), S, f, i, s, e, Back(flags)), top)
    decreases |s| - 1, 1
  {
    hide WF, Grows, Crawl, Value, Lo, Hi, Has, Enter, Like, Clean, TableOk, Loose, BadEntry, KeysOk;
    var com := env.(version := AsCommitted);
    SameLinks(S, T, f, i, top);
    SameLinks(S, T, f, e[0], top);
    var S1, S2 := LooseStep(com, S, f, i, s, e, flags, m, top);
    LooseEntries(com, S2, f, i + 1, s, e, flags, m, top);
    if Has(T.mem[f][i], OS_CRAWLABLE) {
      var T1, T2 := StepStates(env, T, f, i, s, e, Back(flags), top);
      LikeEnter(env, S, T, f, i, s[0], e[0], flags, top);
      SameLinks(S1, T1, f, i, top);
      CleanChild(env, T, f, i, s, e, Back(flags), top);
      KeysAfterEnter(env, T, f, i, s[0], e[0], Back(flags), m);
      SpoiledCrawl(env, S1, T1, T1.mem[f][i].frame, Lo(s, i), Hi(e, i), flags, m, top);
    } else {
      assert BadEntry(S1, f, i, top);
      BadStays(S1, S2, top);
    }
    BadStays(S2, CrawlEntries(com, S, f, i, s, e, Back(flags)), top);
  }

  lemma KeysAfterEnter(env: Env, T: State, f: nat, i: nat, s0: nat, e0: nat, op: Op, m: nat)
    requires HasTable(T, f) && i < ENTRIES && e0 < ENTRIES && env.supply == Sixteens(m) && KeysOk(T, m)
    ensures KeysOk(Enter(env, T, f, i, s0, e0, op), m)
  {
    hide Has;
    assert env.supply(T.next) == 16 * (m + T.next);
  }
}
