/** Page numbers as the table indices that spell them, most significant first. */
module PagePath {

  const ENTRIES: nat := 512

  ghost predicate Path(p: seq<nat>) {
    forall i :: 0 <= i < |p| ==> p[i] < ENTRIES
  }

  /** The page number a path spells. */
  function Value(p: seq<nat>): nat {
    if p == [] then 0 else ENTRIES * Value(p[..|p| - 1]) + p[|p| - 1]
  }

  /** n >> (9 * k) */
  function Down(n: nat, k: nat): nat {
    if k == 0 then n else Down(n / ENTRIES, k - 1)
  }

  /** The index a crawl at level lv uses for the page number n: nine of its bits. */
  function Digit(n: nat, lv: nat): (d: nat)
    requires lv > 0
    ensures d < ENTRIES
  {
    Down(n, lv - 1) % ENTRIES
  }

  /** All lv indices of page number n. */
  function Digits(n: nat, lv: nat): (p: seq<nat>)
    ensures |p| == lv && forall i :: 0 <= i < lv ==> p[i] == Digit(n, lv - i)
  {
    if lv == 0 then [] else [Digit(n, lv)] + Digits(n, lv - 1)
  }

  function First(lv: nat): (p: seq<nat>)
    ensures |p| == lv && Path(p)
  {
    seq(lv, _ => 0)
  }

  function Last(lv: nat): (p: seq<nat>)
    ensures |p| == lv && Path(p)
  {
    seq(lv, _ => ENTRIES - 1)
  }

  ghost predicate InRange(s: seq<nat>, e: seq<nat>, q: seq<nat>) {
    |q| == |s| == |e| && Path(q) && Value(s) <= Value(q) <= Value(e)
  }

  // ---------- paths and numbers ----------

  lemma {:induction false} DownStep(n: nat, k: nat)
    ensures Down(n, k + 1) == Down(n, k) / ENTRIES
  {
    if k > 0 { DownStep(n / ENTRIES, k - 1); }
  }

  /** Dropping the last index divides the page number by 512. */
  lemma DigitsInit(n: nat, lv: nat)
    requires lv > 0
    ensures Digits(n, lv)[..lv - 1] == Digits(n / ENTRIES, lv - 1)
    ensures Digits(n, lv)[lv - 1] == n % ENTRIES
  {
    forall i | 0 <= i < lv - 1 ensures Digits(n, lv)[i] == Digits(n / ENTRIES, lv - 1)[i] {
      assert Digit(n, lv - i) == Digit(n / ENTRIES, lv - 1 - i);
    }
  }

  function Pages(lv: nat): (n: nat)
    ensures n > 0
  {
    if lv == 0 then 1 else ENTRIES * Pages(lv - 1)
  }

  /** A page number below 512^lv is spelled by its lv indices. */
  lemma {:induction false} DigitsValue(n: nat, lv: nat)
    requires n < Pages(lv)
    ensures Value(Digits(n, lv)) == n
  {
    if lv > 0 {
      DigitsInit(n, lv);
      DigitsValue(n / ENTRIES, lv - 1);
    }
  }

  lemma {:induction false} ValueBound(p: seq<nat>)
    requires Path(p)
    ensures Value(p) < Pages(|p|)
  {
    if p != [] { ValueBound(p[..|p| - 1]); }
  }

  /** Paths of one length with the same number are the same. */
  lemma {:induction false} ValueInjective(p: seq<nat>, q: seq<nat>)
    requires Path(p) && Path(q) && |p| == |q| && Value(p) == Value(q)
    ensures p == q
  {
    if p != [] {
      ValueInjective(p[..|p| - 1], q[..|q| - 1]);
      assert p == p[..|p| - 1] + [p[|p| - 1]];
      assert q == q[..|q| - 1] + [q[|q| - 1]];
    }
  }

  /** The first index decides, if it differs. */
  lemma {:induction false} FirstDigitDecides(p: seq<nat>, q: seq<nat>)
    requires Path(p) && Path(q) && |p| == |q| > 0 && p[0] < q[0]
    ensures Value(p) < Value(q)
  {
    if |p| > 1 {
      FirstDigitDecides(p[..|p| - 1], q[..|q| - 1]);
    } else {
      assert p[..0] == q[..0] == [];
    }
  }

  /** With equal first indices the rest decides. */
  lemma {:induction false} TailDecides(p: seq<nat>, q: seq<nat>)
    requires Path(p) && Path(q) && |p| == |q| > 0 && p[0] == q[0]
    ensures Value(p) <= Value(q) <==> Value(p[1..]) <= Value(q[1..])
    decreases |p|
  {
    var p', q' := p[..|p| - 1], q[..|q| - 1];
    if |p| > 1 {
      TailDecides(p', q');
      TailDecides(q', p');
      assert p[1..][..|p| - 2] == p'[1..] && q[1..][..|q| - 2] == q'[1..];
    } else {
      assert p' == q' == [] && p[1..] == q[1..] == [];
    }
  }

  lemma {:induction false} FirstIsLeast(q: seq<nat>)
    requires Path(q)
    ensures Value(First(|q|)) == 0 <= Value(q) <= Value(Last(|q|))
  {
    if q != [] {
      var k := |q| - 1;
      assert First(|q|)[..k] == First(k) && Last(|q|)[..k] == Last(k);
      FirstIsLeast(q[..k]);
    }
  }

  /** Below one entry, numbers count on from the first page of its table. */
  lemma {:induction false} ValueBelow(i: nat, q: seq<nat>)
    ensures Value([i] + q) == Value([i] + First(|q|)) + Value(q)
    decreases |q|
  {
    var p := [i] + q;
    if q == [] {
      assert p == [i] + First(0);
    } else {
      var k := |q| - 1;
      assert p[..|p| - 1] == [i] + q[..k];
      assert ([i] + First(|q|))[..|q|] == [i] + First(k);
      ValueBelow(i, q[..k]);
    }
  }

  /** The last page below an entry is followed by the first page below the next entry. */
  lemma {:induction false} NextEntry(i: nat, k: nat)
    ensures Value([i] + Last(k)) + 1 == Value([i + 1] + First(k))
  {
    if k == 0 {
      assert [i] + Last(0) == [i] && [i + 1] + First(0) == [i + 1];
      assert [i][..0] == [] && [i + 1][..0] == [];
    } else {
      assert ([i] + Last(k))[..k] == [i] + Last(k - 1);
      assert ([i + 1] + First(k))[..k] == [i + 1] + First(k - 1);
      NextEntry(i, k - 1);
    }
  }

  /** Numbers up to the last page below entry i have a first index of at most i, larger ones a larger index. */
  lemma EntryOfNumber(i: nat, q: seq<nat>)
    requires Path(q) && |q| > 0 && i < ENTRIES
    ensures Value(q) <= Value([i] + Last(|q| - 1)) <==> q[0] <= i
  {
    var p := [i] + Last(|q| - 1);
    hide Value, First;
    assert Path(p);
    if q[0] < i {
      FirstDigitDecides(q, p);
    } else if q[0] > i {
      FirstDigitDecides(p, q);
    } else {
      TailDecides(q, p);
      assert p[1..] == Last(|q| - 1);
      FirstIsLeast(q[1..]);
    }
  }
}
