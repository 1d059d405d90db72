/** The slot bitmap of a heap page and the two searches over it. */
module SlotMap {
  import opened Bits

  const SLOTS: nat := 502
  const NONE: nat := 503
  const BIG: nat := 511

  /** Eight words of 64 bits; bits 0..501 are slots, bit 511 marks the last page of a big allocation. */
  type Bitmap = b: seq<bv64> | |b| == 8 witness [0, 0, 0, 0, 0, 0, 0, 0]

  /** Slot i is marked. */
  predicate Get(b: Bitmap, i: nat)
    requires i < 512
  {
    Bit(b[i / 64], i % 64)
  }

  function Put(b: Bitmap, i: nat): Bitmap
    requires i < 512
  {
    b[i / 64 := WithBit(b[i / 64], i % 64)]
  }

  function Cut(b: Bitmap, i: nat): Bitmap
    requires i < 512
  {
    b[i / 64 := WithoutBit(b[i / 64], i % 64)]
  }

  lemma PutGets(b: Bitmap, i: nat, j: nat)
    requires i < 512 && j < 512
    ensures Get(Put(b, i), j) == (Get(b, j) || i == j)
  {
    hide Bit, WithBit;
    WithBitBits(b[i / 64], i % 64, j % 64);
  }

  lemma CutGets(b: Bitmap, i: nat, j: nat)
    requires i < 512 && j < 512
    ensures Get(Cut(b, i), j) == (Get(b, j) && i != j)
  {
    hide Bit, WithoutBit;
    WithoutBitBits(b[i / 64], i % 64, j % 64);
  }

  /** All eight words are zero exactly when no bit is set. */
  lemma ZeroWords(b: Bitmap)
    ensures (forall w :: 0 <= w < 8 ==> b[w] == 0) <==> (forall i: nat :: i < 512 ==> !Get(b, i))
  {
    hide Bit;
    if forall i: nat :: i < 512 ==> !Get(b, i) {
      forall w | 0 <= w < 8 ensures b[w] == 0 {
        forall j: nat | j < 64 ensures !Bit(b[w], j) {
          assert !Get(b, 64 * w + j);
        }
        WordTests(b[w]);
      }
    }
    if forall w :: 0 <= w < 8 ==> b[w] == 0 {
      WordTests(0);
      forall i: nat | i < 512 ensures !Get(b, i) {
        assert b[i / 64] == 0;
      }
    }
  }

  /** Slots o..o+n-1 exist and are free. */
  ghost predicate Run(b: Bitmap, o: nat, n: nat) {
    o + n <= SLOTS && forall i :: o <= i < o + n ==> !Get(b, i)
  }

  lemma FreeInRun(b: Bitmap, o: nat, n: nat, i: nat)
    requires Run(b, o, n) && o <= i < o + n
    ensures i < SLOTS && !Get(b, i)
  {}

  /** n is the length of the longest free run. */
  ghost predicate Longest(b: Bitmap, n: nat) {
    && (exists o :: Run(b, o, n))
    && forall o: nat, k: nat :: Run(b, o, k) ==> k <= n
  }

  lemma LongestUnique(b: Bitmap, m: nat, n: nat)
    requires Longest(b, m) && Longest(b, n)
    ensures m == n <= SLOTS
  {
    var o :| Run(b, o, m);
    var p :| Run(b, p, n);
  }

  /** No free run of n slots starts before `limit`. */
  ghost predicate NoneBefore(b: Bitmap, n: nat, limit: nat) {
    forall o: nat :: o < limit ==> !Run(b, o, n)
  }

  lemma SkipRun(b: Bitmap, n: nat, offset: nat, j: nat)
    requires NoneBefore(b, n, offset) && j < n
    requires offset + j >= SLOTS || Get(b, offset + j)
    ensures NoneBefore(b, n, offset + j + 1)
  {
    var i: nat := offset + j;
    forall o: nat | offset <= o < offset + j + 1 ensures !Run(b, o, n) {
      if Run(b, o, n) { FreeInRun(b, o, n, i); }
    }
  }

  /** find_aperture returns the lowest offset with slotlen free slots, and 503 when there is none. */
  method FindAperture(slotlen: nat, b: Bitmap) returns (r: nat)
    requires slotlen > 0
    ensures r == NONE ==> forall o: nat :: !Run(b, o, slotlen)
    ensures r != NONE ==> Run(b, r, slotlen) && NoneBefore(b, slotlen, r)
  {
    hide Get;
    var offset := 0;
    while offset < SLOTS
      invariant NoneBefore(b, slotlen, offset)
      decreases SLOTS - offset
    {
      var j := 0;
      while j < slotlen && j + offset < SLOTS && !Get(b, j + offset)
        invariant j <= slotlen && j + offset <= SLOTS
        invariant forall i :: offset <= i < offset + j ==> !Get(b, i)
      {
        j := j + 1;
      }
      if j == slotlen { break; }
      SkipRun(b, slotlen, offset, j);
      offset := offset + j + 1;
    }
    if offset + slotlen <= SLOTS {
      r := offset;
    } else {
      r := NONE;
    }
  }

  lemma ShortRuns(b: Bitmap, m: nat, offset: nat, j: nat)
    requires forall o: nat, k: nat :: o < offset && Run(b, o, k) ==> k <= m
    requires offset + j >= SLOTS || Get(b, offset + j)
    ensures forall o: nat, k: nat :: o < offset + j + 1 && Run(b, o, k) ==> k <= (if j > m then j else m)
  {
    var i: nat := offset + j;
    forall o: nat, k: nat | o < offset + j + 1 && Run(b, o, k) ensures k <= if j > m then j else m {
      if offset <= o && k > j { FreeInRun(b, o, k, i); }
    }
  }

  /** find_max_apertsize returns the length of the longest free run. */
  method FindMaxApertsize(b: Bitmap) returns (m: nat)
    ensures Longest(b, m) && m <= SLOTS
  {
    hide Get;
    m := 0;
    var offset := 0;
    assert Run(b, 0, 0);
    while offset < SLOTS
      invariant exists o :: Run(b, o, m)
      invariant forall o: nat, k: nat :: o < offset && Run(b, o, k) ==> k <= m
      decreases SLOTS - offset
    {
      var j := 0;
      while j + offset < SLOTS && !Get(b, j + offset)
        invariant j + offset <= SLOTS
        invariant forall i :: offset <= i < offset + j ==> !Get(b, i)
      {
        j := j + 1;
      }
      assert Run(b, offset, j);
      ShortRuns(b, m, offset, j);
      if j > m { m := j; }
      offset := offset + j + 1;
    }
    forall o: nat, k: nat | Run(b, o, k) ensures k <= m {}
  }

  /** find_aperture(k) succeeds exactly when the longest free run is at least k. */
  lemma ApertureIff(b: Bitmap, k: nat, m: nat)
    requires Longest(b, m)
    ensures k <= m <==> exists o: nat :: Run(b, o, k)
  {
    hide Get;
    var o: nat :| Run(b, o, m);
    if k <= m { assert Run(b, o, k); }
  }
}
