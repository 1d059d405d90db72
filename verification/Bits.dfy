/** 64-bit words read and written one bit at a time. */
module Bits {

  const ONES: bv64 := 0xffff_ffff_ffff_ffff

  // ---------- bit positions as bit-vectors ----------

  predicate BitAt(x: bv64, b: bv7)
    requires b < 64
  {
    (x >> b) & 1 == 1
  }

  function SetAt(x: bv64, b: bv7): bv64
    requires b < 64
  {
    x | (1 << b)
  }

  function ClearAt(x: bv64, b: bv7): bv64
    requires b < 64
  {
    x & !(1 << b)
  }

  lemma OrAt(x: bv64, y: bv64, c: bv7)
    requires c < 64
    ensures BitAt(x | y, c) == (BitAt(x, c) || BitAt(y, c))
  {}

  lemma AndAt(x: bv64, y: bv64, c: bv7)
    requires c < 64
    ensures BitAt(x & y, c) == (BitAt(x, c) && BitAt(y, c))
  {}

  lemma ComplementAt(x: bv64, c: bv7)
    requires c < 64
    ensures BitAt(!x, c) == !BitAt(x, c)
  {}

  lemma OneBitAt(b: bv7, c: bv7)
    requires b < 64 && c < 64
    ensures BitAt(1 << b, c) == (b == c)
  {}

  lemma SetAtBits(x: bv64, b: bv7, c: bv7)
    requires b < 64 && c < 64
    ensures BitAt(SetAt(x, b), c) == (BitAt(x, c) || b == c)
  {
    hide BitAt;
    OrAt(x, 1 << b, c);
    OneBitAt(b, c);
  }

  lemma ClearAtBits(x: bv64, b: bv7, c: bv7)
    requires b < 64 && c < 64
    ensures BitAt(ClearAt(x, b), c) == (BitAt(x, c) && b != c)
  {
    hide BitAt;
    AndAt(x, !(1 << b), c);
    ComplementAt(1 << b, c);
    OneBitAt(b, c);
  }

  lemma NoBitAt(b: bv7)
    requires b < 64
    ensures !BitAt(0, b)
  {}

  lemma AllBitsAt(b: bv7)
    requires b < 64
    ensures BitAt(ONES, b)
  {}

  lemma ShiftOnce(y: bv64, b: bv7)
    requires b < 63
    ensures y >> (b + 1) == (y >> b) >> 1
  {}

  lemma TopBit(y: bv64)
    requires !BitAt(y, 63)
    ensures y >> 63 == 0
  {}

  lemma HigherBits(z: bv64)
    requires z != 0 && z & 1 != 1
    ensures z >> 1 != 0
  {}

  /** A word that is not zero from bit `from` up has a bit set there. */
  lemma {:induction false} SomeBitAt(y: bv64, from: bv7) returns (b: bv7)
    requires from < 64 && y >> from != 0
    ensures b < 64 && BitAt(y, b)
    decreases 64 - from
  {
    if BitAt(y, from) {
      b := from;
    } else {
      if from == 63 { TopBit(y); } else { ShiftOnce(y, from); }
      HigherBits(y >> from);
      b := SomeBitAt(y, from + 1);
    }
  }

  // ---------- bit positions as numbers ----------

  function Index(j: nat): (b: bv7)
    requires j < 64
    ensures b < 64
  {
    j as bv7
  }

  function Position(b: bv7): nat {
    b as nat
  }

  lemma IndexRoundTrip(j: nat)
    requires j < 64
    ensures Position(Index(j)) == j && Index(j) < 64
  {}

  lemma PositionRoundTrip(b: bv7)
    requires b < 64
    ensures Position(b) < 64 && Index(Position(b)) == b
  {}

  /** Bit j of the word is set. */
  predicate Bit(x: bv64, j: nat)
    requires j < 64
  {
    BitAt(x, Index(j))
  }

  /** The word with bit j set. */
  function WithBit(x: bv64, j: nat): bv64
    requires j < 64
  {
    SetAt(x, Index(j))
  }

  /** The word with bit j cleared. */
  function WithoutBit(x: bv64, j: nat): bv64
    requires j < 64
  {
    ClearAt(x, Index(j))
  }

  /** Setting bit j sets that bit and no other. */
  lemma WithBitBits(x: bv64, j: nat, k: nat)
    requires j < 64 && k < 64
    ensures Bit(WithBit(x, j), k) == (Bit(x, k) || j == k)
  {
    hide BitAt, SetAt, Index, Position;
    IndexRoundTrip(j);
    IndexRoundTrip(k);
    SetAtBits(x, Index(j), Index(k));
  }

  /** Clearing bit j clears that bit and no other. */
  lemma WithoutBitBits(x: bv64, j: nat, k: nat)
    requires j < 64 && k < 64
    ensures Bit(WithoutBit(x, j), k) == (Bit(x, k) && j != k)
  {
    hide BitAt, ClearAt, Index, Position;
    IndexRoundTrip(j);
    IndexRoundTrip(k);
    ClearAtBits(x, Index(j), Index(k));
  }

  lemma SomeBit(y: bv64) returns (j: nat)
    requires y != 0
    ensures j < 64 && Bit(y, j)
  {
    hide BitAt, Index, Position;
    NoShift(y);
    var b := SomeBitAt(y, 0);
    PositionRoundTrip(b);
    j := Position(b);
  }

  lemma NoShift(y: bv64)
    ensures y >> 0 == y
  {}

  /** The two whole-word tests mean what they say. */
  lemma WordTests(x: bv64)
    ensures x == 0 <==> forall j: nat :: j < 64 ==> !Bit(x, j)
    ensures x == ONES <==> forall j: nat :: j < 64 ==> Bit(x, j)
  {
    hide BitAt, Index, Position;
    if x != 0 {
      var j := SomeBit(x);
    }
    if x != ONES {
      ComplementZero(x);
      var j := SomeBit(!x);
      IndexRoundTrip(j);
      ComplementAt(x, Index(j));
      assert !Bit(x, j);
    }
    forall j: nat | j < 64 ensures (x == 0 ==> !Bit(x, j)) && (x == ONES ==> Bit(x, j)) {
      IndexRoundTrip(j);
      NoBitAt(Index(j));
      AllBitsAt(Index(j));
    }
  }

  lemma ComplementZero(x: bv64)
    ensures !x == 0 <==> x == ONES
  {}
}
