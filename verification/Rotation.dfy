// Removing a phase ambiguity from soft bits (convert_ambiguity in
// lib/mpsk_ambiguity_resolver_f_impl.cc): a rotation of the constellation, done on signs.
module Rotation {
  import opened Arithmetic
  import opened Words
  import opened Constellation

  /** A constellation of 2^m points, m at most 8, with its two tables. */
  datatype Psk = Psk(m: nat, indexToBits: seq<nat>, bitsToIndex: seq<nat>) {
    ghost predicate Valid() {
      1 <= m <= 8 && InverseMaps(m, indexToBits, bitsToIndex)
    }

    function Order(): nat { Pow2(m) }
  }

  /** Hard decisions; a soft bit of exactly zero counts as a zero. */
  function HardBits(soft: seq<real>): (w: Word)
    ensures |w| == |soft|
    ensures forall j :: 0 <= j < |soft| ==> w[j] == (soft[j] > 0.0)
  {
    seq(|soft|, j requires 0 <= j < |soft| => soft[j] > 0.0)
  }

  /** The index of the constellation point with its ambiguity removed. */
  function RotatedIndex(k: Psk, index: nat, ambiguity: nat): (r: nat)
    requires index < k.Order() && ambiguity < k.Order()
    ensures r < k.Order()
    ensures r == if ambiguity <= index then index - ambiguity else k.Order() + index - ambiguity
  {
    var n := k.Order() + index - ambiguity;
    if n >= k.Order() then RemainderOf(k.Order(), 1, n - k.Order()); n % k.Order()
    else SmallRemainder(n, k.Order()); n % k.Order()
  }

  /** Flips the signs of the bits in which the rotated point differs from the received one. */
  function RotateSymbol(k: Psk, soft: seq<real>, ambiguity: nat): (r: seq<real>)
    requires k.Valid() && |soft| == k.m && ambiguity < k.Order()
    ensures |r| == k.m
  {
    var bitsIn := Val(HardBits(soft));
    var bitsOut := k.indexToBits[RotatedIndex(k, k.bitsToIndex[bitsIn], ambiguity)];
    var diff := Xor(OfNat(bitsIn, 8), OfNat(bitsOut, 8));
    seq(k.m, j requires 0 <= j < k.m => if diff[8 - k.m + j] then -soft[j] else soft[j])
  }

  function Abs(x: real): real { if x < 0.0 then -x else x }

  function Signed(bit: bool, x: real): real { if bit then Abs(x) else -Abs(x) }

  ghost predicate NonZero(soft: seq<real>) {
    forall j :: 0 <= j < |soft| ==> soft[j] != 0.0
  }

  function PointOf(k: Psk, soft: seq<real>): (i: nat)
    requires k.Valid() && |soft| == k.m
    ensures i < k.Order()
  {
    k.bitsToIndex[Val(HardBits(soft))]
  }

  /** The bits of the point a symbol is rotated to. */
  function RotatedBits(k: Psk, soft: seq<real>, a: nat): (w: Word)
    requires k.Valid() && |soft| == k.m && a < k.Order()
    ensures |w| == k.m
  {
    OfNat(k.indexToBits[RotatedIndex(k, PointOf(k, soft), a)], k.m)
  }

  lemma TableBounds(k: Psk, i: nat)
    requires k.Valid() && i < k.Order()
    ensures |k.indexToBits| == |k.bitsToIndex| == k.Order()
    ensures k.indexToBits[i] < k.Order() && k.bitsToIndex[i] < k.Order()
  {
  }

  /** A soft bit is flipped exactly if its hard decision is not that of the rotated point. */
  lemma FlippedBits(k: Psk, soft: seq<real>, a: nat, j: nat)
    requires k.Valid() && |soft| == k.m && a < k.Order() && j < k.m
    ensures RotateSymbol(k, soft, a)[j] ==
      if (soft[j] > 0.0) != RotatedBits(k, soft, a)[j] then -soft[j] else soft[j]
  {
    hide Val, OfNat, RotatedIndex, Xor, HardBits, InverseMaps, Pow2;
    var bitsIn := Val(HardBits(soft));
    TableBounds(k, bitsIn);
    var index := RotatedIndex(k, k.bitsToIndex[bitsIn], a);
    TableBounds(k, index);
    DifferenceInLowBits(bitsIn, k.indexToBits[index], k.m, j);
    OfNatVal(HardBits(soft));
  }

  lemma DifferenceInLowBits(x: nat, y: nat, m: nat, j: nat)
    requires j < m <= 8 && x < Pow2(m) && y < Pow2(m)
    ensures Xor(OfNat(x, 8), OfNat(y, 8))[8 - m + j] == (OfNat(x, m)[j] != OfNat(y, m)[j])
  {
    OfNatWidens(x, m, 8);
    OfNatWidens(y, m, 8);
    hide OfNat;
  }

  /** A rotated symbol has the magnitudes it had and the signs of the rotated point. */
  lemma RotatedSigns(k: Psk, soft: seq<real>, a: nat)
    requires k.Valid() && |soft| == k.m && a < k.Order()
    ensures forall j :: 0 <= j < k.m ==> Abs(RotateSymbol(k, soft, a)[j]) == Abs(soft[j])
    ensures NonZero(soft) ==> NonZero(RotateSymbol(k, soft, a))
    ensures NonZero(soft) ==> HardBits(RotateSymbol(k, soft, a)) == RotatedBits(k, soft, a)
    ensures NonZero(soft) ==>
      forall j :: 0 <= j < k.m ==> RotateSymbol(k, soft, a)[j] == Signed(RotatedBits(k, soft, a)[j], soft[j])
  {
    forall j | 0 <= j < k.m
      ensures RotateSymbol(k, soft, a)[j] ==
        if (soft[j] > 0.0) != RotatedBits(k, soft, a)[j] then -soft[j] else soft[j]
    {
      FlippedBits(k, soft, a, j);
    }
    hide RotateSymbol, RotatedBits;
  }

  lemma RotatedPoint(k: Psk, soft: seq<real>, a: nat)
    requires k.Valid() && |soft| == k.m && a < k.Order() && NonZero(soft)
    ensures PointOf(k, RotateSymbol(k, soft, a)) == RotatedIndex(k, PointOf(k, soft), a)
  {
    RotatedSigns(k, soft, a);
    ValOfNat(k.indexToBits[RotatedIndex(k, PointOf(k, soft), a)], k.m);
  }

  function AddAmbiguities(k: Psk, a: nat, b: nat): (c: nat)
    requires a < k.Order() && b < k.Order()
    ensures c < k.Order() && c == if a + b < k.Order() then a + b else a + b - k.Order()
  {
    if a + b >= k.Order() then RemainderOf(k.Order(), 1, a + b - k.Order()); (a + b) % k.Order()
    else SmallRemainder(a + b, k.Order()); (a + b) % k.Order()
  }

  lemma IndexRotatedAgain(k: Psk, i: nat, a: nat, b: nat)
    requires i < k.Order() && a < k.Order() && b < k.Order()
    ensures RotatedIndex(k, RotatedIndex(k, i, a), b) == RotatedIndex(k, i, AddAmbiguities(k, a, b))
  {
    hide RotatedIndex, AddAmbiguities;
  }

  /** A point rotated twice. */
  lemma RotatedBitsAgain(k: Psk, soft: seq<real>, a: nat, b: nat)
    requires k.Valid() && |soft| == k.m && a < k.Order() && b < k.Order() && NonZero(soft)
    ensures RotatedBits(k, RotateSymbol(k, soft, a), b) == RotatedBits(k, soft, AddAmbiguities(k, a, b))
  {
    hide RotateSymbol, PointOf, HardBits, RotatedIndex, AddAmbiguities, InverseMaps;
    RotatedPoint(k, soft, a);
    IndexRotatedAgain(k, PointOf(k, soft), a, b);
  }

  /** The ambiguities act as a cyclic group: removing one and then another is removing
      their sum. */
  lemma RotationsCompose(k: Psk, soft: seq<real>, a: nat, b: nat)
    requires k.Valid() && |soft| == k.m && a < k.Order() && b < k.Order() && NonZero(soft)
    ensures RotateSymbol(k, RotateSymbol(k, soft, a), b) == RotateSymbol(k, soft, AddAmbiguities(k, a, b))
  {
    hide RotateSymbol, PointOf, HardBits, RotatedIndex, AddAmbiguities, RotatedBits, InverseMaps;
    var c, r := AddAmbiguities(k, a, b), RotateSymbol(k, soft, a);
    RotatedSigns(k, soft, a);
    RotatedSigns(k, r, b);
    RotatedSigns(k, soft, c);
    RotatedBitsAgain(k, soft, a, b);
    var x, y := RotateSymbol(k, r, b), RotateSymbol(k, soft, c);
    forall j | 0 <= j < k.m
      ensures x[j] == y[j]
    {
      assert x[j] == Signed(RotatedBits(k, r, b)[j], r[j]);
    }
  }

  /** No ambiguity, nothing changes, erased bits or not. */
  lemma ZeroRotation(k: Psk, soft: seq<real>)
    requires k.Valid() && |soft| == k.m
    ensures RotateSymbol(k, soft, 0) == soft
  {
    var bitsIn := Val(HardBits(soft));
    assert k.indexToBits[RotatedIndex(k, k.bitsToIndex[bitsIn], 0)] == bitsIn;
  }

  /** What it is for: if the received point is that of the transmitted index plus an ambiguity,
      removing the ambiguity restores the transmitted bits. */
  lemma AmbiguityIsRemoved(k: Psk, soft: seq<real>, sent: nat, a: nat)
    requires k.Valid() && |soft| == k.m && NonZero(soft) && sent < k.Order() && a < k.Order()
    requires k.bitsToIndex[Val(HardBits(soft))] == (sent + a) % k.Order()
    ensures Val(HardBits(RotateSymbol(k, soft, a))) == k.indexToBits[sent]
  {
    hide RotateSymbol, HardBits, RotatedIndex, Val, OfNat, InverseMaps;
    if sent + a >= k.Order() {
      RemainderOf(k.Order(), 1, sent + a - k.Order());
    } else {
      SmallRemainder(sent + a, k.Order());
    }
    RotatedSigns(k, soft, a);
    TableBounds(k, sent);
    ValOfNat(k.indexToBits[sent], k.m);
  }

  // ----- erased soft bits -----

  ghost predicate AllZero(soft: seq<real>) {
    forall j :: 0 <= j < |soft| ==> soft[j] == 0.0
  }

  ghost predicate Compose(k: Psk, soft: seq<real>, a: nat, b: nat)
    requires k.Valid() && |soft| == k.m && a < k.Order() && b < k.Order()
  {
    RotateSymbol(k, RotateSymbol(k, soft, a), b) == RotateSymbol(k, soft, AddAmbiguities(k, a, b))
  }

  /** The sign of a soft bit after a rotation; an erased one stays erased. */
  lemma SignAfterRotation(k: Psk, soft: seq<real>, a: nat, j: nat)
    requires k.Valid() && |soft| == k.m && a < k.Order() && j < k.m
    ensures soft[j] == 0.0 ==> RotateSymbol(k, soft, a)[j] == 0.0
    ensures soft[j] != 0.0 ==> RotateSymbol(k, soft, a)[j] != 0.0
    ensures soft[j] != 0.0 ==> (RotateSymbol(k, soft, a)[j] > 0.0) == RotatedBits(k, soft, a)[j]
  {
    hide RotateSymbol, RotatedBits;
    FlippedBits(k, soft, a, j);
  }

  lemma ErasedStaysErased(k: Psk, soft: seq<real>, a: nat)
    requires k.Valid() && |soft| == k.m && a < k.Order() && AllZero(soft)
    ensures RotateSymbol(k, soft, a) == soft
  {
    hide RotateSymbol, RotatedBits;
    forall j | 0 <= j < k.m
      ensures RotateSymbol(k, soft, a)[j] == soft[j]
    {
      SignAfterRotation(k, soft, a, j);
    }
  }

  /** The ambiguity whose removal takes one index to another. */
  function Between(k: Psk, from: nat, to: nat): (a: nat)
    requires from < k.Order() && to < k.Order()
    ensures a < k.Order() && RotatedIndex(k, from, a) == to
  {
    if to <= from then from - to else k.Order() + from - to
  }

  /** Points that differ in an erased bit alone look the same to the next rotation. */
  lemma ErasedBitIsLost(k: Psk, soft: seq<real>, a: nat, a': nat, e: nat)
    requires k.Valid() && |soft| == k.m && a < k.Order() && a' < k.Order() && e < k.m && soft[e] == 0.0
    requires DifferOnlyAt(RotatedBits(k, soft, a), RotatedBits(k, soft, a'), e)
    ensures HardBits(RotateSymbol(k, soft, a)) == HardBits(RotateSymbol(k, soft, a'))
  {
    hide RotateSymbol, RotatedBits, InverseMaps;
    forall j | 0 <= j < k.m
      ensures HardBits(RotateSymbol(k, soft, a))[j] == HardBits(RotateSymbol(k, soft, a'))[j]
    {
      SignAfterRotation(k, soft, a, j);
      SignAfterRotation(k, soft, a', j);
    }
  }

  lemma RotatedBitsBetween(k: Psk, soft: seq<real>, y: nat)
    requires k.Valid() && |soft| == k.m && y < k.Order()
    ensures RotatedBits(k, soft, Between(k, PointOf(k, soft), y)) == OfNat(k.indexToBits[y], k.m)
  {
    hide RotatedIndex, PointOf, OfNat, InverseMaps;
  }

  /** The bits that two rotations should lead to. */
  lemma BitsOfSum(k: Psk, soft: seq<real>, a: nat, b: nat, z: nat)
    requires k.Valid() && |soft| == k.m && a < k.Order() && b < k.Order() && z < k.Order()
    requires RotatedIndex(k, RotatedIndex(k, PointOf(k, soft), a), b) == z
    ensures RotatedBits(k, soft, AddAmbiguities(k, a, b)) == OfNat(k.indexToBits[z], k.m)
  {
    IndexRotatedAgain(k, PointOf(k, soft), a, b);
    hide RotatedIndex, PointOf, OfNat, InverseMaps, AddAmbiguities;
  }

  /** If both compose, bit `j` is the same at the two points. */
  lemma SameSign(k: Psk, soft: seq<real>, a: nat, a': nat, b: nat, j: nat)
    requires k.Valid() && |soft| == k.m && a < k.Order() && a' < k.Order() && b < k.Order() && j < k.m && soft[j] != 0.0
    requires HardBits(RotateSymbol(k, soft, a)) == HardBits(RotateSymbol(k, soft, a'))
    requires Compose(k, soft, a, b) && Compose(k, soft, a', b)
    ensures RotatedBits(k, soft, AddAmbiguities(k, a, b))[j] == RotatedBits(k, soft, AddAmbiguities(k, a', b))[j]
  {
    var r, r' := RotateSymbol(k, soft, a), RotateSymbol(k, soft, a');
    SignAfterRotation(k, soft, a, j);
    SignAfterRotation(k, soft, a', j);
    SignAfterRotation(k, r, b, j);
    SignAfterRotation(k, r', b, j);
    SignAfterRotation(k, soft, AddAmbiguities(k, a, b), j);
    SignAfterRotation(k, soft, AddAmbiguities(k, a', b), j);
    assert RotatedBits(k, r, b) == RotatedBits(k, r', b);
  }

  /** With one bit erased and one not, some rotations do not compose: two neighbours that
      differ in the erased bit look the same, and a further rotation takes them to two
      neighbours that differ in the other bit. */
  lemma ErasureBreaks(k: Psk, soft: seq<real>, e: nat, j: nat) returns (a: nat, b: nat)
    requires k.Valid() && |soft| == k.m && EveryBitFlipsAlone(k.m, k.indexToBits)
    requires e < k.m && j < k.m && soft[e] == 0.0 && soft[j] != 0.0
    ensures a < k.Order() && b < k.Order() && !Compose(k, soft, a, b)
  {
    hide Compose, RotateSymbol, RotatedBits, HardBits, PointOf, OfNat, AddAmbiguities, RotatedIndex, InverseMaps;
    TableBounds(k, 0);
    assert FlipsSomewhere(k.m, k.indexToBits, e) && FlipsSomewhere(k.m, k.indexToBits, j);
    var y: nat :| FlipsAt(k.m, k.indexToBits, e, y);
    var z: nat :| FlipsAt(k.m, k.indexToBits, j, z);
    a := Between(k, PointOf(k, soft), y);
    var a' := Between(k, PointOf(k, soft), y + 1);
    b := Between(k, y, z);
    RotatedBitsBetween(k, soft, y);
    RotatedBitsBetween(k, soft, y + 1);
    ErasedBitIsLost(k, soft, a, a', e);
    BitsOfSum(k, soft, a, b, z);
    BitsOfSum(k, soft, a', b, z + 1);
    if Compose(k, soft, a, b) {
      if Compose(k, soft, a', b) {
        SameSign(k, soft, a, a', b, j);
      }
      a := a';
    }
  }

  /** For the tables that are built here, all rotations of a symbol compose if and only if
      none or all of its soft bits are erased. */
  lemma RotationsComposeIff(k: Psk, soft: seq<real>)
    requires k.Valid() && |soft| == k.m && EveryBitFlipsAlone(k.m, k.indexToBits)
    ensures (forall a: nat, b: nat :: a < k.Order() && b < k.Order() ==> Compose(k, soft, a, b))
       <==> NonZero(soft) || AllZero(soft)
  {
    hide RotateSymbol, InverseMaps, EveryBitFlipsAlone;
    if NonZero(soft) {
      forall a: nat, b: nat | a < k.Order() && b < k.Order()
        ensures Compose(k, soft, a, b)
      {
        RotationsCompose(k, soft, a, b);
      }
    } else if AllZero(soft) {
      forall a: nat, b: nat | a < k.Order() && b < k.Order()
        ensures Compose(k, soft, a, b)
      {
        ErasedStaysErased(k, soft, a);
        ErasedStaysErased(k, soft, b);
        ErasedStaysErased(k, soft, AddAmbiguities(k, a, b));
      }
    } else {
      var e :| 0 <= e < k.m && soft[e] == 0.0;
      var j :| 0 <= j < k.m && soft[j] != 0.0;
      var a, b := ErasureBreaks(k, soft, e, j);
      assert !Compose(k, soft, a, b);
    }
  }
}
