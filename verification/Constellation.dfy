// Gray-coded M-PSK constellation maps (lib/mpsk_constellation.h).
module Constellation {
  import opened Arithmetic
  import opened Words
  import opened Options

  // ----- words and numbers -----

  function Pow2(n: nat): (p: nat)
    ensures 1 <= p
  {
    if n == 0 then 1 else 2 * Pow2(n - 1)
  }

  function Val(w: Word): (v: nat)
    ensures v < Pow2(|w|)
  {
    if w == [] then 0 else 2 * Val(w[..|w| - 1]) + if w[|w| - 1] then 1 else 0
  }

  function OfNat(n: nat, width: nat): (w: Word)
    ensures |w| == width
  {
    if width == 0 then [] else OfNat(n / 2, width - 1) + [n % 2 == 1]
  }

  lemma {:induction false} ValOfNat(n: nat, width: nat)
    requires n < Pow2(width)
    ensures Val(OfNat(n, width)) == n
  {
    if width != 0 {
      ValOfNat(n / 2, width - 1);
      assert OfNat(n, width)[..width - 1] == OfNat(n / 2, width - 1);
    }
  }

  lemma {:induction false} OfNatVal(w: Word)
    ensures OfNat(Val(w), |w|) == w
  {
    if w != [] {
      OfNatVal(w[..|w| - 1]);
      assert Val(w) / 2 == Val(w[..|w| - 1]);
    }
  }

  /** A number that fits into a narrow word has leading zeros in a wide one. */
  lemma {:induction false} OfNatWidens(n: nat, narrow: nat, wide: nat)
    requires n < Pow2(narrow) && narrow <= wide
    ensures OfNat(n, wide) == Zeros(wide - narrow) + OfNat(n, narrow)
  {
    if narrow == 0 {
      OfZero(wide);
    } else {
      OfNatWidens(n / 2, narrow - 1, wide - 1);
    }
  }

  lemma {:induction false} OfZero(width: nat)
    ensures OfNat(0, width) == Zeros(width)
  {
    if width != 0 {
      OfZero(width - 1);
    }
  }

  // ----- the Gray code -----

  function ToGray(w: Word): (g: Word)
    ensures |g| == |w|
  {
    Xor(Shr(w, 1), w)
  }

  /** The sum, modulo two, of the first `n` bits. */
  function Parity(w: Word, n: nat): bool
    requires n <= |w|
  {
    if n == 0 then false else Parity(w, n - 1) != w[n - 1]
  }

  /** Every bit replaced by the parity of all bits down to it. */
  function PrefixXor(w: Word): (r: Word)
    ensures |r| == |w|
    ensures forall i :: 0 <= i < |w| ==> r[i] == Parity(w, i + 1)
  {
    seq(|w|, i requires 0 <= i < |w| => Parity(w, i + 1))
  }

  lemma {:induction false} ParityOfGray(w: Word, n: nat)
    requires 1 <= n <= |w|
    ensures Parity(ToGray(w), n) == w[n - 1]
  {
    if n > 1 {
      ParityOfGray(w, n - 1);
    }
  }

  /** The two codes are inverse to each other, at any width. */
  lemma GrayRoundTrip(w: Word)
    ensures PrefixXor(ToGray(w)) == w
    ensures ToGray(PrefixXor(w)) == w
  {
    BinaryOfGray(w);
    GrayOfBinary(w);
  }

  lemma BinaryOfGray(w: Word)
    ensures PrefixXor(ToGray(w)) == w
  {
    hide Parity, ToGray;
    forall i | 0 <= i < |w|
      ensures PrefixXor(ToGray(w))[i] == w[i]
    {
      ParityOfGray(w, i + 1);
    }
  }

  lemma GrayOfBinary(w: Word)
    ensures ToGray(PrefixXor(w)) == w
  {
    forall i | 0 <= i < |w|
      ensures ToGray(PrefixXor(w))[i] == w[i]
    {
      OneMoreParity(w, i);
      if i > 0 {
        OneMoreParity(w, i - 1);
      }
    }
    hide Parity;
  }

  lemma OneMoreParity(w: Word, n: nat)
    requires n < |w|
    ensures Parity(w, n + 1) == (Parity(w, n) != w[n]) && !Parity(w, 0)
  {
  }

  /** Bit by bit the parity of the last `shift` bits, or of all if there are fewer. */
  ghost predicate IsParityOfLast(num: Word, w: Word, shift: nat) {
    |num| == |w| &&
    forall i :: 0 <= i < |w| ==>
      num[i] == (Parity(w, i + 1) != Parity(w, if i + 1 < shift then 0 else i + 1 - shift))
  }

  lemma ShiftDoubles(num: Word, w: Word, shift: nat)
    requires 1 <= shift && IsParityOfLast(num, w, shift)
    ensures IsParityOfLast(Xor(num, Shr(num, shift)), w, 2 * shift)
  {
    var r := Xor(num, Shr(num, shift));
    forall i | 0 <= i < |w|
      ensures r[i] == (Parity(w, i + 1) != Parity(w, if i + 1 < 2 * shift then 0 else i + 1 - 2 * shift))
    {
      if i >= shift {
        assert num[i - shift] == (Parity(w, i - shift + 1) !=
          Parity(w, if i - shift + 1 < shift then 0 else i - shift + 1 - shift));
      }
    }
  }

  /** Doubling the shift computes all prefix parities in a logarithmic number of steps. */
  method ToBinary(input: Word) returns (num: Word)
    ensures num == PrefixXor(input)
  {
    num := input;
    var shift := 1;
    while shift < |input|
      invariant 1 <= shift && IsParityOfLast(num, input, shift)
      decreases |input| - shift
    {
      ShiftDoubles(num, input, shift);
      num := Xor(num, Shr(num, shift));
      shift := 2 * shift;
    }
  }

  // ----- the maps -----

  const UINT_BITS := 32

  /** The tables hold bytes. */
  const BYTE_VALUES := 256

  function GrayIndex(i: nat): nat { Val(ToGray(OfNat(i, UINT_BITS))) }

  function BinaryIndex(i: nat): nat { Val(PrefixXor(OfNat(i, UINT_BITS))) }

  lemma {:induction false} Pow2Grows(m: nat, n: nat)
    requires m <= n
    ensures Pow2(m) <= Pow2(n)
  {
    if m < n {
      Pow2Grows(m, n - 1);
    }
  }

  lemma LeadingZerosDropOut(z: nat, w: Word)
    ensures Val(Zeros(z) + w) == Val(w)
    decreases |w|
  {
    if w == [] {
      assert Zeros(z) + w == Zeros(z);
      ValOfZeros(z);
    } else {
      LeadingZerosDropOut(z, w[..|w| - 1]);
      assert (Zeros(z) + w)[..z + |w| - 1] == Zeros(z) + w[..|w| - 1];
    }
  }

  lemma {:induction false} ValOfZeros(z: nat)
    ensures Val(Zeros(z)) == 0
  {
    if z != 0 {
      assert Zeros(z)[..z - 1] == Zeros(z - 1);
      ValOfZeros(z - 1);
    }
  }

  lemma {:induction false} ParityAfterZeros(z: nat, w: Word, n: nat)
    requires n <= |w|
    ensures Parity(Zeros(z) + w, z + n) == Parity(w, n)
  {
    if n == 0 {
      ParityOfZeros(z, w, z);
    } else {
      ParityAfterZeros(z, w, n - 1);
    }
  }

  lemma {:induction false} ParityOfZeros(z: nat, w: Word, n: nat)
    requires n <= z
    ensures !Parity(Zeros(z) + w, n)
  {
    if n != 0 {
      ParityOfZeros(z, w, n - 1);
    }
  }

  /** Numbers of `m` bits are coded within `m` bits. */
  lemma CodesStayNarrow(i: nat, m: nat)
    requires m <= UINT_BITS && i < Pow2(m)
    ensures GrayIndex(i) == Val(ToGray(OfNat(i, m))) < Pow2(m)
    ensures BinaryIndex(i) == Val(PrefixXor(OfNat(i, m))) < Pow2(m)
  {
    hide *;
    GrayStaysNarrow(i, m);
    BinaryStaysNarrow(i, m);
  }

  lemma GrayStaysNarrow(i: nat, m: nat)
    requires m <= UINT_BITS && i < Pow2(m)
    ensures GrayIndex(i) == Val(ToGray(OfNat(i, m))) < Pow2(m)
  {
    hide Pow2, Val, OfNat;
    var z, w := UINT_BITS - m, OfNat(i, m);
    OfNatWidens(i, m, UINT_BITS);
    assert ToGray(Zeros(z) + w) == Zeros(z) + ToGray(w);
    LeadingZerosDropOut(z, ToGray(w));
  }

  lemma BinaryStaysNarrow(i: nat, m: nat)
    requires m <= UINT_BITS && i < Pow2(m)
    ensures BinaryIndex(i) == Val(PrefixXor(OfNat(i, m))) < Pow2(m)
  {
    hide Pow2, Val, OfNat, PrefixXor;
    var z, w := UINT_BITS - m, OfNat(i, m);
    OfNatWidens(i, m, UINT_BITS);
    PrefixXorAfterZeros(z, w);
    LeadingZerosDropOut(z, PrefixXor(w));
  }

  lemma PrefixXorAfterZeros(z: nat, w: Word)
    ensures PrefixXor(Zeros(z) + w) == Zeros(z) + PrefixXor(w)
  {
    forall k | 0 <= k < z + |w|
      ensures PrefixXor(Zeros(z) + w)[k] == (Zeros(z) + PrefixXor(w))[k]
    {
      if k < z {
        ParityOfZeros(z, w, k + 1);
      } else {
        ParityAfterZeros(z, w, k + 1 - z);
      }
    }
  }

  lemma IndexRoundTrip(i: nat, m: nat)
    requires m <= UINT_BITS && i < Pow2(m)
    ensures GrayIndex(i) < Pow2(m) && BinaryIndex(i) < Pow2(m)
    ensures BinaryIndex(GrayIndex(i)) == i && GrayIndex(BinaryIndex(i)) == i
  {
    var w := OfNat(i, m);
    CodesStayNarrow(i, m);
    CodesStayNarrow(GrayIndex(i), m);
    CodesStayNarrow(BinaryIndex(i), m);
    OfNatVal(ToGray(w));
    OfNatVal(PrefixXor(w));
    GrayRoundTrip(w);
    ValOfNat(i, m);
  }

  /** Whether two tables of 2^m entries are inverse maps of the numbers of `m` bits. */
  ghost predicate InverseMaps(m: nat, map1: seq<nat>, map2: seq<nat>) {
    && |map1| == |map2| == Pow2(m)
    && (forall i :: 0 <= i < Pow2(m) ==> map1[i] < Pow2(m) && map2[i] < Pow2(m))
    && (forall i :: 0 <= i < Pow2(m) ==> map2[map1[i]] == i && map1[map2[i]] == i)
  }

  /** A table of the first `order` values of a code, each stored in a byte, if all of them
      are below the order. */
  ghost predicate IsTable(r: Option<seq<nat>>, order: nat, code: nat -> nat) {
    match r
    case Some(table) =>
      && |table| == order
      && forall i: nat :: i < order ==> code(i) < order && table[i] == code(i) % BYTE_VALUES
    case None => exists i: nat :: i < order && code(i) >= order
  }

  /** Index to Gray-coded bits; nothing if the order is found not to be supported. */
  method MakePskMap(order: nat) returns (r: Option<seq<nat>>)
    ensures IsTable(r, order, GrayIndex)
  {
    hide GrayIndex;
    var table := [];
    for i := 0 to order
      invariant |table| == i
      invariant forall k: nat :: k < i ==> GrayIndex(k) < order && table[k] == GrayIndex(k) % BYTE_VALUES
    {
      var iGray := GrayIndex(i);
      if iGray >= order { return None; }
      table := table + [iGray % BYTE_VALUES];
    }
    r := Some(table);
  }

  /** Gray-coded bits to index. */
  method MakePskRevMap(order: nat) returns (r: Option<seq<nat>>)
    ensures IsTable(r, order, BinaryIndex)
  {
    var table := [];
    for i := 0 to order
      invariant |table| == i
      invariant forall k: nat :: k < i ==> BinaryIndex(k) < order && table[k] == BinaryIndex(k) % BYTE_VALUES
    {
      var bin := ToBinary(OfNat(i, UINT_BITS));
      var iBin := Val(bin);
      assert iBin == BinaryIndex(i);
      if iBin >= order { return None; }
      table := table + [iBin % BYTE_VALUES];
    }
    r := Some(table);
  }

  const QPSK_MAP: seq<nat> := [0, 2, 3, 1]
  const QPSK_REV_MAP: seq<nat> := [0, 3, 1, 2]

  method MakeMpskMap(order: nat) returns (r: Option<seq<nat>>)
    ensures if order == 4 then r == Some([0, 2, 3, 1]) else IsTable(r, order, GrayIndex)
  {
    if order == 4 {
      r := Some(QPSK_MAP);
    } else {
      r := MakePskMap(order);
    }
  }

  method MakeMpskRevMap(order: nat) returns (r: Option<seq<nat>>)
    ensures if order == 4 then r == Some([0, 3, 1, 2]) else IsTable(r, order, BinaryIndex)
  {
    if order == 4 {
      r := Some(QPSK_REV_MAP);
    } else {
      r := MakePskRevMap(order);
    }
  }

  /** Binary digit `e` of a number, counted from the lowest. */
  function Digit(n: nat, e: nat): nat {
    if e == 0 then n % 2 else Digit(n / 2, e - 1)
  }

  lemma {:induction false} DigitOfWord(w: Word, e: nat)
    requires e < |w|
    ensures Digit(Val(w), e) == if w[|w| - 1 - e] then 1 else 0
  {
    if e > 0 {
      DigitOfWord(w[..|w| - 1], e - 1);
      assert Val(w) / 2 == Val(w[..|w| - 1]);
    }
  }

  lemma {:induction false} WordOfDigits(n: nat, width: nat, e: nat)
    requires e < width
    ensures OfNat(n, width)[width - 1 - e] == (Digit(n, e) == 1)
  {
    if e > 0 {
      WordOfDigits(n / 2, width - 1, e - 1);
    }
  }

  lemma {:induction false} DigitsAreBinary(n: nat, e: nat)
    ensures Digit(n, e) <= 1
  {
    if e > 0 {
      DigitsAreBinary(n / 2, e - 1);
    }
  }

  /** In numbers: a digit of the Gray code is the sum, modulo two, of the digit of the index there
      and the next higher one. */
  lemma GrayDigits(i: nat, e: nat)
    requires e + 1 < UINT_BITS
    ensures Digit(GrayIndex(i), e) == (Digit(i, e) + Digit(i, e + 1)) % 2
  {
    hide Val, OfNat, Digit;
    var w := OfNat(i, UINT_BITS);
    WordOfDigits(i, UINT_BITS, e);
    WordOfDigits(i, UINT_BITS, e + 1);
    DigitsAreBinary(i, e);
    DigitsAreBinary(i, e + 1);
    DigitOfWord(ToGray(w), e);
  }

  /** For every power of two both tables exist; they undo each other if and only if the
      numbers fit into the bytes of the tables. Then neighbours differ in one bit, and every
      bit is that one somewhere. */
  method MakeMaps(m: nat) returns (indexToBits: seq<nat>, bitsToIndex: seq<nat>)
    requires m < UINT_BITS
    ensures |indexToBits| == |bitsToIndex| == Pow2(m)
    ensures m == 2 ==> indexToBits == [0, 2, 3, 1] && bitsToIndex == [0, 3, 1, 2]
    ensures m != 2 ==> forall i: nat :: i < Pow2(m) ==>
      indexToBits[i] == GrayIndex(i) % BYTE_VALUES && bitsToIndex[i] == BinaryIndex(i) % BYTE_VALUES
    ensures InverseMaps(m, indexToBits, bitsToIndex) <==> m <= 8
    ensures m <= 8 ==> EveryBitFlipsAlone(m, indexToBits)
  {
    hide Pow2, GrayIndex, BinaryIndex, InverseMaps, EveryBitFlipsAlone;
    CodesAreTables(m);
    var there := MakeMpskMap(Pow2(m));
    var back := MakeMpskRevMap(Pow2(m));
    FourIsTwoBits(m);
    indexToBits, bitsToIndex := there.value, back.value;
    TablesAreInverse(m, there, back);
    if m <= 8 {
      TablesFlipBits(m, there);
    }
  }

  lemma CodesAreTables(m: nat)
    requires m < UINT_BITS
    ensures forall i: nat :: i < Pow2(m) ==> GrayIndex(i) < Pow2(m) && BinaryIndex(i) < Pow2(m)
  {
    hide Pow2, GrayIndex, BinaryIndex;
    forall i: nat | i < Pow2(m)
      ensures GrayIndex(i) < Pow2(m) && BinaryIndex(i) < Pow2(m)
    {
      IndexRoundTrip(i, m);
    }
  }

  lemma FourIsTwoBits(m: nat)
    ensures Pow2(m) == 4 <==> m == 2
  {
    assert Pow2(0) == 1 && Pow2(1) == 2 && Pow2(2) == 4 && Pow2(3) == 8;
    if m > 3 {
      Pow2Grows(3, m);
    }
  }

  lemma BytesFit(m: nat)
    ensures Pow2(8) == BYTE_VALUES
    ensures if m <= 8 then Pow2(m) <= BYTE_VALUES else BYTE_VALUES < Pow2(m)
  {
    assert Pow2(4) == 16 && Pow2(8) == 256 && Pow2(9) == 512;
    if m <= 8 {
      Pow2Grows(m, 8);
    } else {
      Pow2Grows(9, m);
    }
  }

  lemma TablesAreInverse(m: nat, there: Option<seq<nat>>, back: Option<seq<nat>>)
    requires m < UINT_BITS && there.Some? && back.Some?
    requires if Pow2(m) == 4 then there.value == QPSK_MAP && back.value == QPSK_REV_MAP
             else IsTable(there, Pow2(m), GrayIndex) && IsTable(back, Pow2(m), BinaryIndex)
    ensures InverseMaps(m, there.value, back.value) <==> m <= 8
  {
    hide Pow2, GrayIndex, BinaryIndex, InverseMaps;
    FourIsTwoBits(m);
    BytesFit(m);
    if Pow2(m) == 4 {
      QpskMapsAreInverse(m);
    } else if m <= 8 {
      GrayTablesAreInverse(m, there.value, back.value);
    } else {
      OutOfRange(m, there.value, back.value);
    }
  }

  lemma QpskMapsAreInverse(m: nat)
    requires Pow2(m) == 4
    ensures InverseMaps(m, QPSK_MAP, QPSK_REV_MAP)
  {
  }

  lemma GrayTablesAreInverse(m: nat, there: seq<nat>, back: seq<nat>)
    requires m <= 8 && |there| == |back| == Pow2(m)
    requires forall i: nat :: i < Pow2(m) ==> there[i] == GrayIndex(i) % BYTE_VALUES && back[i] == BinaryIndex(i) % BYTE_VALUES
    ensures InverseMaps(m, there, back)
  {
    hide Pow2, GrayIndex, BinaryIndex;
    forall i: nat | i < Pow2(m)
      ensures there[i] == GrayIndex(i) < Pow2(m) && back[i] == BinaryIndex(i) < Pow2(m)
      ensures BinaryIndex(GrayIndex(i)) == i && GrayIndex(BinaryIndex(i)) == i
    {
      EntriesAreIndices(i, m);
    }
  }

  lemma EntriesAreIndices(i: nat, m: nat)
    requires m <= 8 && i < Pow2(m)
    ensures GrayIndex(i) % BYTE_VALUES == GrayIndex(i) < Pow2(m) && BinaryIndex(i) % BYTE_VALUES == BinaryIndex(i) < Pow2(m)
    ensures BinaryIndex(GrayIndex(i)) == i && GrayIndex(BinaryIndex(i)) == i
  {
    hide Pow2, GrayIndex, BinaryIndex;
    IndexRoundTrip(i, m);
    BytesFit(m);
    SmallRemainder(GrayIndex(i), BYTE_VALUES);
    SmallRemainder(BinaryIndex(i), BYTE_VALUES);
  }

  /** No entry of a table of bytes is 256. */
  lemma OutOfRange(m: nat, map1: seq<nat>, map2: seq<nat>)
    requires BYTE_VALUES < Pow2(m) && |map1| == Pow2(m) && forall i :: 0 <= i < |map1| ==> map1[i] < BYTE_VALUES
    ensures !InverseMaps(m, map1, map2)
  {
    hide Pow2;
    var v := if BYTE_VALUES < |map2| then map2[BYTE_VALUES] else 0;
    assert v < |map1| ==> map1[v] != BYTE_VALUES;
  }

  // ----- neighbours in the Gray code -----

  /** Two words that differ in one place only. */
  predicate DifferOnlyAt(v: Word, w: Word, e: nat)
    requires |v| == |w|
  {
    forall j :: 0 <= j < |v| ==> (v[j] != w[j] <==> j == e)
  }

  ghost predicate FlipsAt(m: nat, table: seq<nat>, e: nat, y: nat)
    requires |table| == Pow2(m)
  {
    y + 1 < Pow2(m) && DifferOnlyAt(OfNat(table[y], m), OfNat(table[y + 1], m), e)
  }

  ghost predicate FlipsSomewhere(m: nat, table: seq<nat>, e: nat)
    requires |table| == Pow2(m)
  {
    exists y: nat :: FlipsAt(m, table, e, y)
  }

  /** For every bit there are neighbours in the table that differ in this bit alone. */
  ghost predicate EveryBitFlipsAlone(m: nat, table: seq<nat>)
    requires |table| == Pow2(m)
  {
    forall e: nat :: e < m ==> FlipsSomewhere(m, table, e)
  }

  function Ones(n: nat): (w: Word)
    ensures |w| == n
    ensures forall i :: 0 <= i < n ==> w[i]
  {
    seq(n, _ => true)
  }

  /** Below a power of two the Gray code changes its leading bit alone. */
  lemma GrayFlipsAt(m: nat, k: nat)
    requires k < m
    ensures DifferOnlyAt(ToGray(OfNat(Pow2(k) - 1, m)), ToGray(OfNat(Pow2(k), m)), m - 1 - k)
  {
    hide *;
    OfPow2Wide(m, k);
    OfPow2Minus1(m, k);
    GrayOfTwo(m, k);
  }

  lemma OfPow2Wide(m: nat, k: nat)
    requires k < m
    ensures OfNat(Pow2(k), m) == Zeros(m - k - 1) + [true] + Zeros(k)
  {
    Pow2Grows(k, k + 1);
    OfPow2(k);
    OfNatWidens(Pow2(k), k + 1, m);
    hide OfNat;
  }

  lemma OfPow2Minus1(m: nat, k: nat)
    requires k < m
    ensures OfNat(Pow2(k) - 1, m) == Zeros(m - k) + Ones(k)
  {
    hide OfNat, Pow2, Val;
    ValOfOnes(Ones(k));
    OfNatVal(Ones(k));
    OfNatWidens(Pow2(k) - 1, k, m);
  }

  lemma GrayOfTwo(m: nat, k: nat)
    requires k < m
    ensures DifferOnlyAt(ToGray(Zeros(m - k) + Ones(k)), ToGray(Zeros(m - k - 1) + [true] + Zeros(k)), m - 1 - k)
  {
    var v, w := Zeros(m - k) + Ones(k), Zeros(m - k - 1) + [true] + Zeros(k);
    assert forall j :: 0 <= j < m ==> v[j] == (j >= m - k) && w[j] == (j == m - k - 1);
  }

  lemma TablesFlipBits(m: nat, there: Option<seq<nat>>)
    requires m <= 8 && there.Some?
    requires if Pow2(m) == 4 then there.value == QPSK_MAP else IsTable(there, Pow2(m), GrayIndex)
    ensures |there.value| == Pow2(m) && EveryBitFlipsAlone(m, there.value)
  {
    hide Pow2, GrayIndex;
    FourIsTwoBits(m);
    BytesFit(m);
    if Pow2(m) == 4 {
      QpskFlipsBits();
    } else {
      forall e: nat | e < m
        ensures FlipsSomewhere(m, there.value, e)
      {
        TableFlipsAt(m, there.value, e);
      }
    }
  }

  lemma TableFlipsAt(m: nat, table: seq<nat>, e: nat)
    requires e < m <= 8 && |table| == Pow2(m)
    requires forall i: nat :: i < Pow2(m) ==> table[i] == GrayIndex(i) % BYTE_VALUES
    ensures FlipsSomewhere(m, table, e)
  {
    hide Pow2, OfNat, GrayIndex, DifferOnlyAt;
    var k := m - 1 - e;
    var y := Pow2(k) - 1;
    HalfOrLess(m, k);
    GrayFlipsAt(m, k);
    EntryIsGray(m, table, y);
    EntryIsGray(m, table, y + 1);
    assert FlipsAt(m, table, e, y);
  }

  lemma HalfOrLess(m: nat, k: nat)
    requires k < m
    ensures Pow2(k) < Pow2(m)
  {
    Pow2Grows(k + 1, m);
  }

  lemma EntryIsGray(m: nat, table: seq<nat>, i: nat)
    requires m <= 8 && |table| == Pow2(m) && i < Pow2(m) && table[i] == GrayIndex(i) % BYTE_VALUES
    ensures OfNat(table[i], m) == ToGray(OfNat(i, m))
  {
    hide Pow2, OfNat, GrayIndex;
    BytesFit(m);
    CodesStayNarrow(i, m);
    OfNatVal(ToGray(OfNat(i, m)));
  }

  lemma QpskFlipsBits()
    ensures Pow2(2) == 4 && EveryBitFlipsAlone(2, QPSK_MAP)
  {
    assert Pow2(2) == 4;
    TwoBits(0);
    TwoBits(1);
    TwoBits(2);
    TwoBits(3);
    assert FlipsAt(2, QPSK_MAP, 0, 0) && FlipsAt(2, QPSK_MAP, 1, 1);
  }

  lemma TwoBits(n: nat)
    requires n < 4
    ensures OfNat(n, 2) == [n / 2 == 1, n % 2 == 1]
  {
    assert OfNat(n, 2) == OfNat(n / 2, 1) + [n % 2 == 1];
    assert OfNat(n / 2, 1) == OfNat(n / 2 / 2, 0) + [n / 2 % 2 == 1];
  }

  // ----- which orders are supported -----

  ghost function Image(f: nat -> nat, n: nat): set<nat> {
    if n == 0 then {} else Image(f, n - 1) + {f(n - 1)}
  }

  lemma {:induction false} Preimage(f: nat -> nat, n: nat, v: nat) returns (i: nat)
    requires v in Image(f, n)
    ensures i < n && f(i) == v
  {
    if v == f(n - 1) {
      i := n - 1;
    } else {
      i := Preimage(f, n - 1, v);
    }
  }

  lemma {:induction false} ImageIsBelow(f: nat -> nat, n: nat, bound: nat)
    requires forall i: nat :: i < n ==> f(i) < bound
    ensures Image(f, n) <= Below(bound)
  {
    if n != 0 {
      ImageIsBelow(f, n - 1, bound);
    }
  }

  ghost function Below(n: nat): (r: set<nat>)
    ensures forall i: nat :: i in r <==> i < n
    ensures |r| == n
  {
    if n == 0 then {} else Below(n - 1) + {n - 1}
  }

  lemma {:induction false} NotInImage(f: nat -> nat, g: nat -> nat, n: nat, k: nat)
    requires n <= k && forall i: nat :: i <= k ==> g(f(i)) == i
    ensures f(k) !in Image(f, n)
  {
    if n != 0 {
      NotInImage(f, g, n - 1, k);
      assert g(f(n - 1)) == n - 1;
    }
  }

  lemma {:induction false} ImageSize(f: nat -> nat, g: nat -> nat, n: nat)
    requires forall i: nat :: i < n ==> g(f(i)) == i
    ensures |Image(f, n)| == n
  {
    if n != 0 {
      ImageSize(f, g, n - 1);
      NotInImage(f, g, n - 1, n - 1);
    }
  }

  /** An invertible map of the numbers below `n` into themselves misses none of them. */
  lemma InjectionIsOnto(f: nat -> nat, g: nat -> nat, n: nat, v: nat) returns (i: nat)
    requires forall i: nat :: i < n ==> g(f(i)) == i && f(i) < n
    requires v < n
    ensures i < n && f(i) == v
  {
    ImageSize(f, g, n);
    ImageIsBelow(f, n, n);
    SameSizeSubset(Image(f, n), Below(n));
    i := Preimage(f, n, v);
  }

  /** A finite set of its own size inside it is the whole set. */
  lemma {:induction false} SameSizeSubset(a: set<nat>, b: set<nat>)
    requires a <= b && |a| == |b|
    ensures a == b
  {
    if x :| x in b && x !in a {
      assert a <= b - {x};
      SubsetIsNotLarger(a, b - {x});
    }
  }

  lemma {:induction false} SubsetIsNotLarger(a: set<nat>, b: set<nat>)
    requires a <= b
    ensures |a| <= |b|
    decreases |a|
  {
    if x :| x in a {
      SubsetIsNotLarger(a - {x}, b - {x});
    }
  }

  lemma {:induction false} OfPow2(m: nat)
    ensures OfNat(Pow2(m), m + 1) == [true] + Zeros(m)
  {
    if m == 0 {
      assert OfNat(1, 1) == OfNat(0, 0) + [true];
    } else {
      OfPow2(m - 1);
      assert [true] + Zeros(m) == [true] + Zeros(m - 1) + [false];
    }
  }

  lemma {:induction false} ValOfOnes(w: Word)
    requires forall i :: 0 <= i < |w| ==> w[i]
    ensures Val(w) == Pow2(|w|) - 1
  {
    if w != [] {
      ValOfOnes(w[..|w| - 1]);
    }
  }

  lemma {:induction false} ParityOfLeadingOne(w: Word, n: nat)
    requires 1 <= n <= |w| && w[0] && forall i :: 1 <= i < |w| ==> !w[i]
    ensures Parity(w, n)
  {
    if n > 1 {
      ParityOfLeadingOne(w, n - 1);
    }
  }

  /** The Gray code word with only its top bit set stands for the largest number. */
  lemma BinaryOfPow2(m: nat)
    requires m < UINT_BITS
    ensures BinaryIndex(Pow2(m)) == Pow2(m + 1) - 1
  {
    hide GrayIndex, BinaryIndex, PrefixXor, ToGray, Val, OfNat, Parity;
    OfPow2(m);
    var w := OfNat(Pow2(m), m + 1);
    CodesStayNarrow(Pow2(m), m + 1);
    forall i | 0 <= i < m + 1
      ensures PrefixXor(w)[i]
    {
      ParityOfLeadingOne(w, i + 1);
    }
    ValOfOnes(PrefixXor(w));
  }

  /** The table check accepts an order exactly if it is a power of two. */
  lemma SupportedOrders(order: nat, m: nat)
    requires m < UINT_BITS && Pow2(m) <= order < Pow2(m + 1)
    ensures (forall i: nat :: i < order ==> GrayIndex(i) < order) <==> order == Pow2(m)
  {
    if order == Pow2(m) {
      forall i: nat | i < order
        ensures GrayIndex(i) < order
      {
        CodesStayNarrow(i, m);
      }
    } else if forall i: nat :: i < order ==> GrayIndex(i) < order {
      Pow2Grows(m + 1, UINT_BITS);
      BinaryOfPow2(m);
      hide GrayIndex, BinaryIndex, Pow2;
      forall i: nat | i < order
        ensures BinaryIndex(GrayIndex(i)) == i
      {
        IndexRoundTrip(i, UINT_BITS);
      }
      var j := InjectionIsOnto(GrayIndex, BinaryIndex, order, Pow2(m));
    }
  }
}
