// Soft-bit streams seen under one ambiguity, and the search for a marker in them
// (convert_ambiguity, check_for_ASM and search_for_ASM in
// lib/mpsk_ambiguity_resolver_f_impl.cc). Soft bits are taken as exact reals.
module Correlator {
  import opened Arithmetic
  import opened Words
  import opened Constellation
  import opened Rotation

  /** The highest multiple of `m` that is not above `n`. */
  function LowerMul(n: nat, m: nat): (r: nat)
    requires 0 < m
    ensures r <= n < r + m && r % m == 0 && r + n % m == n
  {
    ProductIsNonNegative(n / m, m);
    RemainderOf(m, n / m, 0);
    (n / m) * m
  }

  /** The lowest multiple of `m` that is not below `n`. */
  function UpperMul(n: nat, m: nat): (r: nat)
    requires 0 < m
    ensures n <= r < n + m && r % m == 0
  {
    var q := if n % m == 0 then n / m else n / m + 1;
    ProductIsNonNegative(q, m);
    RemainderOf(m, q, 0);
    assert n / m * m + n % m == n;
    q * m
  }

  /** No other multiple fits in between. */
  lemma LowerMulIsHighest(c: nat, n: nat, m: nat)
    requires 0 < m && c % m == 0 && c <= n
    ensures c <= LowerMul(n, m)
  {
    var d := LowerMul(n, m);
    var p, q := c / m, d / m;
    assert c == m * p && d == m * q;
    hide LowerMul;
    if q < p {
      NextMultiple(m, p, q);
    } else if p < q {
      NextMultiple(m, q, p);
    }
  }

  lemma UpperMulOfOneOrMore(n: nat, m: nat)
    requires 0 < m && 1 <= n
    ensures m <= UpperMul(n, m) && UpperMul(1, m) == m
  {
    AtLeastOneSymbol(UpperMul(n, m), m);
    AtLeastOneSymbol(UpperMul(1, m), m);
  }

  lemma AtLeastOneSymbol(c: nat, m: nat)
    requires 0 < m && 1 <= c && c % m == 0
    ensures m <= c
  {
    if c < m {
      SmallRemainder(c, m);
    }
  }

  lemma AlignedSum(a: nat, b: nat, m: nat)
    requires 0 < m && a % m == 0 && b % m == 0
    ensures (a + b) % m == 0
  {
    AddToRemainder(a, b, m);
  }

  lemma SameInSymbol(a: nat, b: nat, m: nat)
    requires 0 < m && a % m == 0
    ensures (a + b) % m == b % m && (a + b) / m == a / m + b / m
  {
    assert a + b == m * (a / m + b / m) + b % m;
    RemainderOf(m, a / m + b / m, b % m);
  }

  // ----- one ambiguity removed from a whole stream -----

  type Stream = nat -> real

  function SymbolAt(k: Psk, stream: Stream, i: nat): (s: seq<real>)
    ensures |s| == k.m
  {
    ProductIsNonNegative(i, k.m);
    seq(k.m, j requires 0 <= j < k.m => stream(i * k.m + j))
  }

  /** The stream with an ambiguity removed; symbols start at multiples of `m`. */
  function Rotated(k: Psk, stream: Stream, a: nat): Stream
    requires k.Valid() && a < k.Order()
  {
    hide InverseMaps;
    (p: nat) => RotateSymbol(k, SymbolAt(k, stream, p / k.m), a)[p % k.m]
  }

  /** `n` bits of a stream from position `p` on. */
  function Slice(stream: Stream, p: nat, n: nat): (s: seq<real>)
    ensures |s| == n
    ensures forall i :: 0 <= i < n ==> s[i] == stream(p + i)
  {
    seq(n, i requires 0 <= i < n => stream(p + i))
  }

  lemma SliceOfSlice(stream: Stream, p: nat, n: nat, i: nat, l: nat)
    requires i + l <= n
    ensures Slice(stream, p, n)[i..i + l] == Slice(stream, p + i, l)
  {
  }

  /** The input is the part of the stream that starts at `at`. */
  ghost predicate Reads(input: seq<real>, stream: Stream, at: nat) {
    forall i: nat :: i < |input| ==> input[i] == stream(at + i)
  }

  lemma ValOfOneMore(soft: seq<real>, i: nat)
    requires i < |soft|
    ensures Val(HardBits(soft[..i + 1])) == 2 * Val(HardBits(soft[..i])) + if soft[i] > 0.0 then 1 else 0
  {
    assert HardBits(soft[..i + 1])[..i] == HardBits(soft[..i]);
  }

  lemma ShiftedByte(v: nat, bit: nat)
    requires bit <= 1
    ensures (2 * (v % BYTE_VALUES)) % BYTE_VALUES + bit == (2 * v + bit) % BYTE_VALUES
  {
    var q, r := v / BYTE_VALUES, v % BYTE_VALUES;
    if 2 * r < BYTE_VALUES {
      RemainderOf(BYTE_VALUES, 2 * q, 2 * r + bit);
    } else {
      RemainderOf(BYTE_VALUES, 2 * q + 1, 2 * r - BYTE_VALUES + bit);
    }
  }

  lemma NoBitsYet(soft: seq<real>)
    ensures Val(HardBits(soft[..0])) == 0
  {
  }

  /** One more bit is shifted in. */
  lemma OneMoreBit(soft: seq<real>, i: nat, out: nat, bit: nat)
    requires i < |soft| && out == Val(HardBits(soft[..i])) % BYTE_VALUES && bit == if soft[i] > 0.0 then 1 else 0
    ensures (2 * out) % BYTE_VALUES + bit == Val(HardBits(soft[..i + 1])) % BYTE_VALUES
  {
    hide Val, HardBits;
    ValOfOneMore(soft, i);
    ShiftedByte(Val(HardBits(soft[..i])), bit);
  }

  /** The bits of one symbol packed into a byte; of a longer symbol the last eight remain. */
  method ConvertToChar(soft: seq<real>) returns (out: nat)
    ensures out == Val(HardBits(soft)) % BYTE_VALUES
  {
    hide Val, HardBits;
    out := 0;
    NoBitsYet(soft);
    for i := 0 to |soft|
      invariant out == Val(HardBits(soft[..i])) % BYTE_VALUES
    {
      var bit := if soft[i] > 0.0 then 1 else 0;
      OneMoreBit(soft, i, out, bit);
      out := (2 * out) % BYTE_VALUES + bit;
    }
    assert soft[..|soft|] == soft;
  }

  /** Removes an ambiguity from a whole number of symbols. */
  method ConvertAmbiguity(k: Psk, out: array<real>, input: seq<real>, ambiguity: nat, ghost stream: Stream, ghost at: nat)
    requires k.Valid() && ambiguity < k.Order()
    requires out.Length == |input| && |input| % k.m == 0
    requires Reads(input, stream, at) && at % k.m == 0
    modifies out
    ensures out[..] == Slice(Rotated(k, stream, ambiguity), at, |input|)
  {
    hide RotateSymbol, Rotated, InverseMaps;
    if ambiguity == 0 {
      CopySymbols(k, out, input, stream, at);
    } else {
      ConvertSymbols(k, out, input, ambiguity, stream, at);
    }
  }

  /** Without an ambiguity the soft bits are copied. */
  method CopySymbols(k: Psk, out: array<real>, input: seq<real>, ghost stream: Stream, ghost at: nat)
    requires k.Valid() && out.Length == |input| && Reads(input, stream, at)
    modifies out
    ensures out[..] == Slice(Rotated(k, stream, 0), at, |input|)
  {
    hide RotateSymbol, Rotated, InverseMaps;
    forall i | 0 <= i < |input| {
      out[i] := input[i];
    }
    ghost var rotated := Rotated(k, stream, 0);
    forall i | 0 <= i < |input|
      ensures out[i] == rotated(at + i)
    {
      NoAmbiguity(k, stream, at + i);
    }
  }

  /** The same for an ambiguity other than zero, symbol by symbol. */
  method ConvertSymbols(k: Psk, out: array<real>, input: seq<real>, ambiguity: nat, ghost stream: Stream, ghost at: nat)
    requires k.Valid() && ambiguity < k.Order()
    requires out.Length == |input| && |input| % k.m == 0
    requires Reads(input, stream, at) && at % k.m == 0
    modifies out
    ensures out[..] == Slice(Rotated(k, stream, ambiguity), at, |input|)
  {
    hide RotateSymbol, InverseMaps, Rotated;
    ghost var rotated := Rotated(k, stream, ambiguity);
    var numSyms := LowerMul(|input|, k.m) / k.m;
    assert numSyms * k.m == |input|;
    for i := 0 to numSyms
      invariant 0 <= i * k.m <= |input|
      invariant forall x: nat :: x < i * k.m ==> out[x] == rotated(at + x)
    {
      ProductIsNonNegative(numSyms - i - 1, k.m);
      assert (numSyms - i - 1) * k.m == numSyms * k.m - i * k.m - k.m;
      assert (i + 1) * k.m == i * k.m + k.m;
      var first := i * k.m;
      SymbolOfInput(k, input, stream, at, i);
      RotatedSymbol(k, stream, ambiguity, at, i);
      ConvertSymbol(k, out, first, input[first..first + k.m], ambiguity);
      forall x: nat | x < first + k.m
        ensures out[x] == rotated(at + x)
      {
        if x >= first {
          assert Slice(rotated, at + first, k.m)[x - first] == out[first + (x - first)];
        }
      }
    }
  }

  /** Converts one symbol: signs are flipped where the rotated point has another bit. */
  method ConvertSymbol(k: Psk, out: array<real>, start: nat, symbol: seq<real>, ambiguity: nat)
    requires k.Valid() && ambiguity < k.Order() && |symbol| == k.m && start + k.m <= out.Length
    modifies out
    ensures forall j :: 0 <= j < k.m ==> out[start + j] == RotateSymbol(k, symbol, ambiguity)[j]
    ensures forall x :: 0 <= x < out.Length && !(start <= x < start + k.m) ==> out[x] == old(out[x])
  {
    hide RotateSymbol, InverseMaps;
    var diff := FlipMask(k, symbol, ambiguity);
    for j := 0 to k.m
      invariant forall i :: 0 <= i < j ==> out[start + i] == RotateSymbol(k, symbol, ambiguity)[i]
      invariant forall x :: 0 <= x < out.Length && !(start <= x < start + k.m) ==> out[x] == old(out[x])
    {
      out[start + j] := if diff[8 - k.m + j] then -symbol[j] else symbol[j];
    }
  }

  /** The bits in which the received point and the rotated one differ. */
  method FlipMask(k: Psk, symbol: seq<real>, ambiguity: nat) returns (diff: Word)
    requires k.Valid() && ambiguity < k.Order() && |symbol| == k.m
    ensures |diff| == 8
    ensures forall j :: 0 <= j < k.m ==>
      RotateSymbol(k, symbol, ambiguity)[j] == if diff[8 - k.m + j] then -symbol[j] else symbol[j]
  {
    hide Val, OfNat, HardBits, InverseMaps, Pow2, Xor;
    BytesFit(k.m);
    var bitsIn := ConvertToChar(symbol);
    TableBounds(k, bitsIn);
    var symbolIndex := k.bitsToIndex[bitsIn];
    ghost var rotated := RotatedIndex(k, symbolIndex, ambiguity);
    var bitsOut := k.indexToBits[(k.Order() + symbolIndex - ambiguity) % k.Order()];
    assert bitsOut == k.indexToBits[rotated];
    diff := Xor(OfNat(bitsIn, 8), OfNat(bitsOut, 8));
  }

  lemma PositionInSymbol(k: Psk, p: nat)
    requires 0 < k.m
    ensures (p / k.m) * k.m + p % k.m == p
  {
  }

  lemma BitOfSymbol(k: Psk, at: nat, i: nat, j: nat)
    requires 0 < k.m && at % k.m == 0 && j < k.m
    ensures 0 <= i * k.m
    ensures (at + (i * k.m + j)) / k.m == at / k.m + i && (at + (i * k.m + j)) % k.m == j
  {
    ProductIsNonNegative(i, k.m);
    RemainderOf(k.m, i, j);
    assert k.m * i == i * k.m;
    SameInSymbol(at, i * k.m + j, k.m);
  }

  lemma SymbolOfInput(k: Psk, input: seq<real>, stream: Stream, at: nat, i: nat)
    requires 0 < k.m && at % k.m == 0 && Reads(input, stream, at)
    requires 0 <= i * k.m && i * k.m + k.m <= |input|
    ensures input[i * k.m..i * k.m + k.m] == SymbolAt(k, stream, at / k.m + i)
  {
    assert (at / k.m + i) * k.m == at / k.m * k.m + i * k.m;
    PositionInSymbol(k, at);
  }

  /** One symbol of the rotated stream is the rotated symbol of the stream. */
  lemma RotatedSymbol(k: Psk, stream: Stream, a: nat, at: nat, i: nat)
    requires k.Valid() && a < k.Order() && at % k.m == 0
    ensures 0 <= i * k.m
    ensures Slice(Rotated(k, stream, a), at + i * k.m, k.m) == RotateSymbol(k, SymbolAt(k, stream, at / k.m + i), a)
  {
    hide RotateSymbol;
    ProductIsNonNegative(i, k.m);
    var l := Slice(Rotated(k, stream, a), at + i * k.m, k.m);
    var r := RotateSymbol(k, SymbolAt(k, stream, at / k.m + i), a);
    forall j | 0 <= j < k.m
      ensures l[j] == r[j]
    {
      BitOfSymbol(k, at, i, j);
      assert at + i * k.m + j == at + (i * k.m + j);
    }
  }

  lemma BitInItsSymbol(k: Psk, stream: Stream, p: nat)
    requires 0 < k.m
    ensures SymbolAt(k, stream, p / k.m)[p % k.m] == stream(p)
  {
    PositionInSymbol(k, p);
  }

  lemma NoAmbiguity(k: Psk, stream: Stream, p: nat)
    requires k.Valid()
    ensures Rotated(k, stream, 0)(p) == stream(p)
  {
    hide RotateSymbol, InverseMaps, SymbolAt;
    ZeroRotation(k, SymbolAt(k, stream, p / k.m));
    BitInItsSymbol(k, stream, p);
  }

  /** The stream that was sent is restored: if every symbol was received at the point of its
      index plus an ambiguity, removing the ambiguity leaves the bits of the index sent. */
  lemma StreamIsRestored(k: Psk, stream: Stream, sent: nat -> nat, a: nat, i: nat)
    requires k.Valid() && a < k.Order() && sent(i) < k.Order() && NonZero(SymbolAt(k, stream, i))
    requires k.bitsToIndex[Val(HardBits(SymbolAt(k, stream, i)))] == (sent(i) + a) % k.Order()
    ensures 0 <= i * k.m
    ensures Val(HardBits(Slice(Rotated(k, stream, a), i * k.m, k.m))) == k.indexToBits[sent(i)]
  {
    hide RotateSymbol, Rotated, Val, HardBits, InverseMaps, SymbolAt;
    SmallRemainder(0, k.m);
    RotatedSymbol(k, stream, a, 0, i);
    AmbiguityIsRemoved(k, SymbolAt(k, stream, i), sent(i), a);
  }

  /** No bit loses its magnitude. */
  lemma MagnitudesStay(k: Psk, stream: Stream, a: nat, p: nat)
    requires k.Valid() && a < k.Order()
    ensures Rotated(k, stream, a)(p) == stream(p) || Rotated(k, stream, a)(p) == -stream(p)
  {
    hide RotateSymbol, InverseMaps, SymbolAt;
    RotatedSigns(k, SymbolAt(k, stream, p / k.m), a);
    BitInItsSymbol(k, stream, p);
  }

  // ----- correlation with a marker -----

  /** A marker of soft bits, each of magnitude one. */
  ghost predicate IsMarker(asm: seq<real>) {
    asm != [] && forall i :: 0 <= i < |asm| ==> asm[i] == 1.0 || asm[i] == -1.0
  }

  function Dot(asm: seq<real>, bits: seq<real>): real
    requires |asm| == |bits|
  {
    if asm == [] then 0.0
    else Dot(asm[..|asm| - 1], bits[..|bits| - 1]) + asm[|asm| - 1] * bits[|bits| - 1]
  }

  function Magnitude(bits: seq<real>): real {
    if bits == [] then 0.0 else Magnitude(bits[..|bits| - 1]) + Abs(bits[|bits| - 1])
  }

  function Larger(a: real, b: real): real { if a > b then a else b }

  /** The normalised correlation of as many soft bits as the marker has. */
  function Correlation(asm: seq<real>, bits: seq<real>): real
    requires asm != [] && |asm| == |bits|
  {
    Dot(asm, bits) / Larger(Magnitude(bits), |asm| as real)
  }

  lemma {:induction false} DotBounded(asm: seq<real>, bits: seq<real>)
    requires |asm| == |bits| && forall i :: 0 <= i < |asm| ==> asm[i] == 1.0 || asm[i] == -1.0
    ensures -Magnitude(bits) <= Dot(asm, bits) <= Magnitude(bits)
  {
    if asm != [] {
      DotBounded(asm[..|asm| - 1], bits[..|bits| - 1]);
    }
  }

  /** A correlation is never beyond one, so a search may stop as soon as it finds one. */
  lemma CorrelationBounded(asm: seq<real>, bits: seq<real>)
    requires IsMarker(asm) && |asm| == |bits|
    ensures -1.0 <= Correlation(asm, bits) <= 1.0
  {
    DotBounded(asm, bits);
    QuotientBounded(Dot(asm, bits), Larger(Magnitude(bits), |asm| as real));
  }

  lemma QuotientBounded(x: real, d: real)
    requires 0.0 < d && -d <= x <= d
    ensures -1.0 <= x / d <= 1.0
  {
    assert (x / d) * d == x;
  }

  // ----- what a correlation says -----

  predicate Disagree(a: real, b: real) { a * b < 0.0 }

  /** The magnitude of the bits whose sign disagrees with the marker. */
  function Against(asm: seq<real>, bits: seq<real>): real
    requires |asm| == |bits|
  {
    if asm == [] then 0.0
    else
      var n := |asm| - 1;
      Against(asm[..n], bits[..n]) + if Disagree(asm[n], bits[n]) then Abs(bits[n]) else 0.0
  }

  lemma TimesSign(a: real, b: real)
    requires a == 1.0 || a == -1.0
    ensures a * b == if Disagree(a, b) then -Abs(b) else Abs(b)
  {
  }

  lemma {:induction false} DotByDisagreement(asm: seq<real>, bits: seq<real>)
    requires |asm| == |bits| && forall i :: 0 <= i < |asm| ==> asm[i] == 1.0 || asm[i] == -1.0
    ensures Dot(asm, bits) == Magnitude(bits) - 2.0 * Against(asm, bits)
  {
    if asm != [] {
      DotByDisagreement(asm[..|asm| - 1], bits[..|bits| - 1]);
      TimesSign(asm[|asm| - 1], bits[|bits| - 1]);
    }
  }

  lemma DisagreementCounts(a: real, b: real)
    ensures 0.0 <= Abs(b) && (Disagree(a, b) ==> 0.0 < Abs(b)) && (Disagree(a, b) <==> !(a * b >= 0.0))
  {
  }

  lemma {:induction false} NothingAgainst(asm: seq<real>, bits: seq<real>)
    requires |asm| == |bits|
    ensures 0.0 <= Against(asm, bits)
    ensures Against(asm, bits) == 0.0 <==> forall i :: 0 <= i < |asm| ==> !Disagree(asm[i], bits[i])
  {
    hide Disagree, Abs;
    if asm != [] {
      var n := |asm| - 1;
      NothingAgainst(asm[..n], bits[..n]);
      DisagreementCounts(asm[n], bits[n]);
      assert forall i :: 0 <= i < n ==> Disagree(asm[..n][i], bits[..n][i]) == Disagree(asm[i], bits[i]);
    }
  }

  /** What disagrees with the marker counts against it, once for being there and once for what
      it is not; no marker is found in less than one per bit. */
  lemma CorrelationByDisagreement(asm: seq<real>, bits: seq<real>)
    requires IsMarker(asm) && |asm| == |bits|
    ensures Magnitude(bits) >= |asm| as real ==>
      Correlation(asm, bits) * Magnitude(bits) == Magnitude(bits) - 2.0 * Against(asm, bits)
    ensures Magnitude(bits) <= |asm| as real ==>
      Correlation(asm, bits) * |asm| as real == Magnitude(bits) - 2.0 * Against(asm, bits)
  {
    hide Dot, Magnitude, Against;
    DotByDisagreement(asm, bits);
    Undivided(Dot(asm, bits), Larger(Magnitude(bits), |asm| as real));
  }

  lemma Undivided(x: real, d: real)
    requires 0.0 < d
    ensures x / d * d == x && (x / d == 1.0 <==> x == d) && (x / d == -1.0 <==> x == -d)
  {
  }

  /** A marker is perfect if and only if no bit disagrees with it and the bits are strong
      enough together; its inverse is as bad as can be in the same way. */
  lemma PerfectIff(asm: seq<real>, bits: seq<real>)
    requires IsMarker(asm) && |asm| == |bits|
    ensures Correlation(asm, bits) == 1.0 <==>
      Magnitude(bits) >= |asm| as real && forall i :: 0 <= i < |asm| ==> asm[i] * bits[i] >= 0.0
    ensures Magnitude(bits) >= |asm| as real && (forall i :: 0 <= i < |asm| ==> asm[i] * bits[i] <= 0.0) ==>
      Correlation(asm, bits) == -1.0
  {
    hide Dot, Magnitude, Against, Disagree;
    DotByDisagreement(asm, bits);
    NothingAgainst(asm, bits);
    forall i | 0 <= i < |asm|
      ensures Disagree(asm[i], bits[i]) <==> !(asm[i] * bits[i] >= 0.0)
    {
      DisagreementCounts(asm[i], bits[i]);
    }
    Undivided(Dot(asm, bits), Larger(Magnitude(bits), |asm| as real));
    if Magnitude(bits) >= |asm| as real && forall i :: 0 <= i < |asm| ==> asm[i] * bits[i] <= 0.0 {
      AllDisagree(asm, bits);
    }
  }

  lemma {:induction false} AllDisagree(asm: seq<real>, bits: seq<real>)
    requires |asm| == |bits| && forall i :: 0 <= i < |asm| ==> asm[i] == 1.0 || asm[i] == -1.0
    requires forall i :: 0 <= i < |asm| ==> asm[i] * bits[i] <= 0.0
    ensures Dot(asm, bits) == -Magnitude(bits)
  {
    if asm != [] {
      var n := |asm| - 1;
      assert forall i :: 0 <= i < n ==> asm[..n][i] * bits[..n][i] == asm[i] * bits[i];
      AllDisagree(asm[..n], bits[..n]);
    }
  }

  lemma {:induction false} MagnitudeOfHardBits(bits: seq<real>)
    requires forall i :: 0 <= i < |bits| ==> bits[i] == 1.0 || bits[i] == -1.0
    ensures Magnitude(bits) == |bits| as real
  {
    if bits != [] {
      MagnitudeOfHardBits(bits[..|bits| - 1]);
    }
  }

  lemma HardBitsDisagree(a: real, b: real)
    requires (a == 1.0 || a == -1.0) && (b == 1.0 || b == -1.0)
    ensures (Disagree(a, b) <==> a != b) && Abs(b) == 1.0
  {
  }

  lemma {:induction false} AgainstOfHardBits(asm: seq<real>, bits: seq<real>)
    requires |asm| == |bits|
    requires forall i :: 0 <= i < |asm| ==> asm[i] == 1.0 || asm[i] == -1.0
    requires forall i :: 0 <= i < |bits| ==> bits[i] == 1.0 || bits[i] == -1.0
    ensures Against(asm, bits) == |set i | 0 <= i < |asm| && asm[i] != bits[i]| as real
  {
    hide Disagree, Abs;
    if asm != [] {
      var n := |asm| - 1;
      AgainstOfHardBits(asm[..n], bits[..n]);
      HardBitsDisagree(asm[n], bits[n]);
      var s := set i | 0 <= i < |asm| && asm[i] != bits[i];
      var t := set i | 0 <= i < |asm[..n]| && asm[..n][i] != bits[..n][i];
      assert s == t + (if asm[n] != bits[n] then {n} else {});
    }
  }

  /** Of bits of magnitude one, the share that agrees less the share that does not. */
  lemma CorrelationOfHardBits(asm: seq<real>, bits: seq<real>)
    requires IsMarker(asm) && |asm| == |bits| && forall i :: 0 <= i < |bits| ==> bits[i] == 1.0 || bits[i] == -1.0
    ensures Correlation(asm, bits) * |asm| as real
         == |asm| as real - 2.0 * |set i | 0 <= i < |asm| && asm[i] != bits[i]| as real
    ensures Correlation(asm, asm) == 1.0
  {
    hide Magnitude, Against, Correlation;
    MagnitudeOfHardBits(bits);
    MagnitudeOfHardBits(asm);
    AgainstOfHardBits(asm, bits);
    CorrelationByDisagreement(asm, bits);
    PerfectIff(asm, asm);
  }

  /** Silence has no magnitude, and changing one bit changes the magnitude by as much as the
      absolute value of that bit: the magnitude is the sum of the absolute values. */
  lemma {:induction false} MagnitudeByOneBit(bits: seq<real>, i: nat, v: real)
    requires i < |bits|
    ensures Magnitude(bits[i := v]) - (if v < 0.0 then -v else v)
         == Magnitude(bits) - (if bits[i] < 0.0 then -bits[i] else bits[i])
  {
    var n := |bits| - 1;
    assert bits[i := v][..n] == if i < n then bits[..n][i := v] else bits[..n];
    if i < n {
      MagnitudeByOneBit(bits[..n], i, v);
    }
  }

  lemma {:induction false} MagnitudeOfSilence(bits: seq<real>)
    requires forall j :: 0 <= j < |bits| ==> bits[j] == 0.0
    ensures Magnitude(bits) == 0.0
  {
    if bits != [] {
      MagnitudeOfSilence(bits[..|bits| - 1]);
    }
  }

  method CheckForAsm(asm: seq<real>, bits: seq<real>, offset: nat) returns (correlation: real)
    requires asm != [] && offset + |asm| <= |bits|
    ensures correlation == Correlation(asm, bits[offset..offset + |asm|])
  {
    correlation := 0.0;
    var magnitude := 0.0;
    ghost var window := bits[offset..offset + |asm|];
    for i := 0 to |asm|
      invariant correlation == Dot(asm[..i], window[..i])
      invariant magnitude == Magnitude(window[..i])
    {
      assert asm[..i + 1][..i] == asm[..i] && window[..i + 1][..i] == window[..i];
      correlation := correlation + asm[i] * bits[i + offset];
      magnitude := magnitude + Abs(bits[i + offset]);
    }
    assert asm[..|asm|] == asm && window[..|asm|] == window;
    correlation := correlation / Larger(magnitude, |asm| as real);
  }

  /** The correlation at an offset into some bits. */
  function CorrelationAt(asm: seq<real>, bits: seq<real>, offset: nat): real
    requires asm != [] && offset + |asm| <= |bits|
  {
    Correlation(asm, bits[offset..offset + |asm|])
  }

  /** The first of the offsets with the highest correlation. */
  method SearchForAsm(asm: seq<real>, bits: seq<real>) returns (max: real, offset: nat)
    requires IsMarker(asm) && |asm| <= |bits|
    ensures offset + |asm| <= |bits| && max == CorrelationAt(asm, bits, offset)
    ensures forall i: nat :: i + |asm| <= |bits| ==>
      CorrelationAt(asm, bits, i) <= max && (i < offset ==> CorrelationAt(asm, bits, i) < max)
  {
    var searchLen := |bits| - |asm|;
    max, offset := -1.0, 0;
    var i := 0;
    while i <= searchLen
      invariant 0 <= i <= searchLen + 1
      invariant if i == 0 then max == -1.0 && offset == 0 else offset < i && max == CorrelationAt(asm, bits, offset)
      invariant forall k: nat :: k < i ==>
        CorrelationAt(asm, bits, k) <= max && (k < offset ==> CorrelationAt(asm, bits, k) < max)
    {
      var corr := CheckForAsm(asm, bits, i);
      CorrelationBounded(asm, bits[i..i + |asm|]);
      assert corr == CorrelationAt(asm, bits, i);
      if corr > max {
        max, offset := corr, i;
        if max >= 1.0 {
          forall k: nat | k + |asm| <= |bits|
            ensures CorrelationAt(asm, bits, k) <= max
          {
            CorrelationBounded(asm, bits[k..k + |asm|]);
          }
          return;
        }
      }
      i := i + 1;
    }
  }
}
