// Interleaved Reed-Solomon coding (lib/rs_encode_impl.cc, lib/rs_decode_impl.cc). The code
// itself is a parameter; the blocks only decide which symbols form a codeword.
module ReedSolomon {
  import opened Arithmetic
  import opened Interleaving
  import opened Options

  type Byte = x: nat | x < 256

  const K := 223
  const N := 255
  const PARITY := 32

  datatype Representation = Berlekamp | Conventional | Invalid

  /** The foreign coder: parity of 223 symbols, and correction of 255 symbols in either
      representation. */
  datatype Codec = Codec(
    parity: seq<Byte> -> seq<Byte>,
    correctBerlekamp: seq<Byte> -> Option<seq<Byte>>,
    correctConventional: seq<Byte> -> Option<seq<Byte>>)
  {
    function Correct(representation: Representation, word: seq<Byte>): Option<seq<Byte>> {
      match representation
      case Berlekamp => correctBerlekamp(word)
      case Conventional => correctConventional(word)
      case Invalid => None
    }

    /** The lengths the block relies on. */
    ghost predicate Valid() {
      && (forall d :: |parity(d)| == PARITY)
      && (forall w, rep: Representation :: Correct(rep, w).Some? ==> |Correct(rep, w).value| == N)
    }

    /** Up to sixteen symbol errors are corrected. */
    ghost predicate CorrectsSixteen() {
      forall d: seq<Byte>, w: seq<Byte> ::
        |d| == K && |w| == N && |parity(d)| == PARITY && Errors(w, d + parity(d)) <= 16 ==>
          correctBerlekamp(w) == Some(d + parity(d))
    }
  }

  /** The q-th codeword that the standard puts into a frame of interleaved data. */
  function Codeword(codec: Codec, data: seq<Byte>, q: nat, depth: nat): seq<Byte>
    requires q < depth && K * depth <= |data|
  {
    Column(data, q, depth, K) + codec.parity(Column(data, q, depth, K))
  }

  /** The data first, and every depth-th symbol of the whole forms a codeword. */
  ghost predicate IsCodeblock(codec: Codec, data: seq<Byte>, depth: nat, block: seq<Byte>) {
    && K * depth <= |data| && |block| == N * depth
    && block[..K * depth] == data[..K * depth]
    && forall q: nat :: q < depth ==> Column(block, q, depth, N) == Codeword(codec, data, q, depth)
  }

  /** A decoder's result: nothing if the frame is too short or one codeword is beyond
      correction, otherwise the data symbols of all corrected codewords, interleaved. */
  ghost predicate IsDecoded(codec: Codec, representation: Representation, received: seq<Byte>, depth: nat,
                            out: Option<seq<Byte>>)
    requires codec.Valid()
  {
    && (out.Some? <==> N * depth <= |received| &&
                       forall q: nat :: q < depth ==> codec.Correct(representation, Column(received, q, depth, N)).Some?)
    && (out.Some? ==>
          && |out.value| == K * depth
          && forall q: nat :: q < depth ==>
               Column(out.value, q, depth, K) == codec.Correct(representation, Column(received, q, depth, N)).value[..K])
  }

  // ----- gathering and scattering -----

  /** The q-th piece of length `k` of a buffer. */
  function Piece<T>(s: seq<T>, q: nat, k: nat): seq<T>
    requires q * k + k <= |s|
  {
    ProductIsNonNegative(q, k);
    s[q * k..q * k + k]
  }

  lemma PieceFits(q: nat, k: nat, depth: nat)
    requires q < depth && 0 < k
    ensures 0 <= q * k && q * k + k <= k * depth
  {
    CellInRange(k - 1, q, depth, k);
    Commute(k, depth);
  }

  /** Piece after piece, the columns of `s`. */
  ghost predicate HoldsColumns<T>(buf: seq<T>, s: seq<T>, depth: nat, k: nat) {
    && 0 < k && |buf| == k * depth <= |s|
    && forall q: nat :: q < depth ==> q * k + k <= |buf| && Piece(buf, q, k) == Column(s, q, depth, k)
  }

  /** The buffer agrees with the source through the index map. */
  ghost predicate Mapped<T>(buf: seq<T>, s: seq<T>, depth: nat, k: nat, n: nat)
    requires n <= k * depth <= |s| && n <= |buf|
  {
    forall j: nat :: j < n ==>
      InterlIndex(j, depth, k * depth) < |s| && buf[j] == s[InterlIndex(j, depth, k * depth)]
  }

  lemma MappedHoldsColumns<T>(buf: seq<T>, s: seq<T>, depth: nat, k: nat)
    requires 0 < k && |buf| == k * depth <= |s| && Mapped(buf, s, depth, k, k * depth)
    ensures HoldsColumns(buf, s, depth, k)
  {
    forall q: nat | q < depth
      ensures q * k + k <= |buf| && Piece(buf, q, k) == Column(s, q, depth, k)
    {
      PieceFits(q, k, depth);
      forall r | 0 <= r < k
        ensures Piece(buf, q, k)[r] == Column(s, q, depth, k)[r]
      {
        InterlIndexTransposes(q, r, k, depth);
        assert CellOf(r, q, depth) == r * depth + q;
      }
    }
  }

  /** The first step of both blocks: collects the symbols of each codeword. */
  method Gather(s: seq<Byte>, buf: array<Byte>, depth: nat, k: nat)
    requires 0 < k && buf.Length == k * depth <= |s|
    modifies buf
    ensures HoldsColumns(buf[..], s, depth, k)
  {
    for i := 0 to k * depth
      invariant Mapped(buf[..], s, depth, k, i)
    {
      InterlIndexIsBijective(i, i, k, depth);
      buf[i] := s[InterlIndex(i, depth, k * depth)];
    }
    MappedHoldsColumns(buf[..], s, depth, k);
  }

  /** The second step: puts the symbols of each codeword back in their places. */
  method Scatter(buf: array<Byte>, out: array<Byte>, depth: nat, k: nat)
    requires 0 < k && buf.Length == out.Length == k * depth && buf != out
    modifies out
    ensures HoldsColumns(buf[..], out[..], depth, k)
  {
    for i := 0 to k * depth
      invariant Mapped(buf[..], out[..], depth, k, i)
    {
      forall j: nat | j < i
        ensures InterlIndex(j, depth, k * depth) != InterlIndex(i, depth, k * depth)
      {
        InterlIndexIsBijective(j, i, k, depth);
      }
      InterlIndexIsBijective(i, i, k, depth);
      out[InterlIndex(i, depth, k * depth)] := buf[i];
    }
    MappedHoldsColumns(buf[..], out[..], depth, k);
  }

  /** Replaces one piece of a buffer and leaves the others. */
  method StorePiece(buf: array<Byte>, q: nat, k: nat, depth: nat, piece: seq<Byte>)
    requires 0 < k && buf.Length == k * depth && q < depth && |piece| == k
    modifies buf
    ensures forall p: nat :: p < depth ==>
              (p * k + k <= buf.Length && Piece(buf[..], p, k) == if p == q then piece else old(Piece(buf[..], p, k)))
  {
    PieceFits(q, k, depth);
    forall p: nat | p < depth
      ensures p * k + k <= buf.Length
      ensures p < q ==> p * k + k <= q * k
      ensures q < p ==> q * k + k <= p * k
    {
      PieceFits(p, k, depth);
      if p < q { PieceFits(p, k, q); Commute(k, q); } else if q < p { PieceFits(q, k, p); Commute(k, p); }
    }
    forall r | 0 <= r < k {
      buf[q * k + r] := piece[r];
    }
  }

  class Encoder {
    const depth: nat
    const codec: Codec
    const bufData: array<Byte>
    const bufParity: array<Byte>
    const bufParity2: array<Byte>

    ghost predicate Valid() {
      && 1 <= depth && codec.Valid()
      && bufData.Length == K * depth && bufParity.Length == bufParity2.Length == PARITY * depth
      && bufData != bufParity && bufData != bufParity2 && bufParity != bufParity2
    }

    constructor (depth: nat, codec: Codec)
      requires 1 <= depth && codec.Valid()
      ensures Valid() && this.depth == depth && this.codec == codec
      ensures fresh(bufData) && fresh(bufParity) && fresh(bufParity2)
    {
      this.depth, this.codec := depth, codec;
      bufData := new Byte[K * depth];
      bufParity := new Byte[PARITY * depth];
      bufParity2 := new Byte[PARITY * depth];
    }

    /** Turns a frame of data into an interleaved codeblock; a short frame is dropped. */
    method ProcessFrame(dataIn: seq<Byte>) returns (out: Option<seq<Byte>>)
      requires Valid()
      modifies bufData, bufParity, bufParity2
      ensures out.Some? <==> K * depth <= |dataIn|
      ensures out.Some? ==> IsCodeblock(codec, dataIn, depth, out.value)
    {
      if |dataIn| < K * depth { return None; }
      Gather(dataIn, bufData, depth, K);
      ghost var gathered := bufData[..];
      for q := 0 to depth
        invariant bufData[..] == gathered
        invariant forall p: nat :: p < q ==>
          (p * PARITY + PARITY <= bufParity.Length &&
           Piece(bufParity[..], p, PARITY) == codec.parity(Column(dataIn, p, depth, K)))
      {
        PieceFits(q, K, depth);
        assert bufData[q * K..q * K + K] == Piece(gathered, q, K);
        StorePiece(bufParity, q, PARITY, depth, codec.parity(bufData[q * K..q * K + K]));
      }
      Scatter(bufParity, bufParity2, depth, PARITY);
      out := Some(dataIn[..K * depth] + bufParity2[..]);
      forall q: nat | q < depth
        ensures Column(out.value, q, depth, N) == Codeword(codec, dataIn, q, depth)
      {
        DataThenParity(dataIn, bufParity2[..], q, depth);
      }
    }
  }

  /** Data and parity are interleaved apart, yet a column of the whole is a column of each. */
  lemma DataThenParity(data: seq<Byte>, parity: seq<Byte>, q: nat, depth: nat)
    requires q < depth && K * depth <= |data| && |parity| == PARITY * depth
    ensures Column(data[..K * depth] + parity, q, depth, N)
         == Column(data, q, depth, K) + Column(parity, q, depth, PARITY)
  {
    var s := data[..K * depth] + parity;
    ColumnFits(q, depth, K);
    ColumnFits(q, depth, PARITY);
    forall r | 0 <= r < N
      ensures Column(s, q, depth, N)[r] == (Column(data, q, depth, K) + Column(parity, q, depth, PARITY))[r]
    {
      if r >= K {
        assert CellOf(r, q, depth) == K * depth + CellOf(r - K, q, depth);
      }
    }
  }

  class Decoder {
    const depth: nat
    const codec: Codec
    const representation: Representation
    const bufIn: array<Byte>
    const bufData: array<Byte>
    const bufOut: array<Byte>

    ghost predicate Valid() {
      && 1 <= depth && codec.Valid()
      && bufIn.Length == N * depth && bufData.Length == bufOut.Length == K * depth
      && bufIn != bufData && bufIn != bufOut && bufData != bufOut
    }

    constructor (depth: nat, codec: Codec, representation: Representation)
      requires 1 <= depth && codec.Valid()
      ensures Valid() && this.depth == depth && this.codec == codec && this.representation == representation
      ensures fresh(bufIn) && fresh(bufData) && fresh(bufOut)
    {
      this.depth, this.codec, this.representation := depth, codec, representation;
      bufIn := new Byte[N * depth];
      bufData := new Byte[K * depth];
      bufOut := new Byte[K * depth];
    }

    /** Corrects every codeword of a received frame; if one is beyond repair, or the frame
        is short, nothing is sent. */
    method ProcessFrame(dataIn: seq<Byte>) returns (out: Option<seq<Byte>>)
      requires Valid()
      modifies bufIn, bufData, bufOut
      ensures IsDecoded(codec, representation, dataIn, depth, out)
    {
      if |dataIn| < N * depth { return None; }
      Gather(dataIn, bufIn, depth, N);
      ghost var gathered := bufIn[..];
      for q := 0 to depth
        invariant forall p: nat :: q <= p < depth ==> p * N + N <= bufIn.Length && Piece(bufIn[..], p, N) == Column(dataIn, p, depth, N)
        invariant forall p: nat :: p < q ==> codec.Correct(representation, Column(dataIn, p, depth, N)).Some?
        invariant forall p: nat :: p < q ==>
          (p * K + K <= bufData.Length &&
           Piece(bufData[..], p, K) == codec.Correct(representation, Column(dataIn, p, depth, N)).value[..K])
      {
        PieceFits(q, N, depth);
        assert bufIn[q * N..q * N + N] == Piece(bufIn[..], q, N);
        var corrected := codec.Correct(representation, bufIn[q * N..q * N + N]);
        if corrected.None? { return None; }
        StorePiece(bufIn, q, N, depth, corrected.value);
        StorePiece(bufData, q, K, depth, corrected.value[..K]);
      }
      Scatter(bufData, bufOut, depth, K);
      out := Some(bufOut[..]);
    }
  }

  // ----- the round trip -----

  /** If no codeword has more than sixteen symbol errors, the data come back. */
  lemma ScatteredErrorsAreCorrected(codec: Codec, data: seq<Byte>, depth: nat, block: seq<Byte>,
                                    received: seq<Byte>, out: Option<seq<Byte>>)
    requires codec.Valid() && codec.CorrectsSixteen() && 1 <= depth
    requires IsCodeblock(codec, data, depth, block) && |received| == |block|
    requires forall q: nat :: q < depth ==> Errors(Column(received, q, depth, N), Column(block, q, depth, N)) <= 16
    requires IsDecoded(codec, Berlekamp, received, depth, out)
    ensures out == Some(data[..K * depth])
  {
    forall q: nat | q < depth
      ensures codec.Correct(Berlekamp, Column(received, q, depth, N)) == Some(Codeword(codec, data, q, depth))
    {
      assert Column(block, q, depth, N) == Codeword(codec, data, q, depth);
    }
    forall q: nat | q < depth
      ensures Column(out.value, q, depth, K) == Column(data[..K * depth], q, depth, K)
    {
      ColumnFits(q, depth, K);
      assert Codeword(codec, data, q, depth)[..K] == Column(data, q, depth, K);
    }
    ColumnsDetermine(out.value, data[..K * depth], depth, K);
  }

  /** A burst of sixteen times the interleaving depth, anywhere in the codeblock and with
      any contents, is corrected. */
  lemma BurstIsCorrected(codec: Codec, data: seq<Byte>, depth: nat, block: seq<Byte>,
                         received: seq<Byte>, from: nat, out: Option<seq<Byte>>)
    requires codec.Valid() && codec.CorrectsSixteen() && 1 <= depth
    requires IsCodeblock(codec, data, depth, block) && |received| == |block|
    requires forall i :: 0 <= i < |block| && !(from <= i < from + 16 * depth) ==> received[i] == block[i]
    requires IsDecoded(codec, Berlekamp, received, depth, out)
    ensures out == Some(data[..K * depth])
  {
    forall q: nat | q < depth
      ensures Errors(Column(received, q, depth, N), Column(block, q, depth, N)) <= 16
    {
      BurstMeetsColumn(received, block, q, depth, N, from, 16);
    }
    ScatteredErrorsAreCorrected(codec, data, depth, block, received, out);
  }

  /** A decoder for the conventional representation asks the conventional decoder, and sends
      the first 223 symbols of each corrected codeword. */
  lemma DecodedConventionally(codec: Codec, received: seq<Byte>, depth: nat, out: Option<seq<Byte>>)
    requires codec.Valid() && IsDecoded(codec, Conventional, received, depth, out)
    ensures out.Some? <==>
      255 * depth <= |received| && forall q: nat :: q < depth ==> codec.correctConventional(Column(received, q, depth, 255)).Some?
    ensures out.Some? ==> |out.value| == 223 * depth && forall q: nat :: q < depth ==>
              Column(out.value, q, depth, 223) == codec.correctConventional(Column(received, q, depth, 255)).value[..223]
  {
    assert forall w: seq<Byte> :: codec.Correct(Conventional, w) == codec.correctConventional(w);
  }

  /** The same for the Berlekamp representation. */
  lemma DecodedBerlekamp(codec: Codec, received: seq<Byte>, depth: nat, out: Option<seq<Byte>>)
    requires codec.Valid() && IsDecoded(codec, Berlekamp, received, depth, out)
    ensures out.Some? <==>
      255 * depth <= |received| && forall q: nat :: q < depth ==> codec.correctBerlekamp(Column(received, q, depth, 255)).Some?
    ensures out.Some? ==> |out.value| == 223 * depth && forall q: nat :: q < depth ==>
              Column(out.value, q, depth, 223) == codec.correctBerlekamp(Column(received, q, depth, 255)).value[..223]
  {
    assert forall w: seq<Byte> :: codec.Correct(Berlekamp, w) == codec.correctBerlekamp(w);
  }

  /** With any other representation nothing is ever sent. */
  lemma InvalidSendsNothing(codec: Codec, received: seq<Byte>, depth: nat, out: Option<seq<Byte>>)
    requires codec.Valid() && 1 <= depth && IsDecoded(codec, Invalid, received, depth, out)
    ensures out.None?
  {
    if N * depth <= |received| {
      assert codec.Correct(Invalid, Column(received, 0, depth, N)).None?;
    }
  }

  /** Symbol by symbol: the data are where they were, and the parity symbols of the q-th
      codeword follow in its column. */
  lemma CodeblockWrittenOut(codec: Codec, data: seq<Byte>, depth: nat, block: seq<Byte>, q: nat, r: nat)
    requires codec.Valid() && IsCodeblock(codec, data, depth, block) && q < depth && r < 255
    ensures |block| == 255 * depth && 0 <= r * depth + q < |block|
    ensures r < 223 ==> r * depth + q < |data| && block[r * depth + q] == data[r * depth + q]
    ensures 223 <= r ==>
      var column := seq(223, i requires 0 <= i < 223 => if 0 <= i * depth + q < |data| then data[i * depth + q] else 0);
      && |codec.parity(column)| == 32 && block[r * depth + q] == codec.parity(column)[r - 223]
  {
    CellInRange(q, r, 255, depth);
    ColumnFits(q, depth, 255);
    ColumnFits(q, depth, 223);
    assert Column(block, q, depth, N)[r] == block[CellOf(r, q, depth)];
    assert Column(block, q, depth, N) == Codeword(codec, data, q, depth);
    if r >= 223 {
      var column := seq(223, i requires 0 <= i < 223 => if 0 <= i * depth + q < |data| then data[i * depth + q] else 0);
      forall i | 0 <= i < 223
        ensures column[i] == Column(data, q, depth, K)[i]
      {
        assert CellOf(i, q, depth) == i * depth + q;
      }
      assert column == Column(data, q, depth, K);
    } else {
      CellInRange(q, r, 223, depth);
      assert Column(data, q, depth, K)[r] == data[CellOf(r, q, depth)];
    }
  }
}
