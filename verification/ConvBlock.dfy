// The streaming encoder block (lib/conv_encode27_bb_impl.cc): it packs bit groups of
// varying length into bytes, whatever room the output has in a call.
module ConvBlock {
  import opened Words
  import opened ConvEncoder
  import opened Puncturing

  /** The bits of a sequence of words, one after the other. */
  function Bits(ws: seq<Word>): seq<bool> {
    if ws == [] then [] else Bits(ws[..|ws| - 1]) + ws[|ws| - 1]
  }

  predicate AreBytes(ws: seq<Word>) {
    forall w <- ws :: |w| == 8
  }

  lemma BitsAppend(ws: seq<Word>, w: Word)
    ensures Bits(ws + [w]) == Bits(ws) + w
  {
    assert (ws + [w])[..|ws|] == ws;
  }

  lemma {:induction false} BitsOfBytes(ws: seq<Word>)
    requires AreBytes(ws)
    ensures |Bits(ws)| == 8 * |ws|
  {
    if ws != [] {
      BitsOfBytes(ws[..|ws| - 1]);
    }
  }

  /** The bits of a sequence of bytes, by position. */
  lemma {:induction false} BitsAt(ws: seq<Word>, k: nat, j: nat)
    requires AreBytes(ws) && k < |ws| && j < 8
    ensures 8 * k + j < |Bits(ws)| && Bits(ws)[8 * k + j] == ws[k][j]
  {
    BitsOfBytes(ws);
    BitsOfBytes(ws[..|ws| - 1]);
    if k < |ws| - 1 {
      BitsAt(ws[..|ws| - 1], k, j);
    }
  }

  /** The byte made of `count` buffered bits and the first of the `n` newest bits. */
  lemma PackedByte(buffer: Word, count: nat, bits: Word, n: nat)
    requires |buffer| == |bits| == 16 && count < 8 && n <= 16 && 8 <= count + n
    requires forall i :: count <= i < 16 ==> !buffer[i]
    ensures Or(Shr(Shl(bits, 16 - n), count + 8), Shr(buffer, 8))[8..]
         == buffer[..count] + bits[16 - n..][..8 - count]
  {
    var r := Or(Shr(Shl(bits, 16 - n), count + 8), Shr(buffer, 8))[8..];
    var e := buffer[..count] + bits[16 - n..][..8 - count];
    forall i | 0 <= i < 8
      ensures r[i] == e[i]
    {
      if i >= count {
        assert e[i] == bits[16 - n + (i - count)];
      }
    }
  }

  lemma TakeFromNewest(bits: Word, n: nat, k: nat)
    requires |bits| == 16 && k <= n <= 16
    ensures bits[16 - n..] == bits[16 - n..][..k] + bits[16 - (n - k)..]
  {
  }

  lemma Regroup<T>(a: seq<T>, b: seq<T>, c: seq<T>, d: seq<T>)
    ensures (a + (b + c)) + d == a + b + (c + d)
  {
  }

  class ConvEncodeBlock {
    const encoder: Encoder
    // Bits that were encoded but not yet sent, from the most significant position on.
    var buffer: Word
    var bufferCount: nat
    // All bytes taken and all bytes sent so far.
    ghost var consumed: seq<Word>
    ghost var sent: seq<Word>

    ghost predicate BufferOk()
      reads this
    {
      && |buffer| == 16 && bufferCount <= 15
      && (forall i :: bufferCount <= i < 16 ==> !buffer[i])
    }

    /** The bits sent so far and then the pending ones. */
    ghost function Stream(): seq<bool>
      requires BufferOk()
      reads this
    {
      Bits(sent) + buffer[..bufferCount]
    }

    /** Everything sent, and then the pending bits, is everything that was encoded. */
    ghost predicate Valid()
      reads this, encoder
    {
      && encoder.Valid() && BufferOk() && AreBytes(sent)
      && encoder.input == Bits(consumed)
      && Stream() == encoder.Produced()
    }

    constructor (generator1: Word, generator2: Word, punctType: PunctType)
      requires |generator1| == |generator2| == 8
      ensures Valid() && fresh(encoder) && sent == [] && consumed == []
      ensures encoder.generator1 == generator1 && encoder.generator2 == generator2
      ensures encoder.punctType == punctType
    {
      encoder := new Encoder(generator1, generator2, punctType);
      buffer, bufferCount, consumed, sent := Zeros(16), 0, [], [];
    }

    /** Sends whole bytes of the buffered bits and the `n` newest ones while there is room. */
    method SendBytes(bits: Word, n: nat, room: nat) returns (bytes: seq<Word>)
      requires BufferOk() && bufferCount <= 7
      requires |bits| == 16 && 8 <= n <= 16 && 1 <= room
      modifies this`buffer, this`bufferCount, this`sent
      ensures BufferOk() && AreBytes(bytes) && 1 <= |bytes| <= room
      ensures sent == old(sent) + bytes
      ensures Stream() == old(Stream()) + bits[16 - n..]
      ensures |bytes| == room || bufferCount <= 7
    {
      hide BufferOk, StreamWith;
      ghost var goal := StreamWith(bits, n);
      StreamAndRest(bits);
      bytes := [];
      var left: nat := n;
      while bufferCount + left >= 8 && |bytes| < room
        invariant BufferOk() && bufferCount <= 7 && left <= n
        invariant if bytes == [] then left == n else bufferCount == 0 && left <= n - 1
        invariant AreBytes(bytes) && |bytes| <= room
        invariant sent == old(sent) + bytes
        invariant StreamWith(bits, left) == goal
        decreases left
      {
        var byte;
        byte, left := SendOne(bits, left);
        bytes := bytes + [byte];
      }
      StreamAndRest(bits);
      KeepRest(bits, left);
    }

    /** The stream and then the newest bits that are left. */
    ghost function StreamWith(bits: Word, left: nat): seq<bool>
      requires BufferOk() && left <= 16 == |bits|
      reads this
    {
      Stream() + bits[16 - left..]
    }

    lemma StreamAndRest(bits: Word)
      requires BufferOk() && |bits| == 16
      ensures forall n: nat :: n <= 16 ==> StreamWith(bits, n) == Stream() + bits[16 - n..]
    {
    }

    /** One turn of the loop: a byte goes out, and nothing is lost. */
    method SendOne(bits: Word, left: nat) returns (byte: Word, rest: nat)
      requires BufferOk() && bufferCount <= 7 && |bits| == 16 && left <= 16 && 8 <= bufferCount + left
      modifies this`buffer, this`bufferCount, this`sent
      ensures BufferOk() && bufferCount == 0 && rest == left - (8 - old(bufferCount))
      ensures |byte| == 8 && sent == old(sent) + [byte]
      ensures StreamWith(bits, rest) == old(StreamWith(bits, left))
    {
      hide BufferOk, Stream;
      rest := left - (8 - bufferCount);
      byte := PackByte(bits, left);
    }

    /** Buffers the bits that did not fit into a byte. */
    method KeepRest(bits: Word, left: nat)
      requires BufferOk() && |bits| == 16 && left <= 15 && bufferCount == 0
      modifies this`buffer, this`bufferCount
      ensures BufferOk() && bufferCount == left
      ensures Stream() == old(Stream()) + bits[16 - left..]
    {
      if left > 0 {
        buffer := Shl(bits, 16 - left);
        bufferCount := left;
      }
      assert buffer[..bufferCount] == bits[16 - left..];
    }

    /** Sends the next byte, the buffered bits filled up with the first of the newest ones,
        and leaves the buffer empty. */
    method PackByte(bits: Word, n: nat) returns (byte: Word)
      requires BufferOk() && bufferCount <= 7
      requires |bits| == 16 && n <= 16 && 8 <= bufferCount + n
      modifies this`buffer, this`bufferCount, this`sent
      ensures BufferOk() && bufferCount == 0
      ensures |byte| == 8 && sent == old(sent) + [byte]
      ensures Stream() + bits[16 - (n - (8 - old(bufferCount)))..] == old(Stream()) + bits[16 - n..]
    {
      hide Bits;
      ghost var taken := 8 - bufferCount;
      PackedByte(buffer, bufferCount, bits, n);
      TakeFromNewest(bits, n, taken);
      Regroup(Bits(sent), buffer[..bufferCount], bits[16 - n..][..taken], bits[16 - (n - taken)..]);
      var newBits := Shl(bits, 16 - n);
      newBits := Shr(newBits, bufferCount + 8);
      newBits := Or(newBits, Shr(buffer, 8));
      byte := newBits[8..];
      BitsAppend(sent, byte);
      sent := sent + [byte];
      buffer, bufferCount := Zeros(16), 0;
      assert Stream() == Bits(sent);
    }

    /** A whole byte left over from the last call goes out first. */
    method SendBuffered() returns (byte: Word)
      requires Valid() && 8 <= bufferCount
      modifies this`buffer, this`bufferCount, this`sent
      ensures Valid() && bufferCount <= 7
      ensures |byte| == 8 && sent == old(sent) + [byte]
    {
      hide encoder.Valid, encoder.Produced, Bits;
      byte := buffer[..8];
      assert buffer[..bufferCount] == byte + buffer[8..bufferCount];
      BitsAppend(sent, byte);
      sent := sent + [byte];
      buffer := Shl(buffer, 8);
      bufferCount := bufferCount - 8;
      assert buffer[..bufferCount] == old(buffer)[8..old(bufferCount)];
    }

    /** Encodes one byte and sends what fits. */
    method EncodeAndSend(inputByte: Word, room: nat) returns (bytes: seq<Word>)
      requires Valid() && bufferCount <= 7 && |inputByte| == 8 && 1 <= room
      modifies this, encoder
      ensures Valid() && AreBytes(bytes) && |bytes| <= room
      ensures consumed == old(consumed) + [inputByte]
      ensures sent == old(sent) + bytes
      ensures |bytes| == room || bufferCount <= 7
    {
      BitsAppend(consumed, inputByte);
      consumed := consumed + [inputByte];
      var bitsEnc, numBitsOut := encoder.EncodePunct(inputByte);
      bytes := SendBytes(bitsEnc, numBitsOut, room);
    }

    /** One call with some input bytes and room for `noutput` output bytes. */
    method GeneralWork(input: seq<Word>, noutput: nat) returns (out: seq<Word>, numIn: nat)
      requires Valid() && AreBytes(input)
      modifies this, encoder
      ensures Valid() && AreBytes(out) && |out| <= noutput && numIn <= |input|
      ensures consumed == old(consumed) + input[..numIn]
      ensures sent == old(sent) + out
      ensures |out| == noutput || (numIn == |input| && bufferCount <= 7)
    {
      hide Valid;
      out, numIn := [], 0;
      if bufferCount >= 8 {
        if noutput == 0 { return; }
        var byte := SendBuffered();
        out := [byte];
      }
      while numIn < |input| && |out| < noutput
        invariant Valid() && AreBytes(out) && |out| <= noutput && numIn <= |input|
        invariant consumed == old(consumed) + input[..numIn]
        invariant sent == old(sent) + out
        invariant |out| == noutput || bufferCount <= 7
        decreases |input| - numIn
      {
        var bytes := EncodeAndSend(input[numIn], noutput - |out|);
        out := out + bytes;
        numIn := numIn + 1;
      }
    }

    /** Without puncturing and with the generators of the standard, what is sent, bit by bit. */
    lemma StandardBytes(n: nat, k: nat, j: nat)
      requires Valid() && encoder.punctType == NoPuncturing && encoder.generator1 == G1 && encoder.generator2 == G2
      requires 6 <= n && k < |sent| && j < 8 && (8 * k + j == 2 * n || 8 * k + j == 2 * n + 1)
      ensures n < |encoder.input|
      ensures var x := encoder.input;
        sent[k][j] == if 8 * k + j == 2 * n then (((x[n] != x[n - 1]) != x[n - 2]) != x[n - 3]) != x[n - 6]
                      else !((((x[n] != x[n - 2]) != x[n - 3]) != x[n - 5]) != x[n - 6])
    {
      hide Bits, Keep, CodedBits, encoder.Valid;
      KeepEverything(Pattern(NoPuncturing), CodedBits(G1, G2, encoder.input), 0);
      BitsAt(sent, k, j);
      assert Bits(sent)[8 * k + j] == Stream()[8 * k + j];
      StandardCode(encoder.input, n);
    }

    /** Whatever the calls were, the bytes sent are the code cut into bytes; what is still
        missing is less than two bytes of it. */
    lemma SentIsTheCode()
      requires Valid()
      ensures |encoder.Produced()| - 15 <= 8 * |sent| <= |encoder.Produced()|
      ensures Bits(sent) == encoder.Produced()[..8 * |sent|]
    {
      BitsOfBytes(sent);
    }
  }
}
