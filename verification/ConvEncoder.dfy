// The rate 1/2, constraint length 7 encoder with puncturing (lib/conv_encode27_aux.cc)
// against the convolution it computes (section 3 of CCSDS 131.0-B-3).
module ConvEncoder {
  import opened Arithmetic
  import opened Words
  import opened Puncturing

  const CONSTRAINT_LENGTH := 7

  // ----- the code, as a convolution over the whole input stream -----

  /** The sum, modulo two, of the first `t` taps times the input bits n, n-1, ... */
  function TapSum(poly: Word, x: seq<bool>, n: int, t: nat): bool
    requires t <= |poly|
  {
    if t == 0 then false else TapSum(poly, x, n, t - 1) != (poly[t - 1] && BitAt(x, n - (t - 1)))
  }

  /** Output bit of one branch for input bit `n`; the top bit of the generator inverts. */
  function BranchBit(generator: Word, x: seq<bool>, n: int): bool
    requires |generator| == 8
  {
    generator[0] != TapSum(generator[1..], x, n, CONSTRAINT_LENGTH)
  }

  /** The coded stream: for each input bit the bit of the first branch, then the second. */
  function CodedBits(g1: Word, g2: Word, x: seq<bool>): (r: seq<bool>)
    requires |g1| == |g2| == 8
    ensures |r| == 2 * |x|
    ensures forall i :: 0 <= i < 2 * |x| ==> r[i] == BranchBit(if i % 2 == 0 then g1 else g2, x, i / 2)
  {
    seq(2 * |x|, i requires 0 <= i < 2 * |x| => BranchBit(if i % 2 == 0 then g1 else g2, x, i / 2))
  }

  lemma CodedPair(g1: Word, g2: Word, x: seq<bool>, n: nat)
    requires |g1| == |g2| == 8 && n < |x|
    ensures CodedBits(g1, g2, x)[2 * n] == BranchBit(g1, x, n)
    ensures CodedBits(g1, g2, x)[2 * n + 1] == BranchBit(g2, x, n)
  {
    assert (2 * n) / 2 == n && (2 * n + 1) / 2 == n;
  }

  /** The code is causal: later input does not change an output bit. */
  lemma {:induction false} TapSumIsCausal(poly: Word, x: seq<bool>, more: seq<bool>, n: int, t: nat)
    requires t <= |poly| && n < |x|
    ensures TapSum(poly, x + more, n, t) == TapSum(poly, x, n, t)
  {
    if t != 0 {
      TapSumIsCausal(poly, x, more, n, t - 1);
    }
  }

  lemma CodedBitsIsCausal(g1: Word, g2: Word, x: seq<bool>, more: seq<bool>)
    requires |g1| == |g2| == 8
    ensures CodedBits(g1, g2, x + more)[..2 * |x|] == CodedBits(g1, g2, x)
  {
    forall i | 0 <= i < 2 * |x|
      ensures CodedBits(g1, g2, x + more)[i] == CodedBits(g1, g2, x)[i]
    {
      TapSumIsCausal((if i % 2 == 0 then g1 else g2)[1..], x, more, i / 2, CONSTRAINT_LENGTH);
    }
  }

  // ----- the shift register -----

  /** The register when input bit `n` is the current one: past bits above it, the bits of
      the current byte that are still to come below it. */
  ghost function Register(x: seq<bool>, n: int): (w: Word)
    ensures |w| == 16
    ensures !w[0] && forall i :: 1 <= i < 16 ==> w[i] == BitAt(x, n + i - 8)
  {
    [false] + seq(15, i => BitAt(x, n + i - 7))
  }

  lemma RegisterShifts(w: Word, x: seq<bool>, n: int)
    requires w == Register(x, n) && |x| <= n + 8
    ensures Shl(w, 1)[0 := false] == Register(x, n + 1)
  {
    assert Shl(w, 1) == w[1..] + [false];
  }

  /** The next byte goes below the register. */
  lemma RegisterLoads(x: seq<bool>, byte: Word)
    requires |byte| == 8
    ensures Or(Register(x, |x|), Zeros(8) + byte) == Register(x + byte, |x|)
  {
  }

  lemma TailIsAll<T>(s: seq<T>, i: nat)
    requires i <= |s|
    ensures s[i..|s|] == s[i..] && s[0..] == s
  {
  }

  class Encoder {
    const generator1: Word
    const generator2: Word
    const punctType: PunctType
    var state: Word
    var punctCount: nat
    // All bits that were encoded so far.
    ghost var input: seq<bool>

    ghost predicate Valid()
      reads this
    {
      && |generator1| == |generator2| == 8
      && state == Register(input, |input|)
      && punctCount < PatternLen(punctType)
      && punctCount == (2 * |input|) % PatternLen(punctType)
    }

    /** The encoded and punctured bits of everything that was encoded so far. */
    ghost function Produced(): seq<bool>
      requires |generator1| == |generator2| == 8
      reads this
    {
      Keep(Pattern(punctType), CodedBits(generator1, generator2, input), 0)
    }

    constructor (generator1: Word, generator2: Word, punctType: PunctType)
      requires |generator1| == |generator2| == 8
      ensures Valid() && input == []
      ensures this.generator1 == generator1 && this.generator2 == generator2 && this.punctType == punctType
    {
      this.generator1, this.generator2, this.punctType := generator1, generator2, punctType;
      state, punctCount, input := Zeros(16), 0, [];
      new;
      assert state == Register([], 0);
    }

    /** The two output bits for the input bit that is the current one of the register. */
    method EncodeBit(ghost x: seq<bool>, ghost n: nat) returns (bit1: bool, bit2: bool)
      requires |generator1| == |generator2| == 8 && state == Register(x, n)
      ensures bit1 == BranchBit(generator1, x, n) && bit2 == BranchBit(generator2, x, n)
    {
      var outC1, outC2 := false, false;
      for t := 0 to CONSTRAINT_LENGTH
        invariant outC1 == TapSum(generator1[1..], x, n, t)
        invariant outC2 == TapSum(generator2[1..], x, n, t)
      {
        if state[8 - t] {
          outC1 := outC1 != generator1[1 + t];
          outC2 := outC2 != generator2[1 + t];
        }
      }
      bit1, bit2 := generator1[0] != outC1, generator2[0] != outC2;
    }

    /** Shifts the eight bits of a loaded byte through the register. */
    method EncodeLoaded(ghost x: seq<bool>, ghost n: nat) returns (outputBits: Word)
      requires |generator1| == |generator2| == 8
      requires |x| == n + 8 && state == Register(x, n)
      modifies this`state
      ensures |outputBits| == 16 && state == Register(x, |x|)
      ensures outputBits == CodedBits(generator1, generator2, x)[2 * n..]
    {
      hide *;
      ghost var coded := CodedBits(generator1, generator2, x);
      outputBits := Zeros(16);
      for bitIn := 0 to 8
        invariant |outputBits| == 16
        invariant state == Register(x, n + bitIn)
        invariant outputBits[16 - 2 * bitIn..] == coded[2 * n..2 * (n + bitIn)]
      {
        outputBits := ShiftOne(outputBits, x, n, bitIn);
      }
      TailIsAll(outputBits, 0);
      TailIsAll(coded, 2 * n);
    }

    /** Shifts one bit through the register and two coded bits into the output. */
    method ShiftOne(outputBits: Word, ghost x: seq<bool>, ghost n: nat, ghost bitIn: nat) returns (next: Word)
      requires |generator1| == |generator2| == 8 && |outputBits| == 16
      requires |x| == n + 8 && bitIn < 8 && state == Register(x, n + bitIn)
      requires outputBits[16 - 2 * bitIn..] == CodedBits(generator1, generator2, x)[2 * n..2 * (n + bitIn)]
      modifies this`state
      ensures |next| == 16 && state == Register(x, n + bitIn + 1)
      ensures next[16 - 2 * (bitIn + 1)..] == CodedBits(generator1, generator2, x)[2 * n..2 * (n + bitIn + 1)]
    {
      hide CodedBits, BranchBit, Register, Shl;
      var bit1, bit2 := EncodeBit(x, n + bitIn);
      CodedPair(generator1, generator2, x, n + bitIn);
      PushPair(outputBits, CodedBits(generator1, generator2, x), 2 * n, 2 * (n + bitIn));
      RegisterShifts(state, x, n + bitIn);
      next := Shl(outputBits, 2)[14 := bit1][15 := bit2];
      state := Shl(state, 1)[0 := false];
    }

    /** Encodes one byte: sixteen bits of the convolution. */
    method Encode(inputByte: Word) returns (outputBits: Word)
      requires Valid() && |inputByte| == 8
      modifies this`state, this`input
      ensures |generator1| == |generator2| == 8 && |outputBits| == 16
      ensures input == old(input) + inputByte
      ensures state == Register(input, |input|)
      ensures CodedBits(generator1, generator2, input)
           == CodedBits(generator1, generator2, old(input)) + outputBits
    {
      hide CodedBits, BranchBit, Register;
      ghost var x, n := input + inputByte, |input|;
      RegisterLoads(input, inputByte);
      state := Or(state, Zeros(8) + inputByte);
      outputBits := EncodeLoaded(x, n);
      state := [false] + state[1..8] + Zeros(8);
      assert state == Register(x, |x|);
      CodedBitsIsCausal(generator1, generator2, input, inputByte);
      ghost var coded := CodedBits(generator1, generator2, x);
      assert coded == coded[..2 * n] + coded[2 * n..];
      input := x;
    }

    /** Applies the keep and drop pattern to sixteen coded bits, the phase carried on. */
    method Puncture(inputBits: Word) returns (outputBits: Word, numOutBits: nat)
      requires |inputBits| == 16 && punctCount < PatternLen(punctType)
      modifies this`punctCount
      ensures |outputBits| == 16 && numOutBits <= 16
      ensures outputBits == Zeros(16 - numOutBits) + Keep(Pattern(punctType), inputBits, old(punctCount))
      ensures punctCount == (old(punctCount) + 16) % PatternLen(punctType)
    {
      var pattern, len := Pattern(punctType), PatternLen(punctType);
      hide PatternLen, Pattern, Keep;
      numOutBits, outputBits := 0, Zeros(16);
      ghost var kept := [];
      KeepNothing(pattern, inputBits, punctCount);
      for i := 0 to 16
        invariant |kept| == numOutBits <= i
        invariant punctCount == (old(punctCount) + i) % len
        invariant kept == Keep(pattern, inputBits[..i], old(punctCount))
        invariant outputBits == Zeros(16 - numOutBits) + kept
      {
        KeepOneMore(pattern, inputBits, i, old(punctCount));
        if pattern[punctCount] {
          PushBit(outputBits, kept, inputBits[i]);
          outputBits := Shl(outputBits, 1)[15 := inputBits[i]];
          kept := kept + [inputBits[i]];
          numOutBits := numOutBits + 1;
        }
        AddToRemainder(old(punctCount) + i, 1, len);
        punctCount := (punctCount + 1) % len;
      }
      assert inputBits[..16] == inputBits;
    }

    /** Punctures one encoded byte, unless the pattern keeps everything; at least a byte of
        coded bits is left. */
    method PunctureEncoded(encoded: Word) returns (outputBits: Word, numOutBits: nat)
      requires |encoded| == 16 && punctCount < PatternLen(punctType)
      modifies this`punctCount
      ensures 8 <= numOutBits <= 16 && |outputBits| == 16
      ensures outputBits[16 - numOutBits..] == Keep(Pattern(punctType), encoded, old(punctCount))
      ensures punctCount == (old(punctCount) + 16) % PatternLen(punctType)
    {
      assert punctType == NoPuncturing ==> Pattern(punctType) == [true];
      hide Pattern, PatternLen, Keep, KeptCount;
      ghost var pattern := Pattern(punctType);
      KeepLength(pattern, encoded, punctCount);
      EnoughIsKept(punctType, punctCount);
      if punctType == NoPuncturing {
        KeepEverything(pattern, encoded, punctCount);
        outputBits, numOutBits := encoded, 16;
      } else {
        outputBits, numOutBits := Puncture(encoded);
      }
    }

    /** Encodes and punctures one byte. */
    method EncodePunct(inputByte: Word) returns (outputBits: Word, numOutBits: nat)
      requires Valid() && |inputByte| == 8
      modifies this
      ensures Valid() && input == old(input) + inputByte
      ensures 8 <= numOutBits <= 16 && |outputBits| == 16
      ensures Produced() == old(Produced()) + outputBits[16 - numOutBits..]
    {
      hide CodedBits, Pattern, PatternLen, Keep, KeptCount, Register;
      ghost var pattern := Pattern(punctType);
      ghost var coded := CodedBits(generator1, generator2, input);
      var encoded := Encode(inputByte);
      KeepConcat(pattern, coded, encoded, 0);
      KeepPhase(pattern, encoded, |coded|);
      AddToRemainder(|coded|, 16, |pattern|);
      outputBits, numOutBits := PunctureEncoded(encoded);
    }

    /** After any stream that ends in a marker the six memory bits are the start state that
        the decoder takes from the marker. */
    lemma MemoryIsStartState(asm: seq<Word>)
      requires Valid() && asm != [] && |asm[|asm| - 1]| == 8
      requires |input| >= 8 && input[|input| - 8..] == asm[|asm| - 1]
      ensures state[2..8] == StartState(asm)[2..]
    {
    }
  }

  /** The decoder's start state: the last six bits of the marker (lib/conv_decode27_impl.cc). */
  function StartState(asm: seq<Word>): Word
    requires asm != [] && |asm[|asm| - 1]| == 8
  {
    Zeros(2) + asm[|asm| - 1][2..]
  }

  // ----- what determines the code -----

  lemma {:induction false} TapsOfSilence(poly: Word, x: seq<bool>, n: int, k: nat)
    requires k <= |poly| && forall i :: 0 <= i < |x| ==> !x[i]
    ensures !TapSum(poly, x, n, k)
  {
    if k != 0 {
      TapsOfSilence(poly, x, n, k - 1);
    }
  }

  lemma {:induction false} TapsOfOneBit(poly: Word, x: seq<bool>, y: seq<bool>, n: int, t: int, k: nat)
    requires k <= |poly| && |x| == |y| && 0 <= n - t < |x|
    requires forall i :: 0 <= i < |x| ==> (x[i] != y[i] <==> i == n - t)
    ensures TapSum(poly, x, n, k) != TapSum(poly, y, n, k) <==> 0 <= t < k && poly[t]
  {
    if k != 0 {
      TapsOfOneBit(poly, x, y, n, t, k - 1);
    }
  }

  /** On silence both branches give their inversion flags, the first branch first. */
  lemma SilenceGivesTheFlags(g1: Word, g2: Word, x: seq<bool>, n: nat)
    requires |g1| == |g2| == 8 && n < |x| && forall i :: 0 <= i < |x| ==> !x[i]
    ensures CodedBits(g1, g2, x)[2 * n] == g1[0] && CodedBits(g1, g2, x)[2 * n + 1] == g2[0]
  {
    CodedPair(g1, g2, x, n);
    TapsOfSilence(g1[1..], x, n, CONSTRAINT_LENGTH);
    TapsOfSilence(g2[1..], x, n, CONSTRAINT_LENGTH);
  }

  /** Turning over the input bit that is `t` back turns over an output bit exactly if it is
      among the last seven and has a tap. With the flags this determines the code. */
  lemma OneInputBit(g1: Word, g2: Word, x: seq<bool>, y: seq<bool>, n: nat, t: int)
    requires |g1| == |g2| == 8 && |x| == |y| && n < |x| && 0 <= n - t < |x|
    requires forall i :: 0 <= i < |x| ==> (x[i] != y[i] <==> i == n - t)
    ensures CodedBits(g1, g2, x)[2 * n] != CodedBits(g1, g2, y)[2 * n] <==> 0 <= t <= 6 && g1[1 + t]
    ensures CodedBits(g1, g2, x)[2 * n + 1] != CodedBits(g1, g2, y)[2 * n + 1] <==> 0 <= t <= 6 && g2[1 + t]
  {
    CodedPair(g1, g2, x, n);
    CodedPair(g1, g2, y, n);
    TapsOfOneBit(g1[1..], x, y, n, t, CONSTRAINT_LENGTH);
    TapsOfOneBit(g2[1..], x, y, n, t, CONSTRAINT_LENGTH);
  }

  lemma SevenTaps(poly: Word, x: seq<bool>, n: int)
    requires |poly| == 7
    ensures TapSum(poly, x, n, 7) == (((((((poly[0] && BitAt(x, n)) != (poly[1] && BitAt(x, n - 1))) != (poly[2] && BitAt(x, n - 2))) != (poly[3] && BitAt(x, n - 3)))
      != (poly[4] && BitAt(x, n - 4))) != (poly[5] && BitAt(x, n - 5))) != (poly[6] && BitAt(x, n - 6)))
  {
    assert TapSum(poly, x, n, 1) == (poly[0] && BitAt(x, n));
    assert TapSum(poly, x, n, 2) == (TapSum(poly, x, n, 1) != (poly[1] && BitAt(x, n - 1)));
    assert TapSum(poly, x, n, 3) == (TapSum(poly, x, n, 2) != (poly[2] && BitAt(x, n - 2)));
    assert TapSum(poly, x, n, 4) == (TapSum(poly, x, n, 3) != (poly[3] && BitAt(x, n - 3)));
    assert TapSum(poly, x, n, 5) == (TapSum(poly, x, n, 4) != (poly[4] && BitAt(x, n - 4)));
    assert TapSum(poly, x, n, 6) == (TapSum(poly, x, n, 5) != (poly[5] && BitAt(x, n - 5)));
  }

  /** The generators of the standard, 0x79 and 0xDB. */
  const G1: Word := [false, true, true, true, true, false, false, true]
  const G2: Word := [true, true, false, true, true, false, true, true]

  /** The code of the standard, written out; before the first bit there are zeros. */
  lemma StandardCode(x: seq<bool>, n: nat)
    requires 6 <= n < |x|
    ensures CodedBits(G1, G2, x)[2 * n] == ((((x[n] != x[n - 1]) != x[n - 2]) != x[n - 3]) != x[n - 6])
    ensures CodedBits(G1, G2, x)[2 * n + 1] == !((((x[n] != x[n - 2]) != x[n - 3]) != x[n - 5]) != x[n - 6])
  {
    CodedPair(G1, G2, x, n);
    SevenTaps(G1[1..], x, n);
    SevenTaps(G2[1..], x, n);
  }
}
