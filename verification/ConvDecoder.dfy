// The decoder's side of puncturing (lib/conv_decode27_impl.cc): how many soft bits a block
// brings, and where the erasures go.
module ConvDecoder {
  import opened Arithmetic
  import opened Puncturing

  /** The number of received soft bits behind `numOut` unpunctured ones. */
  method GetNumInputsReq(p: PunctType, numOut: nat) returns (countIn: nat)
    ensures countIn == KeptCount(Pattern(p), 0, numOut)
    ensures forall bits: seq<bool> :: |bits| == numOut ==> |Keep(Pattern(p), bits, 0)| == countIn
  {
    var pattern := Pattern(p);
    var countPattern := 0;
    countIn := 0;
    for countOut := 0 to numOut
      invariant countIn == KeptCount(pattern, 0, countOut)
      invariant countPattern == countOut % |pattern|
    {
      countIn := countIn + if pattern[countPattern] then 1 else 0;
      AddToRemainder(countOut, 1, |pattern|);
      countPattern := (countPattern + 1) % |pattern|;
    }
    forall bits: seq<bool> | |bits| == numOut
      ensures |Keep(pattern, bits, 0)| == countIn
    {
      KeepLength(pattern, bits, 0);
    }
  }

  /** Converts the received soft bits and puts the neutral value where a bit was dropped. */
  method UnpunctureAndConvert(p: PunctType, input: seq<real>, mapToUint8: real -> nat, out: array<nat>)
    requires KeptCount(Pattern(p), 0, out.Length) <= |input|
    modifies out
    ensures forall i :: 0 <= i < out.Length ==> out[i] == Unpunctured(p, input, mapToUint8, i)
  {
    if p == NoPuncturing {
      Convert(input, mapToUint8, out);
    } else {
      Unpuncture(p, input, mapToUint8, out);
    }
  }

  /** Without puncturing every bit is kept. */
  method Convert(input: seq<real>, mapToUint8: real -> nat, out: array<nat>)
    requires KeptCount(Pattern(NoPuncturing), 0, out.Length) <= |input|
    modifies out
    ensures forall i :: 0 <= i < out.Length ==> out[i] == Unpunctured(NoPuncturing, input, mapToUint8, i)
  {
    hide KeptCount, Unpunctured;
    KeptIsAll(Pattern(NoPuncturing), 0, out.Length);
    for i := 0 to out.Length
      invariant forall k :: 0 <= k < i ==> out[k] == Unpunctured(NoPuncturing, input, mapToUint8, k)
    {
      out[i] := mapToUint8(input[i]);
      EveryBitIsThere(input, mapToUint8, i);
    }
  }

  lemma EveryBitIsThere(input: seq<real>, mapToUint8: real -> nat, i: nat)
    requires i < |input|
    ensures Unpunctured(NoPuncturing, input, mapToUint8, i) == mapToUint8(input[i])
  {
    KeptIsAll(Pattern(NoPuncturing), 0, i);
    SmallRemainder(0, 1);
  }

  /** Otherwise the received bits go where the pattern keeps one. */
  method Unpuncture(p: PunctType, input: seq<real>, mapToUint8: real -> nat, out: array<nat>)
    requires KeptCount(Pattern(p), 0, out.Length) <= |input|
    modifies out
    ensures forall i :: 0 <= i < out.Length ==> out[i] == Unpunctured(p, input, mapToUint8, i)
  {
    hide KeptCount, Pattern, PatternLen;
    var pattern, len := Pattern(p), PatternLen(p);
    var punctCount, inCount := 0, 0;
    var neutralElement := mapToUint8(0.0);
    KeptOneMore(pattern, 0, 0);
    SmallRemainder(0, len);
    for i := 0 to out.Length
      invariant punctCount == i % len && inCount == KeptCount(pattern, 0, i)
      invariant forall k :: 0 <= k < i ==> out[k] == Unpunctured(p, input, mapToUint8, k)
    {
      var action := pattern[punctCount];
      KeptOneMore(pattern, 0, i);
      KeptCountConcat(pattern, 0, i + 1, out.Length - i - 1);
      out[i] := if action then mapToUint8(input[inCount]) else neutralElement;
      inCount := inCount + if action then 1 else 0;
      AddToRemainder(i, 1, len);
      punctCount := (punctCount + 1) % len;
    }
  }

  /** Position `i` of the unpunctured block; beyond the input nothing is promised. */
  function Unpunctured(p: PunctType, input: seq<real>, mapToUint8: real -> nat, i: nat): nat {
    var k := KeptCount(Pattern(p), 0, i);
    if KeepsAt(Pattern(p), i) && k < |input| then mapToUint8(input[k]) else mapToUint8(0.0)
  }

  /** The i-th bit, if it is kept, is the one that follows all bits kept before it. */
  lemma {:induction false} KeptAt<T>(pattern: seq<bool>, bits: seq<T>, phase: nat, i: nat)
    requires pattern != [] && i < |bits| && KeepsAt(pattern, phase + i)
    ensures KeptCount(pattern, phase, i) < |Keep(pattern, bits, phase)|
    ensures Keep(pattern, bits, phase)[KeptCount(pattern, phase, i)] == bits[i]
  {
    var n := |bits| - 1;
    KeepLength(pattern, bits[..n], phase);
    if i < n {
      KeptAt(pattern, bits[..n], phase, i);
    }
  }

  /** Unpuncturing undoes puncturing: every kept soft bit is back in its place, and the
      neutral value is everywhere else. */
  lemma UnpuncturingRestores(p: PunctType, soft: seq<real>, mapToUint8: real -> nat, i: nat)
    requires i < |soft|
    ensures Unpunctured(p, Keep(Pattern(p), soft, 0), mapToUint8, i)
         == mapToUint8(if KeepsAt(Pattern(p), i) then soft[i] else 0.0)
  {
    if KeepsAt(Pattern(p), i) {
      KeptAt(Pattern(p), soft, 0, i);
    }
  }

  /** The decoder starts every block at phase 0; a block cut from a longer punctured stream
      at a whole number of periods looks as if it had been punctured on its own. */
  lemma BlockAtPeriodIsPuncturedAlone(pattern: seq<bool>, before: seq<real>, soft: seq<real>)
    requires pattern != [] && |before| % |pattern| == 0
    ensures KeptCount(pattern, 0, |before|) <= |Keep(pattern, before + soft, 0)|
    ensures Keep(pattern, before + soft, 0)[KeptCount(pattern, 0, |before|)..] == Keep(pattern, soft, 0)
  {
    KeepConcat(pattern, before, soft, 0);
    KeepLength(pattern, before, 0);
    KeepPhase(pattern, soft, |before|);
  }

  /** A block of silence with one mark in it. */
  function Marked(n: nat, i: nat): (s: seq<real>)
    ensures |s| == n
    ensures forall j :: 0 <= j < n ==> s[j] == if j == i then 1.0 else 0.0
  {
    seq(n, j => if j == i then 1.0 else 0.0)
  }

  lemma {:induction false} KeptComesFromInput<T>(pattern: seq<bool>, bits: seq<T>, phase: nat, x: T)
    requires pattern != [] && x in Keep(pattern, bits, phase)
    ensures exists i :: 0 <= i < |bits| && bits[i] == x && KeepsAt(pattern, phase + i)
  {
    var n := |bits| - 1;
    if x in Keep(pattern, bits[..n], phase) {
      KeptComesFromInput(pattern, bits[..n], phase, x);
      var i :| 0 <= i < n && bits[..n][i] == x && KeepsAt(pattern, phase + i);
      assert bits[i] == x;
    } else {
      assert bits[n] == x;
    }
  }

  lemma MarkIsKept(pattern: seq<bool>, phase: nat, n: nat, i: nat)
    requires pattern != [] && i < n
    ensures 1.0 in Keep(pattern, Marked(n, i), phase) <==> KeepsAt(pattern, phase + i)
  {
    if KeepsAt(pattern, phase + i) {
      KeptAt(pattern, Marked(n, i), phase, i);
    } else if 1.0 in Keep(pattern, Marked(n, i), phase) {
      KeptComesFromInput(pattern, Marked(n, i), phase, 1.0);
    }
  }

  lemma {:induction false} SamePatternKeepsSame<T>(pattern: seq<bool>, bits: seq<T>, phase: nat)
    requires pattern != []
    requires forall i :: 0 <= i < |bits| ==> KeepsAt(pattern, phase + i) == KeepsAt(pattern, i)
    ensures Keep(pattern, bits, phase) == Keep(pattern, bits, 0)
  {
    if bits != [] {
      SamePatternKeepsSame(pattern, bits[..|bits| - 1], phase);
    }
  }

  /** A block that was punctured from another phase is what the decoder takes it for,
      whatever its contents, exactly when the pattern repeats itself from that phase on. */
  lemma PhaseMatters(pattern: seq<bool>, phase: nat, n: nat)
    requires pattern != []
    ensures (forall soft: seq<real> :: |soft| == n ==> Keep(pattern, soft, phase) == Keep(pattern, soft, 0))
       <==> (forall i :: 0 <= i < n ==> KeepsAt(pattern, phase + i) == KeepsAt(pattern, i))
  {
    if forall soft: seq<real> :: |soft| == n ==> Keep(pattern, soft, phase) == Keep(pattern, soft, 0) {
      forall i | 0 <= i < n
        ensures KeepsAt(pattern, phase + i) == KeepsAt(pattern, i)
      {
        MarkIsKept(pattern, phase, n, i);
        MarkIsKept(pattern, 0, n, i);
      }
    } else {
      var soft: seq<real> :| |soft| == n && Keep(pattern, soft, phase) != Keep(pattern, soft, 0);
      if forall i :: 0 <= i < n ==> KeepsAt(pattern, phase + i) == KeepsAt(pattern, i) {
        SamePatternKeepsSame(pattern, soft, phase);
      }
    }
  }
}
