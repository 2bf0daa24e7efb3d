// The puncturing patterns (include/ccsds/conv_puncturing27.h) and what dropping and
// refilling bits by a repeating pattern does to a stream.
module Puncturing {
  import opened Arithmetic

  datatype PunctType = NoPuncturing | Ecss23 | Ecss34 | Ecss56 | Ecss78

  function PatternLen(p: PunctType): (n: nat)
    ensures n == |Pattern(p)| && 0 < n
  {
    match p
    case NoPuncturing => 1
    case Ecss23 => 4
    case Ecss34 => 3
    case Ecss56 => 10
    case Ecss78 => 14
  }

  /** True keeps a bit, false drops it. */
  function Pattern(p: PunctType): seq<bool> {
    match p
    case NoPuncturing => [true]
    case Ecss23 => [true, true, false, true]
    case Ecss34 => [true, true, false]
    case Ecss56 => [true, true, false, true, true, false, false, true, true, false]
    case Ecss78 => [true, true, false, true, false, true, false, true, true, false, false, true, true, false]
  }

  /** Whether the repeating pattern keeps bit `n`. */
  predicate KeepsAt(pattern: seq<bool>, n: nat)
    requires pattern != []
  {
    pattern[n % |pattern|]
  }

  /** The bits of a stream that a repeating pattern keeps when it starts at `phase`. */
  function Keep<T>(pattern: seq<bool>, bits: seq<T>, phase: nat): seq<T>
    requires pattern != []
  {
    if bits == [] then []
    else
      var n := |bits| - 1;
      Keep(pattern, bits[..n], phase) + if KeepsAt(pattern, phase + n) then [bits[n]] else []
  }

  lemma KeepNothing<T>(pattern: seq<bool>, bits: seq<T>, phase: nat)
    requires pattern != []
    ensures Keep(pattern, bits[..0], phase) == []
  {
  }

  lemma KeepOneMore<T>(pattern: seq<bool>, bits: seq<T>, i: nat, phase: nat)
    requires pattern != [] && i < |bits|
    ensures Keep(pattern, bits[..i + 1], phase)
         == Keep(pattern, bits[..i], phase) + if KeepsAt(pattern, phase + i) then [bits[i]] else []
  {
    assert bits[..i + 1][..i] == bits[..i];
  }

  /** How many of `n` bits the pattern keeps. */
  function KeptCount(pattern: seq<bool>, phase: nat, n: nat): nat
    requires pattern != []
  {
    if n == 0 then 0 else KeptCount(pattern, phase, n - 1) + if KeepsAt(pattern, phase + n - 1) then 1 else 0
  }

  lemma KeptOneMore(pattern: seq<bool>, phase: nat, n: nat)
    requires pattern != []
    ensures KeptCount(pattern, phase, 0) == 0
    ensures KeptCount(pattern, phase, n + 1) == KeptCount(pattern, phase, n) + if KeepsAt(pattern, phase + n) then 1 else 0
  {
  }

  lemma {:induction false} KeepLength<T>(pattern: seq<bool>, bits: seq<T>, phase: nat)
    requires pattern != []
    ensures |Keep(pattern, bits, phase)| == KeptCount(pattern, phase, |bits|)
  {
    if bits != [] {
      KeepLength(pattern, bits[..|bits| - 1], phase);
    }
  }

  /** Puncturing piece by piece with a carried phase is puncturing the whole stream. */
  lemma {:induction false} KeepConcat<T>(pattern: seq<bool>, a: seq<T>, b: seq<T>, phase: nat)
    requires pattern != []
    ensures Keep(pattern, a + b, phase) == Keep(pattern, a, phase) + Keep(pattern, b, phase + |a|)
  {
    if b == [] {
      assert a + b == a;
    } else {
      var n := |b| - 1;
      KeepConcat(pattern, a, b[..n], phase);
      assert (a + b)[..|a| + n] == a + b[..n];
    }
  }

  lemma {:induction false} KeepPhase<T>(pattern: seq<bool>, bits: seq<T>, phase: nat)
    requires pattern != []
    ensures Keep(pattern, bits, phase) == Keep(pattern, bits, phase % |pattern|)
  {
    if bits != [] {
      KeepPhase(pattern, bits[..|bits| - 1], phase);
      AddToRemainder(phase, |bits| - 1, |pattern|);
    }
  }

  lemma {:induction false} KeepEverything<T>(pattern: seq<bool>, bits: seq<T>, phase: nat)
    requires pattern == [true]
    ensures Keep(pattern, bits, phase) == bits
  {
    if bits != [] {
      KeepEverything(pattern, bits[..|bits| - 1], phase);
    }
  }

  lemma {:induction false} KeptCountConcat(pattern: seq<bool>, phase: nat, m: nat, n: nat)
    requires pattern != []
    ensures KeptCount(pattern, phase, m + n) == KeptCount(pattern, phase, m) + KeptCount(pattern, phase + m, n)
  {
    if n != 0 {
      KeptCountConcat(pattern, phase, m, n - 1);
    }
  }

  lemma {:induction false} KeptCountBounded(pattern: seq<bool>, phase: nat, n: nat)
    requires pattern != []
    ensures KeptCount(pattern, phase, n) <= n
  {
    if n != 0 {
      KeptCountBounded(pattern, phase, n - 1);
    }
  }

  /** Every stretch of one period keeps the same number of bits. */
  lemma {:induction false} KeptPerPeriod(pattern: seq<bool>, phase: nat)
    requires pattern != []
    ensures KeptCount(pattern, phase, |pattern|) == KeptCount(pattern, 0, |pattern|)
  {
    if phase != 0 {
      KeptPerPeriod(pattern, phase - 1);
      KeptCountConcat(pattern, phase - 1, 1, |pattern|);
      KeptOfOne(pattern, phase - 1);
      KeepsAtNextPeriod(pattern, phase - 1);
    }
  }

  lemma KeptOfOne(pattern: seq<bool>, n: nat)
    requires pattern != []
    ensures KeptCount(pattern, n, 1) == if KeepsAt(pattern, n) then 1 else 0
  {
    assert KeptCount(pattern, n, 1) == (if KeepsAt(pattern, n) then 1 else 0) + KeptCount(pattern, n, 0);
  }

  lemma KeepsAtNextPeriod(pattern: seq<bool>, n: nat)
    requires pattern != []
    ensures KeepsAt(pattern, n + |pattern|) == KeepsAt(pattern, n)
  {
    var len := |pattern|;
    RemainderOf(len, 1 + n / len, n % len);
    assert len * (1 + n / len) + n % len == n + len;
  }

  lemma {:induction false} KeptByPrefix(pattern: seq<bool>, counts: seq<nat>, n: nat)
    requires n <= |pattern| && |counts| == |pattern| + 1 && pattern != []
    requires counts[0] == 0
    requires forall i :: 0 <= i < |pattern| ==> counts[i + 1] == counts[i] + if pattern[i] then 1 else 0
    ensures KeptCount(pattern, 0, n) == counts[n]
  {
    if n != 0 {
      KeptByPrefix(pattern, counts, n - 1);
      SmallRemainder(n - 1, |pattern|);
    }
  }

  lemma KeptInOnePeriod(p: PunctType)
    ensures KeptCount(Pattern(p), 0, PatternLen(p)) ==
      match p case NoPuncturing => 1 case Ecss23 => 3 case Ecss34 => 2 case Ecss56 => 6 case Ecss78 => 8
  {
    hide KeptCount;
    match p
    case NoPuncturing => KeptByPrefix(Pattern(p), [0, 1], 1);
    case Ecss23 => KeptByPrefix(Pattern(p), [0, 1, 2, 2, 3], 4);
    case Ecss34 => KeptByPrefix(Pattern(p), [0, 1, 2, 2], 3);
    case Ecss56 => KeptByPrefix(Pattern(p), [0, 1, 2, 2, 3, 4, 4, 4, 5, 6, 6], 10);
    case Ecss78 => KeptByPrefix(Pattern(p), [0, 1, 2, 2, 3, 3, 4, 4, 5, 6, 6, 6, 7, 8, 8], 14);
  }

  /** A stretch of whole periods keeps a whole number of times what one period keeps. */
  lemma {:induction false} KeptInPeriods(pattern: seq<bool>, phase: nat, periods: nat)
    requires pattern != []
    ensures 0 <= periods * |pattern|
    ensures KeptCount(pattern, phase, periods * |pattern|) == periods * KeptCount(pattern, 0, |pattern|)
  {
    if periods != 0 {
      var len := |pattern|;
      KeptInPeriods(pattern, phase, periods - 1);
      OneMore(periods, len);
      OneMore(periods, KeptCount(pattern, 0, len));
      var earlier := (periods - 1) * len;
      KeptPerPeriod(pattern, phase + earlier);
      KeptCountConcat(pattern, phase, earlier, len);
    }
  }

  /** Of any sixteen coded bits every pattern keeps at least eight. */
  lemma EnoughIsKept(p: PunctType, phase: nat)
    ensures 8 <= KeptCount(Pattern(p), phase, 16) <= 16
  {
    var pattern, len := Pattern(p), PatternLen(p);
    var periods := match p case NoPuncturing => 16 case Ecss23 => 4 case Ecss34 => 5 case Ecss56 => 2 case Ecss78 => 1;
    KeptInOnePeriod(p);
    KeptInPeriods(pattern, phase, periods);
    KeptCountBounded(pattern, phase, 16);
    if periods * len <= 16 {
      KeptCountConcat(pattern, phase, periods * len, 16 - periods * len);
    } else {
      KeptCountConcat(pattern, phase, 16, periods * len - 16);
      KeptCountBounded(pattern, phase + 16, periods * len - 16);
    }
  }

  lemma {:induction false} KeptIsAll(pattern: seq<bool>, phase: nat, n: nat)
    requires pattern == [true]
    ensures KeptCount(pattern, phase, n) == n
  {
    if n != 0 {
      KeptIsAll(pattern, phase, n - 1);
    }
  }

  /** Which bits of the coded stream survive. */
  lemma PatternWrittenOut(p: PunctType, n: nat)
    ensures KeepsAt(Pattern(p), n) <==>
      match p
      case NoPuncturing => true
      case Ecss23 => n % 4 != 2
      case Ecss34 => n % 3 != 2
      case Ecss56 => n % 10 in {0, 1, 3, 4, 7, 8}
      case Ecss78 => n % 14 in {0, 1, 3, 5, 7, 8, 11, 12}
  {
  }
}
