// The sliding window of the frame synchroniser (lib/frame_sync_buffer.cc): history,
// current block and overlap in one array that is rotated by a block at a time, and a
// correlation array that is kept up to date as samples arrive.
module SyncBuffer {
  import opened Samples

  function MinusCapZero(a: int, b: int): int {
    if a >= b then a - b else 0
  }

  function Smaller(a: int, b: int): int {
    if a < b then a else b
  }

  /** The effect of a rotation to the left, as std::rotate performs it on a whole array. */
  method RotateLeft<T>(a: array<T>, k: nat)
    requires k <= a.Length
    modifies a
    ensures a[..] == old(a[k..] + a[..k])
  {
    forall i | 0 <= i < a.Length {
      a[i] := if i + k < a.Length then a[i + k] else a[i + k - a.Length];
    }
  }

  class FrameSyncBuffer {
    const blockLen: nat
    const historyLen: nat
    const asmConj: seq<Complex>
    const signal: array<Complex>
    const correlation: array<Complex>
    var numItems: nat
    var offset: nat
    // Every sample that was ever read, from the very first one.
    ghost var stream: seq<Complex>

    function AsmLen(): nat { |asmConj| }

    function BufferLen(): int { historyLen + blockLen + AsmLen() - 1 }

    /** The fields fit together and the counters agree with the stream. */
    ghost predicate Consistent()
      reads this
    {
      && 1 <= blockLen && 1 <= AsmLen() && 2 <= historyLen + blockLen
      && signal != correlation
      && signal.Length == BufferLen()
      && correlation.Length == historyLen + blockLen
      && historyLen <= numItems <= BufferLen()
      && (offset != 0 ==> historyLen + AsmLen() - 1 <= numItems)
      && |stream| == offset + numItems - historyLen
    }

    /** The sample that slot `i` of a window at `offset` stands for. */
    ghost function SampleAt(s: seq<Complex>, offset: int, i: int): Complex {
      At(s, offset + i - historyLen)
    }

    /** The direct correlation of the samples that start in slot `i` of that window. */
    ghost function CorrelationAt(s: seq<Complex>, offset: int, i: int): Complex {
      Correlation(s, offset + i - historyLen, asmConj)
    }

    /** What a slot of the current block holds before this window has computed it: the
        correlation one array length earlier. Without history the last slot is never
        computed at all. */
    ghost function StaleAt(s: seq<Complex>, offset: int, i: int): Complex {
      if offset == 0 || (historyLen == 0 && i == blockLen - 1) then ZERO
      else CorrelationAt(s, offset, i - historyLen - blockLen)
    }

    /** Slot `i` of the signal stands for stream position offset + i - history; the
        correlation agrees with the direct one wherever the loop has reached, and is
        one array length behind in the part of the block it has not. */
    ghost predicate Valid()
      reads this, signal, correlation
    {
      && Consistent()
      && SignalCurrent()
      && CorrelationCurrent(stream, numItems - AsmLen(), numItems - AsmLen())
    }

    ghost predicate SignalCurrent()
      reads this, signal
      requires Consistent()
    {
      forall i :: 0 <= i < numItems ==> signal[i] == SampleAt(stream, offset, i)
    }

    /** The slots below `computed` are direct correlations, those of the block from `stale` on are stale. */
    ghost predicate CorrelationCurrent(s: seq<Complex>, computed: int, stale: int)
      reads this, correlation
      requires computed <= correlation.Length == historyLen + blockLen
    {
      && (forall i :: 0 <= i < computed ==> correlation[i] == CorrelationAt(s, offset, i))
      && (forall i :: historyLen <= i < correlation.Length && stale <= i ==>
            correlation[i] == StaleAt(s, offset, i))
    }

    /** Neither the computed nor the stale correlations depend on samples yet to come. */
    lemma CorrelationSurvivesReading(s: seq<Complex>, more: seq<Complex>, computed: int, stale: int)
      requires Consistent() && numItems - AsmLen() >= computed
      requires |s| == offset + numItems - historyLen
      requires CorrelationCurrent(s, computed, stale)
      ensures CorrelationCurrent(s + more, computed, stale)
    {
      forall i | 0 <= i < computed
        ensures CorrelationAt(s + more, offset, i) == CorrelationAt(s, offset, i)
      {
        CorrelationIsStable(s, more, offset + i - historyLen, asmConj);
      }
      forall i | historyLen <= i < correlation.Length
        ensures StaleAt(s + more, offset, i) == StaleAt(s, offset, i)
      {
        if offset != 0 {
          CorrelationIsStable(s, more, offset + i - 2 * historyLen - blockLen, asmConj);
        }
      }
    }

    constructor (blockLen: nat, asmConj: seq<Complex>, historyFrames: nat, headLen: nat)
      requires 1 <= blockLen && 1 <= |asmConj|
      requires 2 <= historyFrames * blockLen + headLen + blockLen
      ensures Valid() && fresh(signal) && fresh(correlation)
      ensures this.blockLen == blockLen && this.asmConj == asmConj
      ensures historyLen == historyFrames * blockLen + headLen
      ensures stream == [] && offset == 0 && numItems == historyLen
    {
      var history := historyFrames * blockLen + headLen;
      this.blockLen, this.asmConj, this.historyLen := blockLen, asmConj, history;
      signal := new Complex[history + blockLen + |asmConj| - 1](_ => ZERO);
      correlation := new Complex[history + blockLen](_ => ZERO);
      numItems, offset := history, 0;
      stream := [];
      new;
      hide Valid;
      SilenceIsValid();
    }

    /** Arrays of zeros stand for the time before the stream. */
    lemma SilenceIsValid()
      requires Consistent() && stream == [] && offset == 0 && numItems == historyLen
      requires forall i :: 0 <= i < signal.Length ==> signal[i] == ZERO
      requires forall i :: 0 <= i < correlation.Length ==> correlation[i] == ZERO
      ensures Valid()
    {
      hide CorrelationAt;
      forall i | 0 <= i < numItems - AsmLen()
        ensures CorrelationAt(stream, offset, i) == ZERO
      {
        NothingCorrelatesToZero(i);
      }
    }

    lemma NothingCorrelatesToZero(i: nat)
      requires i < historyLen
      ensures CorrelationAt([], 0, i) == ZERO
    {
      SilenceCorrelatesToZero(Window([], i - historyLen, AsmLen()), asmConj);
    }

    predicate Full()
      reads this
    {
      numItems == BufferLen()
    }

    function NumSymbolsMissing(): int
      reads this
    {
      BufferLen() - numItems
    }

    function OffsetStart(): int
      reads this
    {
      MinusCapZero(offset, historyLen)
    }

    function OffsetLastSymbol(): int
      reads this
    {
      offset + MinusCapZero(numItems, historyLen + 1)
    }

    function LocalOffset(pos: int): int
      reads this
    {
      MinusCapZero(pos + historyLen, offset)
    }

    /** One step of the correlation loop: slot `i` turns from stale to computed. */
    method CorrelateSlot(i: nat)
      requires Consistent() && SignalCurrent()
      requires i < numItems - AsmLen()
      requires CorrelationCurrent(stream, i, i)
      modifies correlation
      ensures CorrelationCurrent(stream, i + 1, i + 1)
    {
      assert signal[i..i + AsmLen()] == Window(stream, offset + i - historyLen, AsmLen());
      correlation[i] := Dot(signal[i..i + AsmLen()], asmConj);
      assert correlation[i] == CorrelationAt(stream, offset, i);
    }

    /** Takes as many of the available samples as fit and extends the correlation. */
    method ReadSignal(input: seq<Complex>) returns (numCopy: nat)
      requires Valid()
      modifies this`numItems, this`stream, signal, correlation
      ensures Valid()
      ensures numCopy == Smaller(|input|, old(NumSymbolsMissing()))
      ensures numItems == old(numItems) + numCopy
      ensures stream == old(stream) + input[..numCopy]
    {
      numCopy := Smaller(|input|, BufferLen() - numItems);
      var indexStart := numItems;
      CorrelationSurvivesReading(stream, input[..numCopy], indexStart - AsmLen(), indexStart - AsmLen());
      forall j | 0 <= j < numCopy {
        signal[indexStart + j] := input[j];
      }
      numItems := numItems + numCopy;
      stream := stream + input[..numCopy];
      var i := MinusCapZero(indexStart, AsmLen());
      while i < MinusCapZero(numItems, AsmLen())
        modifies correlation
        invariant MinusCapZero(indexStart, AsmLen()) <= i <= MinusCapZero(numItems, AsmLen())
        invariant Consistent() && SignalCurrent()
        invariant CorrelationCurrent(stream, i, i)
      {
        CorrelateSlot(i);
        i := i + 1;
      }
    }

    /** Moves the window on by one block. */
    method Advance()
      requires Valid() && Full()
      modifies this`numItems, this`offset, signal, correlation
      ensures Valid()
      ensures offset == old(offset) + blockLen
      ensures numItems == old(numItems) - blockLen
    {
      hide SampleAt, CorrelationAt, StaleAt;
      NeverComputedWithoutHistory();
      ghost var signalBefore, correlationBefore := signal[..], correlation[..];
      RotateLeft(signal, blockLen);
      RotateLeft(correlation, blockLen);
      numItems := numItems - blockLen;
      offset := offset + blockLen;
      SignalAfterRotation(signalBefore);
      CorrelationAfterRotation(correlationBefore);
    }

    lemma NeverComputedWithoutHistory()
      requires Valid() && Full()
      ensures historyLen == 0 ==> correlation[blockLen - 1] == ZERO
    {
    }

    /** The signal is current after it has been rotated by a block. */
    lemma SignalAfterRotation(before: seq<Complex>)
      requires Consistent() && numItems + blockLen <= |before|
      requires signal[..] == before[blockLen..] + before[..blockLen]
      requires forall i :: 0 <= i < numItems + blockLen ==> before[i] == SampleAt(stream, offset - blockLen, i)
      ensures SignalCurrent()
    {
      forall i | 0 <= i < numItems
        ensures signal[i] == SampleAt(stream, offset, i)
      {
        assert signal[i] == signal[..][i] == before[i + blockLen];
        assert SampleAt(stream, offset, i) == SampleAt(stream, offset - blockLen, i + blockLen);
      }
    }

    /** So is the correlation; what was rotated into the block is stale. */
    lemma CorrelationAfterRotation(before: seq<Complex>)
      requires Consistent() && blockLen <= offset && blockLen <= |before|
      requires numItems - AsmLen() == historyLen - 1
      requires correlation[..] == before[blockLen..] + before[..blockLen]
      requires forall i :: 0 <= i < |before| - 1 ==> before[i] == CorrelationAt(stream, offset - blockLen, i)
      requires historyLen == 0 ==> before[blockLen - 1] == ZERO
      ensures CorrelationCurrent(stream, numItems - AsmLen(), numItems - AsmLen())
    {
      forall i | 0 <= i < historyLen - 1
        ensures correlation[i] == CorrelationAt(stream, offset, i)
      {
        assert correlation[i] == correlation[..][i] == before[i + blockLen];
        assert CorrelationAt(stream, offset, i) == CorrelationAt(stream, offset - blockLen, i + blockLen);
      }
      forall i | historyLen <= i < correlation.Length
        ensures correlation[i] == StaleAt(stream, offset, i)
      {
        assert correlation[i] == correlation[..][i] == before[i - historyLen];
        if historyLen != 0 || i != blockLen - 1 {
          assert CorrelationAt(stream, offset, i - historyLen - blockLen)
              == CorrelationAt(stream, offset - blockLen, i - historyLen);
        }
      }
    }

    /** When the block is searched, every position but the last has its correlation; the
        last still shows the one that lies a whole correlation array earlier. */
    lemma SearchSeesAllButTheLast(i: nat)
      requires Valid() && Full() && i < blockLen
      ensures correlation[historyLen + i] ==
        if i < blockLen - 1 then Correlation(stream, offset + i, asmConj)
        else if offset == 0 || historyLen == 0 then ZERO
        else Correlation(stream, offset + i - historyLen - blockLen, asmConj)
    {
      if i < blockLen - 1 {
        assert correlation[historyLen + i] == CorrelationAt(stream, offset, historyLen + i);
      }
    }

    /** The availability test admits exactly the positions whose correlation is computed. */
    lemma AvailableMeansComputed(pos: nat)
      requires Valid() && historyLen < numItems
      ensures OffsetStart() <= pos && OffsetLastSymbol() >= pos + AsmLen()
         <==> offset <= pos + historyLen && LocalOffset(pos) < numItems - AsmLen()
      ensures OffsetStart() <= pos && OffsetLastSymbol() >= pos + AsmLen() ==>
        correlation[LocalOffset(pos)] == Correlation(stream, pos, asmConj)
    {
      if OffsetStart() <= pos && OffsetLastSymbol() >= pos + AsmLen() {
        assert correlation[LocalOffset(pos)] == CorrelationAt(stream, offset, LocalOffset(pos));
      }
    }
  }
}
