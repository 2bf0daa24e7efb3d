// The ambiguity resolver block (lib/mpsk_ambiguity_resolver_f_impl.cc): it searches a marker
// under every rotation, locks on one, and cuts frames out of the stream while it finds the
// marker again. Bits are counted from the start of the stream; symbols are `m` bits long,
// markers and frames need not be whole symbols.
module AmbiguityResolver {
  import opened Arithmetic
  import opened Constellation
  import opened Rotation
  import opened Correlator
  import opened Options
  import opened MarkChain

  datatype State = Search | Lock

  class Resolver {
    const s: Settings
    const searchLenMin: nat
    const searchLenMax: nat
    ghost const stream: Stream
    var state: State
    var count: nat
    var lockedOnStream: nat
    var offsetBits: nat
    var msgBuffer: seq<real>
    var msgBufferCount: nat
    var msgBufferFill: bool
    var frameCount: nat
    var correlation: real
    // The number of soft bits consumed in earlier calls.
    var nitemsRead: nat
    // The messages on the output port, and for each of them the marker it follows.
    var published: seq<Message>
    ghost var marks: seq<Mark>
    // The marker of the frame at hand.
    ghost var mark: Mark
    // Whether all searches so far saw as much input as they ask for.
    ghost var full: bool

    ghost predicate ConstantsOk() {
      && s.Valid()
      && searchLenMin == s.SearchLenMin() && searchLenMax == s.SearchLenMax()
    }

    /** The markers accepted so far, that of a frame that is still filled included. */
    ghost function Accepted(): seq<Mark>
      reads this`state, this`msgBufferFill, this`marks, this`mark
    {
      if state.Lock? && msgBufferFill then marks + [mark] else marks
    }

    /** The machine's state, when the next unconsumed soft bit is the one at position `at`. */
    ghost predicate StateOk(at: nat)
      reads this`state, this`count, this`lockedOnStream, this`offsetBits, this`msgBuffer, this`msgBufferCount,
            this`msgBufferFill, this`frameCount, this`correlation, this`published, this`marks, this`mark
    {
      && ConstantsOk() && at % s.k.m == 0
      && msgBufferCount < s.OutLen() && count <= s.threshold
      && match state
         case Search => SearchOk(at)
         case Lock =>
           && offsetBits < s.k.m && lockedOnStream < s.k.Order()
           && mark.ambiguity == lockedOnStream && mark.first == correlation
           && if msgBufferFill then FillOk(at) else CheckOk(at)
    }

    /** A search starts after the last frame but for a part of a symbol, when its lock is lost. */
    ghost predicate SearchOk(at: nat)
      requires s.Valid()
      reads this`offsetBits, this`msgBufferCount, this`frameCount, this`published, this`marks, this`mark
    {
      && offsetBits == 0 && msgBufferCount == 0
      && frameCount == |published| + mark.lock
      && mark.lock == (if marks == [] then 0 else marks[|marks| - 1].lock)
      && (marks != [] ==> End(s, marks[|marks| - 1]) < at + s.k.m && Lost(s, stream, marks))
    }

    /** While a frame is filled, the buffer is the start of its slice. */
    ghost predicate FillOk(at: nat)
      requires s.Valid() && lockedOnStream < s.k.Order() && msgBufferCount < s.OutLen()
      reads this`lockedOnStream, this`offsetBits, this`msgBuffer, this`msgBufferCount,
            this`frameCount, this`published, this`marks, this`mark
    {
      && at + offsetBits == mark.at + s.AsmLen() + msgBufferCount
      && frameCount == |published| + mark.lock
      && (0 < msgBufferCount ==>
            |msgBuffer| == s.OutLen() &&
            msgBuffer[..msgBufferCount] == Slice(Rotated(s.k, stream, lockedOnStream), mark.at + s.AsmLen(), msgBufferCount))
    }

    /** Otherwise the next marker is expected right after the last frame. */
    ghost predicate CheckOk(at: nat)
      requires s.Valid()
      reads this`offsetBits, this`msgBufferCount, this`frameCount, this`published, this`marks, this`mark
    {
      && msgBufferCount == 0 && frameCount + 1 == |published| + mark.lock
      && marks != [] && marks[|marks| - 1] == mark
      && at + offsetBits == End(s, mark)
    }

    /** The markers accepted so far form a chain, and none before this position was missed. */
    ghost predicate ChainValid(at: nat)
      requires s.Valid()
      reads this`state, this`count, this`msgBufferFill, this`published, this`marks, this`mark, this`full
    {
      && HistoryOk(s, stream, published, marks)
      && ChainOk(s, stream, Accepted())
      && NothingMissed(s, stream, Accepted(), if state.Lock? then End(s, mark) else at)
      && (state.Lock? ==> CountAt(s, Accepted()) == Some(count))
      && (full ==> FullChain(s, stream, Accepted()) && (state.Search? ==> AtStretch(s, stream, marks, at)))
    }

    ghost predicate Valid(at: nat)
      reads this`state, this`count, this`lockedOnStream, this`offsetBits, this`msgBuffer, this`msgBufferCount,
            this`msgBufferFill, this`frameCount, this`correlation, this`published, this`marks, this`mark, this`full
    {
      StateOk(at) && ChainValid(at)
    }

    constructor (s: Settings, ghost stream: Stream)
      requires s.Valid()
      ensures Valid(0) && nitemsRead == 0 && published == [] && full
      ensures this.s == s && this.stream == stream
    {
      this.s := s;
      searchLenMin := UpperMul(s.AsmLen() + s.k.m, s.k.m);
      searchLenMax := UpperMul(s.FrameLenBits() + s.numTail + 2 * s.AsmLen() - 1, s.k.m);
      this.stream := stream;
      state, count, lockedOnStream, offsetBits := Search, 0, 0, 0;
      msgBuffer, msgBufferCount, msgBufferFill, frameCount, correlation := [], 0, false, 0, 0.0;
      nitemsRead, published, marks, mark, full := 0, [], [], Mark(0, 0, 0, 0.0, 0.0), true;
      new;
      hide UpperMul;
      SmallRemainder(0, s.k.m);
      NothingAtStart();
    }

    lemma NothingAtStart()
      requires s.Valid()
      ensures AtStretch(s, stream, [], 0)
    {
      assert 0 == StretchStart(s, [], 0) && AllEmpty(s, stream, [], 0);
    }

    /** Progress that consumes nothing leads down this order; filling an empty buffer always
        consumes. */
    ghost function Rank(): nat
      reads this
    {
      if state.Search? then 1 else if !msgBufferFill then 2 else if msgBufferCount == 0 then 0 else 3
    }

    lemma WhatIsValid(at: nat)
      requires Valid(at)
      ensures ConstantsOk() && at % s.k.m == 0 && 1 <= s.AsmLen() && 0 < s.k.m
    {
    }

    // ----- searching -----

    /** Searches one ambiguity. */
    method SearchStream(input: seq<real>, a: nat, ghost at: nat) returns (max: real, offset: nat)
      requires s.Valid() && a < s.k.Order()
      requires Reads(input, stream, at) && at % s.k.m == 0 && |input| % s.k.m == 0 && s.AsmLen() <= |input|
      ensures BestOf(s, stream, a, at, |input|, offset, max) && -1.0 <= max
    {
      hide Rotated, RotateSymbol, InverseMaps, Correlation;
      var inSyms := new real[|input|];
      ConvertAmbiguity(s.k, inSyms, input, a, stream, at);
      max, offset := SearchForAsm(s.asm, inSyms[..]);
      ghost var rotated := Rotated(s.k, stream, a);
      forall o: nat | o + s.AsmLen() <= |input|
        ensures CorrelationAt(s.asm, inSyms[..], o) == QualityFrom(s, stream, a, at, o)
      {
        SliceOfSlice(rotated, at, |input|, o, s.AsmLen());
      }
      QualityBounded(s, stream, a, at + offset);
    }

    /** Searches the stretch under every ambiguity, up to the first perfect match. */
    method SearchAll(input: seq<real>, ghost at: nat) returns (maxCorr: real, maxAmb: nat, offset: nat)
      requires s.Valid()
      requires Reads(input, stream, at) && at % s.k.m == 0 && |input| % s.k.m == 0 && s.AsmLen() <= |input|
      ensures BestAmong(s, stream, s.k.Order(), at, |input|, maxAmb, offset, maxCorr)
    {
      hide QualityAt, Rotated, InverseMaps;
      maxCorr, maxAmb, offset := -1.0, 0, 0;
      for i := 0 to s.k.Order()
        invariant -1.0 <= maxCorr && (i == 0 ==> maxCorr == -1.0 && maxAmb == 0 && offset == 0)
        invariant 0 < i ==> BestAmong(s, stream, i, at, |input|, maxAmb, offset, maxCorr)
      {
        var corr, o := SearchStream(input, i, at);
        if i == 0 && corr == -1.0 {
          WorstIsFirst(at, |input|, o, corr);
        }
        if corr > maxCorr {
          maxCorr, maxAmb, offset := corr, i, o;
          if maxCorr >= 1.0 {
            PerfectIsBest(i, at, |input|, offset, maxCorr);
            return;
          }
        }
      }
    }

    /** If the best correlation is the worst possible one, the first position has it too. */
    lemma WorstIsFirst(at: nat, searchLen: nat, offset: nat, max: real)
      requires s.Valid() && BestOf(s, stream, 0, at, searchLen, offset, max) && max == -1.0
      ensures offset == 0
    {
      QualityBounded(s, stream, 0, at);
      hide QualityAt;
      assert QualityFrom(s, stream, 0, at, 0) == QualityAt(s, stream, 0, at);
    }

    /** A perfect match that beats all earlier ambiguities need not fear the later ones. */
    lemma PerfectIsBest(i: nat, at: nat, searchLen: nat, offset: nat, max: real)
      requires s.Valid() && i < s.k.Order() && BestAmong(s, stream, i + 1, at, searchLen, i, offset, max) && max >= 1.0
      ensures BestAmong(s, stream, s.k.Order(), at, searchLen, i, offset, max)
    {
      forall a: nat, o: nat | a < s.k.Order() && o + s.AsmLen() <= searchLen
        ensures QualityFrom(s, stream, a, at, o) <= max && (a < i ==> QualityFrom(s, stream, a, at, o) < max)
      {
        QualityBounded(s, stream, a, at + o);
      }
    }

    function SearchLen(available: nat): nat
      requires 0 < s.k.m
    {
      LowerMul(if available < searchLenMax then available else searchLenMax, s.k.m)
    }

    /** Whatever is searched holds a marker and all but one bit of a symbol more. */
    lemma StretchIsLongEnough(available: nat)
      requires ConstantsOk() && searchLenMin <= available
      ensures s.AsmLen() <= SearchLen(available) <= available && SearchLen(available) % s.k.m == 0
      ensures s.AsmLen() + s.k.m <= SearchLen(available) + 1 && SearchLen(available) <= searchLenMax
      ensures SearchLen(available) == searchLenMax <==> searchLenMax <= available
    {
      if available < searchLenMax {
        LowerMulIsHighest(searchLenMin, available, s.k.m);
      } else {
        LowerMulIsHighest(searchLenMax, searchLenMax, s.k.m);
      }
    }

    /** Locks on the best marker of a stretch: the frame starts right after it. */
    method LockOn(amb: nat, offset: nat, corr: real, ghost searchLen: nat, ghost at: nat) returns (n: nat)
      requires Valid(at) && state.Search? && searchLen <= searchLenMax
      requires BestAmong(s, stream, s.k.Order(), at, searchLen, amb, offset, corr) && s.correlationThreshold < corr
      modifies this`state, this`count, this`lockedOnStream, this`offsetBits, this`correlation,
               this`msgBufferFill, this`frameCount, this`mark, this`full
      ensures n <= offset + s.AsmLen() && n % s.k.m == 0 && Valid(at + n)
      ensures state.Lock? && msgBufferFill && msgBufferCount == 0
      ensures mark.at == at + offset && mark.ambiguity == amb && mark.quality == corr
      ensures full == (old(full) && searchLen == searchLenMax)
    {
      hide *;
      WhatIsValid(at);
      ghost var next := Mark(mark.lock + 1, amb, at + offset, corr, corr);
      NewLock(at, next, searchLen, full && searchLen == searchLenMax);
      n := LowerMul(offset + s.AsmLen(), s.k.m);
      full := full && searchLen == searchLenMax;
      state, count, lockedOnStream, correlation := Lock, 0, amb, corr;
      msgBufferFill := true;
      frameCount := frameCount + 1;
      mark := next;
      offsetBits := (offset + s.AsmLen()) % s.k.m;
      AlignedSum(at, n, s.k.m);
      FillStartsOk(at + n);
    }

    /** What a frame that is about to be filled needs. */
    lemma FillStartsOk(at: nat)
      requires ConstantsOk() && at % s.k.m == 0 && 0 < s.OutLen() && count <= s.threshold
      requires state.Lock? && msgBufferFill && msgBufferCount == 0
      requires offsetBits < s.k.m && lockedOnStream < s.k.Order()
      requires mark.ambiguity == lockedOnStream && mark.first == correlation
      requires at + offsetBits == mark.at + s.AsmLen() && frameCount == |published| + mark.lock
      requires HistoryOk(s, stream, published, marks) && FrameOk(marks + [mark], mark, count, full)
      ensures Valid(at)
    {
      hide HistoryOk, ChainOk, NothingMissed, FullChain, CountAt;
    }

    /** What is to hold of the chain once a marker has been added to it. */
    ghost predicate FrameOk(ms: seq<Mark>, last: Mark, count: nat, full: bool)
      requires s.Valid()
    {
      && ChainOk(s, stream, ms) && NothingMissed(s, stream, ms, End(s, last))
      && CountAt(s, ms) == Some(count) && (full ==> FullChain(s, stream, ms))
    }

    /** The best marker of a stretch may start a new lock. */
    lemma NewLock(at: nat, next: Mark, searchLen: nat, stillFull: bool)
      requires Valid(at) && state.Search? && searchLen <= searchLenMax
      requires at <= next.at && next.lock == mark.lock + 1 && next.first == next.quality
      requires BestAmong(s, stream, s.k.Order(), at, searchLen, next.ambiguity, next.at - at, next.quality)
      requires s.correlationThreshold < next.quality
      requires stillFull ==> full && searchLen == searchLenMax
      ensures FrameOk(marks + [next], next, 0, stillFull)
      ensures next.ambiguity < s.k.Order() && HistoryOk(s, stream, published, marks)
      ensures msgBufferCount == 0 && frameCount == |published| + mark.lock && 0 < s.OutLen()
    {
      hide QualityAt, HistoryOk, NothingMissed, ChainOk, FullChain, AtStretch, BestAmong, FoundInFull, Lost, IsMarker, InverseMaps;
      BestPassesOver(s, stream, at, searchLen, next.ambiguity, next.at - at, next.quality);
      ChainGrows(s, stream, marks, next);
      NewLockMissesNothing(s, stream, marks, next, at);
      OneMoreMark(s, marks, next);
      if stillFull {
        FoundFromHere(at, next);
        FullChainGrows(s, stream, marks, next);
      }
    }

    lemma FoundFromHere(at: nat, next: Mark)
      requires s.Valid() && AtStretch(s, stream, marks, at) && at <= next.at && s.correlationThreshold < next.quality
      requires BestAmong(s, stream, s.k.Order(), at, s.SearchLenMax(), next.ambiguity, next.at - at, next.quality)
      ensures FoundInFull(s, stream, marks, next)
    {
      hide BestAmong, AllEmpty, StretchStart;
      var i: nat :| at == StretchStart(s, marks, i) && AllEmpty(s, stream, marks, i);
      assert FoundAfter(s, stream, marks, next, i);
    }

    /** Skips an empty stretch, but for the positions it has no room for. */
    method Skip(ghost searchLen: nat, n: nat, ghost at: nat)
      requires Valid(at) && state.Search? && s.AsmLen() <= searchLen <= searchLenMax
      requires EmptyStretch(s, stream, at, searchLen) && n == LowerMul(searchLen + 1 - s.AsmLen(), s.k.m)
      modifies this`offsetBits, this`full
      ensures Valid(at + n) && full == (old(full) && searchLen == searchLenMax)
    {
      hide HistoryOk, ChainOk, NothingMissed, FullChain, AtStretch, CountAt, Lost, EmptyStretch, LowerMul, UpperMul, InverseMaps, IsMarker;
      SkipMissesNothing(s, stream, marks, at, searchLen, n);
      if full && searchLen == searchLenMax {
        NextStretch(at, n);
      }
      full := full && searchLen == searchLenMax;
      offsetBits := 0;
      AlignedSum(at, n, s.k.m);
    }

    lemma NextStretch(at: nat, n: nat)
      requires s.Valid() && AtStretch(s, stream, marks, at) && EmptyStretch(s, stream, at, s.SearchLenMax())
      requires n == LowerMul(s.SearchLenMax() + 1 - s.AsmLen(), s.k.m)
      ensures AtStretch(s, stream, marks, at + n)
    {
      hide EmptyStretch, LowerMul;
      var i: nat :| at == StretchStart(s, marks, i) && AllEmpty(s, stream, marks, i);
      assert at + n == StretchStart(s, marks, i + 1) && AllEmpty(s, stream, marks, i + 1);
    }

    /** The lock is on the best marker of the stretch. */
    ghost predicate LockedOnBest(at: nat, searchLen: nat)
      requires s.Valid()
      reads this`mark
    {
      at <= mark.at && BestAmong(s, stream, s.k.Order(), at, searchLen, mark.ambiguity, mark.at - at, mark.quality)
    }

    /** Searching: locks on the best marker, if it is good enough, or skips what was searched,
        and nothing that might still start a marker above the threshold. */
    method SearchStep(rest: seq<real>, ghost at: nat) returns (abort: bool, n: nat)
      requires Valid(at) && state.Search? && Reads(rest, stream, at)
      modifies this`state, this`count, this`lockedOnStream, this`offsetBits, this`correlation,
               this`msgBufferFill, this`frameCount, this`mark, this`full
      ensures n <= |rest| && n % s.k.m == 0 && Valid(at + n)
      ensures abort <==> |rest| < searchLenMin
      ensures abort ==> n == 0 && state.Search? && full == old(full)
      ensures !abort ==> 0 < n || (state.Lock? && Rank() == 0)
      ensures !abort ==> full == (old(full) && searchLenMax <= |rest|)
      ensures !abort && state.Search? ==> EmptyStretch(s, stream, at, SearchLen(|rest|))
      ensures state.Lock? ==> LockedOnBest(at, SearchLen(|rest|))
    {
      hide StateOk, ChainValid, BestAmong, EmptyStretch, LowerMul, UpperMul, InverseMaps, IsMarker, SearchLen, QualityAt;
      WhatIsValid(at);
      if |rest| < searchLenMin { return true, 0; }
      abort := false;
      StretchIsLongEnough(|rest|);
      var searchLen := SearchLen(|rest|);
      var maxCorr, maxAmb, offset := SearchAll(rest[..searchLen], at);
      BestBelowThreshold(s, stream, at, searchLen, maxAmb, offset, maxCorr);
      if maxCorr > s.correlationThreshold {
        BestPassesOver(s, stream, at, searchLen, maxAmb, offset, maxCorr);
        n := LockOn(maxAmb, offset, maxCorr, searchLen, at);
      } else {
        n := LowerMul(searchLen - (s.AsmLen() - 1), s.k.m);
        AtLeastOne(searchLen);
        Skip(searchLen, n, at);
      }
    }

    lemma AtLeastOne(searchLen: nat)
      requires s.k.Valid() && s.AsmLen() + s.k.m <= searchLen + 1 && 1 <= s.AsmLen() <= searchLen
      ensures 0 < LowerMul(searchLen - (s.AsmLen() - 1), s.k.m)
      ensures LowerMul(searchLen - (s.AsmLen() - 1), s.k.m) % s.k.m == 0
    {
    }

    // ----- filling -----

    /** Puts as many soft bits as there are into the message buffer. */
    method StoreBits(bits: seq<real>, skip: nat, toCopy: nat)
      requires s.Valid() && msgBufferCount + toCopy <= s.OutLen() && skip + toCopy <= |bits|
      requires 0 < msgBufferCount ==> |msgBuffer| == s.OutLen()
      modifies this`msgBuffer, this`msgBufferCount
      ensures |msgBuffer| == s.OutLen() && msgBufferCount == old(msgBufferCount) + toCopy
      ensures 0 < old(msgBufferCount) ==>
        msgBuffer[..msgBufferCount] == old(msgBuffer)[..old(msgBufferCount)] + bits[skip..skip + toCopy]
      ensures old(msgBufferCount) == 0 ==> msgBuffer[..msgBufferCount] == bits[skip..skip + toCopy]
    {
      if msgBufferCount == 0 {
        msgBuffer := seq(s.OutLen(), _ => 0.0);
      }
      ghost var before := msgBuffer;
      for i := 0 to toCopy
        modifies this`msgBuffer
        invariant |msgBuffer| == s.OutLen()
        invariant msgBuffer[..msgBufferCount + i] == before[..msgBufferCount] + bits[skip..skip + i]
      {
        msgBuffer := msgBuffer[msgBufferCount + i := bits[i + skip]];
        assert bits[skip..skip + i + 1] == bits[skip..skip + i] + [bits[i + skip]];
      }
      msgBufferCount := msgBufferCount + toCopy;
    }

    /** How many soft bits a fill reads, and how many of them go into the buffer. */
    lemma FillProgress(available: nat, toBuffer: nat, toCopy: nat)
      requires s.Valid() && offsetBits < s.k.m && msgBufferCount < s.OutLen() && UpperMul(1, s.k.m) <= available
      requires toBuffer == Min(LowerMul(available, s.k.m), UpperMul(s.OutLen() - msgBufferCount + offsetBits, s.k.m))
      requires offsetBits <= toBuffer && toCopy == Min(s.OutLen() - msgBufferCount, toBuffer - offsetBits)
      ensures s.k.m <= toBuffer <= available && toBuffer % s.k.m == 0 && 0 < toCopy
      ensures toCopy < s.OutLen() - msgBufferCount || msgBufferCount == 0 ==> 0 < LowerMul(toCopy + offsetBits, s.k.m)
    {
      var m := s.k.m;
      UpperMulOfOneOrMore(s.OutLen() - msgBufferCount + offsetBits, m);
      RemainderOf(m, 1, 0);
      LowerMulIsHighest(m, available, m);
      if toCopy < s.OutLen() - msgBufferCount || msgBufferCount == 0 {
        LowerMulIsHighest(m, toCopy + offsetBits, m);
      }
    }

    lemma BufferFits(available: nat)
      requires s.Valid() && offsetBits < s.k.m && msgBufferCount < s.OutLen() && UpperMul(1, s.k.m) <= available
      ensures offsetBits <= Min(LowerMul(available, s.k.m), UpperMul(s.OutLen() - msgBufferCount + offsetBits, s.k.m))
    {
      var m := s.k.m;
      UpperMulOfOneOrMore(s.OutLen() - msgBufferCount + offsetBits, m);
      RemainderOf(m, 1, 0);
      LowerMulIsHighest(m, available, m);
    }

    /** Removes the ambiguity from whole symbols. */
    method ConvertInput(input: seq<real>, ghost at: nat) returns (inSyms: seq<real>)
      requires s.k.Valid() && lockedOnStream < s.k.Order()
      requires Reads(input, stream, at) && at % s.k.m == 0 && |input| % s.k.m == 0
      ensures inSyms == Slice(Rotated(s.k, stream, lockedOnStream), at, |input|)
    {
      hide *;
      var converted := new real[|input|];
      ConvertAmbiguity(s.k, converted, input, lockedOnStream, stream, at);
      inSyms := converted[..];
    }

    /** Removes the ambiguity from whole symbols and stores the bits of the frame in them. */
    method ReadFrameBits(input: seq<real>, toCopy: nat, ghost at: nat)
      requires s.Valid() && lockedOnStream < s.k.Order() && msgBufferCount < s.OutLen() && FillOk(at)
      requires Reads(input, stream, at) && at % s.k.m == 0 && |input| % s.k.m == 0
      requires offsetBits + toCopy <= |input| && msgBufferCount + toCopy <= s.OutLen()
      modifies this`msgBuffer, this`msgBufferCount
      ensures msgBufferCount == old(msgBufferCount) + toCopy && |msgBuffer| == s.OutLen()
      ensures msgBuffer[..msgBufferCount]
           == Slice(Rotated(s.k, stream, lockedOnStream), mark.at + s.AsmLen(), msgBufferCount)
    {
      hide Rotated, InverseMaps, Slice, IsMarker, FillOk, Reads;
      var inSyms := ConvertInput(input, at);
      NextBitsOfFrame(|input|, toCopy, at);
      StoreBits(inSyms, offsetBits, toCopy);
    }

    /** The next bits of the input follow those in the buffer. */
    lemma NextBitsOfFrame(len: nat, toCopy: nat, at: nat)
      requires s.Valid() && lockedOnStream < s.k.Order() && msgBufferCount < s.OutLen() && FillOk(at)
      requires offsetBits + toCopy <= len
      ensures 0 < msgBufferCount ==> |msgBuffer| == s.OutLen()
      ensures var rotated, start := Rotated(s.k, stream, lockedOnStream), mark.at + s.AsmLen();
              var bits := Slice(rotated, at, len)[offsetBits..offsetBits + toCopy];
              Slice(rotated, start, msgBufferCount + toCopy)
              == if 0 < msgBufferCount then msgBuffer[..msgBufferCount] + bits else bits
    {
      hide Rotated, InverseMaps, Slice, IsMarker;
      var rotated, start := Rotated(s.k, stream, lockedOnStream), mark.at + s.AsmLen();
      assert at + offsetBits == start + msgBufferCount;
      SliceOfSlice(rotated, at, len, offsetBits, toCopy);
      if 0 < msgBufferCount {
        SliceJoin(rotated, start, msgBufferCount, toCopy);
      }
    }

    /** Appends the next bits of the frame to the buffer. */
    method FillBuffer(rest: seq<real>, at: nat) returns (n: nat)
      requires StateOk(at) && state.Lock? && msgBufferFill && Reads(rest, stream, at) && UpperMul(1, s.k.m) <= |rest|
      modifies this`offsetBits, this`msgBuffer, this`msgBufferCount
      ensures n <= |rest| && n % s.k.m == 0 && (at + n) % s.k.m == 0
      ensures old(msgBufferCount) < msgBufferCount <= s.OutLen() && |msgBuffer| == s.OutLen() && offsetBits < s.k.m
      ensures at + n + offsetBits == mark.at + s.AsmLen() + msgBufferCount
      ensures msgBuffer[..msgBufferCount]
           == Slice(Rotated(s.k, stream, lockedOnStream), mark.at + s.AsmLen(), msgBufferCount)
      ensures msgBufferCount < s.OutLen() || old(msgBufferCount) == 0 ==> 0 < n
    {
      hide Rotated, InverseMaps, Slice, IsMarker, UpperMul, LowerMul;
      BufferFits(|rest|);
      var toBuffer := Min(LowerMul(|rest|, s.k.m), UpperMul(s.OutLen() - msgBufferCount + offsetBits, s.k.m));
      var toCopy := Min(s.OutLen() - msgBufferCount, toBuffer - offsetBits);
      FillProgress(|rest|, toBuffer, toCopy);
      ReadFrameBits(rest[..toBuffer], toCopy, at);
      n := LowerMul(toCopy + offsetBits, s.k.m);
      offsetBits := (toCopy + offsetBits) % s.k.m;
      AlignedSum(at, n, s.k.m);
    }

    /** Filling: appends the next bits of the frame; a full frame is published. */
    method FillStep(rest: seq<real>, at: nat) returns (abort: bool, n: nat)
      requires Valid(at) && state.Lock? && msgBufferFill && Reads(rest, stream, at)
      modifies this`offsetBits, this`msgBuffer, this`msgBufferCount, this`msgBufferFill, this`published, this`marks
      ensures n <= |rest| && n % s.k.m == 0 && Valid(at + n)
      ensures abort <==> |rest| < UpperMul(1, s.k.m)
      ensures abort ==> n == 0 && msgBufferFill && msgBufferCount == old(msgBufferCount)
      ensures !abort ==> 0 < n || (0 < old(msgBufferCount) && !msgBufferFill)
      ensures old(published) <= published
    {
      hide ChainOk, HistoryOk, NothingMissed, FullChain, CountAt, Rotated, InverseMaps, Slice, IsMarker, UpperMul;
      if |rest| < UpperMul(1, s.k.m) { return true, 0; }
      abort := false;
      n := FillBuffer(rest, at);
      if msgBufferCount >= s.OutLen() {
        PublishFrame(at + n);
      }
    }

    /** Publishes a full buffer; the next thing to do is to check for the next marker. */
    method PublishFrame(at: nat)
      requires ConstantsOk() && at % s.k.m == 0 && state.Lock? && msgBufferFill && count <= s.threshold
      requires ChainValid(at) && frameCount == |published| + mark.lock && correlation == mark.first
      requires offsetBits < s.k.m && lockedOnStream < s.k.Order() && mark.ambiguity == lockedOnStream
      requires |msgBuffer| == msgBufferCount == s.OutLen()
      requires at + offsetBits == End(s, mark)
      requires msgBuffer == Slice(Rotated(s.k, stream, lockedOnStream), mark.at + s.AsmLen(), s.OutLen())
      modifies this`msgBufferCount, this`msgBufferFill, this`published, this`marks
      ensures Valid(at) && !msgBufferFill && old(published) <= published
    {
      hide ChainOk, HistoryOk, NothingMissed, FullChain, CountAt, Rotated, InverseMaps, IsMarker, Slice;
      var from := at + offsetBits - s.OutLen();
      var msg := Message(frameCount, from, correlation, msgBuffer);
      HistoryGrows(s, stream, published, marks, msg, mark);
      published := published + [msg];
      marks := marks + [mark];
      msgBufferCount := 0;
      msgBufferFill := false;
    }

    // ----- checking -----

    /** The correlation where the next marker is due. */
    ghost function QualityDue(at: nat): real
      requires s.Valid() && lockedOnStream < s.k.Order()
      reads this
    {
      QualityAt(s, stream, lockedOnStream, at + offsetBits)
    }

    /** How well the marker does where it is due. */
    method CheckMarker(input: seq<real>, ghost at: nat) returns (corr: real)
      requires s.Valid() && lockedOnStream < s.k.Order()
      requires Reads(input, stream, at) && at % s.k.m == 0 && |input| % s.k.m == 0
      requires offsetBits + s.AsmLen() <= |input|
      ensures corr == QualityDue(at)
    {
      hide Rotated, InverseMaps, Correlation;
      var inSyms := ConvertInput(input, at);
      corr := CheckForAsm(s.asm, inSyms, offsetBits);
      SliceOfSlice(Rotated(s.k, stream, lockedOnStream), at, |input|, offsetBits, s.AsmLen());
    }

    function CountIfLocked(): Option<nat>
      reads this
    {
      if state.Search? then None else Some(count)
    }

    /** Checking: looks for the marker where the next one is due. Without it, the lock is
        kept while there is confidence left; after that the same bits are searched again. */
    method CheckStep(rest: seq<real>, at: nat) returns (abort: bool, n: nat)
      requires Valid(at) && state.Lock? && !msgBufferFill && Reads(rest, stream, at)
      modifies this`state, this`count, this`offsetBits, this`msgBufferFill, this`frameCount, this`mark
      ensures n <= |rest| && n % s.k.m == 0 && Valid(at + n)
      ensures abort <==> |rest| < UpperMul(s.AsmLen() + old(offsetBits), s.k.m)
      ensures abort ==> n == 0 && state.Lock? && !msgBufferFill && offsetBits == old(offsetBits)
      ensures !abort ==> (n == 0 && state.Search?) || (state.Lock? && msgBufferFill && msgBufferCount == 0)
      ensures !abort ==>
        Confidence(old(count), s.threshold, s.correlationThreshold < old(QualityDue(at))) == CountIfLocked()
    {
      hide StateOk, ChainValid, QualityAt, InverseMaps, IsMarker, UpperMul, LowerMul, FrameOk, HistoryOk, End;
      WhatIsChecked(at);
      var checkLen := UpperMul(s.AsmLen() + offsetBits, s.k.m);
      if |rest| < checkLen { return true, 0; }
      abort, n := false, 0;
      var corr := CheckMarker(rest[..checkLen], at);
      if corr > s.correlationThreshold {
        n := StayLocked(Min(count + 1, s.threshold), corr, at);
      } else if count > 1 {
        n := StayLocked(count - 1, corr, at);
      } else {
        LoseLock(corr, at);
      }
    }

    lemma WhatIsChecked(at: nat)
      requires Valid(at) && state.Lock? && !msgBufferFill
      ensures ConstantsOk() && at % s.k.m == 0 && 0 < s.k.m
      ensures lockedOnStream < s.k.Order() && offsetBits < s.k.m && msgBufferCount == 0 && count <= s.threshold
      ensures mark.ambiguity == lockedOnStream && at + offsetBits == End(s, mark) && mark.first == correlation
      ensures marks != [] && marks[|marks| - 1] == mark && frameCount + 1 == |published| + mark.lock
      ensures HistoryOk(s, stream, published, marks) && FrameOk(marks, mark, count, full) && 0 < s.OutLen()
    {
      hide ChainOk, HistoryOk, NothingMissed, FullChain, CountAt;
    }

    /** The marker counts as found where it was due; the next frame follows it. */
    method StayLocked(newCount: nat, corr: real, ghost at: nat) returns (n: nat)
      requires Valid(at) && state.Lock? && !msgBufferFill && corr == QualityDue(at) && newCount <= s.threshold
      requires Confidence(count, s.threshold, s.correlationThreshold < corr) == Some(newCount)
      modifies this`count, this`offsetBits, this`msgBufferFill, this`frameCount, this`mark
      ensures n <= s.AsmLen() + old(offsetBits) && n % s.k.m == 0 && Valid(at + n)
      ensures msgBufferFill && msgBufferCount == 0 && count == newCount
    {
      hide StateOk, ChainValid, QualityAt, LowerMul, UpperMul, FrameOk, InverseMaps, IsMarker, HistoryOk;
      WhatIsChecked(at);
      ghost var next := Mark(mark.lock, lockedOnStream, at + offsetBits, corr, correlation);
      NextOfLock(at, next, newCount);
      n := LowerMul(s.AsmLen() + offsetBits, s.k.m);
      frameCount := frameCount + 1;
      mark := next;
      count := newCount;
      offsetBits := (s.AsmLen() + offsetBits) % s.k.m;
      msgBufferFill := true;
      AlignedSum(at, n, s.k.m);
      FillStartsOk(at + n);
    }

    /** The marker that is due continues the chain while there is confidence left. */
    lemma NextOfLock(at: nat, next: Mark, newCount: nat)
      requires s.Valid() && FrameOk(marks, mark, count, full) && marks != [] && marks[|marks| - 1] == mark
      requires next.lock == mark.lock && next.ambiguity == mark.ambiguity && next.at == End(s, mark) && next.first == mark.first
      requires MarkOk(s, stream, next)
      requires Confidence(count, s.threshold, s.correlationThreshold < next.quality) == Some(newCount)
      ensures FrameOk(marks + [next], next, newCount, full)
    {
      hide MarkOk, ChainOk, NothingMissed, FullChain, ConfidenceAfter, Checks, Confidence, Lost, FoundInFull;
      OneMoreMark(s, marks, next);
      OneMoreCheck(0, s.threshold, Checks(s, marks), s.correlationThreshold < next.quality);
      ChainGrows(s, stream, marks, next);
      NextFrameMissesNothing(s, stream, marks, next, End(s, mark));
      if full {
        FullChainGrows(s, stream, marks, next);
      }
    }

    /** The lock is given up, and the search starts again where the marker was due. */
    method LoseLock(corr: real, ghost at: nat)
      requires Valid(at) && state.Lock? && !msgBufferFill && corr == QualityDue(at)
      requires corr <= s.correlationThreshold && count <= 1
      modifies this`state, this`count, this`offsetBits, this`frameCount
      ensures Valid(at) && state.Search?
    {
      hide QualityAt, HistoryOk, ChainOk, NothingMissed, FullChain, ConfidenceAfter, Checks, AtStretch, InverseMaps, IsMarker;
      OneMoreCheck(0, s.threshold, Checks(s, marks), false);
      NothingMissedEarlier(s, stream, marks, End(s, mark), at);
      SearchStartsHere(at);
      state, count, offsetBits, frameCount := Search, 0, 0, frameCount + 1;
    }

    lemma SearchStartsHere(at: nat)
      requires s.Valid() && at % s.k.m == 0 && offsetBits < s.k.m
      requires marks != [] && at + offsetBits == End(s, marks[|marks| - 1])
      ensures AtStretch(s, stream, marks, at)
    {
      SameInSymbol(at, offsetBits, s.k.m);
      SmallRemainder(offsetBits, s.k.m);
      hide LowerMul, End;
      assert at == StretchStart(s, marks, 0) && AllEmpty(s, stream, marks, 0);
    }

    // ----- the machine -----

    /** One turn of the machine. */
    method Turn(rest: seq<real>, at: nat) returns (abort: bool, n: nat)
      requires Valid(at) && Reads(rest, stream, at)
      modifies this`state, this`count, this`lockedOnStream, this`offsetBits, this`correlation, this`frameCount, this`mark, this`full,
               this`msgBuffer, this`msgBufferCount, this`msgBufferFill, this`published, this`marks
      ensures n <= |rest| && Whole(n) && Valid(at + n)
      ensures abort ==> n == 0 && |rest| < Needed()
      ensures !abort ==> 0 < n || Rank() < old(Rank())
      ensures old(published) <= published
    {
      hide ChainValid, IsMarker, InverseMaps, LowerMul, UpperMul, EmptyStretch, LockedOnBest, QualityDue, SearchOk, FillOk, CheckOk;
      match state {
        case Search =>
          abort, n := SearchStep(rest, at);
        case Lock =>
          if msgBufferFill {
            abort, n := FillStep(rest, at);
          } else {
            abort, n := CheckStep(rest, at);
          }
      }
    }

    /** A number of soft bits that is a number of symbols. */
    ghost predicate Whole(n: nat) {
      0 < s.k.m && n % s.k.m == 0
    }

    lemma WidthIsPositive(at: nat)
      requires Valid(at)
      ensures 0 < s.k.m
    {
    }

    lemma NothingIsWhole()
      requires 0 < s.k.m
      ensures Whole(0)
    {
      SmallRemainder(0, s.k.m);
    }

    lemma WholeSum(a: nat, b: nat)
      requires Whole(a) && Whole(b)
      ensures Whole(a + b)
    {
      AlignedSum(a, b, s.k.m);
    }

    /** One call: runs the machine until it needs more input than there is. */
    method GeneralWork(input: seq<real>) returns (numConsumed: nat)
      requires Valid(nitemsRead) && Reads(input, stream, nitemsRead)
      modifies this
      ensures numConsumed <= |input| && Whole(numConsumed)
      ensures nitemsRead == old(nitemsRead) + numConsumed && Valid(nitemsRead)
      ensures old(published) <= published
      ensures |input| - numConsumed < Needed()
    {
      hide *;
      WidthIsPositive(nitemsRead);
      numConsumed := 0;
      NothingIsWhole();
      var abort := false;
      while !abort
        invariant numConsumed <= |input| && Whole(numConsumed)
        invariant nitemsRead == old(nitemsRead) && Valid(nitemsRead + numConsumed)
        invariant old(published) <= published
        invariant abort ==> |input| - numConsumed < Needed()
        decreases !abort, |input| - numConsumed, Rank()
      {
        var n;
        ReadsOn(input, stream, nitemsRead, numConsumed);
        abort, n := Turn(input[numConsumed..], nitemsRead + numConsumed);
        WholeSum(numConsumed, n);
        numConsumed := numConsumed + n;
      }
      nitemsRead := nitemsRead + numConsumed;
    }

    /** Everything that looks like a marker in what was consumed so far lies in an accepted frame,
        or was passed over for a better marker that began a lock. */
    lemma NoMarkerIsMissed(at: nat, a: nat, p: nat) returns (k: nat)
      requires Valid(at) && a < s.k.Order() && p < at && s.correlationThreshold < QualityAt(s, stream, a, p)
      ensures k < |Accepted()|
      ensures InFrame(s, Accepted(), k, p) || PassedOver(s, Accepted(), k, p, QualityAt(s, stream, a, p))
    {
      hide QualityAt;
      assert Accounted(s, Accepted(), p, QualityAt(s, stream, a, p));
      k :| k < |Accepted()| && (InFrame(s, Accepted(), k, p) || PassedOver(s, Accepted(), k, p, QualityAt(s, stream, a, p)));
    }

    /** What a message says: its length, its number, and the bits of the stream from its offset
        on under the ambiguity of its lock. */
    lemma MessageWrittenOut(at: nat, i: nat)
      requires Valid(at) && i < |published|
      ensures |published| == |marks| && marks[i].ambiguity < s.k.Order()
      ensures var m, a := published[i], marks[i].ambiguity;
        && m.frameNumber == i + marks[i].lock
        && |m.bits| == 8 * s.frameLenBytes + s.numTail && |s.asm| <= m.frameOffset
        && forall j :: 0 <= j < |m.bits| ==> m.bits[j] == Rotated(s.k, stream, a)(m.frameOffset + j)
    {
      hide Rotated, ChainOk, NothingMissed, FullChain, StateOk, IsMarker;
      MarksAreAChain(at);
      assert MessageOk(s, stream, published[i], marks[i]);
    }

    /** Its correlation is that of the message before in the same lock; on the first one of a
        lock it is that of the marker, and above the threshold. Locks are numbered from one. */
    lemma MessageCorrelation(at: nat, i: nat)
      requires Valid(at) && i < |published|
      ensures |published| == |marks| && marks[0].lock == 1 && marks[i].ambiguity < s.k.Order()
      ensures |s.asm| <= published[i].frameOffset
      ensures var m, a := published[i], marks[i].ambiguity;
        if i > 0 && marks[i - 1].lock == marks[i].lock then m.correlation == published[i - 1].correlation
        else
          && m.correlation == Correlation(s.asm, Slice(Rotated(s.k, stream, a), m.frameOffset - |s.asm|, |s.asm|))
          && s.correlationThreshold < m.correlation
    {
      hide Rotated, ChainOk, NothingMissed, FullChain, Correlation, StateOk, IsMarker, Slice;
      MarksAreAChain(at);
      MarkAt(s, stream, marks, i);
      assert MessageOk(s, stream, published[i], marks[i]);
      assert i > 0 ==> MessageOk(s, stream, published[i - 1], marks[i - 1]);
    }

    /** What it waits for, counted in bits: whole symbols, the fewest that hold what the state
        needs, which is a marker and a symbol to search, a bit to fill, and the marker that is due
        to check. */
    lemma NeededWrittenOut()
      requires ConstantsOk()
      ensures Needed() % s.k.m == 0
      ensures state.Search? ==> |s.asm| + s.k.m <= Needed() < |s.asm| + 2 * s.k.m
      ensures state.Lock? && msgBufferFill ==> Needed() == s.k.m
      ensures state.Lock? && !msgBufferFill ==> |s.asm| + offsetBits <= Needed() < |s.asm| + offsetBits + s.k.m
    {
      hide IsMarker, InverseMaps;
      UpperMulOfOneOrMore(1, s.k.m);
      SearchLengths(s);
    }

    /** Frames follow each other in the stream; they may overlap by less than a symbol. */
    lemma FrameOffsetsIncrease(i: nat, j: nat)
      requires s.Valid() && HistoryOk(s, stream, published, marks) && ChainOk(s, stream, marks) && i < j < |published|
      ensures s.k.m <= s.OutLen() ==> published[i].frameOffset + s.OutLen() < published[j].frameOffset + s.k.m
      ensures s.k.m <= s.OutLen() ==> published[i].frameOffset < published[j].frameOffset
      ensures i + 1 == j ==> published[i].frameOffset + s.OutLen() < published[j].frameOffset + s.k.m
      decreases j
    {
      hide HistoryOk, ChainOk, IsMarker;
      FollowsTheLast(j);
      if i + 1 < j {
        FrameOffsetsIncrease(i, j - 1);
      }
    }

    lemma FollowsTheLast(j: nat)
      requires s.Valid() && HistoryOk(s, stream, published, marks) && ChainOk(s, stream, marks) && 0 < j < |published|
      ensures published[j - 1].frameOffset + s.OutLen() < published[j].frameOffset + s.k.m
    {
      hide QualityAt, Slice, Rotated, CountAt, Lost;
      assert marks[..j][j - 1] == marks[j - 1];
      assert Starts(s, stream, marks[..j], marks[j]);
      assert MessageOk(s, stream, published[j - 1], marks[j - 1]) && MessageOk(s, stream, published[j], marks[j]);
    }

    /** Frames of one lock follow each other without a gap but for the marker. */
    lemma FramesOfALockAreAdjacent(i: nat)
      requires s.Valid() && HistoryOk(s, stream, published, marks) && ChainOk(s, stream, marks)
      requires i + 1 < |published| && marks[i].lock == marks[i + 1].lock
      ensures published[i + 1].frameOffset == published[i].frameOffset + s.OutLen() + s.AsmLen()
      ensures marks[i + 1].ambiguity == marks[i].ambiguity
    {
      hide QualityAt, Slice, Rotated, CountAt, Lost;
      assert marks[..i + 1][i] == marks[i];
      assert Starts(s, stream, marks[..i + 1], marks[i + 1]);
      assert MessageOk(s, stream, published[i], marks[i]) && MessageOk(s, stream, published[i + 1], marks[i + 1]);
    }

    /** Between two locks, the first was lost by the rule: the marker it was due next was not
        above the threshold, and the checks had left no confidence for another miss. */
    lemma LocksAreLostByTheRule(at: nat, k: nat)
      requires Valid(at) && 0 < k < |Accepted()| && IsFirst(Accepted(), k)
      ensures Lost(s, stream, Accepted()[..k])
    {
      hide QualityAt, Lost, HistoryOk, NothingMissed, FullChain, CountAt;
      var ms := Accepted();
      assert ms[..k][k - 1] == ms[k - 1];
      assert Starts(s, stream, ms[..k], ms[k]);
    }

    lemma MarksAreAChain(at: nat)
      requires Valid(at)
      ensures s.Valid() && HistoryOk(s, stream, published, marks) && ChainOk(s, stream, marks)
      ensures full ==> FullChain(s, stream, marks)
    {
      hide MarkOk, Starts, HistoryOk, NothingMissed, CountAt, FoundInFull, AtStretch, SearchOk, FillOk, CheckOk;
      var ms := Accepted();
      assert forall k :: 0 <= k < |marks| ==> ms[k] == marks[k] && ms[..k] == marks[..k];
    }

    /** How many soft bits the machine waits for. */
    function Needed(): nat
      requires 0 < s.k.m
      reads this`state, this`msgBufferFill, this`offsetBits
    {
      if state.Search? then searchLenMin
      else UpperMul(if msgBufferFill then 1 else s.AsmLen() + offsetBits, s.k.m)
    }
  }

  lemma ReadsOn(input: seq<real>, stream: Stream, at: nat, n: nat)
    requires n <= |input| && Reads(input, stream, at)
    ensures Reads(input[n..], stream, at + n)
  {
  }

  lemma SliceJoin(stream: Stream, p: nat, m: nat, n: nat)
    ensures Slice(stream, p, m) + Slice(stream, p + m, n) == Slice(stream, p, m + n)
  {
  }

  /** If all their searches saw as much input as they ask for, two resolvers of the same stream
      publish the same messages, as far as both have come, however the calls were cut. */
  lemma CutsDoNotMatterForFullSearches(a: Resolver, b: Resolver, x: nat, y: nat, i: nat)
    requires a.Valid(x) && b.Valid(y) && a.full && b.full && a.s == b.s && a.stream == b.stream
    requires i < |a.published| && i < |b.published|
    ensures a.published[i] == b.published[i]
  {
    hide a.Valid, b.Valid, ChainOk, FullChain, MessageOk;
    a.MarksAreAChain(x);
    b.MarksAreAChain(y);
    ChainIsUnique(a.s, a.stream, a.marks, b.marks, i + 1);
    assert a.marks[..i + 1][i] == a.marks[i] && b.marks[..i + 1][i] == b.marks[i];
    SameMessage(a.s, a.stream, a.published[i], b.published[i], a.marks[i]);
  }

  lemma SameMessage(s: Settings, stream: Stream, m: Message, n: Message, mark: Mark)
    requires s.Valid() && MessageOk(s, stream, m, mark) && MessageOk(s, stream, n, mark) && m.frameNumber == n.frameNumber
    ensures m == n
  {
  }
}
