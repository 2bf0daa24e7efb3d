// What the ambiguity resolver (lib/mpsk_ambiguity_resolver_f_impl.cc) makes of a stream: the
// chain of markers it accepts, how far a lock may be trusted, what a search may pass over,
// and which messages follow. All of this is about the stream, not about the calls.
module MarkChain {
  import opened Arithmetic
  import opened Constellation
  import opened Rotation
  import opened Correlator
  import opened Options

  datatype Settings = Settings(
    k: Psk, asm: seq<real>, threshold: nat, correlationThreshold: real, frameLenBytes: nat, numTail: nat)
  {
    /** The marker is not empty, and a frame takes up a symbol or more. */
    ghost predicate Valid() {
      k.Valid() && IsMarker(asm) && k.m <= OutLen()
    }

    function AsmLen(): nat { |asm| }

    function FrameLenBits(): nat { frameLenBytes * 8 }

    /** The bits of one message. */
    function OutLen(): nat { FrameLenBits() + numTail }

    function SearchLenMin(): nat
      requires 0 < k.m
    {
      UpperMul(AsmLen() + k.m, k.m)
    }

    function SearchLenMax(): nat
      requires 0 < k.m && 1 <= OutLen()
    {
      UpperMul(OutLen() + 2 * AsmLen() - 1, k.m)
    }
  }

  datatype Message = Message(frameNumber: nat, frameOffset: nat, correlation: real, bits: seq<real>)

  /** The marker that a message follows: in which lock, under which ambiguity, where, how
      well it correlated, and how well the marker did on which the lock began. */
  datatype Mark = Mark(lock: nat, ambiguity: nat, at: nat, quality: real, first: real)

  function Min(a: nat, b: nat): nat { if a < b then a else b }

  /** Where the frame of a marker ends, and the next marker is due. */
  function End(s: Settings, mark: Mark): nat { mark.at + s.AsmLen() + s.OutLen() }

  /** Frames of at least a byte do. */
  lemma BytesAreEnough(s: Settings)
    requires s.k.Valid() && IsMarker(s.asm) && 1 <= s.frameLenBytes
    ensures s.Valid()
  {
  }

  /** The correlation of the stream with the marker at a position under an ambiguity. */
  ghost function QualityAt(s: Settings, stream: Stream, a: nat, p: nat): real
    requires s.Valid() && a < s.k.Order()
  {
    Correlation(s.asm, Slice(Rotated(s.k, stream, a), p, s.AsmLen()))
  }

  /** The same, counted from the start of a stretch of the stream. */
  ghost function QualityFrom(s: Settings, stream: Stream, a: nat, at: nat, offset: nat): real
    requires s.Valid() && a < s.k.Order()
  {
    QualityAt(s, stream, a, at + offset)
  }

  lemma QualityBounded(s: Settings, stream: Stream, a: nat, p: nat)
    requires s.Valid() && a < s.k.Order()
    ensures -1.0 <= QualityAt(s, stream, a, p) <= 1.0
  {
    CorrelationBounded(s.asm, Slice(Rotated(s.k, stream, a), p, s.AsmLen()));
  }

  // ----- confidence in a lock -----

  /** The confidence after a check, unless the lock is lost. */
  function Confidence(count: nat, threshold: nat, found: bool): Option<nat> {
    if found then Some(Min(count + 1, threshold)) else if count > 1 then Some(count - 1) else None
  }

  /** The same after several checks. */
  function ConfidenceAfter(count: nat, threshold: nat, found: seq<bool>): Option<nat> {
    if found == [] then Some(count)
    else
      match ConfidenceAfter(count, threshold, found[..|found| - 1])
      case None => None
      case Some(c) => Confidence(c, threshold, found[|found| - 1])
  }

  lemma OneMoreCheck(count: nat, threshold: nat, found: seq<bool>, b: bool)
    ensures ConfidenceAfter(count, threshold, found + [b])
         == match ConfidenceAfter(count, threshold, found)
            case None => None
            case Some(c) => Confidence(c, threshold, b)
  {
    assert (found + [b])[..|found|] == found;
  }

  function Times(n: nat, b: bool): seq<bool> { seq(n, _ => b) }

  /** Markers found in a row buy as many misses, up to the threshold, but for the last one. */
  lemma {:induction false} HitsBuyMisses(count: nat, threshold: nat, hits: nat, misses: nat)
    requires count <= threshold
    ensures ConfidenceAfter(count, threshold, Times(hits, true) + Times(misses, false))
         == var c := Min(count + hits, threshold);
            if misses == 0 then Some(c) else if c <= misses then None else Some(c - misses)
    decreases hits + misses
  {
    var run := Times(hits, true) + Times(misses, false);
    if misses > 0 {
      assert run == (Times(hits, true) + Times(misses - 1, false)) + [false];
      HitsBuyMisses(count, threshold, hits, misses - 1);
      OneMoreCheck(count, threshold, Times(hits, true) + Times(misses - 1, false), false);
    } else if hits > 0 {
      assert run == (Times(hits - 1, true) + Times(0, false)) + [true];
      HitsBuyMisses(count, threshold, hits - 1, 0);
      OneMoreCheck(count, threshold, Times(hits - 1, true) + Times(0, false), true);
    }
  }

  // ----- the chain of markers -----

  ghost predicate MarkOk(s: Settings, stream: Stream, mark: Mark)
    requires s.Valid()
  {
    mark.ambiguity < s.k.Order() && mark.quality == QualityAt(s, stream, mark.ambiguity, mark.at)
  }

  /** Mark `k` begins a lock. */
  predicate IsFirst(ms: seq<Mark>, k: nat)
    requires k < |ms|
  {
    k == 0 || ms[k - 1].lock != ms[k].lock
  }

  /** Which of the checks in the last lock found the marker above the threshold. */
  function Checks(s: Settings, ms: seq<Mark>): seq<bool> {
    if ms == [] || IsFirst(ms, |ms| - 1) then []
    else Checks(s, ms[..|ms| - 1]) + [s.correlationThreshold < ms[|ms| - 1].quality]
  }

  lemma OneMoreMark(s: Settings, ms: seq<Mark>, mark: Mark)
    ensures Checks(s, ms + [mark])
         == if ms == [] || ms[|ms| - 1].lock != mark.lock then []
            else Checks(s, ms) + [s.correlationThreshold < mark.quality]
  {
    var ns := ms + [mark];
    assert ns[..|ms|] == ms && ns[|ms|] == mark;
    assert ms != [] ==> ns[|ms| - 1] == ms[|ms| - 1];
  }

  /** The confidence in the last lock. */
  function CountAt(s: Settings, ms: seq<Mark>): Option<nat> {
    ConfidenceAfter(0, s.threshold, Checks(s, ms))
  }

  /** How a check counts, written out: a marker above the threshold adds one to the confidence, up
      to its threshold; any other one takes one away, and with no more than one left the lock goes. */
  lemma OneMoreInLock(s: Settings, ms: seq<Mark>, mark: Mark, c: nat)
    requires ms != [] && ms[|ms| - 1].lock == mark.lock && CountAt(s, ms) == Some(c)
    ensures CountAt(s, ms + [mark]) ==
      if mark.quality > s.correlationThreshold then Some(if c < s.threshold then c + 1 else s.threshold)
      else if c <= 1 then None else Some(c - 1)
  {
    hide ConfidenceAfter, Checks;
    OneMoreMark(s, ms, mark);
    OneMoreCheck(0, s.threshold, Checks(s, ms), s.correlationThreshold < mark.quality);
  }

  /** A new lock starts without confidence. */
  lemma NoConfidenceAtFirst(s: Settings, ms: seq<Mark>, mark: Mark)
    requires ms != [] ==> ms[|ms| - 1].lock != mark.lock
    ensures CountAt(s, ms + [mark]) == Some(0)
  {
    OneMoreMark(s, ms, mark);
  }

  /** The marker was missed where it was due next, once too often. */
  ghost predicate Lost(s: Settings, stream: Stream, ms: seq<Mark>)
    requires s.Valid()
  {
    && ms != [] && ms[|ms| - 1].ambiguity < s.k.Order()
    && QualityAt(s, stream, ms[|ms| - 1].ambiguity, End(s, ms[|ms| - 1])) <= s.correlationThreshold
    && ConfidenceAfter(0, s.threshold, Checks(s, ms) + [false]).None?
  }

  /** Within a lock the next marker is where the last frame ended, and there is confidence
      left. A new lock starts when the last one is lost, with a marker above the threshold, at
      most a part of a symbol before the end of the last frame. */
  ghost predicate Starts(s: Settings, stream: Stream, ms: seq<Mark>, mark: Mark)
    requires s.Valid()
  {
    if ms == [] then mark.lock == 1 && s.correlationThreshold < mark.quality == mark.first
    else
      var last := ms[|ms| - 1];
      if last.lock == mark.lock then
        mark.at == End(s, last) && mark.ambiguity == last.ambiguity && mark.first == last.first && CountAt(s, ms + [mark]).Some?
      else
        && last.lock + 1 == mark.lock && s.correlationThreshold < mark.quality == mark.first
        && End(s, last) < mark.at + s.k.m && Lost(s, stream, ms)
  }

  ghost predicate ChainOk(s: Settings, stream: Stream, ms: seq<Mark>)
    requires s.Valid()
  {
    forall k :: 0 <= k < |ms| ==> MarkOk(s, stream, ms[k]) && Starts(s, stream, ms[..k], ms[k])
  }

  lemma ChainGrows(s: Settings, stream: Stream, ms: seq<Mark>, mark: Mark)
    requires s.Valid() && ChainOk(s, stream, ms) && MarkOk(s, stream, mark) && Starts(s, stream, ms, mark)
    ensures ChainOk(s, stream, ms + [mark])
  {
    hide MarkOk, Starts;
    var ns := ms + [mark];
    forall k | 0 <= k < |ns|
      ensures MarkOk(s, stream, ns[k]) && Starts(s, stream, ns[..k], ns[k])
    {
      assert ns[..k] == ms[..k] && ms[..|ms|] == ms;
    }
  }

  /** A mark starts a lock above the threshold, or continues one; the first lock is number one. */
  lemma MarkAt(s: Settings, stream: Stream, ms: seq<Mark>, i: nat)
    requires s.Valid() && ChainOk(s, stream, ms) && i < |ms|
    ensures ms[0].lock == 1 && MarkOk(s, stream, ms[i])
    ensures if i > 0 && ms[i - 1].lock == ms[i].lock then ms[i].first == ms[i - 1].first && ms[i].ambiguity == ms[i - 1].ambiguity
            else s.correlationThreshold < ms[i].quality == ms[i].first
  {
    hide s.Valid, MarkOk, Lost, CountAt;
    assert Starts(s, stream, ms[..0], ms[0]);
    assert Starts(s, stream, ms[..i], ms[i]);
    assert i > 0 ==> ms[..i][i - 1] == ms[i - 1];
  }

  // ----- the messages -----

  /** A message is the slice of the rotated stream that follows its marker. */
  ghost predicate MessageOk(s: Settings, stream: Stream, m: Message, mark: Mark)
    requires s.Valid()
  {
    && mark.ambiguity < s.k.Order()
    && m.frameOffset == mark.at + s.AsmLen() && m.correlation == mark.first
    && m.bits == Slice(Rotated(s.k, stream, mark.ambiguity), m.frameOffset, s.OutLen())
  }

  /** Messages are numbered from one on, and every loss of a lock skips a number. */
  ghost predicate HistoryOk(s: Settings, stream: Stream, ms: seq<Message>, marks: seq<Mark>)
    requires s.Valid()
  {
    && |ms| == |marks|
    && forall i :: 0 <= i < |ms| ==> MessageOk(s, stream, ms[i], marks[i]) && ms[i].frameNumber == i + marks[i].lock
  }

  lemma HistoryGrows(s: Settings, stream: Stream, ms: seq<Message>, marks: seq<Mark>, m: Message, mark: Mark)
    requires s.Valid() && HistoryOk(s, stream, ms, marks)
    requires MessageOk(s, stream, m, mark) && m.frameNumber == |ms| + mark.lock
    ensures HistoryOk(s, stream, ms + [m], marks + [mark])
  {
    hide MessageOk;
  }

  // ----- what was accepted, and what was passed over -----

  /** A position lies in the marker or the frame of mark `k`. */
  predicate InFrame(s: Settings, ms: seq<Mark>, k: nat, p: nat)
    requires k < |ms|
  {
    ms[k].at <= p < End(s, ms[k])
  }

  /** A position was passed over when a lock began on mark `k`: no better, before it in the
      same stretch, and after the last frame of the lock before, but for a part of a symbol. */
  predicate PassedOver(s: Settings, ms: seq<Mark>, k: nat, p: nat, quality: real)
    requires k < |ms| && 0 < s.k.m && 1 <= s.OutLen()
  {
    && IsFirst(ms, k) && quality <= ms[k].quality
    && p < ms[k].at && ms[k].at + s.AsmLen() <= p + s.SearchLenMax()
    && (0 < k ==> End(s, ms[k - 1]) < p + s.k.m)
  }

  ghost predicate Accounted(s: Settings, ms: seq<Mark>, p: nat, quality: real)
    requires 0 < s.k.m && 1 <= s.OutLen()
  {
    exists k: nat :: k < |ms| && (InFrame(s, ms, k, p) || PassedOver(s, ms, k, p, quality))
  }

  /** Whatever lies before `to` and looks like a marker, under any ambiguity, belongs to an
      accepted frame or was passed over for a better marker. */
  ghost predicate NothingMissed(s: Settings, stream: Stream, ms: seq<Mark>, to: nat)
    requires s.Valid()
  {
    forall a: nat, p: nat :: a < s.k.Order() && p < to && s.correlationThreshold < QualityAt(s, stream, a, p) ==>
      Accounted(s, ms, p, QualityAt(s, stream, a, p))
  }

  lemma StillAccounted(s: Settings, ms: seq<Mark>, mark: Mark, p: nat, quality: real)
    requires 0 < s.k.m && 1 <= s.OutLen() && Accounted(s, ms, p, quality)
    ensures Accounted(s, ms + [mark], p, quality)
  {
    var k: nat :| k < |ms| && (InFrame(s, ms, k, p) || PassedOver(s, ms, k, p, quality));
    var ns := ms + [mark];
    assert ns[k] == ms[k] && (0 < k ==> ns[k - 1] == ms[k - 1]);
    assert InFrame(s, ns, k, p) || PassedOver(s, ns, k, p, quality);
  }

  lemma NothingMissedEarlier(s: Settings, stream: Stream, ms: seq<Mark>, to: nat, earlier: nat)
    requires s.Valid() && NothingMissed(s, stream, ms, to) && earlier <= to
    ensures NothingMissed(s, stream, ms, earlier)
  {
    hide QualityAt, Accounted;
  }

  /** The next marker of a lock, where the last frame ended. */
  lemma NextFrameMissesNothing(s: Settings, stream: Stream, ms: seq<Mark>, mark: Mark, to: nat)
    requires s.Valid() && NothingMissed(s, stream, ms, to) && mark.at <= to
    ensures NothingMissed(s, stream, ms + [mark], End(s, mark))
  {
    hide QualityAt;
    var ns := ms + [mark];
    forall a: nat, p: nat | a < s.k.Order() && p < End(s, mark) && s.correlationThreshold < QualityAt(s, stream, a, p)
      ensures Accounted(s, ns, p, QualityAt(s, stream, a, p))
    {
      if p < mark.at {
        StillAccounted(s, ms, mark, p, QualityAt(s, stream, a, p));
      } else {
        assert InFrame(s, ns, |ms|, p);
      }
    }
  }

  /** The first marker of a lock, in a stretch that starts at `from`. */
  lemma NewLockMissesNothing(s: Settings, stream: Stream, ms: seq<Mark>, mark: Mark, from: nat)
    requires s.Valid() && NothingMissed(s, stream, ms, from) && from <= mark.at
    requires ms != [] ==> ms[|ms| - 1].lock != mark.lock && End(s, ms[|ms| - 1]) < from + s.k.m
    requires mark.at + s.AsmLen() <= from + s.SearchLenMax()
    requires forall a: nat, p: nat :: a < s.k.Order() && from <= p < mark.at ==> QualityAt(s, stream, a, p) <= mark.quality
    ensures NothingMissed(s, stream, ms + [mark], End(s, mark))
  {
    hide QualityAt;
    var ns := ms + [mark];
    forall a: nat, p: nat | a < s.k.Order() && p < mark.at && s.correlationThreshold < QualityAt(s, stream, a, p)
      ensures Accounted(s, ns, p, QualityAt(s, stream, a, p))
    {
      if p < from {
        StillAccounted(s, ms, mark, p, QualityAt(s, stream, a, p));
      } else {
        assert PassedOver(s, ns, |ms|, p, QualityAt(s, stream, a, p));
      }
    }
    forall a: nat, p: nat | a < s.k.Order() && mark.at <= p < End(s, mark)
      ensures Accounted(s, ns, p, QualityAt(s, stream, a, p))
    {
      assert InFrame(s, ns, |ms|, p);
    }
  }

  // ----- searching a stretch -----

  /** The best marker among those of one ambiguity in a stretch of the stream. */
  ghost predicate BestOf(s: Settings, stream: Stream, a: nat, at: nat, searchLen: nat, offset: nat, max: real)
    requires s.Valid() && a < s.k.Order()
  {
    && offset + s.AsmLen() <= searchLen && max == QualityFrom(s, stream, a, at, offset)
    && forall o: nat :: o + s.AsmLen() <= searchLen ==>
         (QualityFrom(s, stream, a, at, o) <= max && (o < offset ==> QualityFrom(s, stream, a, at, o) < max))
  }

  /** Among the first `n` ambiguities, the best marker in a stretch of the stream, the first
      one in the order of ambiguities and then of positions. */
  ghost predicate BestAmong(s: Settings, stream: Stream, n: nat, at: nat, searchLen: nat, amb: nat, offset: nat, max: real)
    requires s.Valid() && n <= s.k.Order()
  {
    && amb < n && BestOf(s, stream, amb, at, searchLen, offset, max)
    && forall a: nat, o: nat :: a < n && o + s.AsmLen() <= searchLen ==>
         (QualityFrom(s, stream, a, at, o) <= max && (a < amb ==> QualityFrom(s, stream, a, at, o) < max))
  }

  /** None of the positions that a stretch has room for starts a marker above the threshold. */
  ghost predicate EmptyStretch(s: Settings, stream: Stream, at: nat, searchLen: nat)
    requires s.Valid()
  {
    forall a: nat, o: nat :: a < s.k.Order() && o + s.AsmLen() <= searchLen ==>
      QualityFrom(s, stream, a, at, o) <= s.correlationThreshold
  }

  /** The best marker of a stretch is one, and nothing before it is better. */
  lemma BestPassesOver(s: Settings, stream: Stream, at: nat, searchLen: nat, amb: nat, offset: nat, max: real)
    requires s.Valid() && BestAmong(s, stream, s.k.Order(), at, searchLen, amb, offset, max)
    ensures amb < s.k.Order() && offset + s.AsmLen() <= searchLen && max == QualityAt(s, stream, amb, at + offset)
    ensures forall a: nat, p: nat :: a < s.k.Order() && at <= p < at + offset ==> QualityAt(s, stream, a, p) <= max
  {
    hide QualityAt;
    assert QualityFrom(s, stream, amb, at, offset) == QualityAt(s, stream, amb, at + offset);
    forall a: nat, p: nat | a < s.k.Order() && at <= p < at + offset
      ensures QualityAt(s, stream, a, p) <= max
    {
      assert QualityFrom(s, stream, a, at, p - at) <= max;
    }
  }

  lemma BestBelowThreshold(s: Settings, stream: Stream, at: nat, searchLen: nat, amb: nat, offset: nat, max: real)
    requires s.Valid() && BestAmong(s, stream, s.k.Order(), at, searchLen, amb, offset, max)
    ensures max <= s.correlationThreshold <==> EmptyStretch(s, stream, at, searchLen)
  {
    hide QualityFrom;
  }

  /** An empty stretch may be skipped, but for positions it has no room for. */
  lemma SkipMissesNothing(s: Settings, stream: Stream, ms: seq<Mark>, at: nat, searchLen: nat, n: nat)
    requires s.Valid() && NothingMissed(s, stream, ms, at) && EmptyStretch(s, stream, at, searchLen)
    requires n + s.AsmLen() <= searchLen + 1
    ensures NothingMissed(s, stream, ms, at + n)
  {
    hide QualityAt, Accounted, EmptyStretch;
    NoneInEmpty(s, stream, at, searchLen, n);
  }

  lemma NoneInEmpty(s: Settings, stream: Stream, at: nat, searchLen: nat, n: nat)
    requires s.Valid() && EmptyStretch(s, stream, at, searchLen) && n + s.AsmLen() <= searchLen + 1
    ensures forall a: nat, p: nat :: a < s.k.Order() && at <= p < at + n ==> QualityAt(s, stream, a, p) <= s.correlationThreshold
  {
    hide QualityAt;
    forall a: nat, p: nat | a < s.k.Order() && at <= p < at + n
      ensures QualityAt(s, stream, a, p) <= s.correlationThreshold
    {
      assert QualityFrom(s, stream, a, at, p - at) <= s.correlationThreshold;
    }
  }

  lemma BestIsUnique(s: Settings, stream: Stream, at: nat, searchLen: nat, a: nat, o: nat, x: real, b: nat, q: nat, y: real)
    requires s.Valid()
    requires BestAmong(s, stream, s.k.Order(), at, searchLen, a, o, x) && BestAmong(s, stream, s.k.Order(), at, searchLen, b, q, y)
    ensures a == b && o == q && x == y
  {
    hide QualityFrom;
  }

  /** How much input a search asks for: the fewest whole symbols that hold a marker however
      it is aligned, and at most the fewest that hold a frame with a marker at either end, less a bit. */
  lemma SearchLengths(s: Settings)
    requires s.Valid()
    ensures s.SearchLenMin() % s.k.m == 0
    ensures |s.asm| + s.k.m <= s.SearchLenMin() < |s.asm| + 2 * s.k.m
    ensures s.SearchLenMax() % s.k.m == 0
    ensures 8 * s.frameLenBytes + s.numTail + 2 * |s.asm| <= s.SearchLenMax() + 1
    ensures s.SearchLenMax() < 8 * s.frameLenBytes + s.numTail + 2 * |s.asm| - 1 + s.k.m
  {
  }

  /** Counted in bits: what is passed over for a marker begins less than a frame, its tail, a
      marker and a symbol before it. */
  lemma PassedOverInBits(s: Settings, ms: seq<Mark>, k: nat, p: nat, quality: real)
    requires s.Valid() && k < |ms| && PassedOver(s, ms, k, p, quality)
    ensures p < ms[k].at && ms[k].at + 1 < p + 8 * s.frameLenBytes + s.numTail + |s.asm| + s.k.m
    ensures quality <= ms[k].quality && (0 < k ==> ms[k - 1].lock != ms[k].lock)
    ensures 0 < k ==> ms[k - 1].at + |s.asm| + 8 * s.frameLenBytes + s.numTail < p + s.k.m
  {
    SearchLengths(s);
  }

  // ----- searches that see all they ask for -----

  /** Where the search for the next lock begins. */
  function SearchStart(s: Settings, ms: seq<Mark>): nat
    requires 0 < s.k.m
  {
    if ms == [] then 0 else LowerMul(End(s, ms[|ms| - 1]), s.k.m)
  }

  /** Where its stretch `i` begins, if all of them are as long as may be. */
  function StretchStart(s: Settings, ms: seq<Mark>, i: nat): nat
    requires s.k.Valid() && 1 <= s.OutLen()
  {
    if i == 0 then SearchStart(s, ms)
    else StretchStart(s, ms, i - 1) + LowerMul(StepLen(s), s.k.m)
  }

  function StepLen(s: Settings): nat
    requires 0 < s.k.m && 1 <= s.OutLen()
  {
    s.SearchLenMax() + 1 - s.AsmLen()
  }

  /** With shorter frames a lost lock on an aligned marker may lead back to that very marker. */
  lemma SearchedAgainIffShort(s: Settings, ms: seq<Mark>, mark: Mark)
    requires 0 < s.k.m && mark.at % s.k.m == 0
    ensures SearchStart(s, ms + [mark]) <= mark.at <==> s.AsmLen() + s.OutLen() < s.k.m
  {
    var x := s.AsmLen() + s.OutLen();
    SameInSymbol(mark.at, x, s.k.m);
    assert (ms + [mark])[|ms|] == mark;
    if x < s.k.m {
      SmallRemainder(x, s.k.m);
    } else {
      AlignedSum(mark.at, LowerMul(x, s.k.m), s.k.m);
      LowerMulIsHighest(s.k.m, x, s.k.m);
      RemainderOf(s.k.m, 1, 0);
      LowerMulIsHighest(mark.at + LowerMul(x, s.k.m), mark.at + x, s.k.m);
    }
  }

  ghost predicate AllEmpty(s: Settings, stream: Stream, ms: seq<Mark>, i: nat)
    requires s.Valid()
  {
    forall j: nat :: j < i ==> EmptyStretch(s, stream, StretchStart(s, ms, j), s.SearchLenMax())
  }

  /** The mark is the best of the first full stretch that is not empty. */
  ghost predicate FoundAfter(s: Settings, stream: Stream, ms: seq<Mark>, mark: Mark, i: nat)
    requires s.Valid()
  {
    var from := StretchStart(s, ms, i);
    && AllEmpty(s, stream, ms, i) && from <= mark.at && s.correlationThreshold < mark.quality
    && BestAmong(s, stream, s.k.Order(), from, s.SearchLenMax(), mark.ambiguity, mark.at - from, mark.quality)
  }

  ghost predicate FoundInFull(s: Settings, stream: Stream, ms: seq<Mark>, mark: Mark)
    requires s.Valid()
  {
    exists i: nat :: FoundAfter(s, stream, ms, mark, i)
  }

  /** The next search is at the start of one of its full stretches, all earlier ones empty. */
  ghost predicate AtStretch(s: Settings, stream: Stream, ms: seq<Mark>, at: nat)
    requires s.Valid()
  {
    exists i: nat :: at == StretchStart(s, ms, i) && AllEmpty(s, stream, ms, i)
  }

  /** Every lock began in a full stretch. */
  ghost predicate FullChain(s: Settings, stream: Stream, ms: seq<Mark>)
    requires s.Valid()
  {
    forall k: nat :: k < |ms| && IsFirst(ms, k) ==> FoundInFull(s, stream, ms[..k], ms[k])
  }

  lemma FullChainGrows(s: Settings, stream: Stream, ms: seq<Mark>, mark: Mark)
    requires s.Valid() && FullChain(s, stream, ms)
    requires (ms == [] || ms[|ms| - 1].lock != mark.lock) ==> FoundInFull(s, stream, ms, mark)
    ensures FullChain(s, stream, ms + [mark])
  {
    hide FoundInFull;
    var ns := ms + [mark];
    forall k: nat | k < |ns| && IsFirst(ns, k)
      ensures FoundInFull(s, stream, ns[..k], ns[k])
    {
      assert ns[..k] == ms[..k] && ms[..|ms|] == ms;
      assert k < |ms| ==> IsFirst(ms, k);
    }
  }

  lemma FoundIsUnique(s: Settings, stream: Stream, ms: seq<Mark>, a: Mark, b: Mark)
    requires s.Valid() && FoundInFull(s, stream, ms, a) && FoundInFull(s, stream, ms, b)
    ensures a.ambiguity == b.ambiguity && a.at == b.at && a.quality == b.quality
  {
    hide BestAmong, EmptyStretch, StretchStart;
    var i: nat :| FoundAfter(s, stream, ms, a, i);
    var j: nat :| FoundAfter(s, stream, ms, b, j);
    FoundNoLater(s, stream, ms, a, i, j);
    FoundNoLater(s, stream, ms, b, j, i);
    var from := StretchStart(s, ms, i);
    BestIsUnique(s, stream, from, s.SearchLenMax(), a.ambiguity, a.at - from, a.quality, b.ambiguity, b.at - from, b.quality);
  }

  /** A stretch with a marker in it is not empty. */
  lemma FoundNoLater(s: Settings, stream: Stream, ms: seq<Mark>, a: Mark, i: nat, j: nat)
    requires s.Valid() && FoundAfter(s, stream, ms, a, i) && AllEmpty(s, stream, ms, j)
    ensures j <= i
  {
    hide BestAmong, EmptyStretch, StretchStart;
    var from := StretchStart(s, ms, i);
    BestBelowThreshold(s, stream, from, s.SearchLenMax(), a.ambiguity, a.at - from, a.quality);
  }

  /** The next marker is determined by the stream and the markers before. */
  lemma NextMarkIsUnique(s: Settings, stream: Stream, ms: seq<Mark>, a: Mark, b: Mark)
    requires s.Valid() && MarkOk(s, stream, a) && MarkOk(s, stream, b)
    requires Starts(s, stream, ms, a) && Starts(s, stream, ms, b)
    requires ms == [] || ms[|ms| - 1].lock != a.lock ==> FoundInFull(s, stream, ms, a)
    requires ms == [] || ms[|ms| - 1].lock != b.lock ==> FoundInFull(s, stream, ms, b)
    ensures a == b
  {
    hide QualityAt, FoundInFull, ConfidenceAfter, Checks;
    if ms != [] {
      OneMoreMark(s, ms, a);
      OneMoreMark(s, ms, b);
    }
    if ms == [] || (ms[|ms| - 1].lock != a.lock && ms[|ms| - 1].lock != b.lock) {
      FoundIsUnique(s, stream, ms, a, b);
    }
  }

  /** So with full searches the whole chain is. */
  lemma {:induction false} ChainIsUnique(s: Settings, stream: Stream, a: seq<Mark>, b: seq<Mark>, n: nat)
    requires s.Valid() && ChainOk(s, stream, a) && ChainOk(s, stream, b)
    requires FullChain(s, stream, a) && FullChain(s, stream, b)
    requires n <= |a| && n <= |b|
    ensures a[..n] == b[..n]
  {
    hide *;
    if n != 0 {
      var k: nat := n - 1;
      ChainIsUnique(s, stream, a, b, k);
      ChainAt(s, stream, a, k);
      ChainAt(s, stream, b, k);
      NextMarkIsUnique(s, stream, a[..k], a[k], b[k]);
      assert a[..n] == a[..k] + [a[k]] && b[..n] == b[..k] + [b[k]];
    }
  }

  /** What the chain says about one of its marks. */
  lemma ChainAt(s: Settings, stream: Stream, ms: seq<Mark>, k: nat)
    requires s.Valid() && ChainOk(s, stream, ms) && FullChain(s, stream, ms) && k < |ms|
    ensures MarkOk(s, stream, ms[k]) && Starts(s, stream, ms[..k], ms[k])
    ensures ms[..k] == [] || ms[..k][|ms[..k]| - 1].lock != ms[k].lock ==> FoundInFull(s, stream, ms[..k], ms[k])
  {
    hide MarkOk, Starts, FoundInFull;
    assert k > 0 ==> ms[..k][|ms[..k]| - 1] == ms[k - 1];
    assert IsFirst(ms, k) ==> FoundInFull(s, stream, ms[..k], ms[k]);
  }
}
