// The frame synchroniser block (lib/frame_sync_impl.cc): it finds one marker per block,
// asks for the frames around it, and cuts them from the stream as the buffer moves on.
module FrameSynchroniser {
  import opened Samples
  import opened Arithmetic
  import opened SyncBuffer
  import opened FrameQueue
  import opened BlockSearch
  import opened Options

  // ----- the positions one marker asks for -----

  /** The marker expected `n` blocks later, at the same ambiguity. */
  function Later(c: Config, d: AsmPosition, n: nat): (p: AsmPosition)
    ensures d.offset <= p.offset
  {
    ProductIsNonNegative(n, c.BlockLen());
    d.(offset := d.offset + n * c.BlockLen())
  }

  /** The marker expected `n` blocks earlier, unless that is before the stream. */
  function Earlier(c: Config, d: AsmPosition, n: nat): Option<AsmPosition> {
    if d.offset < n * c.BlockLen() then None else Some(d.(offset := d.offset - n * c.BlockLen()))
  }

  function BeforeKeys(c: Config, d: AsmPosition, n: nat): set<Key> {
    if n == 0 then {}
    else
      var p := Earlier(c, d, n);
      BeforeKeys(c, d, n - 1) + if p.None? then {} else {KeyOf(p.value)}
  }

  function AfterKeys(c: Config, d: AsmPosition, n: nat): set<Key> {
    if n == 0 then {} else AfterKeys(c, d, n - 1) + {KeyOf(Later(c, d, n))}
  }

  function KeysAround(c: Config, d: AsmPosition): set<Key> {
    {KeyOf(d)} + BeforeKeys(c, d, c.framesBefore) + AfterKeys(c, d, c.framesAfter)
  }

  /** Who asks for what, in which order: the marker, then the frames before it, then those after. */
  function AskBefore(c: Config, o: Origins, d: AsmPosition, n: nat): Origins {
    if n == 0 then o
    else
      var p := Earlier(c, d, n);
      if p.None? then AskBefore(c, o, d, n - 1) else Ask(AskBefore(c, o, d, n - 1), p.value, false)
  }

  function AskAfter(c: Config, o: Origins, d: AsmPosition, n: nat): Origins {
    if n == 0 then o else Ask(AskAfter(c, o, d, n - 1), Later(c, d, n), false)
  }

  function AskAround(c: Config, o: Origins, d: AsmPosition): Origins {
    AskAfter(c, AskBefore(c, Ask(o, d, true), d, c.framesBefore), d, c.framesAfter)
  }

  function AskAroundAll(c: Config, o: Origins, ds: seq<AsmPosition>): Origins {
    if ds == [] then o else AskAround(c, AskAroundAll(c, o, ds[..|ds| - 1]), ds[|ds| - 1])
  }

  function AskAll(o: Origins, ds: seq<AsmPosition>): Origins {
    if ds == [] then o else Ask(AskAll(o, ds[..|ds| - 1]), ds[|ds| - 1], false)
  }

  lemma {:induction false} KeysAskedBefore(c: Config, o: Origins, d: AsmPosition, n: nat)
    ensures AskBefore(c, o, d, n).Keys == o.Keys + BeforeKeys(c, d, n)
  {
    if n != 0 {
      KeysAskedBefore(c, o, d, n - 1);
    }
  }

  lemma {:induction false} KeysAskedAfter(c: Config, o: Origins, d: AsmPosition, n: nat)
    ensures AskAfter(c, o, d, n).Keys == o.Keys + AfterKeys(c, d, n)
  {
    if n != 0 {
      KeysAskedAfter(c, o, d, n - 1);
    }
  }

  /** The keys asked for are those known beforehand and those around the markers found. */
  lemma {:induction false} KeysAsked(c: Config, o: Origins, ds: seq<AsmPosition>)
    ensures AskAroundAll(c, o, ds).Keys == o.Keys + KeysAroundAll(c, ds)
  {
    if ds != [] {
      var n := |ds| - 1;
      KeysAsked(c, o, ds[..n]);
      var o1 := Ask(AskAroundAll(c, o, ds[..n]), ds[n], true);
      KeysAskedBefore(c, o1, ds[n], c.framesBefore);
      KeysAskedAfter(c, AskBefore(c, o1, ds[n], c.framesBefore), ds[n], c.framesAfter);
    }
  }

  /** No position before the marker is so early that its head would precede the stream. */
  predicate BeforeAdmissible(c: Config, d: AsmPosition, n: nat) {
    n == 0 ||
    (BeforeAdmissible(c, d, n - 1) &&
     var p := Earlier(c, d, n); p.Some? ==> c.HeadLen() <= p.value.offset)
  }

  predicate Admissible(c: Config, d: AsmPosition) {
    c.HeadLen() <= d.offset && BeforeAdmissible(c, d, c.framesBefore)
  }

  /** Markers known beforehand: each position is asked for, by the first that names it. */
  lemma {:induction false} AskedBeforehand(ds: seq<AsmPosition>, i: nat)
    requires i < |ds|
    ensures (ds[i].offset, ds[i].ambiguity) in AskAll(map[], ds)
    ensures (forall j :: 0 <= j < i ==> (ds[j].offset, ds[j].ambiguity) != (ds[i].offset, ds[i].ambiguity)) ==>
      AskAll(map[], ds)[(ds[i].offset, ds[i].ambiguity)] == ds[i]
    ensures forall key <- AskAll(map[], ds) :: exists d :: d in ds && (d.offset, d.ambiguity) == key
  {
    var n := |ds| - 1;
    if i < n {
      AskedBeforehand(ds[..n], i);
    } else if n > 0 {
      AskedBeforehand(ds[..n], n - 1);
    }
    assert forall d :: d in ds <==> d in ds[..n] || d == ds[n];
  }

  // ----- the positions, written out -----

  lemma {:induction false} BeforeKeysAre(c: Config, d: AsmPosition, n: nat, key: Key)
    requires 1 <= c.BlockLen()
    ensures key in BeforeKeys(c, d, n) <==>
      key.1 == d.ambiguity && (d.offset - key.0) % c.BlockLen() == 0 && d.offset - n * c.BlockLen() <= key.0 < d.offset
  {
    if n != 0 {
      BeforeKeysAre(c, d, n - 1, key);
      OneMoreBlock(c.BlockLen(), d.offset - key.0, n);
    } else {
      assert 0 * c.BlockLen() == 0;
    }
  }

  lemma {:induction false} AfterKeysAre(c: Config, d: AsmPosition, n: nat, key: Key)
    requires 1 <= c.BlockLen()
    ensures key in AfterKeys(c, d, n) <==>
      key.1 == d.ambiguity && (key.0 - d.offset) % c.BlockLen() == 0 && d.offset < key.0 <= d.offset + n * c.BlockLen()
  {
    if n != 0 {
      AfterKeysAre(c, d, n - 1, key);
      OneMoreBlock(c.BlockLen(), key.0 - d.offset, n);
    } else {
      assert 0 * c.BlockLen() == 0;
    }
  }

  /** One block more reaches one more multiple of the block length. */
  lemma OneMoreBlock(b: nat, x: int, n: nat)
    requires 0 < b && 0 < n
    ensures n * b == (n - 1) * b + b && 0 <= (n - 1) * b
    ensures x % b == 0 && 0 < x <= n * b <==> (x % b == 0 && 0 < x <= (n - 1) * b) || x == n * b
  {
    ProductIsNonNegative(n - 1, b);
    assert n * b == (n - 1) * b + b;
    RemainderOf(b, n, 0);
    if x % b == 0 && (n - 1) * b < x < n * b {
      var y := x - (n - 1) * b;
      SmallRemainder(y, b);
      RemainderOf(b, n - 1, y);
      assert false;
    }
  }

  /** A marker asks for the positions a whole number of blocks before and after it, as far back
      and ahead as configured, and as far as the stream begins, at its own ambiguity. */
  lemma KeysAroundAre(c: Config, d: AsmPosition, key: Key)
    requires 1 <= c.BlockLen()
    ensures key in KeysAround(c, d) <==>
      var b := |c.asmConj| + c.payload;
      && key.1 == d.ambiguity && (key.0 - d.offset) % b == 0
      && d.offset - c.framesBefore * b <= key.0 <= d.offset + c.framesAfter * b
  {
    var b := c.BlockLen();
    hide BeforeKeys, AfterKeys;
    BeforeKeysAre(c, d, c.framesBefore, key);
    AfterKeysAre(c, d, c.framesAfter, key);
    ProductIsNonNegative(c.framesBefore, b);
    ProductIsNonNegative(c.framesAfter, b);
    NegatedRemainder(key.0 - d.offset, b);
  }

  lemma NegatedRemainder(x: int, b: nat)
    requires 0 < b
    ensures x % b == 0 <==> -x % b == 0
    ensures 0 % b == 0
  {
    if x % b == 0 {
      assert -x == b * -(x / b);
      RemainderOf(b, -(x / b), 0);
    }
    if -x % b == 0 {
      assert x == b * -(-x / b);
      RemainderOf(b, -(-x / b), 0);
    }
    SmallRemainder(0, b);
  }

  /** Counted in blocks: the position `k` blocks on is asked for exactly if `k` is in range. */
  lemma BlocksAskedFor(c: Config, d: AsmPosition, k: int)
    requires 1 <= c.BlockLen() && 0 <= d.offset + k * (|c.asmConj| + c.payload)
    ensures (d.offset + k * (|c.asmConj| + c.payload), d.ambiguity) in KeysAround(c, d) <==> 0 <= k + c.framesBefore && k <= c.framesAfter
  {
    hide KeysAround;
    var b := |c.asmConj| + c.payload;
    KeysAroundAre(c, d, (d.offset + k * b, d.ambiguity));
    RemainderOf(b, k, 0);
    ProductOrder(k + c.framesBefore, b);
    ProductOrder(c.framesAfter - k, b);
    assert k * b + c.framesBefore * b == (k + c.framesBefore) * b;
    assert c.framesAfter * b - k * b == (c.framesAfter - k) * b;
  }

  lemma ProductOrder(a: int, b: nat)
    requires 0 < b
    ensures 0 <= a * b <==> 0 <= a
  {
    if 0 <= a {
      ProductIsNonNegative(a, b);
    } else {
      ProductIsNonNegative(-a - 1, b);
      assert -a * b == (-a - 1) * b + b;
    }
  }

  lemma {:induction false} AskedBefore(c: Config, o: Origins, d: AsmPosition, n: nat, key: Key)
    requires key in AskBefore(c, o, d, n)
    ensures AskBefore(c, o, d, n)[key] == if key in o then o[key] else AsmPosition(key.0, key.1, d.sequence)
  {
    if n != 0 && key in AskBefore(c, o, d, n - 1) {
      AskedBefore(c, o, d, n - 1, key);
    }
    if n != 0 {
      KeysAskedBefore(c, o, d, n - 1);
    }
  }

  lemma {:induction false} AskedAfter(c: Config, o: Origins, d: AsmPosition, n: nat, key: Key)
    requires key in AskAfter(c, o, d, n)
    ensures AskAfter(c, o, d, n)[key] == if key in o then o[key] else AsmPosition(key.0, key.1, d.sequence)
  {
    if n != 0 && key in AskAfter(c, o, d, n - 1) {
      AskedAfter(c, o, d, n - 1, key);
    }
    if n != 0 {
      KeysAskedAfter(c, o, d, n - 1);
    }
  }

  /** The frames around a marker carry its sequence number and ambiguity, unless an earlier
      marker asked for them first; the marker itself counts in any case. */
  lemma OriginsAround(c: Config, o: Origins, d: AsmPosition, key: Key)
    ensures key in AskAround(c, o, d) <==> key in o || key in KeysAround(c, d)
    ensures key in AskAround(c, o, d) ==>
      AskAround(c, o, d)[key] == (
        if key == (d.offset, d.ambiguity) then d
        else if key in o then o[key]
        else AsmPosition(key.0, key.1, d.sequence))
  {
    hide AskBefore, AskAfter, BeforeKeys, AfterKeys;
    var o1 := Ask(o, d, true);
    var o2 := AskBefore(c, o1, d, c.framesBefore);
    KeysAskedBefore(c, o1, d, c.framesBefore);
    KeysAskedAfter(c, o2, d, c.framesAfter);
    if key in o2 {
      AskedBefore(c, o1, d, c.framesBefore, key);
    }
    if key in AskAfter(c, o2, d, c.framesAfter) {
      AskedAfter(c, o2, d, c.framesAfter, key);
    }
  }

  lemma {:induction false} AdmissibleBefore(c: Config, d: AsmPosition, n: nat)
    ensures BeforeAdmissible(c, d, n) <==> forall key <- BeforeKeys(c, d, n) :: c.head <= key.0
  {
    if n != 0 {
      AdmissibleBefore(c, d, n - 1);
      var p := Earlier(c, d, n);
      assert p.Some? ==> KeyOf(p.value) in BeforeKeys(c, d, n);
      assert forall key <- BeforeKeys(c, d, n - 1) :: key in BeforeKeys(c, d, n);
    }
  }

  lemma {:induction false} AfterIsLater(c: Config, d: AsmPosition, n: nat, key: Key)
    requires key in AfterKeys(c, d, n)
    ensures d.offset <= key.0
  {
    if n != 0 && key in AfterKeys(c, d, n - 1) {
      AfterIsLater(c, d, n - 1, key);
    }
  }

  /** A marker is admissible if and only if no frame asked for around it starts before the stream. */
  lemma AdmissibleIff(c: Config, d: AsmPosition)
    ensures Admissible(c, d) <==> forall key <- KeysAround(c, d) :: c.head <= key.0
  {
    hide BeforeKeys, AfterKeys, BeforeAdmissible;
    AdmissibleBefore(c, d, c.framesBefore);
    forall key | key in AfterKeys(c, d, c.framesAfter)
      ensures d.offset <= key.0
    {
      AfterIsLater(c, d, c.framesAfter, key);
    }
    assert KeyOf(d) in KeysAround(c, d);
  }

  ghost function KeysAroundAll(c: Config, ds: seq<AsmPosition>): set<Key> {
    if ds == [] then {} else KeysAroundAll(c, ds[..|ds| - 1]) + KeysAround(c, ds[|ds| - 1])
  }

  lemma {:induction false} KeysAroundAllAre(c: Config, ds: seq<AsmPosition>, key: Key)
    ensures key in KeysAroundAll(c, ds) <==> exists d :: d in ds && key in KeysAround(c, d)
  {
    hide KeysAround;
    if ds != [] {
      KeysAroundAllAre(c, ds[..|ds| - 1], key);
    }
  }

  ghost function KeysOf(ds: seq<AsmPosition>): set<Key> {
    set d | d in ds :: KeyOf(d)
  }

  /** One marker was found in every block so far, numbered from one. */
  ghost predicate OnePerBlock(c: Config, ds: seq<AsmPosition>) {
    forall j :: 0 <= j < |ds| ==>
      j * c.BlockLen() <= ds[j].offset < j * c.BlockLen() + c.BlockLen() && ds[j].sequence == j + 1
  }

  lemma DetectionsGrow(c: Config, ds: seq<AsmPosition>, d: AsmPosition)
    requires OnePerBlock(c, ds)
    requires |ds| * c.BlockLen() <= d.offset < |ds| * c.BlockLen() + c.BlockLen() && d.sequence == |ds| + 1
    ensures OnePerBlock(c, ds + [d])
    ensures forall o: Origins :: AskAroundAll(c, o, ds + [d]) == AskAround(c, AskAroundAll(c, o, ds), d)
    ensures KeysOf(ds + [d]) == KeysOf(ds) + {KeyOf(d)}
  {
    assert (ds + [d])[..|ds|] == ds;
  }

  lemma StepsFit(c: Config, i: nat)
    requires i <= c.framesBefore
    ensures 0 <= i * c.BlockLen() <= c.framesBefore * c.BlockLen()
  {
    ProductIsNonNegative(i, c.BlockLen());
    ProductIsNonNegative(c.framesBefore - i, c.BlockLen());
  }

  lemma BufferIsBigEnough(c: Config)
    requires c.Valid()
    ensures 0 <= c.framesBefore * c.BlockLen() && 1 <= c.BlockLen() && 1 <= |c.asmConj| && 0 <= c.HeadLen()
    ensures 2 <= c.framesBefore * c.BlockLen() + c.HeadLen() + c.BlockLen()
  {
    ProductIsNonNegative(c.framesBefore, c.BlockLen());
  }

  lemma BoundaryAtStart(c: Config)
    requires c.Valid()
    ensures 0 % c.BlockLen() == 0 == 0 * c.BlockLen()
  {
    SmallRemainder(0, c.BlockLen());
  }

  class FrameSync {
    const c: Config
    const buffer: FrameSyncBuffer
    const detector: Detector
    var queue: seq<Task>
    var sequenceNumber: nat
    // The messages on the output port.
    var published: seq<Message>
    ghost var origins: Origins
    ghost var primaries: set<Key>
    ghost var initial: Origins
    ghost var detections: seq<AsmPosition>
    // The score function that each of the markers was searched with.
    ghost var scores: seq<ScoreFunction>

    ghost function Ledger(): History
      reads this`origins, this`primaries, this`published
    {
      History(origins, primaries, published)
    }

    /** The buffer was built for this configuration and stands at a block boundary. */
    ghost predicate Fits()
      reads buffer, buffer.signal, buffer.correlation
    {
      && c.Valid() && buffer.Valid()
      && buffer.blockLen == c.BlockLen() && buffer.asmConj == c.asmConj
      && buffer.historyLen == c.HistoryLen()
      && buffer.offset % c.BlockLen() == 0
    }

    ghost predicate QueueValid()
      reads this`queue, this`origins, this`primaries, this`published, buffer
    {
      c.Valid() && Inv(c, buffer.stream, buffer.offset, queue, Ledger())
    }

    /** What was asked for is what the constructor and the markers found so far ask for. */
    ghost predicate DetectionsValid(blocks: int)
      reads this`sequenceNumber, this`origins, this`primaries, this`initial, this`detections
    {
      && |detections| == blocks == sequenceNumber
      && OnePerBlock(c, detections)
      && origins == AskAroundAll(c, initial, detections)
      && primaries == KeysOf(detections)
    }

    /** The markers found so far are the leaders of their blocks of the stream. */
    ghost predicate MarkersFound()
      reads this`detections, this`scores, buffer`stream
    {
      AllFound(c, detector, scores, buffer.stream, detections)
    }

    ghost predicate Valid()
      reads this, buffer, buffer.signal, buffer.correlation
    {
      && Fits() && QueueValid() && MarkersFound() && !buffer.Full()
      && DetectionsValid(sequenceNumber)
      && buffer.offset == sequenceNumber * c.BlockLen()
    }

    constructor (c: Config, detector: Detector, additional: seq<AsmPosition>)
      requires c.Valid()
      requires forall pos <- additional :: c.HeadLen() <= pos.offset
      ensures Valid() && fresh(buffer) && fresh(buffer.signal) && fresh(buffer.correlation)
      ensures this.c == c && this.detector == detector
      ensures buffer.stream == [] && published == [] && detections == []
      ensures initial == AskAll(map[], additional)
    {
      hide *;
      this.c, this.detector := c, detector;
      BufferIsBigEnough(c);
      buffer := new FrameSyncBuffer(c.BlockLen(), c.asmConj, c.framesBefore, c.HeadLen());
      queue, sequenceNumber, published := [], 0, [];
      origins, primaries, initial, detections, scores := map[], {}, map[], [], [];
      new;
      QueueIsValidAtStart();
      QueueAdditional(additional);
      initial := origins;
      ValidAtStart();
    }

    lemma QueueIsValidAtStart()
      requires c.Valid() && buffer.stream == [] && buffer.offset == 0
      requires queue == [] && origins == map[] && primaries == {} && published == []
      ensures QueueValid()
    {
      hide Inv;
      NothingAskedYet(c);
    }

    lemma ValidAtStart()
      requires c.Valid() && buffer.Valid() && QueueValid()
      requires buffer.blockLen == c.BlockLen() && buffer.asmConj == c.asmConj
      requires buffer.historyLen == c.framesBefore * c.BlockLen() + c.HeadLen()
      requires buffer.offset == 0 && buffer.stream == [] && buffer.numItems == buffer.historyLen
      requires sequenceNumber == 0 && detections == [] && scores == [] && origins == initial && primaries == {}
      ensures Valid()
    {
      BoundaryAtStart(c);
      hide Inv, buffer.SignalCurrent, buffer.CorrelationCurrent;
    }

    /** Asks for the frames of markers that are known beforehand. */
    method QueueAdditional(additional: seq<AsmPosition>)
      requires QueueValid() && buffer.offset == 0
      requires forall pos <- additional :: c.HeadLen() <= pos.offset
      modifies this`queue, this`origins, this`primaries
      ensures QueueValid()
      ensures origins == AskAll(old(origins), additional)
      ensures primaries == old(primaries)
    {
      hide Inv;
      for i := 0 to |additional|
        invariant QueueValid() && primaries == old(primaries)
        invariant origins == AskAll(old(origins), additional[..i])
      {
        assert additional[..i + 1][..i] == additional[..i];
        StepsFit(c, c.framesBefore);
        QueueFrameOutput(additional[i], false);
      }
      assert additional == additional[..|additional|];
    }

    /** Queues one frame; a head that precedes the stream makes the source throw. */
    method QueueFrameOutput(pos: AsmPosition, primary: bool)
      requires QueueValid()
      requires c.HeadLen() <= pos.offset
      requires buffer.offset <= pos.offset + c.framesBefore * c.BlockLen()
      modifies this`queue, this`origins, this`primaries
      ensures QueueValid()
      ensures queue == Enqueue(c, old(queue), pos, primary)
      ensures Ledger() == Requested(old(Ledger()), pos, primary)
    {
      hide Inv, IndexOf, NewTask;
      EnqueueKeepsInv(c, buffer.stream, buffer.offset, queue, Ledger(), pos, primary);
      var existing := IndexOf(queue, KeyOf(pos));
      var t := NewTask(c, pos, primary);
      if existing == |queue| {
        queue := queue + [t];
      } else if primary {
        queue := queue[..existing] + queue[existing + 1..] + [t];
      }
      origins := Ask(origins, pos, primary);
      primaries := primaries + if primary then {KeyOf(pos)} else {};
    }

    /** The correlations of the current block, as they are in the buffer. */
    function BlockCorrelations(): seq<Complex>
      requires buffer.historyLen <= buffer.correlation.Length
      reads buffer, buffer.correlation
    {
      buffer.correlation[buffer.historyLen..]
    }

    function SearchOf(score: ScoreFunction): Search
      requires buffer.historyLen <= buffer.correlation.Length
      reads buffer, buffer.correlation
    {
      Search(score, detector.magnitude, buffer.offset, BlockCorrelations())
    }

    lemma WindowIsCorrelated()
      requires Fits()
      ensures buffer.historyLen + c.BlockLen() == buffer.correlation.Length
    {
    }

    /** Picks the position of the marker among the first positions of the block. */
    method FindMaximumInBuffer(maxNumItems: nat, score: ScoreFunction) returns (pos: AsmPosition)
      requires Fits() && 1 <= maxNumItems <= c.BlockLen()
      ensures buffer.historyLen + c.BlockLen() == buffer.correlation.Length
      ensures var l := Leader(SearchOf(score), maxNumItems);
              pos.offset == buffer.offset + l && pos.ambiguity == detector.detect(BlockCorrelations()[l])
    {
      hide Fits, FiniteAndGreater, c.BlockLen;
      WindowIsCorrelated();
      var initialized := false;
      var maxIndex := 0;
      var maxScore := Finite(0.0);
      var maxCorrelation := ZERO;
      var maxCorrelationAbs := 0.0;
      for i := 0 to maxNumItems
        invariant initialized <==> 0 < i
        invariant 0 < i ==> maxIndex == Leader(SearchOf(score), i)
        invariant 0 < i ==> maxScore == SearchOf(score).ScoreAt(maxIndex)
        invariant 0 < i ==> maxCorrelation == BlockCorrelations()[maxIndex]
        invariant 0 < i ==> maxCorrelationAbs == SearchOf(score).MagnitudeAt(maxIndex)
      {
        var correlation := buffer.correlation[buffer.historyLen + i];
        var correlationAbs := detector.magnitude(correlation);
        var s := score(buffer.offset + i, correlation);
        assert s == SearchOf(score).ScoreAt(i) && correlationAbs == SearchOf(score).MagnitudeAt(i);
        var betterFiniteScore := FiniteAndGreater(s, maxScore);
        var bothScoresInfinite := !maxScore.Finite? && !s.Finite?;
        var update := betterFiniteScore || (bothScoresInfinite && correlationAbs > maxCorrelationAbs);
        if !initialized || update {
          initialized, maxIndex, maxScore := true, i, s;
          maxCorrelationAbs, maxCorrelation := correlationAbs, correlation;
        }
      }
      pos := AsmPosition(buffer.offset + maxIndex, detector.detect(maxCorrelation), 0);
    }

    /** In a full buffer the block is what the search is to see of the stream. */
    lemma BlockOfStream()
      requires Fits() && buffer.Full()
      ensures buffer.historyLen <= buffer.correlation.Length
      ensures BlockCorrelations() == Searched(c, buffer.stream, buffer.offset) && BlockIsIn(c, buffer.stream, buffer.offset)
    {
      forall i | 0 <= i < c.BlockLen()
        ensures BlockCorrelations()[i] == Searched(c, buffer.stream, buffer.offset)[i]
      {
        buffer.SearchSeesAllButTheLast(i);
      }
    }

    /** Finds the marker of a full buffer: the leader of its block of the stream. */
    method FindFrame(score: ScoreFunction) returns (frame: AsmPosition)
      requires Fits() && buffer.Full()
      ensures buffer.offset <= frame.offset < buffer.offset + c.BlockLen()
      ensures forall d: AsmPosition :: d.offset == frame.offset && d.ambiguity == frame.ambiguity ==>
        FoundIn(c, detector, score, buffer.stream, buffer.offset, d)
    {
      hide Fits, buffer.Full, Leader, Searched, c.BlockLen;
      BlockOfStream();
      BlockIsNotEmpty();
      frame := FindMaximumInBuffer(c.BlockLen(), score);
    }

    lemma BlockIsNotEmpty()
      requires Fits()
      ensures 1 <= c.BlockLen()
    {
    }

    /** Searches the block and asks for the marker found and the frames around it. `ok` is
        false when a frame would have to be copied from before the start of the stream. */
    method ProcessBuffer(score: ScoreFunction) returns (ok: bool)
      requires Fits() && buffer.Full() && QueueValid() && MarkersFound() && DetectionsValid(sequenceNumber)
      requires buffer.offset == sequenceNumber * c.BlockLen()
      modifies this`queue, this`origins, this`primaries, this`sequenceNumber, this`detections, this`scores
      ensures ok ==> QueueValid() && DetectionsValid(sequenceNumber)
      ensures MarkersFound() && scores == old(scores) + [score]
      ensures sequenceNumber == old(sequenceNumber) + 1
      ensures |detections| == |old(detections)| + 1 && old(detections) <= detections
      ensures ok <==> Admissible(c, detections[|detections| - 1])
    {
      hide Inv, buffer.Valid, FoundIn, AllFound, KeysOf, AskAroundAll, AskAround, OnePerBlock, Admissible, BeforeAdmissible, c.HeadLen, c.HistoryLen;
      var frame := FindFrame(score);
      sequenceNumber := sequenceNumber + 1;
      frame := frame.(sequence := sequenceNumber);
      DetectionsGrow(c, detections, frame);
      AllFoundGrows(c, detector, scores, buffer.stream, detections, score, frame);
      detections := detections + [frame];
      scores := scores + [score];
      TooEarlyIsInadmissible(frame);
      if frame.offset < c.HeadLen() { return false; }
      ok := QueueAround(frame);
    }

    lemma TooEarlyIsInadmissible(frame: AsmPosition)
      ensures Admissible(c, frame) <==> c.HeadLen() <= frame.offset && BeforeAdmissible(c, frame, c.framesBefore)
    {
    }

    /** Asks for the frame of a marker found in the block and for the frames around it. */
    method QueueAround(frame: AsmPosition) returns (ok: bool)
      requires QueueValid() && c.HeadLen() <= frame.offset && buffer.offset <= frame.offset
      modifies this`queue, this`origins, this`primaries
      ensures ok <==> BeforeAdmissible(c, frame, c.framesBefore)
      ensures ok ==> QueueValid()
      ensures ok ==> origins == AskAround(c, old(origins), frame)
      ensures primaries == old(primaries) + {KeyOf(frame)}
    {
      hide Inv;
      StepsFit(c, c.framesBefore);
      QueueFrameOutput(frame, true);
      ok := QueueBefore(frame);
      if ok {
        QueueAfter(frame);
      }
    }

    /** Asks for the frames before a marker. */
    method QueueBefore(frame: AsmPosition) returns (ok: bool)
      requires QueueValid() && c.HeadLen() <= frame.offset && buffer.offset <= frame.offset
      modifies this`queue, this`origins, this`primaries
      ensures ok <==> BeforeAdmissible(c, frame, c.framesBefore)
      ensures ok ==> QueueValid()
      ensures ok ==> origins == AskBefore(c, old(origins), frame, c.framesBefore)
      ensures primaries == old(primaries)
    {
      hide Inv;
      var i := 1;
      while i <= c.framesBefore
        invariant 1 <= i <= c.framesBefore + 1
        invariant QueueValid() && BeforeAdmissible(c, frame, i - 1)
        invariant origins == AskBefore(c, old(origins), frame, i - 1)
        invariant primaries == old(primaries)
      {
        var earlier := Earlier(c, frame, i);
        if earlier.Some? {
          if earlier.value.offset < c.HeadLen() {
            NotAdmissible(c, frame, i, c.framesBefore);
            return false;
          }
          StepsFit(c, i);
          QueueFrameOutput(earlier.value, false);
        }
        i := i + 1;
      }
      ok := true;
    }

    /** Asks for the frames after a marker. */
    method QueueAfter(frame: AsmPosition)
      requires QueueValid() && c.HeadLen() <= frame.offset && buffer.offset <= frame.offset
      modifies this`queue, this`origins, this`primaries
      ensures QueueValid()
      ensures origins == AskAfter(c, old(origins), frame, c.framesAfter)
      ensures primaries == old(primaries)
    {
      hide Inv;
      var i := 1;
      while i <= c.framesAfter
        invariant 1 <= i <= c.framesAfter + 1
        invariant QueueValid()
        invariant origins == AskAfter(c, old(origins), frame, i - 1)
        invariant primaries == old(primaries)
      {
        StepsFit(c, c.framesBefore);
        var later := Later(c, frame, i);
        QueueFrameOutput(later, false);
        i := i + 1;
      }
    }

    lemma CopiedFits(t: Task)
      requires Fits() && TaskOk(c, buffer.stream, t)
      ensures 1 <= c.AsmLen() && |t.copied| <= c.OutputLen()
    {
    }

    lemma LastSymbolIsLastOfStream()
      requires Fits() && (buffer.historyLen < buffer.numItems || buffer.stream == [])
      ensures buffer.OffsetLastSymbol() == if buffer.stream == [] then 0 else |buffer.stream| - 1
      ensures c.Valid()
    {
    }

    /** Copies what the buffer offers into one task. */
    method ServeTask(t: Task) returns (t': Task)
      requires Fits() && (buffer.historyLen < buffer.numItems || buffer.stream == [])
      requires TaskOk(c, buffer.stream, t)
      ensures t' == ProcessTask(c, buffer.stream, buffer.OffsetStart(), |buffer.stream| - 1, t)
    {
      hide Fits, TaskOk, c.Valid, Symbols, HeaderFor, buffer.Valid, buffer.OffsetLastSymbol, buffer.OffsetStart;
      LastSymbolIsLastOfStream();
      CopiedFits(t);
      var availFrom := buffer.OffsetStart();
      var availUntil := buffer.OffsetLastSymbol();
      if buffer.stream == [] { NothingBeforeTheStream(c, t); }
      t' := t;
      if Complete(c, t) { return; }
      var first := if t.header.Some? then t.copyFrom else Smaller(t.pos.offset, t.copyFrom);
      if availFrom <= first <= availUntil {
        var numAvail := MinusCapZero(availUntil + 1, t.copyFrom);
        var asmAvailable := availFrom <= t.pos.offset && availUntil >= t.pos.offset + c.AsmLen();
        if t.header.None? && asmAvailable {
          var h := ComputeHeader(t.pos, t.primary);
          t' := t'.(header := Some(h));
        }
        var toCopy := Smaller(c.OutputLen() - |t.copied|, numAvail);
        var symbols := CopySymbols(t.pos.ambiguity, t.copyFrom, toCopy);
        t' := t'.(copied := t.copied + symbols, copyFrom := t.copyFrom + toCopy);
      }
    }

    /** Reads symbols that are still in the buffer and removes the ambiguity. */
    method CopySymbols(ambiguity: nat, copyFrom: nat, n: nat) returns (symbols: seq<Complex>)
      requires Fits() && (n == 0 || (buffer.OffsetStart() <= copyFrom && copyFrom + n <= |buffer.stream|))
      ensures symbols == Symbols(c, buffer.stream, ambiguity, copyFrom, n)
    {
      symbols := [];
      for i := 0 to n
        invariant symbols == Symbols(c, buffer.stream, ambiguity, copyFrom, i)
      {
        var local := buffer.LocalOffset(copyFrom + i);
        assert buffer.signal[local] == buffer.SampleAt(buffer.stream, buffer.offset, local);
        symbols := symbols + [Mul(buffer.signal[local], c.correction(ambiguity))];
      }
    }

    /** The header of a marker all of whose correlation has been computed by now. */
    method ComputeHeader(pos: AsmPosition, primary: bool) returns (h: Header)
      requires Fits()
      requires buffer.OffsetStart() <= pos.offset && pos.offset + c.AsmLen() <= buffer.OffsetLastSymbol()
      ensures h == HeaderFor(c, buffer.stream, pos, primary)
    {
      var local := buffer.LocalOffset(pos.offset);
      assert buffer.correlation[local] == buffer.CorrelationAt(buffer.stream, buffer.offset, local);
      h := Header(pos, pos.offset / c.BlockLen(), primary,
                  Mul(buffer.correlation[local], c.correction(pos.ambiguity)));
    }

    lemma StartOfBuffer()
      requires Fits()
      ensures buffer.OffsetStart() == MinusCapZero(buffer.offset, c.HistoryLen())
    {
    }

    /** Serves every queued task. */
    method ServeAll()
      requires Fits() && QueueValid() && (buffer.historyLen < buffer.numItems || buffer.stream == [])
      modifies this`queue
      ensures Sizes(c, old(queue))
      ensures queue == old(ServedQueue())
    {
      hide Inv, Fits, TaskOk, ProcessTask;
      QueueIsSized(c, buffer.stream, buffer.offset, queue, Ledger());
      StartOfBuffer();
      ghost var q := queue;
      ghost var all := ProcessAll(c, buffer.stream, buffer.OffsetStart(), |buffer.stream| - 1, q);
      var i := 0;
      while i < |queue|
        invariant 0 <= i <= |queue| == |q|
        invariant forall k :: 0 <= k < i ==> queue[k] == all[k]
        invariant forall k :: i <= k < |q| ==> queue[k] == q[k]
      {
        assert queue[i] in q;
        var t := ServeTask(queue[i]);
        queue := queue[i := t];
        i := i + 1;
      }
    }

    /** Sends what may be sent, in queue order, and drops it from the queue. */
    method SendComplete()
      modifies this`queue, this`published
      ensures queue == Kept(c, SendThreshold(c, buffer.offset), old(queue))
      ensures published == old(published) + Sent(c, SendThreshold(c, buffer.offset), old(queue))
    {
      var threshold := MinusCapZero(buffer.offset, c.framesBefore * c.BlockLen());
      for i := 0 to |queue|
        invariant queue == old(queue)
        invariant published == old(published) + Sent(c, threshold, queue[..i])
      {
        assert queue[..i + 1][..i] == queue[..i];
        if Sendable(c, threshold, queue[i]) {
          published := published + [MessageOf(queue[i])];
        }
      }
      assert queue[..|queue|] == queue;
      queue := Kept(c, threshold, queue);
    }

    /** The queue as it is after serving it from the buffer. */
    ghost function ServedQueue(): seq<Task>
      requires 1 <= c.AsmLen() && Sizes(c, queue)
      reads this, buffer
    {
      ProcessAll(c, buffer.stream, MinusCapZero(buffer.offset, c.HistoryLen()), |buffer.stream| - 1, queue)
    }

    method ServeAndSend()
      requires Fits() && QueueValid() && (buffer.historyLen < buffer.numItems || buffer.stream == [])
      modifies this`queue, this`published
      ensures Sizes(c, old(queue))
      ensures queue == Kept(c, SendThreshold(c, buffer.offset), old(ServedQueue()))
      ensures published == old(published) + Sent(c, SendThreshold(c, buffer.offset), old(ServedQueue()))
    {
      hide Inv;
      ServeAll();
      SendComplete();
    }

    /** Serves every queued task, then sends the frames that no later window can ask for. */
    method ProcessFrameQueue()
      requires Fits() && QueueValid() && (buffer.historyLen < buffer.numItems || buffer.stream == [])
      modifies this`queue, this`published
      ensures QueueValid()
      ensures forall t <- queue :: Settled(c, |buffer.stream|, t)
      ensures PublishedExactly(c, |buffer.stream|, buffer.offset, Ledger())
      ensures old(published) <= published
    {
      hide Inv;
      ServeAndSendKeepsInv(c, buffer.stream, buffer.offset, queue, Ledger());
      ServeAndSend();
    }

    /** Everything but the queue is as `Valid` demands, with a full buffer. */
    ghost predicate BlockReady()
      reads this, buffer, buffer.signal, buffer.correlation
    {
      && Fits() && QueueValid() && MarkersFound() && buffer.Full()
      && DetectionsValid(sequenceNumber)
      && buffer.offset == sequenceNumber * c.BlockLen()
    }

    /** The same once the marker of the block has been found. */
    ghost predicate BlockSearched()
      reads this, buffer, buffer.signal, buffer.correlation
    {
      && Fits() && QueueValid() && MarkersFound() && buffer.Full()
      && DetectionsValid(sequenceNumber)
      && buffer.offset + c.BlockLen() == sequenceNumber * c.BlockLen()
    }

    /** A queue that has been served from a full buffer stands the loss of a block. */
    lemma AdvanceKeepsQueue()
      requires Fits() && QueueValid() && buffer.Full()
      requires forall t <- queue :: Settled(c, |buffer.stream|, t)
      ensures Inv(c, buffer.stream, buffer.offset + c.BlockLen(), queue, Ledger())
      ensures (buffer.offset + c.BlockLen()) % c.BlockLen() == 0
    {
      EndOfBlock(c.BlockLen(), buffer.offset);
      forall t <- queue
        ensures Served(c, buffer.offset + c.BlockLen(), t)
      {
        SettledStaysServed(c, buffer.stream, buffer.offset, t);
      }
    }

    /** Moves the buffer on once the queue has been served from it. */
    method AdvanceServed()
      requires BlockSearched()
      requires forall t <- queue :: Settled(c, |buffer.stream|, t)
      modifies buffer, buffer.signal, buffer.correlation
      ensures Valid() && buffer.stream == old(buffer.stream)
    {
      hide Inv, Settled, DetectionsValid, AllFound, buffer.SignalCurrent, buffer.CorrelationCurrent;
      AdvanceKeepsQueue();
      buffer.Advance();
    }

    /** Searches a full buffer, serves the queue from it and moves it on. */
    method ProcessBlock(score: ScoreFunction) returns (ok: bool)
      requires BlockReady()
      modifies this, buffer, buffer.signal, buffer.correlation
      ensures |detections| == |old(detections)| + 1 && old(detections) <= detections
      ensures ok <==> Admissible(c, detections[|detections| - 1])
      ensures ok ==> Valid()
      ensures scores == old(scores) + [score]
      ensures buffer.stream == old(buffer.stream) && initial == old(initial)
      ensures old(published) <= published
    {
      hide Inv, buffer.Valid, Admissible, PublishedExactly, Settled, DetectionsValid, AllFound;
      ok := ProcessBuffer(score);
      if ok {
        ProcessFrameQueue();
        AdvanceServed();
      }
    }

    /** Reads samples until the buffer is full or the input is used up. */
    method Read(input: seq<Complex>) returns (numCopy: nat)
      requires Valid() && input != []
      modifies buffer, buffer.signal, buffer.correlation
      ensures 0 < numCopy <= |input|
      ensures buffer.stream == old(buffer.stream) + input[..numCopy]
      ensures if buffer.Full() then BlockReady() else Valid()
    {
      hide AllFound;
      AllFoundIsStable(c, detector, scores, buffer.stream, input[..Smaller(|input|, buffer.NumSymbolsMissing())], detections);
      InvIsStable(c, buffer.stream, input[..Smaller(|input|, buffer.NumSymbolsMissing())], buffer.offset, queue, Ledger());
      hide Inv;
      numCopy := buffer.ReadSignal(input);
    }

    lemma WindowNotEmpty()
      requires Fits()
      ensures buffer.historyLen < buffer.numItems || buffer.stream == []
    {
    }

    /** Handles the samples of one call, however the stream is cut into calls. `ok` is false
        when the source throws, which is exactly when a marker is inadmissible. */
    method Work(input: seq<Complex>, score: ScoreFunction) returns (ok: bool)
      requires Valid()
      modifies this, buffer, buffer.signal, buffer.correlation
      ensures old(detections) <= detections && old(published) <= published
      ensures ok <==> forall d <- detections[|old(detections)|..] :: Admissible(c, d)
      ensures initial == old(initial)
      ensures old(scores) <= scores && forall j :: |old(scores)| <= j < |scores| ==> scores[j] == score
      ensures ok ==> Valid() && buffer.stream == old(buffer.stream) + input
      ensures ok ==> PublishedExactly(c, |buffer.stream|, buffer.offset, Ledger())
      ensures ok ==> DistinctMessages(published) && forall m <- published :: MessageOk(c, buffer.stream, m)
    {
      hide Inv, buffer.Valid, Admissible, PublishedExactly, Settled, DetectionsValid, MessageOk, DistinctMessages, AllFound;
      var processed := 0;
      while processed < |input|
        invariant 0 <= processed <= |input|
        invariant Valid() && buffer.stream == old(buffer.stream) + input[..processed]
        invariant old(detections) <= detections && old(published) <= published
        invariant initial == old(initial)
        invariant old(scores) <= scores && forall j :: |old(scores)| <= j < |scores| ==> scores[j] == score
        invariant forall d <- detections[|old(detections)|..] :: Admissible(c, d)
      {
        var numCopy := Read(input[processed..]);
        assert input[..processed] + input[processed..][..numCopy] == input[..processed + numCopy];
        processed := processed + numCopy;
        if buffer.Full() {
          ghost var earlier := detections;
          ok := ProcessBlock(score);
          assert detections == earlier + [detections[|earlier|]];
          assert detections[|old(detections)|..] == earlier[|old(detections)|..] + [detections[|earlier|]];
          if !ok { return; }
        }
      }
      assert input[..processed] == input;
      WindowNotEmpty();
      ProcessFrameQueue();
      PublishedIsSound();
      ok := true;
    }

    /** Every message that was ever sent is a slice of the stream, and no frame is sent twice. */
    lemma PublishedIsSound()
      requires QueueValid()
      ensures DistinctMessages(published) && forall m <- published :: MessageOk(c, buffer.stream, m)
    {
      hide MessageOk;
    }

    /** Which frames were sent: those finished among the ones known beforehand and the ones a
        whole number of blocks before or after a marker, within the configured range. */
    lemma WhatIsSent(key: Key)
      requires Valid() && PublishedExactly(c, |buffer.stream|, buffer.offset, Ledger())
      ensures (exists m :: m in published && m.pos.offset == key.0 && m.pos.ambiguity == key.1) <==>
        var b := |c.asmConj| + c.payload;
        && (key in initial || exists d ::
              && d in detections && key.1 == d.ambiguity && (key.0 - d.offset) % b == 0
              && d.offset - c.framesBefore * b <= key.0 <= d.offset + c.framesAfter * b)
        && key.0 + b + c.tail <= |buffer.stream|
        && key.0 + c.framesBefore * b < buffer.offset
        && (c.framesBefore == 0 && c.head <= 0 ==> key.0 % b != b - 1)
    {
      hide Inv, Finished, AllFound, AskAroundAll, KeysAroundAll, KeysAround, buffer.Valid;
      KeysAsked(c, initial, detections);
      KeysAroundAllAre(c, detections, key);
      forall d | d in detections
        ensures key in KeysAround(c, d) <==>
          var b := |c.asmConj| + c.payload;
          && key.1 == d.ambiguity && (key.0 - d.offset) % b == 0
          && d.offset - c.framesBefore * b <= key.0 <= d.offset + c.framesAfter * b
      {
        KeysAroundAre(c, d, key);
      }
      FinishedWrittenOut(c, |buffer.stream|, buffer.offset, key);
      assert key in MessageKeys(published) <==> exists m :: m in published && KeyOf(m.pos) == key;
    }

    /** Where the markers are: one in each block, in order. Unless it is at the last position of
        its block, its ambiguity is the one detected in the correlation of the stream there; if
        moreover the first position of the block has a finite score, its own score is the
        highest one but for that of the last position, and the first that high. */
    lemma MarkerIsBest(j: nat, i: nat)
      requires Valid() && j < |detections| && i + 1 < |c.asmConj| + c.payload
      ensures |scores| == |detections| && detections[j].sequence == j + 1
      ensures var d, w, b := detections[j], j * (|c.asmConj| + c.payload), |c.asmConj| + c.payload;
        && 0 <= w <= d.offset < w + b
        && (d.offset + 1 < w + b ==>
              var first, here := Correlation(buffer.stream, w, c.asmConj), Correlation(buffer.stream, d.offset, c.asmConj);
              var other := Correlation(buffer.stream, w + i, c.asmConj);
              && d.ambiguity == detector.detect(here)
              && (scores[j](w, first).Finite? ==>
                    && scores[j](d.offset, here).Finite?
                    && (scores[j](w + i, other).Finite? ==>
                          && scores[j](w + i, other).value <= scores[j](d.offset, here).value
                          && (w + i < d.offset ==> scores[j](w + i, other).value < scores[j](d.offset, here).value))))
    {
      hide Fits, QueueValid, FoundIn, Correlation;
      ProductIsNonNegative(j, c.BlockLen());
      assert FoundIn(c, detector, scores[j], buffer.stream, BlockStart(c, j), detections[j]);
      FoundWrittenOut(c, detector, scores[j], buffer.stream, BlockStart(c, j), detections[j], i);
    }

    /** A frame is sent as that of a marker found in the signal exactly if one was found there. */
    lemma WhoIsPrimary(m: Message)
      requires Valid() && m in published
      ensures m.primary <==> exists d :: d in detections && d.offset == m.pos.offset && d.ambiguity == m.pos.ambiguity
    {
      hide AllFound, AskAroundAll, buffer.Valid, KeysOk, OriginsOk, TasksOk, MessagesOk;
      assert m.primary <==> KeyOf(m.pos) in KeysOf(detections);
      assert KeyOf(m.pos) in KeysOf(detections) <==> exists d :: d in detections && KeyOf(d) == KeyOf(m.pos);
    }

    /** How far the window has moved depends on the length of the stream alone. */
    lemma OffsetFollowsLength()
      requires Valid()
      ensures sequenceNumber == MinusCapZero(|buffer.stream|, c.AsmLen() - 1) / c.BlockLen()
      ensures buffer.offset == sequenceNumber * c.BlockLen()
    {
      hide Inv;
      if |buffer.stream| >= c.AsmLen() - 1 {
        RemainderOf(c.BlockLen(), sequenceNumber, |buffer.stream| - (c.AsmLen() - 1) - buffer.offset);
      } else {
        ProductIsNonNegative(sequenceNumber, c.BlockLen());
        RemainderOf(c.BlockLen(), 0, 0);
        if sequenceNumber != 0 {
          ProductIsNonNegative(sequenceNumber - 1, c.BlockLen());
        }
      }
    }
  }

  /** Two synchronisers that search alike. */
  ghost predicate SearchAlike(a: FrameSync, b: FrameSync)
    reads a, b
  {
    && a.c == b.c && a.detector == b.detector
    && forall j: nat :: j < |a.scores| && j < |b.scores| ==> a.scores[j] == b.scores[j]
  }

  /** The same stream and the same scores give the same markers, however the calls were cut. */
  lemma SameMarkers(a: FrameSync, b: FrameSync)
    requires a.Valid() && b.Valid() && SearchAlike(a, b) && a.buffer.stream == b.buffer.stream
    ensures a.detections == b.detections
  {
    hide Inv, Searched, a.buffer.Valid, b.buffer.Valid, BlockStart, Leader;
    a.OffsetFollowsLength();
    b.OffsetFollowsLength();
    forall j: nat | j < |a.detections|
      ensures a.detections[j] == b.detections[j]
    {
      SameMarker(a, b, j);
    }
  }

  lemma SameMarker(a: FrameSync, b: FrameSync, j: nat)
    requires a.MarkersFound() && b.MarkersFound() && SearchAlike(a, b) && a.buffer.stream == b.buffer.stream
    requires OnePerBlock(a.c, a.detections) && OnePerBlock(b.c, b.detections)
    requires j < |a.detections| && j < |b.detections|
    ensures a.detections[j] == b.detections[j]
  {
    hide Searched, BlockStart, Leader;
    var c, detector, stream := a.c, a.detector, a.buffer.stream;
    assert FoundIn(c, detector, a.scores[j], stream, BlockStart(c, j), a.detections[j]);
    assert FoundIn(c, detector, a.scores[j], stream, BlockStart(c, j), b.detections[j]);
  }

  /** Two synchronisers that search the same stream alike, in differently cut calls, have
      sent the same messages. */
  lemma CutsDoNotMatter(a: FrameSync, b: FrameSync, m: Message)
    requires a.Valid() && b.Valid() && SearchAlike(a, b)
    requires a.buffer.stream == b.buffer.stream && a.initial == b.initial
    requires PublishedExactly(a.c, |a.buffer.stream|, a.buffer.offset, a.Ledger())
    requires PublishedExactly(b.c, |b.buffer.stream|, b.buffer.offset, b.Ledger())
    requires m in a.published
    ensures m in b.published
  {
    hide Finished, MessageOk, AllFound, AskAroundAll, a.buffer.Valid, b.buffer.Valid;
    a.OffsetFollowsLength();
    b.OffsetFollowsLength();
    SameMarkers(a, b);
    assert KeyOf(m.pos) in MessageKeys(a.published);
    assert KeyOf(m.pos) in MessageKeys(b.published);
    var n :| n in b.published && KeyOf(n.pos) == KeyOf(m.pos);
    SameMessage(a.c, a.buffer.stream, m, n);
  }

  /** The stream, the position that asked and whether it is a marker determine a message. */
  lemma SameMessage(c: Config, stream: seq<Complex>, m: Message, n: Message)
    requires c.Valid() && MessageOk(c, stream, m) && MessageOk(c, stream, n)
    requires m.pos == n.pos && m.primary == n.primary
    ensures m == n
  {
  }

  /** A position before the marker that is too early makes the marker inadmissible. */
  lemma {:induction false} NotAdmissible(c: Config, d: AsmPosition, i: nat, n: nat)
    requires 1 <= i <= n
    requires Earlier(c, d, i).Some? && Earlier(c, d, i).value.offset < c.HeadLen()
    ensures !BeforeAdmissible(c, d, n)
  {
    if i < n {
      NotAdmissible(c, d, i, n - 1);
    }
  }
}
