// Whole runs of one copy task of the frame synchroniser, from the moment it is queued, for
// any marker length: where the guarantees of the queue begin and end.
module FrameRuns {
  import opened Samples
  import opened Arithmetic
  import opened Options
  import opened SyncBuffer
  import opened FrameQueue

  /** A window, the stream received by now, and a task. */
  datatype Situation = Situation(window: nat, stream: seq<Complex>, t: Task)

  /** Samples are read; the queue is served at the end of a call; or a full buffer is served
      and moves on by a block. */
  datatype Event = Read(samples: seq<Complex>) | Serve | Block

  /** Marker and frame are not empty. */
  ghost predicate NotEmpty(c: Config) {
    1 <= c.AsmLen() && 1 <= c.OutputLen()
  }

  /** The last position the buffer reports; with nothing in the window, the window's own. */
  function LastReported(window: nat, len: nat): int
    requires window <= len
  {
    window + MinusCapZero(len - window, 1)
  }

  lemma BufferReports(b: FrameSyncBuffer)
    requires b.Consistent() && b.historyLen <= b.numItems
    ensures b.OffsetLastSymbol() == LastReported(b.offset, |b.stream|)
  {
  }

  function FullLen(c: Config, window: nat): int {
    window + c.BlockLen() + c.AsmLen() - 1
  }

  /** The window is at a block boundary, and what the last move left is still there. */
  ghost predicate WindowOk(c: Config, window: nat, len: nat) {
    && 1 <= c.AsmLen() && window % c.BlockLen() == 0
    && window <= len <= FullLen(c, window)
    && (window != 0 ==> window + c.AsmLen() - 1 <= len)
  }

  /** What a task holds follows from how much it has copied. */
  ghost predicate ShapeOk(c: Config, t: Task) {
    && c.HeadLen() <= t.pos.offset
    && |t.copied| <= c.OutputLen() && t.copyFrom == Start(c, t.pos) + |t.copied|
  }

  ghost predicate SituationOk(c: Config, s: Situation) {
    WindowOk(c, s.window, |s.stream|) && ShapeOk(c, s.t)
  }

  /** A task is queued before the stream starts, or when a full buffer has been searched. */
  ghost predicate Queued(c: Config, s: Situation) {
    && WindowOk(c, s.window, |s.stream|)
    && (s.stream == [] || |s.stream| == FullLen(c, s.window))
    && c.HeadLen() <= s.t.pos.offset && s.window <= s.t.pos.offset + c.framesBefore * c.BlockLen()
    && exists primary: bool :: s.t == NewTask(c, s.t.pos, primary)
  }

  function Serving(c: Config, s: Situation): Situation
    requires SituationOk(c, s)
  {
    s.(t := ProcessTask(c, s.stream, MinusCapZero(s.window, c.HistoryLen()), LastReported(s.window, |s.stream|), s.t))
  }

  function Next(c: Config, s: Situation, e: Event): (r: Situation)
    requires NotEmpty(c) && SituationOk(c, s)
    ensures SituationOk(c, r) && r.t.pos == s.t.pos
  {
    match e
    case Read(samples) =>
      if |s.stream| + |samples| <= FullLen(c, s.window) then s.(stream := s.stream + samples) else s
    case Serve => Serving(c, s)
    case Block =>
      if |s.stream| == FullLen(c, s.window) then
        BlockBoundary(c, s.window);
        Serving(c, s).(window := s.window + c.BlockLen())
      else s
  }

  lemma BlockBoundary(c: Config, window: nat)
    requires 1 <= c.AsmLen() && window % c.BlockLen() == 0
    ensures (window + c.BlockLen()) % c.BlockLen() == 0
  {
    EndOfBlock(c.BlockLen(), window);
  }

  function After(c: Config, s: Situation, es: seq<Event>): (r: Situation)
    requires NotEmpty(c) && SituationOk(c, s)
    ensures SituationOk(c, r) && r.t.pos == s.t.pos
  {
    if es == [] then s else Next(c, After(c, s, es[..|es| - 1]), es[|es| - 1])
  }

  /** Every queued task is in such a situation, so asking for both excludes nothing. */
  lemma QueuedIsOk(c: Config, s: Situation)
    requires NotEmpty(c) && Queued(c, s)
    ensures SituationOk(c, s)
  {
  }

  // ----- copying what was not received -----

  /** The task has only copied what was received. */
  ghost predicate Within(s: Situation) {
    s.t.copied == [] || s.t.copyFrom <= |s.stream|
  }

  ghost predicate NeverTooMuch(c: Config)
    requires NotEmpty(c)
  {
    forall s, es :: Queued(c, s) && SituationOk(c, s) ==> Within(After(c, s, es))
  }

  /** Markers of two symbols or more; or no history, and either every position is the last
      of its block, or all that could start at a block boundary belongs to such a marker. */
  predicate KeepsWithin(c: Config)
    requires 1 <= c.AsmLen()
  {
    || 2 <= c.AsmLen()
    || (c.HistoryLen() == 0 && (c.BlockLen() == 1 || (c.OutputLen() == 1 && c.head % c.BlockLen() == 0)))
  }

  /** Without history no header is computed for the last position of a block. */
  ghost predicate HeaderOk(c: Config, t: Task)
    requires 1 <= c.AsmLen()
  {
    c.HistoryLen() == 0 && t.header.Some? ==> t.pos.offset % c.BlockLen() != c.BlockLen() - 1
  }

  lemma InBlock(b: nat, window: nat, offset: nat)
    requires 0 < b && window % b == 0 && window <= offset < window + b
    ensures offset % b == offset - window
  {
    RemainderOf(b, window / b, offset - window);
    assert offset == b * (window / b) + (offset - window);
  }

  lemma ServingKeepsHeaderOk(c: Config, s: Situation)
    requires NotEmpty(c) && SituationOk(c, s) && HeaderOk(c, s.t)
    ensures HeaderOk(c, Serving(c, s).t)
  {
    if c.HistoryLen() == 0 && s.t.header.None? && Serving(c, s).t.header.Some? {
      InBlock(c.BlockLen(), s.window, s.t.pos.offset);
    }
  }

  lemma BeforeBoundary(b: nat, window: nat, head: int, offset: nat)
    requires 0 < b && window % b == 0 && head % b == 0 && offset + 1 - head == window
    ensures offset % b == b - 1
  {
    var w := window / b + head / b - 1;
    assert offset == b * w + (b - 1);
    RemainderOf(b, w, b - 1);
  }

  lemma HeadOrNone(c: Config)
    requires c.HistoryLen() == 0 && 1 <= c.AsmLen()
    ensures c.head <= 0
  {
    ProductIsNonNegative(c.framesBefore, c.BlockLen());
  }

  lemma ServingKeepsWithin(c: Config, s: Situation)
    requires NotEmpty(c) && KeepsWithin(c) && SituationOk(c, s) && HeaderOk(c, s.t) && Within(s)
    ensures Within(Serving(c, s))
  {
    var w, b := s.window, c.BlockLen();
    if |s.stream| == w && w != 0 {
      HeadOrNone(c);
      if s.t.header.Some? && s.t.copyFrom == w && !Complete(c, s.t) {
        InBlock(b, w, w);
        if b != 1 {
          BeforeBoundary(b, w, c.head, s.t.pos.offset);
        }
      }
    }
  }

  lemma {:induction false} RunStaysWithin(c: Config, s: Situation, es: seq<Event>)
    requires NotEmpty(c) && KeepsWithin(c) && SituationOk(c, s) && HeaderOk(c, s.t) && Within(s)
    ensures Within(After(c, s, es)) && HeaderOk(c, After(c, s, es).t)
  {
    if es != [] {
      RunStaysWithin(c, s, es[..|es| - 1]);
      hide KeepsWithin, HeaderOk;
      var r := After(c, s, es[..|es| - 1]);
      ServingKeepsWithin(c, r);
      ServingKeepsHeaderOk(c, r);
      NextKeepsHeader(c, r, es[|es| - 1]);
    }
  }

  lemma NextKeepsHeader(c: Config, s: Situation, e: Event)
    requires NotEmpty(c) && SituationOk(c, s)
    ensures Next(c, s, e).t == s.t || Next(c, s, e).t == Serving(c, s).t
    ensures |Next(c, s, e).stream| >= |s.stream|
  {
  }

  // ----- runs that copy too much -----

  /** A task for a marker known before the stream starts. */
  function Known(c: Config, offset: nat): Situation
    requires c.HeadLen() <= offset
  {
    Situation(0, [], NewTask(c, AsmPosition(offset, 0, 0), false))
  }

  /** With a one-symbol marker the stream ends at the window after a block. The task has taken
      what there is, and its header has been computed or still can be. */
  ghost predicate AtBoundary(c: Config, s: Situation, offset: nat) {
    && SituationOk(c, s) && |s.stream| == s.window && s.t.pos.offset == offset
    && |s.t.copied| == Smaller(c.OutputLen(), MinusCapZero(s.window, Start(c, s.t.pos)))
    && (s.t.header.Some? || s.window <= offset || (offset + 1 == s.window && 1 <= c.HistoryLen()))
  }

  /** The header of the marker is not missed. */
  ghost predicate SeesHeader(c: Config, offset: nat)
    requires 1 <= c.AsmLen()
  {
    1 <= c.HistoryLen() || (offset + 1) % c.BlockLen() != 0
  }

  lemma HistoryReachesHead(c: Config)
    requires 1 <= c.AsmLen()
    ensures 0 <= c.HeadLen() <= c.HistoryLen() && 1 <= c.BlockLen()
  {
    ProductIsNonNegative(c.framesBefore, c.BlockLen());
  }

  /** What a block of silence is read as. */
  function OneBlock(c: Config): seq<Event>
    requires 1 <= c.AsmLen()
  {
    [Read(seq(c.BlockLen(), _ => ZERO)), Block]
  }

  lemma ReadOneBlock(c: Config, s: Situation)
    requires NotEmpty(c) && c.AsmLen() == 1 && SituationOk(c, s) && |s.stream| == s.window
    ensures var m := Next(c, s, OneBlock(c)[0]);
            |m.stream| == FullLen(c, s.window) && m.t == s.t && m.window == s.window
  {
  }

  lemma BlockFromBoundary(c: Config, s: Situation, m: Situation, offset: nat)
    requires NotEmpty(c) && c.AsmLen() == 1 && AtBoundary(c, s, offset)
    requires SituationOk(c, m) && |m.stream| == FullLen(c, s.window) && m.t == s.t && m.window == s.window
    requires !Complete(c, s.t) && (offset + 1 == s.window + c.BlockLen() ==> 1 <= c.HistoryLen())
    ensures var r := Next(c, m, Block);
            AtBoundary(c, r, offset) && r.window == s.window + c.BlockLen()
  {
    HistoryReachesHead(c);
    hide c.HistoryLen, HeaderFor, Symbols, c.BlockLen;
  }

  lemma TwoEvents(c: Config, s: Situation, e: Event, f: Event)
    requires NotEmpty(c) && SituationOk(c, s)
    ensures After(c, s, [e, f]) == Next(c, Next(c, s, e), f)
  {
    assert [e, f][..1] == [e] && [e][..0] == [];
    assert After(c, s, [e]) == Next(c, After(c, s, []), e);
  }

  lemma {:induction false} AfterBoth(c: Config, s: Situation, es: seq<Event>, fs: seq<Event>)
    requires NotEmpty(c) && SituationOk(c, s)
    ensures After(c, s, es + fs) == After(c, After(c, s, es), fs)
    decreases |fs|
  {
    hide After, Next, SituationOk;
    if fs == [] {
      assert es + fs == es;
      AfterNothing(c, After(c, s, es));
    } else {
      var n := |fs| - 1;
      AfterBoth(c, s, es, fs[..n]);
      assert es + fs == (es + fs[..n]) + [fs[n]] && fs == fs[..n] + [fs[n]];
      AfterOneMore(c, s, es + fs[..n], fs[n]);
      AfterOneMore(c, After(c, s, es), fs[..n], fs[n]);
    }
  }

  lemma AfterNothing(c: Config, s: Situation)
    requires NotEmpty(c) && SituationOk(c, s)
    ensures After(c, s, []) == s
  {
  }

  lemma AfterOneMore(c: Config, s: Situation, es: seq<Event>, e: Event)
    requires NotEmpty(c) && SituationOk(c, s)
    ensures After(c, s, es + [e]) == Next(c, After(c, s, es), e)
  {
    hide Next, SituationOk;
    assert (es + [e])[..|es|] == es;
  }

  lemma OneMoreBlock(c: Config, s: Situation, offset: nat)
    requires NotEmpty(c) && c.AsmLen() == 1 && AtBoundary(c, s, offset) && !Complete(c, s.t)
    requires s.window % c.BlockLen() == 0 && SeesHeader(c, offset)
    ensures var r := After(c, s, OneBlock(c));
            AtBoundary(c, r, offset) && r.window == s.window + c.BlockLen()
  {
    hide *;
    BoundaryIsOk(c, s, offset);
    var m := Next(c, s, OneBlock(c)[0]);
    TwoEvents(c, s, OneBlock(c)[0], Block);
    ReadOneBlock(c, s);
    HeaderIsNotMissed(c, s.window, offset);
    BlockFromBoundary(c, s, m, offset);
  }

  lemma BoundaryIsOk(c: Config, s: Situation, offset: nat)
    requires 1 <= c.AsmLen() && AtBoundary(c, s, offset)
    ensures SituationOk(c, s) && |s.stream| == s.window
    ensures |OneBlock(c)| == 2 && OneBlock(c) == [OneBlock(c)[0], Block]
  {
  }

  lemma HeaderIsNotMissed(c: Config, window: nat, offset: nat)
    requires 1 <= c.AsmLen() && window % c.BlockLen() == 0 && SeesHeader(c, offset)
    ensures offset + 1 == window + c.BlockLen() ==> 1 <= c.HistoryLen()
  {
    BlockBoundary(c, window);
  }

  /** Block after block up to a boundary at which the frame is not complete yet. */
  lemma {:induction false} Blocks(c: Config, offset: nat, k: nat) returns (es: seq<Event>)
    requires NotEmpty(c) && c.AsmLen() == 1 && c.HeadLen() <= offset && SeesHeader(c, offset)
    requires k * c.BlockLen() < offset + 1 - c.head + c.OutputLen()
    ensures Queued(c, Known(c, offset)) && SituationOk(c, Known(c, offset))
    ensures var r := After(c, Known(c, offset), es);
            AtBoundary(c, r, offset) && r.window == k * c.BlockLen()
  {
    KnownIsQueued(c, offset);
    if k == 0 {
      es := [];
    } else {
      OneMore(k, c.BlockLen());
      es := Blocks(c, offset, k - 1);
      var r := After(c, Known(c, offset), es);
      AfterBoth(c, Known(c, offset), es, OneBlock(c));
      IncompleteAt(c, r, offset);
      OneMoreBlock(c, r, offset);
      es := es + OneBlock(c);
    }
  }

  lemma KnownIsQueued(c: Config, offset: nat)
    requires NotEmpty(c) && c.AsmLen() == 1 && c.HeadLen() <= offset
    ensures Queued(c, Known(c, offset)) && AtBoundary(c, Known(c, offset), offset)
  {
    HistoryReachesHead(c);
    ProductIsNonNegative(c.framesBefore, c.BlockLen());
    SmallRemainder(0, c.BlockLen());
    assert Known(c, offset).t == NewTask(c, Known(c, offset).t.pos, false);
  }

  lemma IncompleteAt(c: Config, s: Situation, offset: nat)
    requires NotEmpty(c) && c.AsmLen() == 1 && AtBoundary(c, s, offset)
    requires s.window + c.BlockLen() < offset + 1 - c.head + c.OutputLen()
    ensures !Complete(c, s.t) && s.window % c.BlockLen() == 0
  {
  }

  /** Serving the task there takes a sample that was not received. */
  lemma OneTooMany(c: Config, s: Situation, offset: nat)
    requires NotEmpty(c) && c.AsmLen() == 1 && AtBoundary(c, s, offset) && 0 < s.window
    requires Start(c, s.t.pos) <= s.window < Start(c, s.t.pos) + c.OutputLen()
    ensures !Within(Next(c, s, Serve))
  {
    HistoryReachesHead(c);
    hide c.HistoryLen, HeaderFor, Symbols, c.BlockLen;
  }

  lemma CopiesTooMuch(c: Config, offset: nat, k: nat)
    requires NotEmpty(c) && c.AsmLen() == 1 && c.HeadLen() <= offset && SeesHeader(c, offset)
    requires 0 < k * c.BlockLen() && offset + 1 - c.head <= k * c.BlockLen() < offset + 1 - c.head + c.OutputLen()
    ensures !NeverTooMuch(c)
  {
    hide AtBoundary, Within, SituationOk, SeesHeader;
    var es := Blocks(c, offset, k);
    var s := Known(c, offset);
    AfterBoth(c, s, es, [Serve]);
    OneEvent(c, After(c, s, es), Serve);
    OneTooMany(c, After(c, s, es), offset);
    assert !Within(After(c, s, es + [Serve]));
  }

  lemma OneEvent(c: Config, s: Situation, e: Event)
    requires NotEmpty(c) && SituationOk(c, s)
    ensures After(c, s, [e]) == Next(c, s, e)
  {
    assert [e][..0] == [];
  }

  /** A marker whose frame would start `d` samples before the end of block `k`. */
  lemma OffsetBefore(c: Config, k: nat, d: nat)
    requires c.AsmLen() == 1 && d + 1 + (if c.head < 0 then -c.head else 0) <= k
    ensures c.HeadLen() <= k * c.BlockLen() - d - 1 + c.head && k <= k * c.BlockLen()
  {
    ProductIsNonNegative(k, c.BlockLen() - 1);
    assert k * (c.BlockLen() - 1) == k * c.BlockLen() - k;
  }

  lemma ShiftedHead(b: nat, k: nat, x: int)
    requires 0 < b
    ensures (k * b + x) % b == x % b
  {
    var w := k + x / b;
    assert k * b + x == b * w + x % b;
    RemainderOf(b, w, x % b);
  }

  lemma OneBeforeBoundary(b: nat, x: int)
    requires 1 < b && x % b == 0
    ensures (x - 1) % b == b - 1
  {
    var w := x / b - 1;
    assert x - 1 == b * w + (b - 1);
    RemainderOf(b, w, b - 1);
  }

  lemma FailsOtherwise(c: Config)
    requires NotEmpty(c) && !KeepsWithin(c)
    ensures !NeverTooMuch(c)
  {
    hide SeesHeader, NeverTooMuch;
    var d := if c.HistoryLen() == 0 && c.head % c.BlockLen() == 0 then 1 else 0;
    var k := d + 1 + if c.head < 0 then -c.head else 0;
    OffsetBefore(c, k, d);
    var offset := k * c.BlockLen() - d - 1 + c.head;
    HeaderIsSeen(c, k, d, offset);
    CopiesTooMuch(c, offset, k);
  }

  lemma HeaderIsSeen(c: Config, k: nat, d: nat, offset: nat)
    requires NotEmpty(c) && !KeepsWithin(c) && offset == k * c.BlockLen() - d - 1 + c.head
    requires d == if c.HistoryLen() == 0 && c.head % c.BlockLen() == 0 then 1 else 0
    ensures SeesHeader(c, offset) && d < c.OutputLen()
  {
    HistoryReachesHead(c);
    hide c.HistoryLen, c.BlockLen;
    if c.HistoryLen() == 0 {
      ShiftedHead(c.BlockLen(), k, c.head - d);
      if d == 1 {
        OneBeforeBoundary(c.BlockLen(), c.head);
      }
    }
  }

  /** No task ever copies a sample that was not received, whatever the run, if and only if
      the marker has two symbols or the configuration is one of the few that never look. */
  lemma NeverTooMuchIff(c: Config)
    requires NotEmpty(c)
    ensures NeverTooMuch(c) <==> KeepsWithin(c)
  {
    if KeepsWithin(c) {
      forall s, es | Queued(c, s) && SituationOk(c, s)
        ensures Within(After(c, s, es))
      {
        RunStaysWithin(c, s, es);
      }
    } else {
      FailsOtherwise(c);
    }
  }

  // ----- frames that are complete before their headers -----

  ghost predicate HeadersFirst(c: Config)
    requires NotEmpty(c)
  {
    forall s, es :: Queued(c, s) && SituationOk(c, s) ==> HeaderFirst(c, After(c, s, es).t)
  }

  /** What the queue's invariant says about one task. */
  ghost predicate TaskKept(c: Config, s: Situation)
    requires c.Valid()
  {
    TaskOk(c, s.stream, s.t) && HeaderFirst(c, s.t) && Served(c, s.window, s.t)
  }

  /** With markers of two symbols or more, the task is served as if the buffer reported the
      last sample of the stream. */
  lemma ServingAsInQueue(c: Config, s: Situation)
    requires c.Valid() && SituationOk(c, s) && TaskOk(c, s.stream, s.t)
    ensures Serving(c, s).t == ProcessTask(c, s.stream, MinusCapZero(s.window, c.HistoryLen()), |s.stream| - 1, s.t)
  {
    hide *;
    LastReportedIsLast(c, s.window, |s.stream|);
    ServingFrom(c, s);
    if s.stream == [] {
      NoHistoryYet(c);
      NothingBeforeTheStream(c, s.t);
    }
  }

  lemma LastReportedIsLast(c: Config, window: nat, len: nat)
    ensures c.Valid() && WindowOk(c, window, len) ==>
      window <= len && LastReported(window, len) == (if len == 0 then 0 else len - 1) && (len == 0 ==> window == 0)
  {
  }

  lemma ServingFrom(c: Config, s: Situation)
    requires c.Valid() && SituationOk(c, s)
    ensures WindowOk(c, s.window, |s.stream|) && 1 <= c.AsmLen() && |s.t.copied| <= c.OutputLen()
    ensures Serving(c, s).t == ProcessTask(c, s.stream, MinusCapZero(s.window, c.HistoryLen()), LastReported(s.window, |s.stream|), s.t)
  {
    hide ProcessTask, LastReported;
  }

  lemma NoHistoryYet(c: Config)
    requires 1 <= c.AsmLen()
    ensures MinusCapZero(0, c.HistoryLen()) == 0
  {
    HistoryReachesHead(c);
  }

  lemma NextKeepsTask(c: Config, s: Situation, e: Event)
    requires c.Valid() && SituationOk(c, s) && TaskKept(c, s)
    ensures TaskKept(c, Next(c, s, e))
  {
    hide TaskOk, FrameQueue.Served, ProcessTask, Settled;
    ServingAsInQueue(c, s);
    ProcessKeepsTaskOk(c, s.stream, MinusCapZero(s.window, c.HistoryLen()), s.t);
    ProcessSettles(c, s.stream, s.window, s.t);
    match e
    case Read(samples) => TaskOkIsStable(c, s.stream, samples, s.t);
    case Serve =>
    case Block =>
      if |s.stream| == FullLen(c, s.window) {
        SettledStaysServed(c, s.stream, s.window, Serving(c, s).t);
      }
  }

  lemma {:induction false} RunKeepsTask(c: Config, s: Situation, es: seq<Event>)
    requires c.Valid() && SituationOk(c, s) && TaskKept(c, s)
    ensures TaskKept(c, After(c, s, es))
  {
    hide TaskKept, SituationOk;
    if es != [] {
      RunKeepsTask(c, s, es[..|es| - 1]);
      NextKeepsTask(c, After(c, s, es[..|es| - 1]), es[|es| - 1]);
    }
  }

  lemma QueuedIsKept(c: Config, s: Situation)
    requires c.Valid() && Queued(c, s)
    ensures TaskKept(c, s)
  {
  }

  /** Over any run from the moment it is queued, a task is what the queue's invariant says. */
  lemma QueuedTasksAreKept(c: Config, s: Situation, es: seq<Event>)
    requires c.Valid() && Queued(c, s) && SituationOk(c, s)
    ensures TaskKept(c, After(c, s, es))
  {
    hide *;
    QueuedIsKept(c, s);
    RunKeepsTask(c, s, es);
  }

  /** A marker at the last position of a window, and its frame, once the window is full. */
  lemma CompletesWithoutHeader(c: Config)
    requires NotEmpty(c) && c.payload + c.tail < 1
    ensures !HeadersFirst(c)
  {
    var b, k := c.BlockLen(), c.HeadLen();
    ProductIsNonNegative(k, b - 1);
    assert k * (b - 1) == k * b - k;
    assert k * b == b * k + 0;
    RemainderOf(b, k, 0);
    var w, offset := k * b, k * b + b - 1;
    var stream := seq(w + b + c.AsmLen() - 1, _ => ZERO);
    var s := Situation(w, stream, NewTask(c, AsmPosition(offset, 0, 0), true));
    LastOfWindow(c, s, offset);
  }

  lemma LastOfWindow(c: Config, s: Situation, offset: nat)
    requires NotEmpty(c) && c.payload + c.tail < 1
    requires c.HeadLen() <= s.window && offset == s.window + c.BlockLen() - 1
    requires WindowOk(c, s.window, |s.stream|) && |s.stream| == FullLen(c, s.window)
    requires s.t == NewTask(c, AsmPosition(offset, 0, 0), true)
    ensures !HeadersFirst(c)
  {
    HistoryReachesHead(c);
    ProductIsNonNegative(c.framesBefore, c.BlockLen());
    assert s.t == NewTask(c, s.t.pos, true);
    OneEvent(c, s, Serve);
    assert !HeaderFirst(c, After(c, s, [Serve]).t);
  }

  lemma ServingKeepsHeaderFirst(c: Config, s: Situation)
    requires NotEmpty(c) && SituationOk(c, s) && HeaderFirst(c, s.t) && 1 <= c.payload + c.tail
    ensures HeaderFirst(c, Serving(c, s).t)
  {
  }

  lemma {:induction false} RunKeepsHeaderFirst(c: Config, s: Situation, es: seq<Event>)
    requires NotEmpty(c) && SituationOk(c, s) && HeaderFirst(c, s.t) && 1 <= c.payload + c.tail
    ensures HeaderFirst(c, After(c, s, es).t)
  {
    if es != [] {
      RunKeepsHeaderFirst(c, s, es[..|es| - 1]);
      hide HeaderFirst;
      var r := After(c, s, es[..|es| - 1]);
      ServingKeepsHeaderFirst(c, r);
      NextKeepsHeader(c, r, es[|es| - 1]);
    }
  }

  /** Whatever the run, no task completes before its header is computed, if and only if
      frames reach beyond their marker. */
  lemma HeadersFirstIffBeyondMarker(c: Config)
    requires NotEmpty(c)
    ensures HeadersFirst(c) <==> 1 <= c.payload + c.tail
  {
    if 1 <= c.payload + c.tail {
      forall s, es | Queued(c, s) && SituationOk(c, s)
        ensures HeaderFirst(c, After(c, s, es).t)
      {
        RunKeepsHeaderFirst(c, s, es);
      }
    } else {
      CompletesWithoutHeader(c);
    }
  }
}
