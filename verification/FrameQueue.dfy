// The queue of copy tasks of the frame synchroniser (lib/frame_sync_impl.cc), as functions
// on values: enqueueing a found position, serving a task from what the buffer holds, and
// the invariants that tie a task to the stream it is cut from.
module FrameQueue {
  import opened Samples
  import opened Arithmetic
  import opened SyncBuffer
  import opened Options

  /** Lengths count symbols; `head` and `tail` may be negative, which trims the payload. */
  datatype Config = Config(
    asmConj: seq<Complex>, payload: nat, head: int, tail: int,
    framesBefore: nat, framesAfter: nat, correction: nat -> Complex)
  {
    function AsmLen(): nat { |asmConj| }

    function BlockLen(): nat { AsmLen() + payload }

    function HeadLen(): nat { if head > 0 then head else 0 }

    function OutputLen(): int { payload + head + tail }

    function HistoryLen(): nat { framesBefore * BlockLen() + HeadLen() }

    /** Frames are not empty and reach beyond their marker. */
    ghost predicate Valid() {
      2 <= AsmLen() && 1 <= OutputLen() && 1 <= payload + tail
    }
  }

  datatype AsmPosition = AsmPosition(offset: nat, ambiguity: nat, sequence: nat)

  type Key = (nat, nat)

  function KeyOf(pos: AsmPosition): Key { (pos.offset, pos.ambiguity) }

  datatype Header = Header(position: AsmPosition, number: nat, primary: bool, correlation: Complex)

  datatype Task = Task(
    pos: AsmPosition, copyFrom: nat, primary: bool, header: Option<Header>, copied: seq<Complex>)

  datatype Message = Message(header: Option<Header>, pos: AsmPosition, primary: bool, symbols: seq<Complex>)

  /** The position of the first symbol of the frame that belongs to a marker. */
  function Start(c: Config, pos: AsmPosition): int {
    pos.offset + c.AsmLen() - c.head
  }

  /** `n` symbols of the stream with the ambiguity removed. */
  function Symbols(c: Config, stream: seq<Complex>, ambiguity: nat, p: int, n: nat): (s: seq<Complex>)
    ensures |s| == n
    ensures forall k :: 0 <= k < n ==> s[k] == Mul(At(stream, p + k), c.correction(ambiguity))
  {
    seq(n, k => Mul(At(stream, p + k), c.correction(ambiguity)))
  }

  function HeaderFor(c: Config, stream: seq<Complex>, pos: AsmPosition, primary: bool): Header
    requires 1 <= c.AsmLen()
  {
    Header(pos, pos.offset / c.BlockLen(), primary,
           Mul(Correlation(stream, pos.offset, c.asmConj), c.correction(pos.ambiguity)))
  }

  function NewTask(c: Config, pos: AsmPosition, primary: bool): Task
    requires c.HeadLen() <= pos.offset
  {
    Task(pos, Start(c, pos), primary, None, [])
  }

  function Complete(c: Config, t: Task): bool {
    |t.copied| == c.OutputLen()
  }

  /** The first position of the stream a task still has to look at. */
  function FirstOfInterest(t: Task): nat {
    if t.header.Some? then t.copyFrom else Smaller(t.pos.offset, t.copyFrom)
  }

  /** Serves one task from a buffer that holds the stream positions from .. until. */
  function ProcessTask(c: Config, stream: seq<Complex>, from: int, until: int, t: Task): Task
    requires 1 <= c.AsmLen() && |t.copied| <= c.OutputLen()
  {
    if Complete(c, t) || !(from <= FirstOfInterest(t) <= until) then t
    else
      var numAvail := MinusCapZero(until + 1, t.copyFrom);
      var asmAvailable := from <= t.pos.offset && until >= t.pos.offset + c.AsmLen();
      var toCopy := Smaller(c.OutputLen() - |t.copied|, numAvail);
      t.(header := if t.header.None? && asmAvailable
                   then Some(HeaderFor(c, stream, t.pos, t.primary)) else t.header,
         copied := t.copied + Symbols(c, stream, t.pos.ambiguity, t.copyFrom, toCopy),
         copyFrom := t.copyFrom + toCopy)
  }

  function MessageOf(t: Task): Message {
    Message(t.header, t.pos, t.primary, t.copied)
  }

  // ----- one task and the stream -----

  /** Whatever a task has copied so far is the stream from the start of its frame on, and
      its header is the one computed directly from the stream. */
  ghost predicate TaskOk(c: Config, stream: seq<Complex>, t: Task)
    requires c.Valid()
  {
    && c.HeadLen() <= t.pos.offset
    && |t.copied| <= c.OutputLen()
    && t.copyFrom == Start(c, t.pos) + |t.copied|
    && (t.copied != [] ==> t.copyFrom <= |stream|)
    && t.copied == Symbols(c, stream, t.pos.ambiguity, Start(c, t.pos), |t.copied|)
    && (t.header.Some? ==> t.pos.offset + c.AsmLen() < |stream|)
    && (t.header.Some? ==> t.header.value == HeaderFor(c, stream, t.pos, t.primary))
  }

  /** Without history, the last position of a block is never finished. */
  ghost predicate Attainable(c: Config, offset: nat)
    requires c.Valid()
  {
    0 < c.HistoryLen() || offset % c.BlockLen() != c.BlockLen() - 1
  }

  /** A task has taken exactly what the first `len` samples of the stream offer. */
  ghost predicate Settled(c: Config, len: nat, t: Task)
    requires c.Valid()
  {
    if Attainable(c, t.pos.offset) then
      && |t.copied| == Smaller(c.OutputLen(), MinusCapZero(len, Start(c, t.pos)))
      && (t.header.Some? <==> t.pos.offset + c.AsmLen() < len)
    else
      t.copied == [] && t.header.None?
  }

  /** Nothing a task still needs has left a buffer whose window starts at `offset`. */
  ghost predicate Served(c: Config, offset: nat, t: Task)
    requires c.Valid()
  {
    if Attainable(c, t.pos.offset) then
      Complete(c, t) || offset <= FirstOfInterest(t) + c.HistoryLen()
    else
      t.copied == [] && t.header.None?
  }

  /** No frame is complete before its header is. */
  ghost predicate HeaderFirst(c: Config, t: Task) {
    Complete(c, t) ==> t.header.Some?
  }

  lemma SymbolsAreStable(c: Config, stream: seq<Complex>, more: seq<Complex>, ambiguity: nat, p: nat, n: nat)
    requires p + n <= |stream|
    ensures Symbols(c, stream + more, ambiguity, p, n) == Symbols(c, stream, ambiguity, p, n)
  {
  }

  lemma SymbolsConcat(c: Config, stream: seq<Complex>, ambiguity: nat, p: int, m: nat, n: nat)
    ensures Symbols(c, stream, ambiguity, p, m) + Symbols(c, stream, ambiguity, p + m, n)
         == Symbols(c, stream, ambiguity, p, m + n)
  {
    var l, r := Symbols(c, stream, ambiguity, p, m) + Symbols(c, stream, ambiguity, p + m, n), Symbols(c, stream, ambiguity, p, m + n);
    forall k | 0 <= k < m + n
      ensures l[k] == r[k]
    {
      if k >= m {
        assert l[k] == Symbols(c, stream, ambiguity, p + m, n)[k - m];
      }
    }
  }

  lemma TaskOkIsStable(c: Config, stream: seq<Complex>, more: seq<Complex>, t: Task)
    requires c.Valid() && TaskOk(c, stream, t)
    ensures TaskOk(c, stream + more, t)
  {
    if t.copied != [] {
      SymbolsAreStable(c, stream, more, t.pos.ambiguity, Start(c, t.pos), |t.copied|);
    }
    if t.header.Some? {
      CorrelationIsStable(stream, more, t.pos.offset, c.asmConj);
    }
  }

  /** Serving a task keeps its slice contiguous and gap-free. */
  lemma ProcessKeepsTaskOk(c: Config, stream: seq<Complex>, from: int, t: Task)
    requires c.Valid() && TaskOk(c, stream, t)
    ensures TaskOk(c, stream, ProcessTask(c, stream, from, |stream| - 1, t))
  {
    var t' := ProcessTask(c, stream, from, |stream| - 1, t);
    SymbolsConcat(c, stream, t.pos.ambiguity, Start(c, t.pos), |t.copied|, |t'.copied| - |t.copied|);
  }

  /** A block boundary at or below a last-in-block position is a whole block below it. */
  lemma LastOfBlock(c: Config, offset: nat, window: nat)
    requires c.Valid()
    requires window % c.BlockLen() == 0 && window <= offset
    requires offset % c.BlockLen() == c.BlockLen() - 1
    ensures window + c.BlockLen() - 1 <= offset
  {
    var b, w, q := c.BlockLen(), window / c.BlockLen(), offset / c.BlockLen();
    assert window == b * w && offset == b * q + b - 1;
    if q < w {
      NextMultiple(b, w, q);
    } else {
      ProductIsNonNegative(b, q - w);
    }
  }

  lemma EndOfBlock(b: nat, window: nat)
    requires 0 < b && window % b == 0
    ensures (window + b - 1) % b == b - 1
    ensures (window + b) % b == 0
  {
    var w := window / b;
    assert window == b * w;
    RemainderOf(b, w, b - 1);
    assert window + b == b * (w + 1) + 0;
    RemainderOf(b, w + 1, 0);
  }

  /** Serving a task whose samples are still there leaves nothing untaken. */
  lemma ProcessSettles(c: Config, stream: seq<Complex>, window: nat, t: Task)
    requires c.Valid() && TaskOk(c, stream, t) && HeaderFirst(c, t) && Served(c, window, t)
    requires window % c.BlockLen() == 0
    requires window <= |stream| <= window + c.BlockLen() + c.AsmLen() - 1
    ensures var t' := ProcessTask(c, stream, MinusCapZero(window, c.HistoryLen()), |stream| - 1, t);
            Settled(c, |stream|, t') && HeaderFirst(c, t') && Served(c, window, t')
  {
    if Attainable(c, t.pos.offset) {
      ProcessSettlesAttainable(c, stream, window, t);
    } else {
      hide *;
      NothingToProcess(c, stream, window, t);
    }
  }

  lemma ProcessSettlesAttainable(c: Config, stream: seq<Complex>, window: nat, t: Task)
    requires c.Valid() && TaskOk(c, stream, t) && HeaderFirst(c, t) && Served(c, window, t)
    requires window <= |stream| <= window + c.BlockLen() + c.AsmLen() - 1
    requires Attainable(c, t.pos.offset)
    ensures var t' := ProcessTask(c, stream, MinusCapZero(window, c.HistoryLen()), |stream| - 1, t);
            Settled(c, |stream|, t') && HeaderFirst(c, t') && Served(c, window, t')
  {
    hide Attainable, HeaderFor, Symbols;
  }

  /** Without history the last position of a block is out of the buffer before all of its
      marker is in. */
  lemma NothingToProcess(c: Config, stream: seq<Complex>, window: nat, t: Task)
    requires c.Valid() && TaskOk(c, stream, t) && HeaderFirst(c, t) && Served(c, window, t)
    requires window % c.BlockLen() == 0
    requires window <= |stream| <= window + c.BlockLen() + c.AsmLen() - 1
    requires !Attainable(c, t.pos.offset)
    ensures var t' := ProcessTask(c, stream, MinusCapZero(window, c.HistoryLen()), |stream| - 1, t);
            Settled(c, |stream|, t') && HeaderFirst(c, t') && Served(c, window, t')
  {
    hide HeaderFor, Symbols;
    if window <= t.pos.offset {
      LastOfBlock(c, t.pos.offset, window);
    }
  }

  /** The window may move on by a block once a task has been served from a full buffer. */
  lemma SettledStaysServed(c: Config, stream: seq<Complex>, window: nat, t: Task)
    requires c.Valid() && TaskOk(c, stream, t)
    requires window % c.BlockLen() == 0
    requires |stream| == window + c.BlockLen() + c.AsmLen() - 1
    requires Settled(c, |stream|, t)
    ensures Served(c, window + c.BlockLen(), t)
  {
    EndOfBlock(c.BlockLen(), window);
  }

  // ----- the queue -----

  function IndexOf(q: seq<Task>, key: Key): (r: nat)
    ensures r <= |q|
    ensures r < |q| ==> KeyOf(q[r].pos) == key
    ensures forall j :: 0 <= j < r ==> KeyOf(q[j].pos) != key
  {
    if q == [] || KeyOf(q[0].pos) == key then 0 else 1 + IndexOf(q[1..], key)
  }

  /** A known position is queued once; only a marker found in the signal replaces it. */
  function Enqueue(c: Config, q: seq<Task>, pos: AsmPosition, primary: bool): seq<Task>
    requires c.HeadLen() <= pos.offset
  {
    var i := IndexOf(q, KeyOf(pos));
    if i == |q| then q + [NewTask(c, pos, primary)]
    else if primary then q[..i] + q[i + 1..] + [NewTask(c, pos, primary)]
    else q
  }

  ghost predicate Sizes(c: Config, q: seq<Task>) {
    forall t <- q :: |t.copied| <= c.OutputLen()
  }

  ghost function ProcessAll(c: Config, stream: seq<Complex>, from: int, until: int, q: seq<Task>): (r: seq<Task>)
    requires 1 <= c.AsmLen() && Sizes(c, q)
    ensures |r| == |q|
    ensures forall i :: 0 <= i < |q| ==> r[i] == ProcessTask(c, stream, from, until, q[i])
  {
    seq(|q|, i requires 0 <= i < |q| => ProcessTask(c, stream, from, until, q[i]))
  }

  /** Only frames that no later window can generate again are sent. */
  predicate Sendable(c: Config, threshold: int, t: Task) {
    Complete(c, t) && t.pos.offset < threshold
  }

  function Sent(c: Config, threshold: int, q: seq<Task>): seq<Message> {
    if q == [] then []
    else Sent(c, threshold, q[..|q| - 1]) +
         if Sendable(c, threshold, q[|q| - 1]) then [MessageOf(q[|q| - 1])] else []
  }

  function Kept(c: Config, threshold: int, q: seq<Task>): seq<Task> {
    if q == [] then []
    else Kept(c, threshold, q[..|q| - 1]) +
         if Sendable(c, threshold, q[|q| - 1]) then [] else [q[|q| - 1]]
  }

  // ----- the whole history -----

  /** The position that asked for each key, as far as it counts. */
  type Origins = map<Key, AsmPosition>

  /** The first one to ask counts, until a marker found in the signal does. */
  function Ask(o: Origins, pos: AsmPosition, primary: bool): Origins {
    if primary || KeyOf(pos) !in o then o[KeyOf(pos) := pos] else o
  }

  /** Everything that was ever asked for, found as a marker, and sent. */
  datatype History = History(origins: Origins, primaries: set<Key>, published: seq<Message>)

  ghost function Keys(q: seq<Task>): set<Key> {
    set t | t in q :: KeyOf(t.pos)
  }

  ghost function MessageKeys(ms: seq<Message>): set<Key> {
    set m | m in ms :: KeyOf(m.pos)
  }

  ghost predicate DistinctTasks(q: seq<Task>) {
    forall i, j :: 0 <= i < j < |q| ==> KeyOf(q[i].pos) != KeyOf(q[j].pos)
  }

  ghost predicate DistinctMessages(ms: seq<Message>) {
    forall i, j :: 0 <= i < j < |ms| ==> KeyOf(ms[i].pos) != KeyOf(ms[j].pos)
  }

  /** A message carries the slice of the stream that follows its marker, without the
      ambiguity, and the header that the stream itself gives. */
  ghost predicate MessageOk(c: Config, stream: seq<Complex>, m: Message)
    requires c.Valid()
  {
    && c.HeadLen() <= m.pos.offset
    && Attainable(c, m.pos.offset)
    && m.pos.offset + c.AsmLen() < |stream|
    && Start(c, m.pos) + c.OutputLen() <= |stream|
    && m.header == Some(HeaderFor(c, stream, m.pos, m.primary))
    && m.symbols == Symbols(c, stream, m.pos.ambiguity, Start(c, m.pos), c.OutputLen())
  }

  ghost predicate TasksOk(c: Config, stream: seq<Complex>, window: nat, q: seq<Task>)
    requires c.Valid()
  {
    forall t <- q :: TaskOk(c, stream, t) && HeaderFirst(c, t) && Served(c, window, t)
  }

  ghost predicate MessagesOk(c: Config, stream: seq<Complex>, window: nat, ms: seq<Message>)
    requires c.Valid()
  {
    forall m <- ms :: MessageOk(c, stream, m) && m.pos.offset + c.framesBefore * c.BlockLen() < window
  }

  /** Every requested key is either queued or sent, never both and never twice. */
  ghost predicate KeysOk(q: seq<Task>, h: History) {
    && DistinctTasks(q) && DistinctMessages(h.published)
    && Keys(q) !! MessageKeys(h.published)
    && h.origins.Keys == Keys(q) + MessageKeys(h.published)
    && h.primaries <= h.origins.Keys
  }

  ghost predicate PrimaryOk(q: seq<Task>, h: History) {
    && (forall t <- q :: t.primary <==> KeyOf(t.pos) in h.primaries)
    && (forall m <- h.published :: m.primary <==> KeyOf(m.pos) in h.primaries)
  }

  /** Tasks and messages carry the position that counts. */
  ghost predicate OriginsOk(q: seq<Task>, h: History) {
    && (forall t <- q :: KeyOf(t.pos) in h.origins && t.pos == h.origins[KeyOf(t.pos)])
    && (forall m <- h.published :: KeyOf(m.pos) in h.origins && m.pos == h.origins[KeyOf(m.pos)])
  }

  ghost predicate Inv(c: Config, stream: seq<Complex>, window: nat, q: seq<Task>, h: History)
    requires c.Valid()
  {
    && KeysOk(q, h) && PrimaryOk(q, h) && OriginsOk(q, h)
    && TasksOk(c, stream, window, q) && MessagesOk(c, stream, window, h.published)
  }

  /** The history after one more position was asked for. */
  function Requested(h: History, pos: AsmPosition, primary: bool): History {
    h.(origins := Ask(h.origins, pos, primary),
       primaries := h.primaries + if primary then {KeyOf(pos)} else {})
  }

  lemma EnqueueMembers(c: Config, q: seq<Task>, pos: AsmPosition, primary: bool)
    requires c.HeadLen() <= pos.offset && DistinctTasks(q)
    ensures var q' := Enqueue(c, q, pos, primary);
            && DistinctTasks(q')
            && Keys(q') == Keys(q) + {KeyOf(pos)}
            && (forall t <- q' :: t == NewTask(c, pos, primary)
                               || (t in q && (primary ==> KeyOf(t.pos) != KeyOf(pos))))
            && (KeyOf(pos) !in Keys(q) || primary ==> NewTask(c, pos, primary) in q')
            && (KeyOf(pos) in Keys(q) && !primary ==> q' == q)
  {
    hide IndexOf, Keys;
    EnqueueKeys(c, q, pos, primary);
    var q', i := Enqueue(c, q, pos, primary), IndexOf(q, KeyOf(pos));
    if i == |q| || primary {
      assert q'[|q'| - 1] == NewTask(c, pos, primary);
    }
    InKeys(q, KeyOf(pos), i);
  }

  lemma InKeys(q: seq<Task>, key: Key, i: nat)
    requires i == IndexOf(q, key)
    ensures key in Keys(q) <==> i < |q|
  {
  }

  lemma EnqueueKeys(c: Config, q: seq<Task>, pos: AsmPosition, primary: bool)
    requires c.HeadLen() <= pos.offset
    ensures Keys(Enqueue(c, q, pos, primary)) == Keys(q) + {KeyOf(pos)}
  {
    hide IndexOf;
    var q' := Enqueue(c, q, pos, primary);
    var i := IndexOf(q, KeyOf(pos));
    forall k
      ensures k in Keys(q') <==> k in Keys(q) + {KeyOf(pos)}
    {
      if k in Keys(q) {
        var j :| 0 <= j < |q| && KeyOf(q[j].pos) == k;
        if j < i { assert q'[j] == q[j]; } else if j > i && primary { assert q'[j - 1] == q[j]; } else if i < |q| && !primary { assert q'[j] == q[j]; }
      }
      if i == |q| || primary {
        assert q'[|q'| - 1] == NewTask(c, pos, primary);
      } else {
        assert q[i] in q';
      }
    }
  }

  lemma EnqueueKeepsInv(c: Config, stream: seq<Complex>, window: nat, q: seq<Task>, h: History,
                        pos: AsmPosition, primary: bool)
    requires c.Valid() && Inv(c, stream, window, q, h)
    requires c.HeadLen() <= pos.offset && window <= pos.offset + c.framesBefore * c.BlockLen()
    ensures Inv(c, stream, window, Enqueue(c, q, pos, primary), Requested(h, pos, primary))
  {
    hide TaskOk, HeaderFirst, Served, MessageOk, Enqueue, NewTask, KeysOk, PrimaryOk, OriginsOk, Requested;
    EnqueueKeepsKeys(c, window, q, h, pos, primary);
    EnqueueMembers(c, q, pos, primary);
    NewTaskIsServed(c, stream, window, pos, primary);
  }

  lemma EnqueueKeepsKeys(c: Config, window: nat, q: seq<Task>, h: History, pos: AsmPosition, primary: bool)
    requires c.Valid() && KeysOk(q, h) && PrimaryOk(q, h) && OriginsOk(q, h)
    requires forall m <- h.published :: m.pos.offset + c.framesBefore * c.BlockLen() < window
    requires c.HeadLen() <= pos.offset && window <= pos.offset + c.framesBefore * c.BlockLen()
    ensures KeysOk(Enqueue(c, q, pos, primary), Requested(h, pos, primary))
    ensures PrimaryOk(Enqueue(c, q, pos, primary), Requested(h, pos, primary))
    ensures OriginsOk(Enqueue(c, q, pos, primary), Requested(h, pos, primary))
    ensures DistinctTasks(q) && Requested(h, pos, primary).published == h.published
  {
    hide Enqueue;
    EnqueueMembers(c, q, pos, primary);
    assert KeyOf(pos) !in MessageKeys(h.published);
  }

  /** A task that may still be asked for has missed nothing. */
  lemma NewTaskIsServed(c: Config, stream: seq<Complex>, window: nat, pos: AsmPosition, primary: bool)
    requires c.Valid() && c.HeadLen() <= pos.offset && window <= pos.offset + c.framesBefore * c.BlockLen()
    ensures var t := NewTask(c, pos, primary);
            TaskOk(c, stream, t) && HeaderFirst(c, t) && Served(c, window, t)
  {
  }

  /** Before anything is asked for. */
  lemma NothingAskedYet(c: Config)
    requires c.Valid()
    ensures Inv(c, [], 0, [], History(map[], {}, []))
  {
  }

  lemma ProcessAllKeepsInv(c: Config, stream: seq<Complex>, window: nat, q: seq<Task>, h: History)
    requires c.Valid() && Inv(c, stream, window, q, h)
    requires window % c.BlockLen() == 0
    requires window <= |stream| <= window + c.BlockLen() + c.AsmLen() - 1
    ensures var q' := ProcessAll(c, stream, MinusCapZero(window, c.HistoryLen()), |stream| - 1, q);
            Inv(c, stream, window, q', h) && forall t <- q' :: Settled(c, |stream|, t)
  {
    hide TaskOk, HeaderFirst, Served, Settled, MessageOk, ProcessTask, KeysOk, PrimaryOk, OriginsOk, c.HistoryLen;
    var from := MinusCapZero(window, c.HistoryLen());
    QueueIsSized(c, stream, window, q, h);
    var q' := ProcessAll(c, stream, from, |stream| - 1, q);
    forall i | 0 <= i < |q|
      ensures TaskOk(c, stream, q'[i]) && HeaderFirst(c, q'[i])
      ensures Served(c, window, q'[i]) && Settled(c, |stream|, q'[i])
      ensures q'[i].pos == q[i].pos && q'[i].primary == q[i].primary
    {
      ProcessKeepsTaskOk(c, stream, from, q[i]);
      ProcessSettles(c, stream, window, q[i]);
      ProcessKeepsPosition(c, stream, from, |stream| - 1, q[i]);
    }
    SamePositionsSameKeys(q, q', h);
  }

  lemma ProcessKeepsPosition(c: Config, stream: seq<Complex>, from: int, until: int, t: Task)
    requires 1 <= c.AsmLen() && |t.copied| <= c.OutputLen()
    ensures var t' := ProcessTask(c, stream, from, until, t);
            t'.pos == t.pos && t'.primary == t.primary
  {
  }

  lemma QueueIsSized(c: Config, stream: seq<Complex>, window: nat, q: seq<Task>, h: History)
    requires c.Valid() && Inv(c, stream, window, q, h)
    ensures 1 <= c.AsmLen() && Sizes(c, q) && forall t <- q :: TaskOk(c, stream, t)
  {
    hide MessageOk, KeysOk, PrimaryOk, OriginsOk;
  }

  /** What is asked for and sent does not depend on how far the tasks are. */
  lemma SamePositionsSameKeys(q: seq<Task>, q': seq<Task>, h: History)
    requires |q'| == |q| && forall i :: 0 <= i < |q| ==> q'[i].pos == q[i].pos && q'[i].primary == q[i].primary
    requires KeysOk(q, h) && PrimaryOk(q, h) && OriginsOk(q, h)
    ensures KeysOk(q', h) && PrimaryOk(q', h) && OriginsOk(q', h)
  {
    assert Keys(q') == Keys(q) by {
      forall k | k in Keys(q)
        ensures k in Keys(q')
      {
        var i :| 0 <= i < |q| && KeyOf(q[i].pos) == k;
        assert q'[i] in q';
      }
    }
  }

  /** Sending splits the queue by the threshold, in order. */
  lemma {:induction false} SentAndKept(c: Config, threshold: int, q: seq<Task>)
    requires DistinctTasks(q)
    ensures var s, k := Sent(c, threshold, q), Kept(c, threshold, q);
            && DistinctTasks(k) && DistinctMessages(s)
            && (forall t :: t in k <==> t in q && !Sendable(c, threshold, t))
            && (forall m :: m in s <==> exists t <- q :: Sendable(c, threshold, t) && m == MessageOf(t))
  {
    if q != [] {
      var n := |q| - 1;
      SentAndKept(c, threshold, q[..n]);
      hide Sendable;
      assert q == q[..n] + [q[n]];
      assert forall t <- q[..n] :: KeyOf(t.pos) != KeyOf(q[n].pos);
      assert forall m <- Sent(c, threshold, q[..n]) :: KeyOf(m.pos) != KeyOf(q[n].pos);
    }
  }

  /** The frame of a key is all there, and no later window can ask for it again. */
  ghost predicate Finished(c: Config, len: nat, window: nat, key: Key)
    requires c.Valid()
  {
    && Attainable(c, key.0)
    && key.0 + c.AsmLen() - c.head + c.OutputLen() <= len
    && key.0 + c.framesBefore * c.BlockLen() < window
  }

  ghost predicate PublishedExactly(c: Config, len: nat, window: nat, h: History)
    requires c.Valid()
  {
    forall k :: k in MessageKeys(h.published) <==> k in h.origins.Keys && Finished(c, len, window, k)
  }

  /** What a message says: the symbols are those of the stream from `head` symbols before the end
      of the marker on, times the correction, and the header numbers the frame by whole blocks. */
  lemma MessageWrittenOut(c: Config, stream: seq<Complex>, m: Message)
    requires c.Valid() && MessageOk(c, stream, m)
    ensures var first, r := m.pos.offset + |c.asmConj| - c.head, c.correction(m.pos.ambiguity);
            && |m.symbols| == c.payload + c.head + c.tail
            && 0 <= first && first + |m.symbols| <= |stream|
            && forall k :: 0 <= k < |m.symbols| ==>
                 && m.symbols[k].re == stream[first + k].re * r.re - stream[first + k].im * r.im
                 && m.symbols[k].im == stream[first + k].re * r.im + stream[first + k].im * r.re
    ensures m.header.Some?
    ensures var h, r := m.header.value, c.correction(m.pos.ambiguity);
            var seen := Correlation(stream, m.pos.offset, c.asmConj);
            && h.position == m.pos && h.primary == m.primary
            && h.number * (|c.asmConj| + c.payload) <= m.pos.offset < (h.number + 1) * (|c.asmConj| + c.payload)
            && h.correlation.re == seen.re * r.re - seen.im * r.im
            && h.correlation.im == seen.re * r.im + seen.im * r.re
  {
    var first := m.pos.offset + |c.asmConj| - c.head;
    forall k | 0 <= k < |m.symbols|
      ensures m.symbols[k] == Mul(stream[first + k], c.correction(m.pos.ambiguity))
    {
      assert first + k == Start(c, m.pos) + k;
    }
    BlockNumber(m.pos.offset, c.BlockLen());
  }

  lemma BlockNumber(n: nat, b: nat)
    requires 0 < b
    ensures (n / b) * b <= n < (n / b + 1) * b
  {
  }

  /** A frame is finished when its last symbol is in and the window has left its marker's block
      by the frames kept before it; without history, the last position of a block never is. */
  lemma FinishedWrittenOut(c: Config, len: nat, window: nat, key: Key)
    requires c.Valid()
    ensures Finished(c, len, window, key) <==>
      var b := |c.asmConj| + c.payload;
      && key.0 + b + c.tail <= len && key.0 + c.framesBefore * b < window
      && (c.framesBefore == 0 && c.head <= 0 ==> key.0 % b != b - 1)
  {
    ProductIsNonNegative(c.framesBefore, c.BlockLen());
    if c.framesBefore != 0 {
      ProductIsNonNegative(c.framesBefore - 1, c.BlockLen());
      OneMore(c.framesBefore, c.BlockLen());
    }
  }

  function SendThreshold(c: Config, window: nat): int {
    MinusCapZero(window, c.framesBefore * c.BlockLen())
  }

  /** The outcome of serving the whole queue and sending what may be sent. */
  lemma SendKeepsInv(c: Config, stream: seq<Complex>, window: nat, q: seq<Task>, h: History)
    requires c.Valid() && Inv(c, stream, window, q, h)
    requires forall t <- q :: Settled(c, |stream|, t)
    ensures var thr := SendThreshold(c, window);
            var h' := h.(published := h.published + Sent(c, thr, q));
            && Inv(c, stream, window, Kept(c, thr, q), h')
            && PublishedExactly(c, |stream|, window, h')
  {
    hide TasksOk, MessagesOk, PrimaryOk, OriginsOk, DistinctTasks, DistinctMessages, Settled, Sent, Kept, PublishedExactly;
    SentMessagesOk(c, stream, window, q, h);
    SendKeepsKeys(c, SendThreshold(c, window), q, h);
    SendKeepsPrimaries(c, SendThreshold(c, window), q, h);
    KeptTasksOk(c, stream, window, q, h);
    SendPublishesFinished(c, stream, window, q, h);
    InvAfterSending(c, stream, window, q, h);
  }

  lemma InvAfterSending(c: Config, stream: seq<Complex>, window: nat, q: seq<Task>, h: History)
    requires var thr := SendThreshold(c, window);
             var h' := h.(published := h.published + Sent(c, thr, q));
             && c.Valid() && Inv(c, stream, window, q, h)
             && KeysOk(Kept(c, thr, q), h') && PrimaryOk(Kept(c, thr, q), h') && OriginsOk(Kept(c, thr, q), h')
             && TasksOk(c, stream, window, Kept(c, thr, q))
             && MessagesOk(c, stream, window, Sent(c, thr, q))
    ensures var thr := SendThreshold(c, window);
            Inv(c, stream, window, Kept(c, thr, q), h.(published := h.published + Sent(c, thr, q)))
  {
    hide KeysOk, PrimaryOk, OriginsOk, TasksOk, MessageOk;
  }

  lemma KeptTasksOk(c: Config, stream: seq<Complex>, window: nat, q: seq<Task>, h: History)
    requires c.Valid() && Inv(c, stream, window, q, h)
    ensures TasksOk(c, stream, window, Kept(c, SendThreshold(c, window), q))
  {
    hide TaskOk, HeaderFirst, Served;
    SentAndKept(c, SendThreshold(c, window), q);
  }

  lemma SentMessagesOk(c: Config, stream: seq<Complex>, window: nat, q: seq<Task>, h: History)
    requires c.Valid() && Inv(c, stream, window, q, h)
    requires forall t <- q :: Settled(c, |stream|, t)
    ensures MessagesOk(c, stream, window, Sent(c, SendThreshold(c, window), q))
  {
    hide TaskOk, HeaderFirst, Served, Settled, MessageOk, Sendable, Sent, Kept;
    var thr := SendThreshold(c, window);
    SentAndKept(c, thr, q);
    forall m <- Sent(c, thr, q)
      ensures MessageOk(c, stream, m) && m.pos.offset + c.framesBefore * c.BlockLen() < window
    {
      var t :| t in q && Sendable(c, thr, t) && m == MessageOf(t);
      SendableIsFinished(c, stream, window, t);
    }
  }

  /** A key stays either queued or sent. */
  lemma SendKeepsKeys(c: Config, thr: int, q: seq<Task>, h: History)
    requires KeysOk(q, h)
    ensures KeysOk(Kept(c, thr, q), h.(published := h.published + Sent(c, thr, q)))
  {
    hide Sent, Kept;
    var k, s := Kept(c, thr, q), Sent(c, thr, q);
    SentAndKept(c, thr, q);
    SplitKeys(c, thr, q);
    assert MessageKeys(h.published + s) == MessageKeys(h.published) + MessageKeys(s);
    forall m <- h.published, n <- s
      ensures KeyOf(m.pos) != KeyOf(n.pos)
    {
      assert KeyOf(m.pos) in MessageKeys(h.published) && KeyOf(n.pos) in MessageKeys(s);
    }
  }

  lemma SendKeepsPrimaries(c: Config, thr: int, q: seq<Task>, h: History)
    requires DistinctTasks(q) && PrimaryOk(q, h) && OriginsOk(q, h)
    ensures PrimaryOk(Kept(c, thr, q), h.(published := h.published + Sent(c, thr, q)))
    ensures OriginsOk(Kept(c, thr, q), h.(published := h.published + Sent(c, thr, q)))
  {
    hide Sent, Kept, Sendable;
    SentAndKept(c, thr, q);
  }

  /** What is finished is sent, and nothing else. */
  lemma SendPublishesFinished(c: Config, stream: seq<Complex>, window: nat, q: seq<Task>, h: History)
    requires c.Valid() && Inv(c, stream, window, q, h)
    requires forall t <- q :: Settled(c, |stream|, t)
    ensures PublishedExactly(c, |stream|, window, h.(published := h.published + Sent(c, SendThreshold(c, window), q)))
  {
    hide TaskOk, HeaderFirst, Served, Settled, MessageOk, Sendable, Sent, Kept, Finished;
    var thr := SendThreshold(c, window);
    var s := Sent(c, thr, q);
    SplitKeys(c, thr, q);
    assert MessageKeys(h.published + s) == MessageKeys(h.published) + MessageKeys(s);
    forall key | key in h.origins.Keys
      ensures key in MessageKeys(h.published + s) <==> Finished(c, |stream|, window, key)
    {
      if key in Keys(q) {
        var t :| t in q && KeyOf(t.pos) == key;
        SendableIsFinished(c, stream, window, t);
      } else {
        var m :| m in h.published && KeyOf(m.pos) == key;
        MessageIsFinished(c, stream, window, m);
      }
    }
  }

  /** A settled task may be sent exactly when its key is finished, and it makes a sound message. */
  lemma SendableIsFinished(c: Config, stream: seq<Complex>, window: nat, t: Task)
    requires c.Valid() && TaskOk(c, stream, t) && HeaderFirst(c, t) && Settled(c, |stream|, t)
    ensures Sendable(c, SendThreshold(c, window), t) <==> Finished(c, |stream|, window, KeyOf(t.pos))
    ensures Sendable(c, SendThreshold(c, window), t) ==>
      MessageOk(c, stream, MessageOf(t)) && t.pos.offset + c.framesBefore * c.BlockLen() < window
  {
    ProductIsNonNegative(c.framesBefore, c.BlockLen());
  }

  lemma MessageIsFinished(c: Config, stream: seq<Complex>, window: nat, m: Message)
    requires c.Valid() && MessageOk(c, stream, m) && m.pos.offset + c.framesBefore * c.BlockLen() < window
    ensures Finished(c, |stream|, window, KeyOf(m.pos))
  {
  }

  lemma SplitKeys(c: Config, threshold: int, q: seq<Task>)
    requires DistinctTasks(q)
    ensures var s, k := Sent(c, threshold, q), Kept(c, threshold, q);
            Keys(q) == Keys(k) + MessageKeys(s) && Keys(k) !! MessageKeys(s)
    ensures forall t <- q :: Sendable(c, threshold, t) <==> KeyOf(t.pos) in MessageKeys(Sent(c, threshold, q))
  {
    hide Sendable, Sent, Kept;
    var s, k := Sent(c, threshold, q), Kept(c, threshold, q);
    SentAndKept(c, threshold, q);
    forall t <- q
      ensures Sendable(c, threshold, t) ==> KeyOf(t.pos) in MessageKeys(s)
      ensures !Sendable(c, threshold, t) ==> KeyOf(t.pos) in Keys(k)
    {
      if Sendable(c, threshold, t) {
        assert MessageOf(t) in s;
      }
    }
    forall key | key in MessageKeys(s)
      ensures key in Keys(q) && key !in Keys(k)
    {
      var m :| m in s && KeyOf(m.pos) == key;
      var t :| t in q && Sendable(c, threshold, t) && m == MessageOf(t);
    }
  }

  /** Serving the queue from a buffer that starts at `window` and holds all of the stream,
      and sending what may be sent. */
  lemma ServeAndSendKeepsInv(c: Config, stream: seq<Complex>, window: nat, q: seq<Task>, h: History)
    requires c.Valid() && Inv(c, stream, window, q, h)
    requires window % c.BlockLen() == 0
    requires window <= |stream| <= window + c.BlockLen() + c.AsmLen() - 1
    ensures Sizes(c, q)
    ensures var q' := ProcessAll(c, stream, MinusCapZero(window, c.HistoryLen()), |stream| - 1, q);
            var thr := SendThreshold(c, window);
            var h' := h.(published := h.published + Sent(c, thr, q'));
            && Inv(c, stream, window, Kept(c, thr, q'), h')
            && (forall t <- Kept(c, thr, q') :: Settled(c, |stream|, t))
            && PublishedExactly(c, |stream|, window, h')
  {
    var q' := ProcessAll(c, stream, MinusCapZero(window, c.HistoryLen()), |stream| - 1, q);
    ProcessAllKeepsInv(c, stream, window, q, h);
    SendKeepsInv(c, stream, window, q', h);
    SentAndKept(c, SendThreshold(c, window), q');
  }

  /** Reading on changes nothing that was established. */
  lemma InvIsStable(c: Config, stream: seq<Complex>, more: seq<Complex>, window: nat, q: seq<Task>, h: History)
    requires c.Valid() && Inv(c, stream, window, q, h)
    ensures Inv(c, stream + more, window, q, h)
  {
    forall t <- q
      ensures TaskOk(c, stream + more, t)
    {
      TaskOkIsStable(c, stream, more, t);
    }
    forall m <- h.published
      ensures MessageOk(c, stream + more, m)
    {
      SymbolsAreStable(c, stream, more, m.pos.ambiguity, Start(c, m.pos), c.OutputLen());
      CorrelationIsStable(stream, more, m.pos.offset, c.asmConj);
    }
  }

  /** Before the first sample the buffer reports position 0 as there; no frame starts so
      early, so this does no harm. */
  lemma NothingBeforeTheStream(c: Config, t: Task)
    requires c.Valid() && TaskOk(c, [], t)
    ensures ProcessTask(c, [], 0, 0, t) == ProcessTask(c, [], 0, -1, t) == t
  {
    assert t.copied == [];
  }
}
