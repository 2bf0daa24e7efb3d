// The frame sorter as it is written, with the eviction of the number a whole window behind:
// what its runs publish, and exactly which of them come out right.
module SortAsWritten {
  import opened Arithmetic
  import opened SortFrames
  import opened SortRuns
  import opened Options

  // ----- the sorter as written -----

  /** Below the first full window nothing is sent, so the eviction rule does not matter. */
  lemma {:induction false} AdvanceToAgrees(c: Config, d: Config, s: State, number: nat)
    requires c.Valid() && d.Valid() && c == d.(lag := c.lag) && |s.ring| == c.window
    requires number < c.window
    ensures AdvanceTo(c, s, number) == AdvanceTo(d, s, number)
    decreases number - s.current
  {
    if s.current < number {
      AdvanceToAgrees(c, d, AdvanceOne(c, s), number);
    }
  }

  lemma {:induction false} FlushAgrees(c: Config, d: Config, s: State, from: nat)
    requires c.Valid() && d.Valid() && c == d.(lag := c.lag) && |s.ring| == c.window
    ensures Flush(c, s, from) == Flush(d, s, from)
    decreases s.current + 1 - from
  {
    if from <= s.current {
      FlushAgrees(c, d, SendFrame(c, s, from), from + 1);
    }
  }

  lemma StepAgrees(c: Config, d: Config, s: State, m: Message)
    requires c.Valid() && d.Valid() && c == d.(lag := c.lag) && |s.ring| == c.window
    requires HasNumber(c, m) ==> m.frame.number.value < c.window
    ensures Step(c, s, m) == Step(d, s, m)
  {
    match m
    case Eof => FlushAgrees(c, d, s, FirstInWindow(c, s.current));
    case Malformed =>
    case Data(f) =>
      assert c.HasFields(f) == d.HasFields(f);
      if c.HasFields(f) {
        AdvanceToAgrees(c, d, s, f.number.value);
        var x := AdvanceTo(c, s, f.number.value).ring[Slot(c, f.number.value)];
        assert Insert(c, x, f) == Insert(d, x, f);
      }
  }

  lemma {:induction false} RunAgrees(c: Config, d: Config, ms: seq<Message>)
    requires c.Valid() && d.Valid() && c == d.(lag := c.lag)
    requires forall m <- ms :: HasNumber(c, m) ==> m.frame.number.value < c.window
    ensures Run(c, ms) == Run(d, ms)
  {
    if ms != [] {
      RunAgrees(c, d, ms[..|ms| - 1]);
      StepAgrees(c, d, Run(c, ms[..|ms| - 1]), ms[|ms| - 1]);
    }
  }

  lemma {:induction false} ReferenceAgrees(c: Config, d: Config, ms: seq<Message>)
    requires c == d.(lag := c.lag)
    ensures Highest(c, ms) == Highest(d, ms) && InTime(c, ms) == InTime(d, ms)
  {
    if ms != [] {
      ReferenceAgrees(c, d, ms[..|ms| - 1]);
      assert HasNumber(c, ms[|ms| - 1]) == HasNumber(d, ms[|ms| - 1]);
    }
  }

  lemma {:induction false} CollectAgrees(c: Config, d: Config, fs: seq<Frame>)
    requires c == d.(lag := c.lag)
    ensures Collect(c, fs) == Collect(d, fs)
  {
    if fs != [] {
      CollectAgrees(c, d, fs[..|fs| - 1]);
    }
  }

  lemma {:induction false} SortedAgrees(c: Config, d: Config, fs: seq<Frame>, n: nat)
    requires c == d.(lag := c.lag)
    ensures Sorted(c, fs, n) == Sorted(d, fs, n)
  {
    if n != 0 {
      SortedAgrees(c, d, fs, n - 1);
      CollectAgrees(c, d, Arrivals(fs, n - 1));
    }
  }

  ghost predicate PublishesReference(c: Config, ms: seq<Message>)
    requires c.Valid()
  {
    Run(c, ms + [Eof]).out == DataOf(Reference(c, ms)) + [Eof]
  }

  lemma {:induction false} NumbersUpToHighest(c: Config, ms: seq<Message>)
    ensures forall m <- ms :: HasNumber(c, m) ==> m.frame.number.value <= Highest(c, ms)
  {
    if ms != [] {
      NumbersUpToHighest(c, ms[..|ms| - 1]);
      assert ms == ms[..|ms| - 1] + [ms[|ms| - 1]];
    }
  }

  /** The sorter as written gets every run right whose numbers stay below the window. */
  lemma AsWrittenSortsBelowWindow(c: Config, ms: seq<Message>)
    requires c.Valid() && NoEof(ms) && Highest(c, ms) < c.window
    ensures PublishesReference(c, ms)
  {
    var d := c.(lag := c.window - 1);
    NumbersUpToHighest(c, ms);
    RunAgrees(c, d, ms + [Eof]);
    ReferenceAgrees(c, d, ms);
    SortsWhenTheLeavingFrameIsSent(d, ms);
    SortedAgrees(c, d, InTime(c, ms), Highest(c, ms) + 1);
  }

  // ----- two kinds of arrivals -----

  predicate Numbered(f: Frame, n: nat) { f.number == Some(n) }

  /** A frame is on time if it is numbered from the first full window on and no higher number
      came before it. */
  predicate IsOnTime(c: Config, earlier: seq<Message>, m: Message) {
    HasNumber(c, m) && c.window <= m.frame.number.value && Highest(c, earlier) <= m.frame.number.value
  }

  function OnTime(c: Config, ms: seq<Message>): seq<Frame> {
    if ms == [] then []
    else
      var earlier, m := ms[..|ms| - 1], ms[|ms| - 1];
      OnTime(c, earlier) + if IsOnTime(c, earlier, m) then [m.frame] else []
  }

  /** All other frames that arrive before a frame a whole window ahead of them. */
  function Held(c: Config, ms: seq<Message>): seq<Frame> {
    if ms == [] then []
    else
      var earlier, m := ms[..|ms| - 1], ms[|ms| - 1];
      Held(c, earlier) +
      if HasNumber(c, m) && Highest(c, earlier) < m.frame.number.value + c.window && !IsOnTime(c, earlier, m)
      then [m.frame] else []
  }

  /** On-time frames are numbered from the window on, held ones below it or below the highest. */
  ghost predicate KindsOk(c: Config, h: nat, p: seq<Frame>, q: seq<Frame>) {
    && (forall f: Frame <- p :: f.number.Some? && c.window <= f.number.value <= h)
    && (forall f: Frame <- q :: f.number.Some? && f.number.value <= h && (f.number.value < c.window || f.number.value < h))
  }

  lemma {:induction false} KindsAreOk(c: Config, ms: seq<Message>)
    ensures KindsOk(c, Highest(c, ms), OnTime(c, ms), Held(c, ms))
  {
    if ms != [] {
      KindsAreOk(c, ms[..|ms| - 1]);
    }
  }

  /** What one more message does to the lists. */
  lemma OneMoreMessage(c: Config, earlier: seq<Message>, m: Message)
    requires c.Valid()
    ensures var ms, p, q := earlier + [m], OnTime(c, earlier), Held(c, earlier);
            if HasNumber(c, m) && Highest(c, earlier) < m.frame.number.value + c.window then
              var onTime := IsOnTime(c, earlier, m);
              && InTime(c, ms) == InTime(c, earlier) + [m.frame]
              && OnTime(c, ms) == (if onTime then p + [m.frame] else p)
              && Held(c, ms) == (if onTime then q else q + [m.frame])
            else
              InTime(c, ms) == InTime(c, earlier) && OnTime(c, ms) == p && Held(c, ms) == q
  {
    assert (earlier + [m])[..|earlier|] == earlier;
  }

  /** Of one number the frames on time come before the held ones. */
  lemma {:induction false} OnTimeThenHeld(c: Config, ms: seq<Message>, n: nat)
    requires c.Valid()
    ensures Arrivals(InTime(c, ms), n) == Arrivals(OnTime(c, ms), n) + Arrivals(Held(c, ms), n)
  {
    if ms != [] {
      var earlier, m := ms[..|ms| - 1], ms[|ms| - 1];
      assert ms == earlier + [m];
      hide InTime, OnTime, Held, Arrivals, Highest;
      OneMoreMessage(c, earlier, m);
      OnTimeThenHeld(c, earlier, n);
      if HasNumber(c, m) && Highest(c, earlier) < m.frame.number.value + c.window {
        if IsOnTime(c, earlier, m) && m.frame.number.value == n {
          KindsAreOk(c, earlier);
          NoArrivals(Held(c, earlier), n);
        }
        OneMoreOfAKind(InTime(c, earlier), OnTime(c, earlier), Held(c, earlier), m.frame, n, IsOnTime(c, earlier, m));
      }
    }
  }

  lemma OneMoreOfAKind(fs: seq<Frame>, p: seq<Frame>, q: seq<Frame>, f: Frame, n: nat, onTime: bool)
    requires Arrivals(fs, n) == Arrivals(p, n) + Arrivals(q, n)
    requires onTime && Numbered(f, n) ==> Arrivals(q, n) == []
    ensures Arrivals(fs + [f], n) == Arrivals(if onTime then p + [f] else p, n) + Arrivals(if onTime then q else q + [f], n)
  {
    hide Arrivals;
    ArrivalsAppend(fs, f, n);
    ArrivalsAppend(p, f, n);
    ArrivalsAppend(q, f, n);
  }

  // ----- what is published -----

  /** A slot holds some arrivals; once it has been sent, its best frame may be out of date. */
  predicate SlotHolds(c: Config, d: Duplicates, fs: seq<Frame>) {
    d.frames == Collect(c, fs).frames && (d.frames != [] ==> d == Collect(c, fs))
  }

  /** What the slot of number `n` is to hold: the newest number what is on time, all others
      what is held. */
  function SlotContents(c: Config, current: nat, p: seq<Frame>, q: seq<Frame>, n: nat): seq<Frame> {
    Arrivals(if n == current && c.window <= current then p else q, n)
  }

  ghost predicate HoldsAsWritten(c: Config, s: State, p: seq<Frame>, q: seq<Frame>) {
    && c.Valid() && |s.ring| == c.window && KindsOk(c, s.current, p, q)
    && (forall n: nat :: InWindow(c, s, n) ==> SlotHolds(c, s.ring[Slot(c, n)], SlotContents(c, s.current, p, q, n)))
    && s.out == DataOf(Sorted(c, p, s.current))
  }

  lemma CollectNothing(c: Config)
    ensures Collect(c, []) == NO_FRAMES
  {
  }

  /** The number sent a window late shares its slot with the newest one. */
  lemma SendPublishesTheNewest(c: Config, s: State, p: seq<Frame>, q: seq<Frame>)
    requires HoldsAsWritten(c, s, p, q) && c.window <= s.current
    ensures var t := SendFrame(c, s, s.current - c.window);
            && t.out == DataOf(Sorted(c, p, s.current + 1))
            && t.ring[Slot(c, s.current)].frames == []
            && (forall n: nat :: InWindow(c, s, n) && n < s.current ==> t.ring[Slot(c, n)] == s.ring[Slot(c, n)])
  {
    hide Slot, Arrivals, Collect, Sorted;
    SlotRepeats(c, s.current - c.window);
    NextIsSorted(c, p, s.current);
    assert InWindow(c, s, s.current);
    forall n: nat | InWindow(c, s, n) && n < s.current
      ensures Slot(c, n) != Slot(c, s.current)
    {
      SlotsAreDistinct(c, n, s.current);
    }
  }

  lemma AdvanceOneAsWritten(c: Config, s: State, p: seq<Frame>, q: seq<Frame>)
    requires HoldsAsWritten(c, s, p, q) && c.lag == c.window
    ensures HoldsAsWritten(c, AdvanceOne(c, s), p, q)
  {
    hide Slot, Arrivals, Collect, Sorted;
    var t := AdvanceOne(c, s);
    CollectNothing(c);
    NoArrivals(p, s.current + 1);
    NoArrivals(q, s.current + 1);
    NextIsSorted(c, p, s.current);
    if s.current >= c.window {
      SendPublishesTheNewest(c, s, p, q);
      NoArrivals(q, s.current);
    } else {
      NoArrivals(p, s.current);
    }
    forall n: nat | InWindow(c, t, n)
      ensures SlotHolds(c, t.ring[Slot(c, n)], SlotContents(c, t.current, p, q, n))
    {
      if n <= s.current {
        SlotsAreDistinct(c, n, s.current + 1);
        assert InWindow(c, s, n);
      }
    }
  }

  lemma {:induction false} AdvanceToAsWritten(c: Config, s: State, p: seq<Frame>, q: seq<Frame>, number: nat)
    requires HoldsAsWritten(c, s, p, q) && c.lag == c.window
    ensures HoldsAsWritten(c, AdvanceTo(c, s, number), p, q)
    decreases number - s.current
  {
    if s.current < number {
      AdvanceOneAsWritten(c, s, p, q);
      AdvanceToAsWritten(c, AdvanceOne(c, s), p, q, number);
    }
  }

  lemma InsertIntoSlot(c: Config, d: Duplicates, fs: seq<Frame>, f: Frame)
    requires SlotHolds(c, d, fs)
    ensures SlotHolds(c, Insert(c, d, f), fs + [f])
  {
    CollectAppend(c, fs, f);
    hide Collect;
  }

  lemma InsertAsWritten(c: Config, s: State, p: seq<Frame>, q: seq<Frame>, f: Frame)
    requires HoldsAsWritten(c, s, p, q) && f.number.Some? && InWindow(c, s, f.number.value)
    ensures var i, onTime := Slot(c, f.number.value), c.window <= f.number.value == s.current;
            HoldsAsWritten(c, s.(ring := s.ring[i := Insert(c, s.ring[i], f)]),
                           if onTime then p + [f] else p, if onTime then q else q + [f])
  {
    hide Slot, Insert, Arrivals, Collect;
    var number := f.number.value;
    var i := Slot(c, number);
    var t := s.(ring := s.ring[i := Insert(c, s.ring[i], f)]);
    if c.window <= number == s.current {
      LaterArrival(c, p, f, s.current);
    }
    InsertIntoSlot(c, s.ring[i], SlotContents(c, s.current, p, q, number), f);
    forall n: nat | InWindow(c, t, n)
      ensures n != number ==> Slot(c, n) != i
    {
      if n < number {
        SlotsAreDistinct(c, n, number);
      } else if n > number {
        SlotsAreDistinct(c, number, n);
      }
    }
    forall n: nat
      ensures Arrivals(p + [f], n) == if n == number then Arrivals(p, n) + [f] else Arrivals(p, n)
      ensures Arrivals(q + [f], n) == if n == number then Arrivals(q, n) + [f] else Arrivals(q, n)
    {
      ArrivalsAppend(p, f, n);
      ArrivalsAppend(q, f, n);
    }
  }

  /** As written, in every reachable state the numbers from the window on that the run has
      passed are published as far as they were on time, and the ring holds what was not. */
  lemma {:induction false} RunHoldsAsWritten(c: Config, ms: seq<Message>)
    requires c.Valid() && c.lag == c.window && NoEof(ms)
    ensures Run(c, ms).current == Highest(c, ms)
    ensures HoldsAsWritten(c, Run(c, ms), OnTime(c, ms), Held(c, ms))
  {
    hide HoldsAsWritten, Slot, Insert, OnTime, Held, InTime, Highest, AdvanceTo;
    if ms == [] {
      NothingArrived(c);
    } else {
      var earlier, m := ms[..|ms| - 1], ms[|ms| - 1];
      assert ms == earlier + [m];
      RunHoldsAsWritten(c, earlier);
      OneMoreMessage(c, earlier, m);
      OneMoreHighest(c, earlier, m);
      var s := Run(c, earlier);
      if HasNumber(c, m) && s.current < m.frame.number.value + c.window {
        AdvanceToAsWritten(c, s, OnTime(c, earlier), Held(c, earlier), m.frame.number.value);
        InsertAsWritten(c, AdvanceTo(c, s, m.frame.number.value), OnTime(c, earlier), Held(c, earlier), m.frame);
      }
    }
  }

  lemma NothingArrived(c: Config)
    ensures Highest(c, []) == 0 && InTime(c, []) == OnTime(c, []) == Held(c, []) == []
    ensures c.Valid() ==> HoldsAsWritten(c, Initial(c), [], [])
  {
    CollectNothing(c);
  }

  /** The frames of the numbers from `from` on and below `to`, number after number. */
  function Part(c: Config, fs: seq<Frame>, from: nat, to: nat): seq<Frame> {
    if to <= from then [] else Part(c, fs, from, to - 1) + Collect(c, Arrivals(fs, to - 1)).frames
  }

  lemma {:induction false} PartFromFirst(c: Config, fs: seq<Frame>, from: nat, to: nat)
    requires from < to
    ensures Part(c, fs, from, to) == Collect(c, Arrivals(fs, from)).frames + Part(c, fs, from + 1, to)
  {
    hide Arrivals, Collect;
    if from + 1 < to {
      PartFromFirst(c, fs, from, to - 1);
    }
  }

  /** Flushing publishes what the slots hold, in order. */
  lemma {:induction false} FlushAsWritten(c: Config, s: State, p: seq<Frame>, q: seq<Frame>, from: nat)
    requires c.Valid() && |s.ring| == c.window && from <= s.current < from + c.window
    requires forall n: nat :: from <= n <= s.current ==>
               s.ring[Slot(c, n)].frames == Collect(c, SlotContents(c, s.current, p, q, n)).frames
    ensures Flush(c, s, from).out
         == s.out + DataOf(Part(c, q, from, s.current) + Collect(c, SlotContents(c, s.current, p, q, s.current)).frames)
    decreases s.current - from
  {
    hide Slot, Arrivals, Collect, Part;
    var t := SendFrame(c, s, from);
    forall n: nat | from + 1 <= n <= t.current
      ensures t.ring[Slot(c, n)] == s.ring[Slot(c, n)]
    {
      SlotsAreDistinct(c, from, n);
    }
    if from < s.current {
      PartFromFirst(c, q, from, s.current);
      FlushAsWritten(c, t, p, q, from + 1);
    } else {
      PartStep(c, q, from, from);
      assert Flush(c, t, from + 1) == t;
    }
  }

  lemma PartStep(c: Config, fs: seq<Frame>, from: nat, to: nat)
    ensures to <= from ==> Part(c, fs, from, to) == []
    ensures from < to ==> Part(c, fs, from, to) == Part(c, fs, from, to - 1) + Collect(c, Arrivals(fs, to - 1)).frames
  {
  }

  /** What a run that has reached the first full window publishes, as written: what was on
      time for all numbers but the highest, what was held for the numbers of the last window,
      and what was on time for the highest number. */
  function Written(c: Config, ms: seq<Message>): seq<Frame> {
    var h := Highest(c, ms);
    Sorted(c, OnTime(c, ms), h) + Part(c, Held(c, ms), FirstInWindow(c, h), h) + Collect(c, Arrivals(OnTime(c, ms), h)).frames
  }

  lemma FlushOfHolding(c: Config, s: State, p: seq<Frame>, q: seq<Frame>)
    requires HoldsAsWritten(c, s, p, q) && c.window <= s.current
    ensures Flush(c, s, FirstInWindow(c, s.current)).out
         == DataOf(Sorted(c, p, s.current) + Part(c, q, FirstInWindow(c, s.current), s.current) + Collect(c, Arrivals(p, s.current)).frames)
  {
    hide Slot, Collect, Sorted, Part, Arrivals, Flush;
    forall n: nat | FirstInWindow(c, s.current) <= n <= s.current
      ensures s.ring[Slot(c, n)].frames == Collect(c, SlotContents(c, s.current, p, q, n)).frames
    {
      assert InWindow(c, s, n);
    }
    FlushAsWritten(c, s, p, q, FirstInWindow(c, s.current));
  }

  lemma RunToEof(c: Config, ms: seq<Message>)
    requires c.Valid()
    ensures Run(c, ms + [Eof]).out == Flush(c, Run(c, ms), FirstInWindow(c, Run(c, ms).current)).out + [Eof]
  {
    assert (ms + [Eof])[..|ms|] == ms;
  }

  lemma AsWrittenPublishes(c: Config, ms: seq<Message>)
    requires c.Valid() && c.lag == c.window && NoEof(ms) && c.window <= Highest(c, ms)
    ensures Run(c, ms + [Eof]).out == DataOf(Written(c, ms)) + [Eof]
  {
    hide Run, OnTime, Held, Highest, Collect, Sorted, Part, Arrivals, Flush, HoldsAsWritten;
    RunHoldsAsWritten(c, ms);
    FlushOfHolding(c, Run(c, ms), OnTime(c, ms), Held(c, ms));
    RunToEof(c, ms);
  }

  // ----- when that is right -----

  /** A late arrival changes nothing where only the best one counts and it is no better. */
  predicate MayBeLost(c: Config, kept: seq<Frame>, late: seq<Frame>)
    requires late != []
  {
    && !c.allowDuplicates && kept != []
    && if c.hasScoreField then
         forall g <- late :: exists f <- kept ::
           if c.pickHighest then c.ScoreOf(g) <= c.ScoreOf(f) else c.ScoreOf(g) >= c.ScoreOf(f)
       else c.pickHighest ==> late[|late| - 1] == kept[|kept| - 1]
  }

  predicate NothingBetween(fs: seq<Frame>, n: nat, h: nat) {
    forall f: Frame <- fs :: f.number.Some? ==> !(n < f.number.value < h)
  }

  /** What was held for a number does no harm: there is none of it; or it is lost, and would
      have been dropped anyway; or it is sent at the end, not as a second copy and not after
      a higher number. */
  predicate HeldDoNoHarm(c: Config, p: seq<Frame>, q: seq<Frame>, h: nat, n: nat) {
    var kept, late := Arrivals(p, n), Arrivals(q, n);
    late == [] ||
    if n + c.window <= h then MayBeLost(c, kept, late)
    else (c.allowDuplicates || kept == []) && NothingBetween(p, n, h)
  }

  /** No number's held frames did harm. */
  ghost predicate Harmless(c: Config, ms: seq<Message>) {
    forall n: nat :: n < Highest(c, ms) ==> HeldDoNoHarm(c, OnTime(c, ms), Held(c, ms), Highest(c, ms), n)
  }

  lemma {:induction false} CollectAll(c: Config, fs: seq<Frame>)
    requires c.allowDuplicates
    ensures Collect(c, fs).frames == fs
  {
    if fs != [] {
      CollectAll(c, fs[..|fs| - 1]);
    }
  }

  /** The collected frames of one number stay what they are, or are joined. */
  lemma CollectLate(c: Config, kept: seq<Frame>, late: seq<Frame>)
    requires late != []
    ensures Collect(c, kept + late).frames == Collect(c, kept).frames <==> MayBeLost(c, kept, late)
    ensures Collect(c, kept + late).frames == Collect(c, kept).frames + Collect(c, late).frames <==> c.allowDuplicates || kept == []
  {
    CollectNothing(c);
    hide Collect, IsBest;
    if c.allowDuplicates {
      CollectAll(c, kept);
      CollectAll(c, late);
      CollectAll(c, kept + late);
    } else {
      var l := CollectKeepsTheBest(c, late);
      var b := CollectKeepsTheBest(c, kept + late);
      if kept == [] {
        assert kept + late == late;
      } else {
        var k := CollectKeepsTheBest(c, kept);
        BestOfBoth(c, kept, late, k, b);
      }
    }
  }

  /** The best of all arrivals is the best of the first ones exactly if the others may be lost. */
  lemma BestOfBoth(c: Config, kept: seq<Frame>, late: seq<Frame>, k: nat, b: nat)
    requires !c.allowDuplicates && kept != [] && late != [] && IsBest(c, kept, k) && IsBest(c, kept + late, b)
    ensures (kept + late)[b] == kept[k] <==> MayBeLost(c, kept, late)
  {
    var fs := kept + late;
    assert forall i :: 0 <= i < |kept| ==> fs[i] == kept[i];
    assert forall i :: 0 <= i < |late| ==> fs[|kept| + i] == late[i];
    assert fs[k] == kept[k] && kept[k] in kept;
    if b >= |kept| {
      assert late[b - |kept|] in late;
    }
  }

  // ----- one number at a time -----

  lemma ArrivalsConcat(fs: seq<Frame>, gs: seq<Frame>, n: nat)
    ensures Arrivals(fs + gs, n) == Arrivals(fs, n) + Arrivals(gs, n)
    decreases |gs|
  {
    if gs == [] {
      assert fs + gs == fs;
    } else {
      ArrivalsConcat(fs, gs[..|gs| - 1], n);
      assert (fs + gs)[..|fs| + |gs| - 1] == fs + gs[..|gs| - 1];
    }
  }

  lemma {:induction false} ArrivalsOfOne(fs: seq<Frame>, m: nat, n: nat)
    requires forall f: Frame <- fs :: Numbered(f, m)
    ensures Arrivals(fs, n) == if m == n then fs else []
  {
    if fs != [] {
      ArrivalsOfOne(fs[..|fs| - 1], m, n);
      var f := fs[|fs| - 1];
      assert Numbered(f, m) && fs == fs[..|fs| - 1] + [f];
    }
  }

  lemma {:induction false} ArrivalsOfPart(c: Config, fs: seq<Frame>, from: nat, to: nat, n: nat)
    ensures Arrivals(Part(c, fs, from, to), n) == if from <= n < to then Collect(c, Arrivals(fs, n)).frames else []
  {
    hide Collect, Arrivals, Part;
    PartStep(c, fs, from, to);
    if from >= to {
      ArrivalsOfOne([], n, n);
    } else {
      ArrivalsOfPart(c, fs, from, to - 1, n);
      CollectedHaveNumber(c, fs, to - 1);
      ArrivalsOfOne(Collect(c, Arrivals(fs, to - 1)).frames, to - 1, n);
      ArrivalsConcat(Part(c, fs, from, to - 1), Collect(c, Arrivals(fs, to - 1)).frames, n);
    }
  }

  lemma {:induction false} SortedIsPart(c: Config, fs: seq<Frame>, n: nat)
    ensures Sorted(c, fs, n) == Part(c, fs, 0, n)
  {
    if n != 0 {
      SortedIsPart(c, fs, n - 1);
    }
  }

  lemma ArrivalsOfSorted(c: Config, fs: seq<Frame>, n: nat, end: nat)
    ensures Arrivals(Sorted(c, fs, end), n) == if n < end then Collect(c, Arrivals(fs, n)).frames else []
  {
    SortedIsPart(c, fs, end);
    ArrivalsOfPart(c, fs, 0, end, n);
  }

  /** What is published of one number below the highest. */
  lemma WrittenOfOne(c: Config, ms: seq<Message>, n: nat)
    requires c.Valid() && n < Highest(c, ms)
    ensures var kept, late := Collect(c, Arrivals(OnTime(c, ms), n)).frames, Collect(c, Arrivals(Held(c, ms), n)).frames;
            Arrivals(Written(c, ms), n) == if n + c.window <= Highest(c, ms) then kept else kept + late
  {
    hide OnTime, Held, Highest, Collect, Arrivals, Sorted, Part;
    var h, p, q := Highest(c, ms), OnTime(c, ms), Held(c, ms);
    var a, b, d := Sorted(c, p, h), Part(c, q, FirstInWindow(c, h), h), Collect(c, Arrivals(p, h)).frames;
    ArrivalsOfSorted(c, p, n, h);
    ArrivalsOfPart(c, q, FirstInWindow(c, h), h, n);
    CollectedHaveNumber(c, p, h);
    ArrivalsOfOne(d, h, n);
    ArrivalsConcat(a + b, d, n);
    ArrivalsConcat(a, b, n);
  }

  /** As written, no frame numbered below the first full window is ever published once a
      frame arrived that is a window ahead of it. */
  lemma AsWrittenLosesOldFrames(c: Config, ms: seq<Message>, n: nat)
    requires c.Valid() && c.lag == c.window && NoEof(ms)
    requires n < c.window && n + c.window <= Highest(c, ms)
    ensures forall m <- Run(c, ms + [Eof]).out :: m.Data? ==> !Numbered(m.frame, n)
  {
    hide Run, OnTime, Held, Highest, Written, Collect, Arrivals;
    AsWrittenPublishes(c, ms);
    KindsAreOk(c, ms);
    NoArrivals(OnTime(c, ms), n);
    CollectNothing(c);
    WrittenOfOne(c, ms, n);
    forall f | f in Written(c, ms)
      ensures !Numbered(f, n)
    {
      if Numbered(f, n) {
        ArrivalsOf(Written(c, ms), f, n);
      }
    }
  }

  lemma {:induction false} ArrivalsOf(fs: seq<Frame>, f: Frame, n: nat)
    requires f in fs && Numbered(f, n)
    ensures f in Arrivals(fs, n)
  {
    if f in fs[..|fs| - 1] {
      ArrivalsOf(fs[..|fs| - 1], f, n);
    }
  }

  // ----- the exact condition -----

  lemma PartOfNothing(c: Config, fs: seq<Frame>, from: nat, to: nat)
    requires forall n: nat :: from <= n < to ==> Arrivals(fs, n) == []
    ensures Part(c, fs, from, to) == []
  {
    CollectNothing(c);
    hide Collect, Arrivals;
    if from < to {
      PartOfNothing(c, fs, from, to - 1);
    }
  }

  /** Where what was held does no harm, both lists together make up the reference. */
  lemma {:induction false} HarmlessMergesUpTo(c: Config, ms: seq<Message>, n: nat)
    requires c.Valid() && n <= Highest(c, ms)
    requires forall k: nat :: k < n ==> HeldDoNoHarm(c, OnTime(c, ms), Held(c, ms), Highest(c, ms), k)
    ensures Sorted(c, InTime(c, ms), n)
         == Sorted(c, OnTime(c, ms), n) + Part(c, Held(c, ms), FirstInWindow(c, Highest(c, ms)), n)
  {
    hide InTime, OnTime, Held, Highest, Collect, Arrivals, Sorted, Part;
    if n == 0 {
      NothingSorted(c, InTime(c, ms), OnTime(c, ms), Held(c, ms), FirstInWindow(c, Highest(c, ms)));
    } else {
      HarmlessMergesUpTo(c, ms, n - 1);
      OneMoreMerged(c, ms, n - 1);
    }
  }

  lemma NothingSorted(c: Config, fs: seq<Frame>, p: seq<Frame>, q: seq<Frame>, from: nat)
    ensures Sorted(c, fs, 0) == Sorted(c, p, 0) == Part(c, q, from, 0) == []
  {
  }

  lemma OneMoreMerged(c: Config, ms: seq<Message>, n: nat)
    requires c.Valid() && n < Highest(c, ms)
    requires forall k: nat :: k <= n ==> HeldDoNoHarm(c, OnTime(c, ms), Held(c, ms), Highest(c, ms), k)
    requires Sorted(c, InTime(c, ms), n)
          == Sorted(c, OnTime(c, ms), n) + Part(c, Held(c, ms), FirstInWindow(c, Highest(c, ms)), n)
    ensures Sorted(c, InTime(c, ms), n + 1)
         == Sorted(c, OnTime(c, ms), n + 1) + Part(c, Held(c, ms), FirstInWindow(c, Highest(c, ms)), n + 1)
  {
    hide InTime, OnTime, Held, Highest, Collect, Arrivals, Sorted, MayBeLost, NothingBetween;
    var h, p, q := Highest(c, ms), OnTime(c, ms), Held(c, ms);
    var from := FirstInWindow(c, h);
    NextIsSorted(c, InTime(c, ms), n);
    NextIsSorted(c, p, n);
    OnTimeThenHeld(c, ms, n);
    CollectNothing(c);
    assert HeldDoNoHarm(c, p, q, h, n);
    if Arrivals(q, n) != [] {
      CollectLate(c, Arrivals(p, n), Arrivals(q, n));
    }
    if from <= n && Arrivals(p, n) != [] {
      NothingHeldBefore(c, p, q, h, n);
      PartOfNothing(c, q, from, n);
    }
    var a, b := Collect(c, Arrivals(p, n)).frames, Collect(c, Arrivals(q, n)).frames;
    assert Arrivals(q, n) == [] ==> Arrivals(InTime(c, ms), n) == Arrivals(p, n);
    assert Collect(c, Arrivals(InTime(c, ms), n)).frames == if from <= n then a + b else a;
    Swap(Sorted(c, p, n), Part(c, q, from, n), a, b);
  }

  lemma Swap(s: seq<Frame>, t: seq<Frame>, a: seq<Frame>, b: seq<Frame>)
    requires a == [] || t == []
    ensures (s + t) + (a + b) == (s + a) + (t + b)
    ensures t == [] ==> (s + t) + a == (s + a) + t
  {
  }

  /** Where something is on time, nothing of the last window was held below it. */
  lemma NothingHeldBefore(c: Config, p: seq<Frame>, q: seq<Frame>, h: nat, n: nat)
    requires c.Valid() && n < h && Arrivals(p, n) != []
    requires forall k: nat :: k <= n ==> HeldDoNoHarm(c, p, q, h, k)
    ensures forall k: nat :: FirstInWindow(c, h) <= k < n ==> Arrivals(q, k) == []
  {
    hide Arrivals, MayBeLost;
    ArrivalsHaveNumber(p, n);
    var f := Arrivals(p, n)[0];
    ArrivalsAreFrom(p, f, n);
    forall k: nat | FirstInWindow(c, h) <= k < n
      ensures Arrivals(q, k) == []
    {
      assert HeldDoNoHarm(c, p, q, h, k);
    }
  }

  lemma {:induction false} ArrivalsAreFrom(fs: seq<Frame>, f: Frame, n: nat)
    requires f in Arrivals(fs, n)
    ensures f in fs && Numbered(f, n)
  {
    if f in Arrivals(fs[..|fs| - 1], n) {
      ArrivalsAreFrom(fs[..|fs| - 1], f, n);
    }
  }

  lemma HarmlessIsRight(c: Config, ms: seq<Message>)
    requires c.Valid() && c.window <= Highest(c, ms)
    requires Harmless(c, ms)
    ensures Written(c, ms) == Reference(c, ms)
  {
    hide InTime, OnTime, Held, Highest, Collect, Arrivals, Sorted, Part, HeldDoNoHarm;
    var h := Highest(c, ms);
    HarmlessMergesUpTo(c, ms, h);
    NextIsSorted(c, InTime(c, ms), h);
    OnTimeThenHeld(c, ms, h);
    KindsAreOk(c, ms);
    NoArrivals(Held(c, ms), h);
    assert Arrivals(InTime(c, ms), h) == Arrivals(OnTime(c, ms), h);
  }

  /** If the right frames are published, no number's held frames did harm. */
  lemma RightIsHarmless(c: Config, ms: seq<Message>, n: nat)
    requires c.Valid() && n < Highest(c, ms) && Written(c, ms) == Reference(c, ms)
    ensures HeldDoNoHarm(c, OnTime(c, ms), Held(c, ms), Highest(c, ms), n)
  {
    hide InTime, OnTime, Held, Highest, Collect, Arrivals, Sorted, Written, MayBeLost, NothingBetween;
    var h, p, q := Highest(c, ms), OnTime(c, ms), Held(c, ms);
    if Arrivals(q, n) != [] {
      WrittenOfOne(c, ms, n);
      ArrivalsOfSorted(c, InTime(c, ms), n, h + 1);
      OnTimeThenHeld(c, ms, n);
      CollectLate(c, Arrivals(p, n), Arrivals(q, n));
      if h < n + c.window {
        RightIsInOrder(c, ms, n);
      }
    }
  }

  /** An element of a number that a part has arrivals of. */
  lemma {:induction false} PartHasNumber(c: Config, fs: seq<Frame>, f: Frame, n: nat, from: nat, to: nat) returns (i: nat)
    requires f in fs && Numbered(f, n) && from <= n < to
    ensures i < |Part(c, fs, from, to)| && Numbered(Part(c, fs, from, to)[i], n)
  {
    hide Collect, Arrivals, IsBest, Part;
    PartStep(c, fs, from, to);
    if to == n + 1 {
      ArrivalsOf(fs, f, n);
      CollectedHaveNumber(c, fs, n);
      var b := CollectKeepsTheBest(c, Arrivals(fs, n));
      i := |Part(c, fs, from, n)|;
      assert Part(c, fs, from, to)[i] == Collect(c, Arrivals(fs, n)).frames[0];
    } else {
      i := PartHasNumber(c, fs, f, n, from, to - 1);
    }
  }

  lemma RightIsInOrder(c: Config, ms: seq<Message>, n: nat)
    requires c.Valid() && Written(c, ms) == Reference(c, ms)
    requires n < Highest(c, ms) < n + c.window && Arrivals(Held(c, ms), n) != []
    ensures NothingBetween(OnTime(c, ms), n, Highest(c, ms))
  {
    hide InTime, OnTime, Held, Highest, Collect, Arrivals, Sorted, Part, InOrder;
    var h, p, q := Highest(c, ms), OnTime(c, ms), Held(c, ms);
    var from := FirstInWindow(c, h);
    SortedIsInOrder(c, InTime(c, ms), h + 1);
    var g := Arrivals(q, n)[0];
    ArrivalsAreFrom(q, g, n);
    var j := PartHasNumber(c, q, g, n, from, h);
    forall f | f in p && f.number.Some?
      ensures !(n < f.number.value < h)
    {
      if n < f.number.value < h {
        var i := PartHasNumber(c, p, f, f.number.value, 0, h);
        SortedIsPart(c, p, h);
        var l := |Sorted(c, p, h)| + j;
        assert Written(c, ms)[i] == Part(c, p, 0, h)[i] && Written(c, ms)[l] == Part(c, q, from, h)[j];
        OrderOfTwo(Written(c, ms), i, l, f.number.value, n);
      }
    }
  }

  lemma OrderOfTwo(fs: seq<Frame>, i: nat, j: nat, m: nat, n: nat)
    requires InOrder(fs) && i < j < |fs| && Numbered(fs[i], m) && Numbered(fs[j], n)
    ensures m <= n
  {
  }

  lemma DataOfIsInjective(fs: seq<Frame>, gs: seq<Frame>)
    ensures DataOf(fs) + [Eof] == DataOf(gs) + [Eof] <==> fs == gs
  {
    if DataOf(fs) + [Eof] == DataOf(gs) + [Eof] {
      var a, b := DataOf(fs) + [Eof], DataOf(gs) + [Eof];
      assert |a| == |fs| + 1 && |b| == |gs| + 1;
      forall i | 0 <= i < |fs|
        ensures fs[i] == gs[i]
      {
        assert a[i] == Data(fs[i]) && b[i] == Data(gs[i]);
      }
    }
  }

  /** As written, a run is published right if and only if its numbers stay below the window,
      or nothing that was held for any number did harm. */
  lemma AsWrittenSortsIff(c: Config, ms: seq<Message>)
    requires c.Valid() && c.lag == c.window && NoEof(ms)
    ensures PublishesReference(c, ms) <==> Highest(c, ms) < c.window || Harmless(c, ms)
  {
    hide Run, OnTime, Held, InTime, Highest, Written, Reference, HeldDoNoHarm;
    if Highest(c, ms) < c.window {
      AsWrittenSortsBelowWindow(c, ms);
    } else {
      AsWrittenPublishes(c, ms);
      DataOfIsInjective(Written(c, ms), Reference(c, ms));
      if Written(c, ms) == Reference(c, ms) {
        forall n: nat | n < Highest(c, ms)
          ensures HeldDoNoHarm(c, OnTime(c, ms), Held(c, ms), Highest(c, ms), n)
        {
          RightIsHarmless(c, ms, n);
        }
      }
      if Harmless(c, ms) {
        HarmlessIsRight(c, ms);
      }
    }
  }

  /** In particular a run in which frame 0 arrives in time is published right if and only if
      all its numbers stay below the window. */
  lemma AsWrittenSortsIffBelowWindow(c: Config, ms: seq<Message>, f: Frame)
    requires c.Valid() && c.lag == c.window && NoEof(ms)
    requires f in InTime(c, ms) && Numbered(f, 0)
    ensures PublishesReference(c, ms) <==> Highest(c, ms) < c.window
  {
    hide InTime, OnTime, Held, Highest, Arrivals, MayBeLost, NothingBetween;
    AsWrittenSortsIff(c, ms);
    OnTimeThenHeld(c, ms, 0);
    ArrivalsOf(InTime(c, ms), f, 0);
    KindsAreOk(c, ms);
    NoArrivals(OnTime(c, ms), 0);
    if c.window <= Highest(c, ms) {
      NothingKept(c, Arrivals(Held(c, ms), 0));
      assert !HeldDoNoHarm(c, OnTime(c, ms), Held(c, ms), Highest(c, ms), 0);
    }
  }

  lemma NothingKept(c: Config, late: seq<Frame>)
    ensures late != [] ==> !MayBeLost(c, [], late)
  {
  }

  /** The shortest such run that goes wrong: frame 0, and then one a window later. */
  lemma AsWrittenLosesFrameZero(c: Config, f: Frame, g: Frame)
    requires c.Valid() && c.lag == c.window && c.HasFields(f) && c.HasFields(g)
    requires Numbered(f, 0) && Numbered(g, c.window)
    ensures !PublishesReference(c, [Data(f), Data(g)])
  {
    var ms := [Data(f), Data(g)];
    assert ms[..1] == [Data(f)] && ms[..1][..0] == [];
    assert InTime(c, ms[..1]) == [f];
    AsWrittenSortsIffBelowWindow(c, ms, f);
  }

  /** Without frame 0 too: an in-window frame that is late is lost by two steps of a window. */
  lemma AsWrittenLosesALateFrame(c: Config, f: Frame, g: Frame, h: Frame)
    requires c.Valid() && c.lag == c.window && 2 <= c.window
    requires c.HasFields(f) && c.HasFields(g) && c.HasFields(h)
    requires Numbered(f, c.window + 1) && Numbered(g, c.window) && Numbered(h, 2 * c.window)
    ensures !PublishesReference(c, [Data(f), Data(g), Data(h)])
  {
    hide InTime, OnTime, Held, Highest, Arrivals, MayBeLost, NothingBetween;
    var ms := [Data(f), Data(g), Data(h)];
    NothingArrived(c);
    OneMore(c, [], f);
    OneMore(c, [] + [Data(f)], g);
    OneMore(c, [] + [Data(f)] + [Data(g)], h);
    assert ms == [] + [Data(f)] + [Data(g)] + [Data(h)];
    var p, q := OnTime(c, ms), Held(c, ms);
    ArrivalsOf(q, g, c.window);
    NoArrivals(p, c.window);
    NothingKept(c, Arrivals(q, c.window));
    assert !HeldDoNoHarm(c, p, q, 2 * c.window, c.window);
    AsWrittenSortsIff(c, ms);
  }

  lemma OneMore(c: Config, earlier: seq<Message>, f: Frame)
    requires c.Valid() && c.HasFields(f) && Highest(c, earlier) < f.number.value + c.window
    ensures var ms, n := earlier + [Data(f)], f.number.value;
            var onTime := c.window <= n && Highest(c, earlier) <= n;
            && Highest(c, ms) == (if n > Highest(c, earlier) then n else Highest(c, earlier))
            && OnTime(c, ms) == OnTime(c, earlier) + (if onTime then [f] else [])
            && Held(c, ms) == Held(c, earlier) + (if onTime then [] else [f])
  {
    OneMoreMessage(c, earlier, Data(f));
    OneMoreHighest(c, earlier, Data(f));
    hide OnTime, Held, InTime, Highest;
  }
}
