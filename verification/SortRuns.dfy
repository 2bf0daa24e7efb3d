// Whole runs of the frame sorter against a reference: a stable bucket sort of the frames
// that arrived in time.
module SortRuns {
  import opened Arithmetic
  import opened SortFrames
  import opened Options

  // ----- the reference -----

  predicate HasNumber(c: Config, m: Message) {
    m.Data? && c.HasFields(m.frame)
  }

  /** The highest frame number among some messages, zero if there is none. */
  function Highest(c: Config, ms: seq<Message>): nat {
    if ms == [] then 0
    else
      var h, m := Highest(c, ms[..|ms| - 1]), ms[|ms| - 1];
      if HasNumber(c, m) && m.frame.number.value > h then m.frame.number.value else h
  }

  /** The frames that arrive before a frame a whole window ahead of them. */
  function InTime(c: Config, ms: seq<Message>): seq<Frame> {
    if ms == [] then []
    else
      var earlier, m := ms[..|ms| - 1], ms[|ms| - 1];
      InTime(c, earlier) +
      if HasNumber(c, m) && Highest(c, earlier) < m.frame.number.value + c.window then [m.frame] else []
  }

  function Arrivals(fs: seq<Frame>, number: nat): seq<Frame> {
    if fs == [] then []
    else Arrivals(fs[..|fs| - 1], number) +
         if fs[|fs| - 1].number == Some(number) then [fs[|fs| - 1]] else []
  }

  function Collect(c: Config, fs: seq<Frame>): Duplicates {
    if fs == [] then NO_FRAMES else Insert(c, Collect(c, fs[..|fs| - 1]), fs[|fs| - 1])
  }

  /** What is to be published for the numbers below `n`, number after number. */
  function Sorted(c: Config, fs: seq<Frame>, n: nat): seq<Frame> {
    if n == 0 then [] else Sorted(c, fs, n - 1) + Collect(c, Arrivals(fs, n - 1)).frames
  }

  function Reference(c: Config, ms: seq<Message>): seq<Frame> {
    Sorted(c, InTime(c, ms), Highest(c, ms) + 1)
  }

  predicate NoEof(ms: seq<Message>) {
    forall m <- ms :: !m.Eof?
  }

  // ----- the ring is a map from the numbers of the window -----

  lemma SlotsAreDistinct(c: Config, f: nat, g: nat)
    requires 1 <= c.window && f < g < f + c.window
    ensures Slot(c, f) != Slot(c, g)
  {
    var w, a, b := c.window, c.window - 1 + f, c.window - 1 + g;
    if a % w == b % w {
      assert w * (b / w) + 0 == w * (a / w) + (g - f);
      QuotientIsUnique(w, b / w, 0, a / w, g - f);
    }
  }

  lemma SlotRepeats(c: Config, f: nat)
    requires 1 <= c.window
    ensures Slot(c, f + c.window) == Slot(c, f)
  {
    var w, a := c.window, c.window - 1 + f;
    assert a + w == w * (a / w + 1) + a % w;
    RemainderOf(w, a / w + 1, a % w);
  }

  predicate InWindow(c: Config, s: State, f: nat) {
    f <= s.current < f + c.window
  }

  /** Every slot of the window holds what arrived for its number, and everything below the
      window has been published in order. */
  ghost predicate Holds(c: Config, s: State, fs: seq<Frame>) {
    && c.Valid() && |s.ring| == c.window
    && (forall f: Frame <- fs :: f.number.Some? && f.number.value <= s.current)
    && (forall n: nat :: InWindow(c, s, n) ==> s.ring[Slot(c, n)] == Collect(c, Arrivals(fs, n)))
    && s.out == DataOf(Sorted(c, fs, FirstInWindow(c, s.current)))
  }

  lemma {:induction false} NoArrivals(fs: seq<Frame>, n: nat)
    requires forall f: Frame <- fs :: f.number != Some(n)
    ensures Arrivals(fs, n) == []
  {
    if fs != [] {
      NoArrivals(fs[..|fs| - 1], n);
    }
  }

  lemma NextIsSorted(c: Config, fs: seq<Frame>, n: nat)
    ensures Sorted(c, fs, n + 1) == Sorted(c, fs, n) + Collect(c, Arrivals(fs, n)).frames
    ensures Sorted(c, fs, 0) == []
  {
  }

  lemma AdvanceOneKeepsHolds(c: Config, s: State, fs: seq<Frame>)
    requires Holds(c, s, fs) && c.lag == c.window - 1
    ensures Holds(c, AdvanceOne(c, s), fs)
  {
    hide Slot, Arrivals, Sorted;
    var t := AdvanceOne(c, s);
    NoArrivals(fs, s.current + 1);
    NextIsSorted(c, fs, FirstInWindow(c, s.current));
    if s.current >= c.lag {
      SlotRepeats(c, s.current - c.lag);
    }
    forall n: nat | InWindow(c, t, n)
      ensures t.ring[Slot(c, n)] == Collect(c, Arrivals(fs, n))
    {
      if n <= s.current {
        SlotsAreDistinct(c, n, s.current + 1);
      }
    }
  }

  lemma {:induction false} AdvanceToKeepsHolds(c: Config, s: State, fs: seq<Frame>, number: nat)
    requires Holds(c, s, fs) && c.lag == c.window - 1
    ensures Holds(c, AdvanceTo(c, s, number), fs)
    decreases number - s.current
  {
    if s.current < number {
      AdvanceOneKeepsHolds(c, s, fs);
      AdvanceToKeepsHolds(c, AdvanceOne(c, s), fs, number);
    }
  }

  lemma ArrivalsAppend(fs: seq<Frame>, f: Frame, n: nat)
    ensures Arrivals(fs + [f], n) == if f.number == Some(n) then Arrivals(fs, n) + [f] else Arrivals(fs, n)
  {
    assert (fs + [f])[..|fs|] == fs;
  }

  lemma CollectAppend(c: Config, fs: seq<Frame>, f: Frame)
    ensures Collect(c, fs + [f]) == Insert(c, Collect(c, fs), f)
  {
    assert (fs + [f])[..|fs|] == fs;
  }

  /** A frame that arrives in time does not belong to what is already published. */
  lemma {:induction false} LaterArrival(c: Config, fs: seq<Frame>, f: Frame, n: nat)
    requires f.number.Some? && n <= f.number.value
    ensures Sorted(c, fs + [f], n) == Sorted(c, fs, n)
  {
    hide Arrivals, Collect;
    if n != 0 {
      LaterArrival(c, fs, f, n - 1);
      ArrivalsAppend(fs, f, n - 1);
    }
  }

  lemma InsertKeepsHolds(c: Config, s: State, fs: seq<Frame>, f: Frame)
    requires Holds(c, s, fs) && f.number.Some? && InWindow(c, s, f.number.value)
    ensures var i := Slot(c, f.number.value);
            Holds(c, s.(ring := s.ring[i := Insert(c, s.ring[i], f)]), fs + [f])
  {
    hide Slot, Insert, Arrivals;
    var i := Slot(c, f.number.value);
    var t := s.(ring := s.ring[i := Insert(c, s.ring[i], f)]);
    LaterArrival(c, fs, f, FirstInWindow(c, s.current));
    forall n: nat | InWindow(c, t, n)
      ensures t.ring[Slot(c, n)] == Collect(c, Arrivals(fs + [f], n))
    {
      assert InWindow(c, s, n);
      ArrivalsAppend(fs, f, n);
      if n < f.number.value {
        SlotsAreDistinct(c, n, f.number.value);
      } else if n > f.number.value {
        SlotsAreDistinct(c, f.number.value, n);
      } else {
        CollectAppend(c, Arrivals(fs, n), f);
      }
    }
  }

  lemma OneMoreHighest(c: Config, earlier: seq<Message>, m: Message)
    ensures Highest(c, earlier + [m])
         == if HasNumber(c, m) && m.frame.number.value > Highest(c, earlier) then m.frame.number.value else Highest(c, earlier)
  {
    assert (earlier + [m])[..|earlier|] == earlier;
  }

  lemma OneMoreInTime(c: Config, earlier: seq<Message>, m: Message)
    ensures InTime(c, earlier + [m]) == InTime(c, earlier) +
      if HasNumber(c, m) && Highest(c, earlier) < m.frame.number.value + c.window then [m.frame] else []
  {
    assert (earlier + [m])[..|earlier|] == earlier;
  }

  lemma NothingInTime(c: Config)
    ensures Highest(c, []) == 0 && InTime(c, []) == []
    ensures c.Valid() ==> Holds(c, Initial(c), [])
  {
  }

  lemma {:induction false} RunHolds(c: Config, ms: seq<Message>)
    requires c.Valid() && c.lag == c.window - 1 && NoEof(ms)
    ensures Run(c, ms).current == Highest(c, ms)
    ensures Holds(c, Run(c, ms), InTime(c, ms))
  {
    hide Holds, Slot, Insert, InTime, Highest, AdvanceTo;
    if ms == [] {
      NothingInTime(c);
    } else {
      var earlier, m := ms[..|ms| - 1], ms[|ms| - 1];
      assert ms == earlier + [m];
      RunHolds(c, earlier);
      OneMoreHighest(c, earlier, m);
      OneMoreInTime(c, earlier, m);
      var s, fs := Run(c, earlier), InTime(c, earlier);
      if HasNumber(c, m) && s.current < m.frame.number.value + c.window {
        AdvanceToKeepsHolds(c, s, fs, m.frame.number.value);
        InsertKeepsHolds(c, AdvanceTo(c, s, m.frame.number.value), fs, m.frame);
      } else {
        assert InTime(c, ms) == fs;
      }
    }
  }

  /** Flushing publishes the rest of the window in order. */
  lemma {:induction false} FlushPublishes(c: Config, s: State, fs: seq<Frame>, from: nat)
    requires c.Valid() && |s.ring| == c.window
    requires from <= s.current + 1 && s.current < from + c.window
    requires forall n: nat :: from <= n <= s.current && InWindow(c, s, n) ==>
               s.ring[Slot(c, n)] == Collect(c, Arrivals(fs, n))
    requires s.out == DataOf(Sorted(c, fs, from))
    ensures Flush(c, s, from).out == DataOf(Sorted(c, fs, s.current + 1))
    decreases s.current + 1 - from
  {
    hide Slot, Arrivals, Sorted, Collect;
    if from <= s.current {
      NextIsSorted(c, fs, from);
      var t := SendFrame(c, s, from);
      assert InWindow(c, s, from);
      forall n: nat | from + 1 <= n <= t.current && InWindow(c, t, n)
        ensures t.ring[Slot(c, n)] == Collect(c, Arrivals(fs, n))
      {
        SlotsAreDistinct(c, from, n);
        assert InWindow(c, s, n);
      }
      FlushPublishes(c, t, fs, from + 1);
    }
  }

  /** When the number that leaves the window is the one that is sent, every run publishes
      exactly the reference: the frames in time, sorted, each kept as configured. */
  lemma SortsWhenTheLeavingFrameIsSent(c: Config, ms: seq<Message>)
    requires c.Valid() && c.lag == c.window - 1 && NoEof(ms)
    ensures Run(c, ms + [Eof]).out == DataOf(Reference(c, ms)) + [Eof]
  {
    assert (ms + [Eof])[..|ms|] == ms;
    RunHolds(c, ms);
    var s := Run(c, ms);
    FlushPublishes(c, s, InTime(c, ms), FirstInWindow(c, s.current));
  }

  // ----- what the reference is -----

  /** Which of the arrivals of one number counts as the best. */
  ghost predicate IsBest(c: Config, fs: seq<Frame>, b: nat) {
    && b < |fs|
    && if c.hasScoreField then
         forall i :: 0 <= i < |fs| ==>
           if c.pickHighest then c.ScoreOf(fs[i]) <= c.ScoreOf(fs[b]) && (i < b ==> c.ScoreOf(fs[i]) < c.ScoreOf(fs[b]))
           else c.ScoreOf(fs[i]) >= c.ScoreOf(fs[b]) && (i < b ==> c.ScoreOf(fs[i]) > c.ScoreOf(fs[b]))
       else b == if c.pickHighest then |fs| - 1 else 0
  }

  /** One more arrival is the best exactly if it beats the best so far. */
  lemma BestOfOneMore(c: Config, fs: seq<Frame>, b: nat, d: Duplicates, f: Frame)
    requires IsBest(c, fs, b) && d.bestValue == c.ScoreOf(fs[b])
    ensures IsBest(c, fs + [f], if Better(c, d, f) then |fs| else b)
  {
    assert (fs + [f])[|fs|] == f;
    assert forall i :: 0 <= i < |fs| ==> (fs + [f])[i] == fs[i];
  }

  /** All arrivals are kept in order, or only the best: the first one with the best score,
      or without a score field the last or the first. The best one is always known. */
  lemma {:induction false} CollectKeepsTheBest(c: Config, fs: seq<Frame>) returns (b: nat)
    requires fs != []
    ensures IsBest(c, fs, b)
    ensures var d := Collect(c, fs);
            && d.bestValue == c.ScoreOf(fs[b])
            && if c.allowDuplicates then d.frames == fs && d.bestIndex == b
               else d.frames == [fs[b]] && d.bestIndex == 0
  {
    var n := |fs| - 1;
    if n == 0 {
      b := 0;
      assert Collect(c, fs[..0]) == NO_FRAMES;
    } else {
      b := CollectKeepsTheBest(c, fs[..n]);
      var d := Collect(c, fs[..n]);
      assert fs == fs[..n] + [fs[n]];
      BestOfOneMore(c, fs[..n], b, d, fs[n]);
      hide IsBest;
      if Better(c, d, fs[n]) {
        b := n;
      }
    }
  }

  /** The same in terms of the scores in the frames: with a score field, the frame kept is the
      first of those with the highest score, or with the lowest, and that is the score remembered;
      without one it is the last frame or the first. */
  lemma CollectByScore(c: Config, fs: seq<Frame>) returns (b: nat)
    requires fs != [] && (c.hasScoreField ==> forall f: Frame <- fs :: f.score.Some?)
    ensures b < |fs|
    ensures c.hasScoreField && c.pickHighest ==> forall i :: 0 <= i < |fs| ==>
      fs[i].score.value <= fs[b].score.value && (i < b ==> fs[i].score.value < fs[b].score.value)
    ensures c.hasScoreField && !c.pickHighest ==> forall i :: 0 <= i < |fs| ==>
      fs[i].score.value >= fs[b].score.value && (i < b ==> fs[i].score.value > fs[b].score.value)
    ensures !c.hasScoreField && c.pickHighest ==> b == |fs| - 1
    ensures !c.hasScoreField && !c.pickHighest ==> b == 0
    ensures c.hasScoreField ==> Collect(c, fs).bestValue == fs[b].score.value
    ensures c.allowDuplicates ==> Collect(c, fs).frames == fs && Collect(c, fs).bestIndex == b
    ensures !c.allowDuplicates ==> Collect(c, fs).frames == [fs[b]]
  {
    b := CollectKeepsTheBest(c, fs);
    hide Collect;
    assert c.hasScoreField ==> forall i :: 0 <= i < |fs| ==> c.ScoreOf(fs[i]) == fs[i].score.value;
  }

  /** The reference, written out: a frame counts if it has a number, and a score where scores
      are asked for, and if no number so far is a window or more ahead of it. */
  lemma WhoIsInTime(c: Config, earlier: seq<Message>, m: Message)
    ensures InTime(c, earlier + [m]) == InTime(c, earlier) +
      if m.Data? && m.frame.number.Some? && (c.hasScoreField ==> m.frame.score.Some?)
         && Highest(c, earlier) < m.frame.number.value + c.window
      then [m.frame] else []
    ensures InTime(c, []) == []
  {
    OneMoreInTime(c, earlier, m);
  }

  /** The highest number is that of a frame that counts, or zero, and none of them is higher. */
  lemma {:induction false} HighestIs(c: Config, ms: seq<Message>)
    ensures forall m <- ms :: m.Data? && m.frame.number.Some? && (c.hasScoreField ==> m.frame.score.Some?) ==>
      m.frame.number.value <= Highest(c, ms)
    ensures Highest(c, ms) == 0 ||
      exists m <- ms :: m.Data? && m.frame.number == Some(Highest(c, ms)) && (c.hasScoreField ==> m.frame.score.Some?)
  {
    if ms != [] {
      HighestIs(c, ms[..|ms| - 1]);
      assert ms == ms[..|ms| - 1] + [ms[|ms| - 1]];
    }
  }

  /** The arrivals of a number, as often as they came. */
  lemma {:induction false} ArrivalsAre(fs: seq<Frame>, n: nat, f: Frame)
    ensures multiset(Arrivals(fs, n))[f] == if f.number == Some(n) then multiset(fs)[f] else 0
  {
    if fs != [] {
      ArrivalsAre(fs[..|fs| - 1], n, f);
      assert fs == fs[..|fs| - 1] + [fs[|fs| - 1]];
    }
  }

  lemma {:induction false} ArrivalsHaveNumber(fs: seq<Frame>, n: nat)
    ensures forall f: Frame <- Arrivals(fs, n) :: f.number == Some(n)
  {
    if fs != [] {
      ArrivalsHaveNumber(fs[..|fs| - 1], n);
    }
  }

  ghost predicate InOrder(fs: seq<Frame>) {
    && (forall f: Frame <- fs :: f.number.Some?)
    && forall i, j :: 0 <= i < j < |fs| ==> fs[i].number.value <= fs[j].number.value
  }

  /** The reference is sorted by frame number. */
  lemma {:induction false} SortedIsInOrder(c: Config, fs: seq<Frame>, n: nat)
    ensures InOrder(Sorted(c, fs, n))
    ensures forall f: Frame <- Sorted(c, fs, n) :: f.number.Some? && f.number.value < n
  {
    if n != 0 {
      SortedIsInOrder(c, fs, n - 1);
      CollectedHaveNumber(c, fs, n - 1);
      hide Collect, Arrivals;
      assert Sorted(c, fs, n) == Sorted(c, fs, n - 1) + Collect(c, Arrivals(fs, n - 1)).frames;
    }
  }

  lemma CollectedHaveNumber(c: Config, fs: seq<Frame>, n: nat)
    ensures forall f: Frame <- Collect(c, Arrivals(fs, n)).frames :: f.number == Some(n)
  {
    var a := Arrivals(fs, n);
    ArrivalsHaveNumber(fs, n);
    if a != [] {
      var b := CollectKeepsTheBest(c, a);
      hide Collect, IsBest;
      assert forall f <- Collect(c, a).frames :: f in a;
    }
  }

  /** With duplicates allowed the reference is a permutation of the frames in time. */
  lemma {:induction false} SortedKeepsAll(c: Config, fs: seq<Frame>, n: nat)
    requires c.allowDuplicates
    requires forall f: Frame <- fs :: f.number.Some? && f.number.value < n
    ensures multiset(Sorted(c, fs, n)) == multiset(fs)
  {
    if fs == [] {
      SortedOfNothing(c, n);
    } else {
      var m, f := |fs| - 1, fs[|fs| - 1];
      assert fs == fs[..m] + [f];
      SortedKeepsAll(c, fs[..m], n);
      SortedTakesOneMore(c, fs[..m], f, n);
    }
  }

  lemma {:induction false} SortedOfNothing(c: Config, n: nat)
    ensures Sorted(c, [], n) == []
  {
    if n != 0 {
      SortedOfNothing(c, n - 1);
    }
  }

  /** Sequence `a` is a permutation of `b` with one more element. */
  ghost predicate OneMoreIn(a: seq<Frame>, b: seq<Frame>, f: Frame) {
    multiset(a) == multiset(b) + multiset{f}
  }

  lemma {:induction false} SortedTakesOneMore(c: Config, fs: seq<Frame>, f: Frame, n: nat)
    requires c.allowDuplicates && f.number.Some? && f.number.value < n
    ensures OneMoreIn(Sorted(c, fs + [f], n), Sorted(c, fs, n), f)
  {
    hide OneMoreIn, Arrivals, Collect, Insert, Sorted;
    var p, arrived := Sorted(c, fs, n - 1), Arrivals(fs, n - 1);
    var a := Collect(c, arrived).frames;
    NextIsSorted(c, fs, n - 1);
    NextIsSorted(c, fs + [f], n - 1);
    ArrivalsAppend(fs, f, n - 1);
    if f.number.value == n - 1 {
      LaterArrival(c, fs, f, n - 1);
      CollectAppend(c, arrived, f);
      InsertKeepsAll(c, Collect(c, arrived), f);
      OneMoreAtEnd(p, a, f);
    } else {
      SortedTakesOneMore(c, fs, f, n - 1);
      OneMoreAtStart(Sorted(c, fs + [f], n - 1), p, a, f);
    }
  }

  lemma InsertKeepsAll(c: Config, d: Duplicates, f: Frame)
    requires c.allowDuplicates
    ensures Insert(c, d, f).frames == d.frames + [f]
  {
  }

  lemma OneMoreAtStart(p': seq<Frame>, p: seq<Frame>, a: seq<Frame>, f: Frame)
    requires OneMoreIn(p', p, f)
    ensures OneMoreIn(p' + a, p + a, f)
  {
  }

  lemma OneMoreAtEnd(p: seq<Frame>, a: seq<Frame>, f: Frame)
    ensures OneMoreIn(p + (a + [f]), p + a, f)
  {
    assert p + (a + [f]) == (p + a) + [f];
  }
}
