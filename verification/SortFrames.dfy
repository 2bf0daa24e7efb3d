// The frame sorter (lib/sort_frames_impl.cc): a ring of slots for the newest frame numbers.
// `lag` is the distance of the frame number that is sent before the window moves on.
module SortFrames {
  import opened Arithmetic
  import opened Options

  /** A message with its header fields; `payload` stands for everything else in it. */
  datatype Frame = Frame(number: Option<nat>, score: Option<real>, payload: nat)

  datatype Message = Eof | Malformed | Data(frame: Frame)

  datatype Config = Config(
    window: nat, allowDuplicates: bool, hasScoreField: bool, pickHighest: bool, lag: nat)
  {
    /** The number evicted by the source is `window` behind; one less names the frame that
        is about to leave the window. */
    predicate Valid() {
      1 <= window && (lag == window || lag == window - 1)
    }

    /** The frame carries every header field that is asked for. */
    predicate HasFields(f: Frame) {
      f.number.Some? && (hasScoreField ==> f.score.Some?)
    }

    function ScoreOf(f: Frame): real {
      if hasScoreField && f.score.Some? then f.score.value else 0.0
    }
  }

  datatype Duplicates = Duplicates(frames: seq<Frame>, bestIndex: nat, bestValue: real)

  const NO_FRAMES := Duplicates([], 0, 0.0)

  /** Whether a repeated frame replaces the best one so far. */
  predicate Better(c: Config, d: Duplicates, f: Frame) {
    if c.hasScoreField then
      if c.pickHighest then c.ScoreOf(f) > d.bestValue else c.ScoreOf(f) < d.bestValue
    else c.pickHighest
  }

  /** One more arrival of a frame number. */
  function Insert(c: Config, d: Duplicates, f: Frame): Duplicates {
    if d.frames == [] then Duplicates([f], 0, c.ScoreOf(f))
    else if c.allowDuplicates then
      Duplicates(d.frames + [f],
                 if Better(c, d, f) then |d.frames| else d.bestIndex,
                 if Better(c, d, f) then c.ScoreOf(f) else d.bestValue)
    else if Better(c, d, f) then Duplicates(d.frames[0 := f], 0, c.ScoreOf(f))
    else d
  }

  // ----- the ring on values -----

  datatype State = State(current: nat, ring: seq<Duplicates>, out: seq<Message>)

  function Slot(c: Config, number: nat): (i: nat)
    requires 1 <= c.window
    ensures i < c.window
  {
    (c.window - 1 + number) % c.window
  }

  function Initial(c: Config): State {
    State(0, seq(c.window, _ => NO_FRAMES), [])
  }

  function DataOf(fs: seq<Frame>): (ms: seq<Message>)
    ensures |ms| == |fs|
    ensures forall i :: 0 <= i < |fs| ==> ms[i] == Data(fs[i])
  {
    seq(|fs|, i requires 0 <= i < |fs| => Data(fs[i]))
  }

  /** Publishes all frames in the slot of a number and empties it. */
  function SendFrame(c: Config, s: State, number: nat): State
    requires c.Valid() && |s.ring| == c.window
  {
    var d := s.ring[Slot(c, number)];
    s.(ring := s.ring[Slot(c, number) := d.(frames := [])], out := s.out + DataOf(d.frames))
  }

  /** Moves the window on by one number. */
  function AdvanceOne(c: Config, s: State): (r: State)
    requires c.Valid() && |s.ring| == c.window
    ensures |r.ring| == c.window && r.current == s.current + 1
  {
    var t := if s.current >= c.lag then SendFrame(c, s, s.current - c.lag) else s;
    t.(ring := t.ring[Slot(c, s.current + 1) := NO_FRAMES], current := s.current + 1)
  }

  function AdvanceTo(c: Config, s: State, number: nat): (r: State)
    requires c.Valid() && |s.ring| == c.window
    ensures |r.ring| == c.window
    ensures r.current == if s.current < number then number else s.current
    decreases number - s.current
  {
    if s.current < number then AdvanceTo(c, AdvanceOne(c, s), number) else s
  }

  function Flush(c: Config, s: State, from: nat): (r: State)
    requires c.Valid() && |s.ring| == c.window
    ensures |r.ring| == c.window && r.current == s.current
    decreases s.current + 1 - from
  {
    if from <= s.current then Flush(c, SendFrame(c, s, from), from + 1) else s
  }

  function FirstInWindow(c: Config, current: nat): nat {
    if current + 1 >= c.window then current + 1 - c.window else 0
  }

  function Step(c: Config, s: State, m: Message): (r: State)
    requires c.Valid() && |s.ring| == c.window
    ensures |r.ring| == c.window
  {
    match m
    case Eof =>
      var t := Flush(c, s, FirstInWindow(c, s.current));
      t.(out := t.out + [Eof])
    case Malformed => s
    case Data(f) =>
      if !c.HasFields(f) || f.number.value + c.window <= s.current then s
      else
        var t := AdvanceTo(c, s, f.number.value);
        var i := Slot(c, f.number.value);
        t.(ring := t.ring[i := Insert(c, t.ring[i], f)])
  }

  function Run(c: Config, ms: seq<Message>): (r: State)
    requires c.Valid()
    ensures |r.ring| == c.window
  {
    if ms == [] then Initial(c) else Step(c, Run(c, ms[..|ms| - 1]), ms[|ms| - 1])
  }

  // ----- the block -----

  class Sorter {
    const c: Config
    const storage: array<Duplicates>
    var current: nat
    var storageOffset: nat
    // The messages on the output port.
    var published: seq<Message>

    ghost predicate Valid()
      reads this, storage
    {
      && c.Valid() && storage.Length == c.window
      && storageOffset == Slot(c, current)
    }

    ghost function Abstract(): State
      reads this, storage
    {
      State(current, storage[..], published)
    }

    constructor (c: Config)
      requires c.Valid()
      ensures Valid() && fresh(storage) && this.c == c
      ensures Abstract() == Initial(c)
    {
      this.c := c;
      storage := new Duplicates[c.window](_ => NO_FRAMES);
      current, storageOffset, published := 0, c.window - 1, [];
      new;
      SmallRemainder(c.window - 1, c.window);
      assert storage[..] == Initial(c).ring;
    }

    /** The slot of a frame number that has not left the ring. */
    function GetDuplicates(number: nat): (i: nat)
      requires Valid() && number <= current <= number + c.window
      reads this, storage
      ensures i == Slot(c, number)
    {
      SlotByDistance(c, number, current);
      (c.window + storageOffset - (current - number)) % c.window
    }

    method SendFrameOf(number: nat)
      requires Valid() && number <= current <= number + c.window
      modifies this`published, storage
      ensures Valid() && Abstract() == SendFrame(c, old(Abstract()), number)
    {
      var index := GetDuplicates(number);
      var dups := storage[index];
      for i := 0 to |dups.frames|
        invariant published == old(published) + DataOf(dups.frames)[..i]
        invariant storage[..] == old(storage[..])
      {
        published := published + [Data(dups.frames[i])];
      }
      storage[index] := dups.(frames := []);
    }

    /** Resets the slot of the next number and makes it the current one. */
    method AdvanceStorage()
      requires Valid()
      modifies this, storage
      ensures Valid() && current == old(current) + 1 && published == old(published)
      ensures storage[..] == old(storage[..])[Slot(c, current) := NO_FRAMES]
    {
      var newOffset := (storageOffset + 1) % c.window;
      AddToRemainder(c.window - 1 + current, 1, c.window);
      storage[newOffset] := NO_FRAMES;
      storageOffset := newOffset;
      current := current + 1;
    }

    method FlushFrames()
      requires Valid()
      modifies this, storage
      ensures Valid()
      ensures Abstract() == Flush(c, old(Abstract()), FirstInWindow(c, old(current)))
    {
      var i := FirstInWindow(c, current);
      ghost var goal := Flush(c, Abstract(), i);
      while i <= current
        invariant Valid() && FirstInWindow(c, current) <= i && current == old(current)
        invariant Flush(c, Abstract(), i) == goal
        decreases current + 1 - i
      {
        SendFrameOf(i);
        i := i + 1;
      }
    }

    /** Moves the window on to a number, sending what is evicted on the way. */
    method Advance(number: nat)
      requires Valid()
      modifies this, storage
      ensures Valid() && Abstract() == AdvanceTo(c, old(Abstract()), number)
    {
      hide Slot;
      ghost var goal := AdvanceTo(c, Abstract(), number);
      while current < number
        invariant Valid()
        invariant AdvanceTo(c, Abstract(), number) == goal
        decreases number - current
      {
        if current >= c.lag {
          SendFrameOf(current - c.lag);
        }
        AdvanceStorage();
      }
    }

    method StoreFrame(m: Message)
      requires Valid()
      modifies this, storage
      ensures Valid() && Abstract() == Step(c, old(Abstract()), m)
    {
      hide Slot, AdvanceTo, Flush, Insert;
      match m
      case Eof =>
        FlushFrames();
        published := published + [Eof];
      case Malformed =>
      case Data(f) =>
        if !c.HasFields(f) { return; }
        var number := f.number.value;
        if number + c.window <= current { return; }
        Advance(number);
        var index := GetDuplicates(number);
        storage[index] := Insert(c, storage[index], f);
    }
  }

  lemma SlotByDistance(c: Config, number: nat, current: nat)
    requires 1 <= c.window && number <= current <= number + c.window
    ensures (c.window + Slot(c, current) - (current - number)) % c.window == Slot(c, number)
  {
    var w := c.window;
    var a := w - 1 + current;
    assert a == w * (a / w) + a % w;
    var b := w + a % w - (current - number);
    var d := w - 1 + number;
    assert d == b + w * (a / w - 1);
    assert b == w * (b / w) + b % w;
    RemainderOf(w, b / w + a / w - 1, b % w);
    assert w * (b / w + a / w - 1) + b % w == d;
  }

  /** What a message does to the window: end of file and malformed messages leave it where it
      is, and so do frames without a number, without a score that is asked for, or a window or
      more behind; these change nothing at all. Any other frame is in its slot at the end, and
      the window has moved on to its number if that is higher. */
  lemma StepWrittenOut(c: Config, s: State, f: Frame)
    requires c.Valid() && |s.ring| == c.window
    ensures var r := Step(c, s, Data(f));
      if f.number.None? || (c.hasScoreField && f.score.None?) || f.number.value + c.window <= s.current then r == s
      else
        var d := r.ring[(c.window - 1 + f.number.value) % c.window];
        && r.current == (if s.current < f.number.value then f.number.value else s.current)
        && d.frames != [] && (c.allowDuplicates ==> d.frames[|d.frames| - 1] == f)
    ensures Step(c, s, Malformed) == s && Step(c, s, Eof).current == s.current
    ensures Step(c, s, Eof).out != [] && Step(c, s, Eof).out[|Step(c, s, Eof).out| - 1] == Eof
  {
    hide AdvanceTo, Flush;
  }
}
