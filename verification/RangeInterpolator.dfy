// The streaming range interpolator (lib/orbit_range_interp.cc): a range that is expensive
// to compute is sampled at a low rate and interpolated, sample after sample.
module RangeInterpolator {

  type Range = real -> real

  /** The time `x` compute intervals after the start. */
  function Moment(tc: real, x: real): real { x * tc }

  /** The range `x` compute intervals after the start, relative to the start. */
  function Exact(range: Range, tc: real, x: real): real {
    range(Moment(tc, x)) - range(0.0)
  }

  /** The range at node `j`. */
  function Node(range: Range, tc: real, j: int): real { Exact(range, tc, j as real) }

  /** The time of sample `t`, counted in compute intervals. */
  function Position(tsPerTc: real, t: nat): real { t as real * tsPerTc }

  lemma NextPosition(tsPerTc: real, t: nat)
    ensures Position(tsPerTc, t + 1) == Position(tsPerTc, t) + tsPerTc
  {
  }

  lemma FirstNodes(tc: real)
    ensures Moment(tc, 0.0) == 0.0 && Moment(tc, 1.0) == tc
  {
  }

  /** The line through nodes `j` and `j + 1`, at `x` compute intervals. */
  function Line(range: Range, tc: real, j: int, x: real): real {
    Node(range, tc, j) + (Node(range, tc, j + 1) - Node(range, tc, j)) * (x - j as real)
  }

  /** Linear interpolation between the nodes on either side of `x` compute intervals. */
  function Interpolated(range: Range, tc: real, x: real): real { Line(range, tc, x.Floor, x) }

  /** The segment the interpolator is in after moving on, by at most one, for a sample at `t`. */
  function NextSegment(j: nat, t: real): nat { if t - j as real >= 1.0 then j + 1 else j }

  /** The segment used for sample `i + x` when the samples from `i` on start in segment `j`. */
  function SegmentOf(tsPerTc: real, i: nat, j: nat, x: nat): nat {
    NextSegment(if x == 0 then j else SegmentOf(tsPerTc, i, j, x - 1), Position(tsPerTc, i + x))
  }

  /** A sample at `t` finds the segment it lies in, or the one before it. */
  predicate InPhase(t: real, j: nat) { 0.0 <= t - j as real < 2.0 }

  lemma NextIsFloorIffInPhase(t: real, j: nat)
    ensures NextSegment(j, t) == t.Floor <==> InPhase(t, j)
  {
  }

  /** Every sample is taken from the segment it lies in exactly when the first one starts in
      phase, as the position advances by at most one segment a sample. */
  lemma {:induction false} SegmentsAreRightIffInPhase(tsPerTc: real, i: nat, j: nat, x: nat)
    requires 0.0 < tsPerTc <= 1.0
    ensures InPhase(Position(tsPerTc, i), j)
      <==> forall y {:trigger SegmentOf(tsPerTc, i, j, y)} :: 0 <= y <= x ==> SegmentOf(tsPerTc, i, j, y) == Position(tsPerTc, i + y).Floor
  {
    assert SegmentOf(tsPerTc, i, j, 0) == NextSegment(j, Position(tsPerTc, i));
    NextIsFloorIffInPhase(Position(tsPerTc, i), j);
    if x > 0 {
      SegmentsAreRightIffInPhase(tsPerTc, i, j, x - 1);
      if InPhase(Position(tsPerTc, i), j) {
        StaysInPhase(tsPerTc, i, j, x);
      }
    }
  }

  lemma StaysInPhase(tsPerTc: real, i: nat, j: nat, x: nat)
    requires 0.0 < tsPerTc <= 1.0 && x > 0
    requires SegmentOf(tsPerTc, i, j, x - 1) == Position(tsPerTc, i + x - 1).Floor
    ensures InPhase(Position(tsPerTc, i + x), SegmentOf(tsPerTc, i, j, x - 1))
    ensures SegmentOf(tsPerTc, i, j, x) == Position(tsPerTc, i + x).Floor
  {
    NextPosition(tsPerTc, i + x - 1);
    NextIsFloorIffInPhase(Position(tsPerTc, i + x), SegmentOf(tsPerTc, i, j, x - 1));
  }

  lemma {:induction false} OneSegmentASample(tsPerTc: real, i: nat, j: nat, x: nat)
    ensures SegmentOf(tsPerTc, i, j, x) <= j + x + 1
  {
    if x > 0 {
      OneSegmentASample(tsPerTc, i, j, x - 1);
    }
  }

  /** A position that advances by more than one segment a sample gets away in the end. */
  lemma FasterGetsAway(tsPerTc: real, i: nat, j: nat) returns (x: nat)
    requires 1.0 < tsPerTc
    ensures SegmentOf(tsPerTc, i, j, x) != Position(tsPerTc, i + x).Floor
  {
    var gain, need := tsPerTc - 1.0, j as real + 2.0;
    var q := Quotient(need, gain);
    x := q.Floor + 1;
    hide Position, SegmentOf;
    FarEnough(x as real, q, gain, need);
    OneSegmentASample(tsPerTc, i, j, x);
    PositionOf(tsPerTc, i, x);
    assert (j + x + 2) as real == x as real + need;
    FloorAtLeast(Position(tsPerTc, i + x), j + x + 2);
  }

  lemma Quotient(a: real, b: real) returns (q: real)
    requires 0.0 < a && 0.0 < b
    ensures q * b == a && 0.0 < q
  {
    q := a / b;
  }

  lemma FloorAtLeast(r: real, k: int)
    requires k as real <= r
    ensures k <= r.Floor
  {
  }

  lemma FarEnough(x: real, q: real, gain: real, need: real)
    requires q <= x && 0.0 < gain && q * gain == need
    ensures need <= x * gain
  {
    ProductNonNegative(x - q, gain);
  }

  lemma PositionOf(tsPerTc: real, i: nat, x: nat)
    requires 0.0 < tsPerTc
    ensures x as real + x as real * (tsPerTc - 1.0) <= Position(tsPerTc, i + x)
  {
    ProductNonNegative(i as real, tsPerTc);
    assert (i + x) as real * tsPerTc == i as real * tsPerTc + x as real * tsPerTc;
  }

  /** All samples to come are taken from the segments they lie in if and only if the first one
      starts in phase and there are no more than one compute interval per sample. */
  lemma AlwaysRightIff(tsPerTc: real, i: nat, j: nat)
    requires 0.0 < tsPerTc
    ensures (forall x: nat :: SegmentOf(tsPerTc, i, j, x) == Position(tsPerTc, i + x).Floor)
       <==> InPhase(Position(tsPerTc, i), j) && tsPerTc <= 1.0
  {
    if tsPerTc <= 1.0 {
      if InPhase(Position(tsPerTc, i), j) {
        forall x: nat
          ensures SegmentOf(tsPerTc, i, j, x) == Position(tsPerTc, i + x).Floor
        {
          SegmentsAreRightIffInPhase(tsPerTc, i, j, x);
        }
      } else {
        SegmentsAreRightIffInPhase(tsPerTc, i, j, 0);
      }
    } else {
      var x := FasterGetsAway(tsPerTc, i, j);
    }
  }

  class Interpolator {
    const tc: real
    const tsPerTc: real
    var range: Range
    var i: nat
    var j: nat
    var init: bool
    var range0: real
    var left: real
    var right: real
    var m: real

    /** The current segment is that of nodes `j` and `j + 1`. */
    ghost predicate SegmentOk()
      reads this
    {
      && 0.0 < tsPerTc && init
      && range0 == range(0.0)
      && left == Node(range, tc, j) && right == Node(range, tc, j + 1) && m == right - left
    }

    constructor (sampRateOut: real, computeRate: real, range: Range)
      requires 0.0 < computeRate && 0.0 < sampRateOut
      ensures i == 0 && !init && 0.0 < tsPerTc
      ensures tsPerTc <= 1.0 <==> computeRate <= sampRateOut
      ensures tc == 1.0 / (computeRate * 60.0) && tsPerTc == computeRate / sampRateOut
    {
      tc := 1.0 / (computeRate * 60.0);
      tsPerTc := computeRate / sampRateOut;
      this.range := range;
      i, j, init := 0, 0, false;
      range0, left, right, m := 0.0, 0.0, 0.0, 0.0;
      new;
      RatioAtMostOneIff(computeRate, sampRateOut);
    }

    /** Starts over with the range as it is from another time on. The sample counter is not
        reset, so the interpolator is in phase only if it had not come far. */
    method SetStartTime(newRange: Range)
      requires 0.0 < tsPerTc
      modifies this
      ensures SegmentOk() && range == newRange && i == old(i) && j == 0
      ensures InPhase(Position(tsPerTc, i), j) <==> Position(tsPerTc, i) < 2.0
    {
      FirstNodes(tc);
      ProductNonNegative(i as real, tsPerTc);
      assert 0.0 <= Position(tsPerTc, i);
      hide Position, Moment;
      range := newRange;
      j := 0;
      range0 := range(0.0);
      left := 0.0;
      right := range(tc) - range(0.0);
      m := right - left;
      init := true;
    }

    method Update()
      requires SegmentOk()
      modifies this`left, this`j, this`right, this`m
      ensures SegmentOk() && j == old(j) + 1
    {
      hide Moment;
      left := right;
      j := j + 1;
      right := range(Moment(tc, (j + 1) as real)) - range0;
      m := right - left;
    }

    /** Moves on for a sample at `t`, and computes it. */
    method Sample(t: real) returns (r: real)
      requires SegmentOk()
      modifies this`left, this`j, this`right, this`m
      ensures SegmentOk() && j == NextSegment(old(j), t) && r == Line(range, tc, j, t)
    {
      hide Node;
      var mu := t - j as real;
      if mu >= 1.0 {
        Update();
        mu := mu - 1.0;
      }
      r := left + m * mu;
    }

    /** Fills in the next samples. From a start in phase, each is the interpolation at its own
        time, and the next call starts in phase again, however the samples are spread over calls. */
    method ComputeDelta(results: array<real>)
      requires SegmentOk()
      modifies this`i, this`left, this`j, this`right, this`m, results
      ensures SegmentOk() && i == old(i) + results.Length
      ensures j == if results.Length == 0 then old(j) else SegmentOf(tsPerTc, old(i), old(j), results.Length - 1)
      ensures forall x :: 0 <= x < results.Length ==>
        results[x] == Line(range, tc, SegmentOf(tsPerTc, old(i), old(j), x), Position(tsPerTc, old(i) + x))
      ensures tsPerTc <= 1.0 && old(InPhase(Position(tsPerTc, i), j)) ==> InPhase(Position(tsPerTc, i), j)
      ensures tsPerTc <= 1.0 && old(InPhase(Position(tsPerTc, i), j)) ==> forall x :: 0 <= x < results.Length ==>
        results[x] == Interpolated(range, tc, Position(tsPerTc, old(i) + x))
    {
      hide Position, Node, InPhase, NextSegment, Line, SegmentOf, Interpolated;
      ghost var j0 := j;
      for x := 0 to results.Length
        invariant SegmentOk() && i == old(i)
        invariant j == if x == 0 then j0 else SegmentOf(tsPerTc, i, j0, x - 1)
        invariant forall y :: 0 <= y < x ==>
          results[y] == Line(range, tc, SegmentOf(tsPerTc, i, j0, y), Position(tsPerTc, i + y))
      {
        var r := Sample(Position(tsPerTc, i + x));
        results[x] := r;
        SegmentStep(tsPerTc, i, j0, x);
      }
      if tsPerTc <= 1.0 {
        SamplesInPhase(range, tc, tsPerTc, i, j0, results.Length);
      }
      i := i + results.Length;
    }
  }

  lemma SegmentStep(tsPerTc: real, i: nat, j: nat, x: nat)
    ensures SegmentOf(tsPerTc, i, j, x)
         == NextSegment(if x == 0 then j else SegmentOf(tsPerTc, i, j, x - 1), Position(tsPerTc, i + x))
  {
  }

  lemma SamplesInPhase(range: Range, tc: real, tsPerTc: real, i: nat, j: nat, n: nat)
    requires 0.0 < tsPerTc <= 1.0
    ensures InPhase(Position(tsPerTc, i), j) ==>
      && InPhase(Position(tsPerTc, i + n), if n == 0 then j else SegmentOf(tsPerTc, i, j, n - 1))
      && forall x {:trigger SegmentOf(tsPerTc, i, j, x)} :: 0 <= x < n ==>
        Line(range, tc, SegmentOf(tsPerTc, i, j, x), Position(tsPerTc, i + x)) == Interpolated(range, tc, Position(tsPerTc, i + x))
  {
    if n > 0 && InPhase(Position(tsPerTc, i), j) {
      SegmentsAreRightIffInPhase(tsPerTc, i, j, n - 1);
      StaysInPhase(tsPerTc, i, j, n);
    }
  }

  lemma RatioAtMostOneIff(a: real, b: real)
    requires 0.0 < a && 0.0 < b
    ensures 0.0 < a / b && (a / b <= 1.0 <==> a <= b)
  {
    assert (a / b) * b == a;
  }

  lemma ProductNonNegative(a: real, b: real)
    requires 0.0 <= a && 0.0 <= b
    ensures 0.0 <= a * b
  {
  }

  /** Interpolation, written out: between two nodes the mean of the two ranges, less that at the
      start, each weighted with the distance from the other node. */
  lemma InterpolationWrittenOut(range: Range, tc: real, x: real, j: int, mu: real, t0: real, t1: real)
    requires x == j as real + mu && 0.0 <= mu < 1.0
    requires t0 == j as real * tc && t1 == (j + 1) as real * tc
    ensures Interpolated(range, tc, x) == (1.0 - mu) * range(t0) + mu * range(t1) - range(0.0)
  {
    hide Node;
    NodeWrittenOut(range, tc, j, t0);
    NodeWrittenOut(range, tc, j + 1, t1);
    assert x.Floor == j;
    Weighted(range(t0), range(t1), range(0.0), mu, Interpolated(range, tc, x));
  }

  lemma NodeWrittenOut(range: Range, tc: real, j: int, t: real)
    requires t == j as real * tc
    ensures Node(range, tc, j) == range(t) - range(0.0)
  {
    assert Moment(tc, j as real) == t;
  }

  lemma Weighted(a: real, b: real, c: real, mu: real, r: real)
    requires r == (a - c) + ((b - c) - (a - c)) * mu
    ensures r == (1.0 - mu) * a + mu * b - c
  {
  }

  /** Sample `t` is `t` sample periods after the start, in minutes. */
  lemma SampleTimes(sampRateOut: real, computeRate: real, t: nat)
    requires 0.0 < computeRate && 0.0 < sampRateOut
    ensures Moment(1.0 / (computeRate * 60.0), Position(computeRate / sampRateOut, t)) * (60.0 * sampRateOut) == t as real
  {
    var tc, q := 1.0 / (computeRate * 60.0), computeRate / sampRateOut;
    var c := computeRate * 60.0;
    assert tc * c == 1.0;
    assert q * sampRateOut == computeRate;
    Rearranged(t as real, q, tc, sampRateOut, c);
  }

  lemma Rearranged(t: real, q: real, tc: real, r: real, c: real)
    requires (q * r) * 60.0 == c && tc * c == 1.0
    ensures ((t * q) * tc) * (60.0 * r) == t
  {
    calc {
      ((t * q) * tc) * (60.0 * r);
      t * (tc * ((q * r) * 60.0));
      t * (tc * c);
      t;
    }
  }

  // ----- the error -----

  function Abs(x: real): real { if x < 0.0 then -x else x }

  ghost predicate Lipschitz(range: Range, l: real) {
    0.0 <= l && forall a, b :: Abs(range(a) - range(b)) <= l * Abs(a - b)
  }

  /** A weighted mean of two deviations, each proportional to the other's weight. */
  lemma WeightedDeviation(mu: real, d0: real, d1: real, c: real)
    requires 0.0 <= mu <= 1.0 && 0.0 <= c
    requires Abs(d0) <= c * mu && Abs(d1) <= c * (1.0 - mu)
    ensures Abs((1.0 - mu) * d0 + mu * d1) <= c / 2.0
  {
    var nu := 1.0 - mu;
    QuarterBound(nu, mu, d0, c);
    QuarterBound(mu, nu, d1, c);
    var p, q := nu * d0, mu * d1;
    SumOfBounds(p, q, c);
  }

  /** What is bounded by `c` times one weight is at most a quarter of `c` under the other. */
  lemma QuarterBound(w: real, v: real, d: real, c: real)
    requires 0.0 <= w && w + v == 1.0 && 0.0 <= c
    requires Abs(d) <= c * v
    ensures Abs(w * d) <= c / 4.0
  {
    var b := c * v;
    hide Abs;
    ScaledBound(w, d, b);
    QuarterOf(w, v, c, b);
  }

  lemma QuarterOf(w: real, v: real, c: real, b: real)
    requires w + v == 1.0 && 0.0 <= c && b == c * v
    ensures w * b <= c / 4.0
  {
    assert v == 1.0 - w;
    var s := w * v;
    AtMostAQuarter(w);
    ProductNonNegative(c, 0.25 - s);
    assert w * (c * v) == c * s;
  }

  lemma SumOfBounds(p: real, q: real, c: real)
    requires Abs(p) <= c / 4.0 && Abs(q) <= c / 4.0
    ensures Abs(p + q) <= c / 2.0
  {
  }

  lemma AtMostAQuarter(mu: real)
    ensures mu * (1.0 - mu) <= 0.25
  {
    SquareNonNegative(mu - 0.5);
    assert (mu - 0.5) * (mu - 0.5) == mu * mu - mu + 0.25;
  }

  lemma ScaledBound(w: real, d: real, b: real)
    requires 0.0 <= w && Abs(d) <= b
    ensures Abs(w * d) <= w * b
  {
    ProductNonNegative(w, b - d);
    ProductNonNegative(w, b + d);
  }

  lemma SquareNonNegative(x: real)
    ensures 0.0 <= x * x
  {
  }

  /** How much a range that changes at most at rate `l` may change in one compute interval. */
  function Drift(l: real, tc: real): real { l * tc }

  /** Sample `i + x` is the interpolation `x` sample periods after the start. */
  ghost predicate OnTime(range: Range, tc: real, tsPerTc: real, i: nat, x: nat) {
    Interpolated(range, tc, Position(tsPerTc, i + x)) == Interpolated(range, tc, Position(tsPerTc, x))
  }

  /** The samples after a restart are the interpolation at their own times since the restart,
      for every range, if and only if the sample counter was zero. */
  lemma RestartIsOnTimeIff(tc: real, tsPerTc: real, i: nat)
    requires 0.0 < tc && 0.0 < tsPerTc
    ensures (forall range: Range, x: nat :: OnTime(range, tc, tsPerTc, i, x)) <==> i == 0
  {
    hide Interpolated, Position;
    if i != 0 {
      var uniform: Range := y => y;
      InterpolatedUniform(uniform, tc, Position(tsPerTc, i));
      InterpolatedUniform(uniform, tc, Position(tsPerTc, 0));
      PositionsDiffer(tc, tsPerTc, i);
      assert !OnTime(uniform, tc, tsPerTc, i, 0);
    }
  }

  lemma InterpolatedUniform(range: Range, tc: real, x: real)
    requires forall y :: range(y) == y
    ensures Interpolated(range, tc, x) == x * tc
  {
    var j := x.Floor;
    UniformNode(range, tc, j);
    UniformNode(range, tc, j + 1);
    var p, q, r := j as real * tc, (j + 1) as real * tc, x - j as real;
    assert q - p == tc;
    assert tc * r == x * tc - p;
    hide Node;
  }

  lemma UniformNode(range: Range, tc: real, j: int)
    requires forall y :: range(y) == y
    ensures Node(range, tc, j) == j as real * tc
  {
  }

  lemma PositionsDiffer(tc: real, tsPerTc: real, i: nat)
    requires 0.0 < tc && 0.0 < tsPerTc && i != 0
    ensures Position(tsPerTc, i) * tc != Position(tsPerTc, 0) * tc
  {
    PositiveProduct(i as real, tsPerTc);
    PositiveProduct(i as real * tsPerTc, tc);
  }

  lemma PositiveProduct(a: real, b: real)
    requires 0.0 < a && 0.0 < b
    ensures 0.0 < a * b
  {
  }

  /** For a range that changes at most at rate `l`, interpolation is off by no more than
      half of what it may change in one compute interval. */
  lemma InterpolationError(range: Range, tc: real, l: real, x: real)
    requires Lipschitz(range, l) && 0.0 <= tc
    ensures Abs(Interpolated(range, tc, x) - Exact(range, tc, x)) <= Drift(l, tc) / 2.0
  {
    hide *;
    DriftNonNegative(range, l, tc);
    BothNodesAreNear(range, tc, l, x);
    SegmentError(range, tc, x, x.Floor, x - x.Floor as real, Drift(l, tc));
  }

  /** The nodes around `x` differ from its exact value in proportion to their distances. */
  ghost predicate NodesNear(range: Range, tc: real, x: real, j: int, mu: real, c: real) {
    && Abs(Node(range, tc, j) - Exact(range, tc, x)) <= c * mu
    && Abs(Node(range, tc, j + 1) - Exact(range, tc, x)) <= c * (1.0 - mu)
  }

  lemma BothNodesAreNear(range: Range, tc: real, l: real, x: real)
    requires Lipschitz(range, l) && 0.0 <= tc
    ensures NodesNear(range, tc, x, x.Floor, x - x.Floor as real, Drift(l, tc))
  {
    hide Drift, Lipschitz, Node, Exact;
    var j, mu := x.Floor, x - x.Floor as real;
    NodeIsNear(range, tc, l, j, x, mu);
    NodeIsNear(range, tc, l, j + 1, x, 1.0 - mu);
  }

  lemma SegmentError(range: Range, tc: real, x: real, j: int, mu: real, c: real)
    requires j == x.Floor && mu == x - j as real && 0.0 <= c
    requires NodesNear(range, tc, x, j, mu, c)
    ensures Abs(Interpolated(range, tc, x) - Exact(range, tc, x)) <= c / 2.0
  {
    hide *;
    InterpolatedIn(range, tc, x, j, mu);
    NodesAreNear(range, tc, x, j, mu, c);
    BetweenTwo(Node(range, tc, j), Node(range, tc, j + 1), Exact(range, tc, x), mu, c, Interpolated(range, tc, x));
  }

  lemma InterpolatedIn(range: Range, tc: real, x: real, j: int, mu: real)
    requires j == x.Floor && mu == x - j as real
    ensures Interpolated(range, tc, x) == Node(range, tc, j) + (Node(range, tc, j + 1) - Node(range, tc, j)) * mu
    ensures 0.0 <= mu <= 1.0
  {
    hide Node;
  }

  lemma NodesAreNear(range: Range, tc: real, x: real, j: int, mu: real, c: real)
    requires NodesNear(range, tc, x, j, mu, c)
    ensures Abs(Node(range, tc, j) - Exact(range, tc, x)) <= c * mu
    ensures Abs(Node(range, tc, j + 1) - Exact(range, tc, x)) <= c * (1.0 - mu)
  {
    hide Abs, Node, Exact;
  }

  lemma NodeIsNear(range: Range, tc: real, l: real, j: int, x: real, w: real)
    requires Lipschitz(range, l) && 0.0 <= tc && Abs(j as real - x) == w
    ensures Abs(Node(range, tc, j) - Exact(range, tc, x)) <= Drift(l, tc) * w
  {
    hide Exact, Lipschitz, Drift, Abs;
    ExactIsLipschitz(range, tc, l, j as real, x);
  }

  lemma ExactIsLipschitz(range: Range, tc: real, l: real, a: real, b: real)
    requires Lipschitz(range, l) && 0.0 <= tc
    ensures Abs(Exact(range, tc, a) - Exact(range, tc, b)) <= Drift(l, tc) * Abs(a - b)
  {
    hide Lipschitz;
    var u := Exact(range, tc, a) - Exact(range, tc, b);
    var y := Abs(Moment(tc, a) - Moment(tc, b));
    LipschitzAt(range, l, Moment(tc, a), Moment(tc, b));
    assert Abs(u) <= l * y;
    MomentsApart(tc, a, b);
    hide *;
    Rescale(u, y, l, tc, Abs(a - b));
  }

  lemma MomentsApart(tc: real, a: real, b: real)
    requires 0.0 <= tc
    ensures Abs(Moment(tc, a) - Moment(tc, b)) == tc * Abs(a - b)
  {
    ProductNonNegative(tc, Abs(a - b));
    assert Moment(tc, a) - Moment(tc, b) == tc * (a - b);
  }

  lemma LipschitzAt(range: Range, l: real, a: real, b: real)
    requires Lipschitz(range, l)
    ensures Abs(range(a) - range(b)) <= l * Abs(a - b)
  {
  }

  lemma DriftNonNegative(range: Range, l: real, tc: real)
    requires Lipschitz(range, l) && 0.0 <= tc
    ensures 0.0 <= Drift(l, tc)
  {
    ProductNonNegative(l, tc);
  }

  lemma Rescale(u: real, y: real, l: real, tc: real, d: real)
    requires Abs(u) <= l * y && y == tc * d
    ensures Abs(u) <= Drift(l, tc) * d
  {
    assert l * (tc * d) == (l * tc) * d;
  }

  /** Two values that are close to a third, each in proportion to the other's weight. */
  lemma BetweenTwo(r0: real, r1: real, r: real, mu: real, c: real, v: real)
    requires 0.0 <= mu <= 1.0 && 0.0 <= c
    requires Abs(r0 - r) <= c * mu && Abs(r1 - r) <= c * (1.0 - mu)
    requires v == r0 + (r1 - r0) * mu
    ensures Abs(v - r) <= c / 2.0
  {
    hide Abs;
    var d0, d1, e := r0 - r, r1 - r, v - r;
    WeightedDeviation(mu, d0, d1, c);
    assert e == (1.0 - mu) * d0 + mu * d1;
  }
}
