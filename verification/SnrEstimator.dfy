// The moment-based estimator of signal and noise power (lib/snr_est.cc), in exact reals.
module SnrEstimator {
  import opened Samples

  const ALPHA := 0.001
  const BETA := 1.0 - ALPHA

  function Power(z: Complex): real { z.re * z.re + z.im * z.im }

  /** The exponentially smoothed mean of the powers, and of their squares. */
  function FirstMoment(zs: seq<Complex>): real {
    if zs == [] then 0.0 else ALPHA * Power(zs[|zs| - 1]) + BETA * FirstMoment(zs[..|zs| - 1])
  }

  function SecondMoment(zs: seq<Complex>): real {
    if zs == [] then 0.0
    else ALPHA * (Power(zs[|zs| - 1]) * Power(zs[|zs| - 1])) + BETA * SecondMoment(zs[..|zs| - 1])
  }

  /** The square of a weighted mean is at most the weighted mean of the squares, less if the
      weights do not add up to more than one. */
  lemma SquareOfMean(w: real, a: real, b: real)
    requires 0.0 <= w <= 1.0
    ensures (w * a + (1.0 - w) * b) * (w * a + (1.0 - w) * b) <= w * (a * a) + (1.0 - w) * (b * b)
  {
    var v := 1.0 - w;
    assert w * (a * a) + v * (b * b) - (w * a + v * b) * (w * a + v * b) == w * v * ((a - b) * (a - b));
    Product(w, v);
    Product(w * v, (a - b) * (a - b));
  }

  lemma Product(a: real, b: real)
    requires 0.0 <= a && 0.0 <= b
    ensures 0.0 <= a * b
  {
  }

  /** The smoothed square never falls below the square of the smoothed power. */
  lemma {:induction false} MomentInequality(zs: seq<Complex>)
    ensures 0.0 <= FirstMoment(zs)
    ensures FirstMoment(zs) * FirstMoment(zs) <= SecondMoment(zs)
  {
    if zs != [] {
      var p, y := Power(zs[|zs| - 1]), FirstMoment(zs[..|zs| - 1]);
      MomentInequality(zs[..|zs| - 1]);
      SquareOfMean(ALPHA, p, y);
    }
  }

  function PowBeta(n: nat): real { if n == 0 then 1.0 else 0.999 * PowBeta(n - 1) }

  /** After `n` samples of the same power `p` the moments are p and its square, but for what
      is still to come in. */
  lemma {:induction false} MomentsOfEqualPowers(zs: seq<Complex>, p: real)
    requires forall z <- zs :: z.re * z.re + z.im * z.im == p
    ensures FirstMoment(zs) == p * (1.0 - PowBeta(|zs|))
    ensures SecondMoment(zs) == p * p * (1.0 - PowBeta(|zs|))
  {
    if zs != [] {
      var n := |zs| - 1;
      MomentsOfEqualPowers(zs[..n], p);
      assert Power(zs[n]) == p;
      OneMoreEqual(p, PowBeta(n));
      OneMoreEqual(p * p, PowBeta(n));
    }
  }

  lemma OneMoreEqual(p: real, b: real)
    ensures 0.001 * p + 0.999 * (p * (1.0 - b)) == p * (1.0 - 0.999 * b)
  {
  }

  /** Every sample counts with its power, less by the factor 0.999 for each later one. */
  lemma MomentsByOneSample(zs: seq<Complex>, i: nat, z: Complex)
    requires i < |zs|
    ensures var p, q := zs[i].re * zs[i].re + zs[i].im * zs[i].im, z.re * z.re + z.im * z.im;
            var w := 0.001 * PowBeta(|zs| - 1 - i);
            && FirstMoment(zs[i := z]) == FirstMoment(zs) + w * (q - p)
            && SecondMoment(zs[i := z]) == SecondMoment(zs) + w * (q * q - p * p)
  {
    hide FirstMoment, SecondMoment, PowBeta, Power;
    PowerWrittenOut(z);
    PowerWrittenOut(zs[i]);
    FirstByOneSample(zs, i, z);
    SecondByOneSample(zs, i, z);
  }

  lemma PowerWrittenOut(z: Complex)
    ensures Power(z) == z.re * z.re + z.im * z.im
  {
  }

  lemma OneMorePower(zs: seq<Complex>)
    requires zs != []
    ensures FirstMoment(zs) == 0.001 * Power(zs[|zs| - 1]) + 0.999 * FirstMoment(zs[..|zs| - 1])
  {
    hide Power;
  }

  lemma {:induction false} FirstByOneSample(zs: seq<Complex>, i: nat, z: Complex)
    requires i < |zs|
    ensures FirstMoment(zs[i := z]) == FirstMoment(zs) + Share(PowBeta(|zs| - 1 - i), Power(z) - Power(zs[i]))
  {
    hide Power, FirstMoment, Share;
    var n := |zs| - 1;
    var ys := zs[i := z];
    assert ys[..n] == if i < n then zs[..n][i := z] else zs[..n];
    OneMorePower(zs);
    OneMorePower(ys);
    if i < n {
      FirstByOneSample(zs[..n], i, z);
      LaterWeight(FirstMoment(zs[..n]), FirstMoment(ys[..n]), PowBeta(n - 1 - i), Power(z) - Power(zs[i]), PowBeta(|zs| - 1 - i));
    } else {
      NewestWeight(PowBeta(|zs| - 1 - i), Power(z) - Power(zs[i]));
    }
  }

  function Squared(z: Complex): real { Power(z) * Power(z) }

  lemma OneMoreSquare(zs: seq<Complex>)
    requires zs != []
    ensures SecondMoment(zs) == 0.001 * Squared(zs[|zs| - 1]) + 0.999 * SecondMoment(zs[..|zs| - 1])
  {
  }

  lemma {:induction false} SecondByOneSample(zs: seq<Complex>, i: nat, z: Complex)
    requires i < |zs|
    ensures SecondMoment(zs[i := z]) == SecondMoment(zs) + Share(PowBeta(|zs| - 1 - i), Squared(z) - Squared(zs[i]))
  {
    hide Squared, SecondMoment, Share;
    var n := |zs| - 1;
    var ys := zs[i := z];
    assert ys[..n] == if i < n then zs[..n][i := z] else zs[..n];
    OneMoreSquare(zs);
    OneMoreSquare(ys);
    if i < n {
      SecondByOneSample(zs[..n], i, z);
      LaterWeight(SecondMoment(zs[..n]), SecondMoment(ys[..n]), PowBeta(n - 1 - i), Squared(z) - Squared(zs[i]), PowBeta(|zs| - 1 - i));
    } else {
      NewestWeight(PowBeta(|zs| - 1 - i), Squared(z) - Squared(zs[i]));
    }
  }

  /** What a sample contributes under a weight. */
  function Share(w: real, d: real): real { 0.001 * w * d }

  lemma NewestWeight(w: real, d: real)
    requires w == 1.0
    ensures Share(w, d) == 0.001 * d
  {
  }

  lemma LaterWeight(a: real, b: real, w: real, d: real, later: real)
    requires b == a + Share(w, d) && later == 0.999 * w
    ensures 0.999 * b == 0.999 * a + Share(later, d)
  {
  }

  /** A square root, as far as the estimates depend on it. */
  ghost predicate IsSqrt(sqrt: real -> real) {
    forall x :: 0.0 <= x ==> 0.0 <= sqrt(x) && sqrt(x) * sqrt(x) == x
  }

  function MinusCapZero(a: real, b: real): real { if a >= b then a - b else 0.0 }

  class Estimator {
    var y1: real
    var y2: real
    // All samples that were taken in.
    ghost var seen: seq<Complex>

    ghost predicate Valid()
      reads this
    {
      y1 == FirstMoment(seen) && y2 == SecondMoment(seen)
    }

    constructor ()
      ensures Valid() && seen == []
    {
      y1, y2, seen := 0.0, 0.0, [];
    }

    method Update(input: seq<Complex>)
      requires Valid()
      modifies this
      ensures Valid() && seen == old(seen) + input
    {
      for i := 0 to |input|
        invariant Valid() && seen == old(seen) + input[..i]
      {
        var p1 := Power(input[i]);
        y1 := ALPHA * p1 + BETA * y1;
        var p2 := p1 * p1;
        y2 := ALPHA * p2 + BETA * y2;
        assert (seen + [input[i]])[..|seen|] == seen;
        seen := seen + [input[i]];
      }
      assert input[..|input|] == input;
    }

    function SignalLin(sqrt: real -> real): real
      reads this
    {
      sqrt(MinusCapZero(2.0 * y1 * y1, y2))
    }

    function NoiseLin(sqrt: real -> real): real
      reads this
    {
      y1 - SignalLin(sqrt)
    }

    /** After any input the signal estimate is at most the mean power, so that the noise
        estimate is not negative; together they are the mean power. */
    lemma EstimatesArePowers(sqrt: real -> real)
      requires Valid() && IsSqrt(sqrt)
      ensures 0.0 <= SignalLin(sqrt) <= y1 && 0.0 <= NoiseLin(sqrt)
      ensures SignalLin(sqrt) + NoiseLin(sqrt) == y1
    {
      MomentInequality(seen);
      var v := MinusCapZero(2.0 * y1 * y1, y2);
      var r := sqrt(v);
      assert 0.0 <= v <= y1 * y1;
      RootIsMonotone(r, y1);
    }

    /** The signal power is the root of twice the squared mean power less the mean squared power,
        and none is left where that is negative. */
    lemma SignalByMoments(sqrt: real -> real)
      requires Valid() && IsSqrt(sqrt)
      ensures 0.0 <= SignalLin(sqrt)
      ensures SignalLin(sqrt) * SignalLin(sqrt)
           == if 2.0 * FirstMoment(seen) * FirstMoment(seen) < SecondMoment(seen) then 0.0
              else 2.0 * FirstMoment(seen) * FirstMoment(seen) - SecondMoment(seen)
    {
    }

    /** For samples of equal power p, after n of them, with b = 0.999^n: the estimate of the mean
        power is p * (1 - b), and the squared signal estimate is p * p * (1 - b) * (1 - 2 * b) once
        b is down to one half, and zero before. */
    lemma SignalOfEqualPowers(sqrt: real -> real, p: real)
      requires Valid() && IsSqrt(sqrt) && forall z <- seen :: z.re * z.re + z.im * z.im == p
      ensures SignalLin(sqrt) + NoiseLin(sqrt) == p * (1.0 - PowBeta(|seen|))
      ensures SignalLin(sqrt) * SignalLin(sqrt) == EqualPowerSignal(p, PowBeta(|seen|))
    {
      hide SignalLin, FirstMoment, SecondMoment, PowBeta, IsSqrt, EqualPowerSignal;
      MomentsOfEqualPowers(seen, p);
      SignalByMoments(sqrt);
      PowBetaInUnit(|seen|);
      PositivePart(p, PowBeta(|seen|), FirstMoment(seen), SecondMoment(seen));
    }
  }

  function EqualPowerSignal(p: real, b: real): real {
    if b <= 0.5 then p * p * (1.0 - b) * (1.0 - 2.0 * b) else 0.0
  }

  lemma {:induction false} PowBetaInUnit(n: nat)
    ensures 0.0 < PowBeta(n) <= 1.0
  {
    if n != 0 {
      PowBetaInUnit(n - 1);
    }
  }

  lemma RootIsMonotone(r: real, y: real)
    requires 0.0 <= r && 0.0 <= y && r * r <= y * y
    ensures r <= y
  {
    if r > y {
      PositiveProduct(r - y, r + y);
    }
  }

  lemma PositiveProduct(a: real, b: real)
    requires 0.0 < a && 0.0 < b
    ensures 0.0 < a * b
  {
  }

  lemma TwiceLess(p: real, b: real, f: real, s: real)
    requires f == p * (1.0 - b) && s == p * p * (1.0 - b)
    ensures 2.0 * f * f - s == p * p * (1.0 - b) * (1.0 - 2.0 * b)
  {
    var q := 1.0 - b;
    assert 2.0 * (p * q) * (p * q) == p * p * q * (2.0 * q);
  }

  lemma PositivePart(p: real, b: real, f: real, s: real)
    requires f == p * (1.0 - b) && s == p * p * (1.0 - b) && 0.0 < b <= 1.0
    ensures (if 2.0 * f * f < s then 0.0 else 2.0 * f * f - s) == EqualPowerSignal(p, b)
  {
    TwiceLess(p, b, f, s);
    Product(p * p, 1.0 - b);
    if b <= 0.5 {
      Product(p * p * (1.0 - b), 1.0 - 2.0 * b);
    } else {
      Product(p * p * (1.0 - b), 2.0 * b - 1.0);
    }
  }
}
