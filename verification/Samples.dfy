// Complex baseband samples, taken as exact pairs of reals, and the correlation
// of a stretch of samples with a sequence of taps.
module Samples {

  datatype Complex = Complex(re: real, im: real)

  const ZERO := Complex(0.0, 0.0)

  function Add(a: Complex, b: Complex): Complex {
    Complex(a.re + b.re, a.im + b.im)
  }

  function Mul(a: Complex, b: Complex): Complex {
    Complex(a.re * b.re - a.im * b.im, a.re * b.im + a.im * b.re)
  }

  /** The dot product of two sequences of the same length, without conjugation. */
  function Dot(xs: seq<Complex>, ws: seq<Complex>): Complex
    requires |xs| == |ws|
  {
    if xs == [] then ZERO
    else Add(Dot(xs[..|xs| - 1], ws[..|ws| - 1]), Mul(xs[|xs| - 1], ws[|ws| - 1]))
  }

  /** Sample `p` of a stream, counted from its first sample; silence outside of it. */
  function At(stream: seq<Complex>, p: int): Complex {
    if 0 <= p < |stream| then stream[p] else ZERO
  }

  /** The `n` samples of a stream that start at position `p`. */
  function Window(stream: seq<Complex>, p: int, n: nat): (w: seq<Complex>)
    ensures |w| == n
    ensures forall j :: 0 <= j < n ==> w[j] == At(stream, p + j)
  {
    seq(n, j => At(stream, p + j))
  }

  /** The direct correlation of the taps with the stream at position `p`. */
  function Correlation(stream: seq<Complex>, p: int, taps: seq<Complex>): Complex {
    Dot(Window(stream, p, |taps|), taps)
  }

  lemma {:induction false} SilenceCorrelatesToZero(xs: seq<Complex>, ws: seq<Complex>)
    requires |xs| == |ws|
    requires forall j :: 0 <= j < |xs| ==> xs[j] == ZERO
    ensures Dot(xs, ws) == ZERO
  {
    if xs != [] {
      SilenceCorrelatesToZero(xs[..|xs| - 1], ws[..|ws| - 1]);
    }
  }

  /** More samples do not change a correlation whose window is already there. */
  lemma CorrelationIsStable(stream: seq<Complex>, more: seq<Complex>, p: int, taps: seq<Complex>)
    requires p + |taps| <= |stream|
    ensures Correlation(stream + more, p, taps) == Correlation(stream, p, taps)
  {
    assert Window(stream + more, p, |taps|) == Window(stream, p, |taps|);
  }

  // ----- what a correlation is -----

  lemma ChangedProduct(x: Complex, v: Complex, w: Complex, sum: Complex)
    ensures Add(sum, Mul(v, w)) == Add(Add(sum, Mul(x, w)), Mul(Complex(v.re - x.re, v.im - x.im), w))
  {
  }

  lemma Reordered(a: Complex, b: Complex, c: Complex)
    ensures Add(Add(a, b), c) == Add(Add(a, c), b)
  {
  }

  lemma {:induction false} DotByOneSample(xs: seq<Complex>, ws: seq<Complex>, i: nat, v: Complex)
    requires i < |xs| == |ws|
    ensures Dot(xs[i := v], ws)
         == Add(Dot(xs, ws), Mul(Complex(v.re - xs[i].re, v.im - xs[i].im), ws[i]))
  {
    hide Mul, Add;
    var n := |xs| - 1;
    assert xs[i := v][..n] == if i < n then xs[..n][i := v] else xs[..n];
    var d := Mul(Complex(v.re - xs[i].re, v.im - xs[i].im), ws[i]);
    if i < n {
      DotByOneSample(xs[..n], ws[..n], i, v);
      Reordered(Dot(xs[..n], ws[..n]), d, Mul(xs[n], ws[n]));
    } else {
      ChangedProduct(xs[n], v, ws[n], Dot(xs[..n], ws[..n]));
    }
  }

  /** Changing one sample changes the correlations whose taps reach it by what that sample changes
      times its tap, as complex numbers multiply, and no others. */
  lemma CorrelationByOneSample(stream: seq<Complex>, p: int, taps: seq<Complex>, q: nat, v: Complex)
    requires q < |stream|
    ensures !(p <= q < p + |taps|) ==> Correlation(stream[q := v], p, taps) == Correlation(stream, p, taps)
    ensures p <= q < p + |taps| ==>
      var before, after := Correlation(stream, p, taps), Correlation(stream[q := v], p, taps);
      var dRe, dIm := v.re - stream[q].re, v.im - stream[q].im;
      && after.re == before.re + (dRe * taps[q - p].re - dIm * taps[q - p].im)
      && after.im == before.im + (dRe * taps[q - p].im + dIm * taps[q - p].re)
  {
    hide Dot;
    var w := Window(stream, p, |taps|);
    if p <= q < p + |taps| {
      assert Window(stream[q := v], p, |taps|) == w[q - p := v];
      DotByOneSample(w, taps, q - p, v);
    } else {
      assert Window(stream[q := v], p, |taps|) == w;
    }
  }

  /** Silence has no correlation with anything; with the effect of each single sample this
      determines the correlation. */
  lemma CorrelationOfSilence(stream: seq<Complex>, p: int, taps: seq<Complex>)
    requires forall i :: 0 <= i < |stream| ==> stream[i] == Complex(0.0, 0.0)
    ensures Correlation(stream, p, taps) == Complex(0.0, 0.0)
  {
    SilenceCorrelatesToZero(Window(stream, p, |taps|), taps);
  }
}
