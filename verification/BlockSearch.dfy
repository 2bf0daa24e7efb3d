// The search for the marker of a block (findMaximumInBuffer in lib/frame_sync_impl.cc):
// which position leads, on the correlations of the block, and what these are of the stream.
module BlockSearch {
  import opened Samples
  import opened Arithmetic
  import opened SyncBuffer
  import opened FrameQueue

  /** A single-precision score; only finite scores beat another one by value. */
  datatype Score = Finite(value: real) | PlusInfinity | MinusInfinity | NotANumber

  type ScoreFunction = (nat, Complex) -> Score

  predicate FiniteAndGreater(a: Score, b: Score) {
    a.Finite? && (b.MinusInfinity? || (b.Finite? && a.value > b.value))
  }

  /** The correlations of a block, and how they are scored. */
  datatype Search = Search(score: ScoreFunction, magnitude: Complex -> real, window: nat, correlations: seq<Complex>) {
    function ScoreAt(i: nat): Score
      requires i < |correlations|
    {
      score(window + i, correlations[i])
    }

    function MagnitudeAt(i: nat): real
      requires i < |correlations|
    {
      magnitude(correlations[i])
    }
  }

  /** Whether a later position takes over the lead. */
  predicate TakesOver(s: Search, i: nat, leader: nat)
    requires leader < i < |s.correlations|
  {
    || FiniteAndGreater(s.ScoreAt(i), s.ScoreAt(leader))
    || (!s.ScoreAt(leader).Finite? && !s.ScoreAt(i).Finite? && s.MagnitudeAt(i) > s.MagnitudeAt(leader))
  }

  /** The position among the first `n` that leads in the end. */
  function Leader(s: Search, n: nat): (l: nat)
    requires 1 <= n <= |s.correlations|
    ensures l < n
  {
    if n == 1 then 0
    else
      var l := Leader(s, n - 1);
      if TakesOver(s, n - 1, l) then n - 1 else l
  }

  // ----- which one that is -----

  /** Position `best` is the first of the best ones among those from `from` on with a finite score. */
  ghost predicate BestFinite(s: Search, from: nat, n: nat, best: nat)
    requires n <= |s.correlations|
  {
    && from <= best < n && s.ScoreAt(best).Finite?
    && forall i :: from <= i < n && s.ScoreAt(i).Finite? ==>
         && s.ScoreAt(i).value <= s.ScoreAt(best).value
         && (i < best ==> s.ScoreAt(i).value < s.ScoreAt(best).value)
  }

  /** Position `best` is the first of those without a finite score that correlate best. */
  ghost predicate StrongestOther(s: Search, n: nat, best: nat)
    requires n <= |s.correlations|
  {
    && best < n && !s.ScoreAt(best).Finite?
    && forall i :: 0 <= i < n && !s.ScoreAt(i).Finite? ==>
         && s.MagnitudeAt(i) <= s.MagnitudeAt(best)
         && (i < best ==> s.MagnitudeAt(i) < s.MagnitudeAt(best))
  }

  /** A finite score takes over from the strongest position before it only if that one's
      score is minus infinity. */
  ghost predicate Yields(s: Search, i: nat)
    requires i < |s.correlations|
  {
    s.ScoreAt(i).Finite? && exists l: nat :: StrongestOther(s, i, l) && s.ScoreAt(l).MinusInfinity?
  }

  /** From a finite first score on, the leader is the first of the best finite ones. */
  lemma {:induction false} LeaderIsBest(s: Search, n: nat)
    requires 1 <= n <= |s.correlations| && s.ScoreAt(0).Finite?
    ensures BestFinite(s, 0, n, Leader(s, n))
  {
    if n > 1 {
      LeaderIsBest(s, n - 1);
    }
  }

  lemma StrongestIsUnique(s: Search, n: nat, k: nat, l: nat)
    requires n <= |s.correlations| && StrongestOther(s, n, k) && StrongestOther(s, n, l)
    ensures k == l
  {
  }

  /** After any other first score the lead is with the strongest position without a finite
      score until a finite one meets minus infinity; from there on it is with the first of
      the best finite ones. Plus infinity and undefined scores never yield. */
  lemma {:induction false} LeaderOtherwise(s: Search, n: nat) returns (turn: nat)
    requires 1 <= n <= |s.correlations| && !s.ScoreAt(0).Finite?
    ensures turn <= n && forall i :: 0 <= i < turn ==> !Yields(s, i)
    ensures if turn == n then StrongestOther(s, n, Leader(s, n))
            else Yields(s, turn) && BestFinite(s, turn, n, Leader(s, n))
  {
    if n == 1 {
      turn := 1;
    } else {
      var i := n - 1;
      turn := LeaderOtherwise(s, i);
      var l := Leader(s, i);
      if turn == i {
        forall k: nat | StrongestOther(s, i, k)
          ensures k == l
        {
          StrongestIsUnique(s, i, k, l);
        }
        if s.ScoreAt(i).Finite? && s.ScoreAt(l).MinusInfinity? {
          assert Yields(s, i);
        } else {
          turn := n;
        }
      }
    }
  }

  /** Written out: if the first position has a finite score, the leader is the first of those
      with the highest finite score; if no position has one, of those that correlate best. */
  lemma LeaderByScore(score: ScoreFunction, magnitude: Complex -> real, window: nat, cs: seq<Complex>, n: nat, i: nat)
    requires 1 <= n <= |cs| && i < n
    ensures var l := Leader(Search(score, magnitude, window, cs), n);
      && (score(window, cs[0]).Finite? ==>
           && score(window + l, cs[l]).Finite?
           && (score(window + i, cs[i]).Finite? ==> score(window + i, cs[i]).value <= score(window + l, cs[l]).value)
           && (score(window + i, cs[i]).Finite? && i < l ==> score(window + i, cs[i]).value < score(window + l, cs[l]).value))
      && ((forall k: nat :: k < n ==> !score(window + k, cs[k]).Finite?) ==>
           && magnitude(cs[i]) <= magnitude(cs[l])
           && (i < l ==> magnitude(cs[i]) < magnitude(cs[l])))
  {
    var s := Search(score, magnitude, window, cs);
    var l := Leader(s, n);
    if score(window, cs[0]).Finite? {
      LeaderIsBest(s, n);
    } else {
      var turn := LeaderOtherwise(s, n);
      if forall k: nat :: k < n ==> !score(window + k, cs[k]).Finite? {
        assert turn == n;
      }
    }
  }

  // ----- the block as a part of the stream -----

  function BlockStart(c: Config, j: nat): nat {
    ProductIsNonNegative(j, c.BlockLen());
    j * c.BlockLen()
  }

  /** What the search sees of a block: all positions but the last have their correlation, the
      last shows the one that lies a whole correlation array earlier. */
  function Searched(c: Config, stream: seq<Complex>, window: nat): (cs: seq<Complex>)
    ensures |cs| == c.BlockLen()
  {
    seq(c.BlockLen(), i requires 0 <= i < c.BlockLen() =>
      if i < c.BlockLen() - 1 then Correlation(stream, window + i, c.asmConj)
      else if window == 0 || c.HistoryLen() == 0 then ZERO
      else Correlation(stream, window + i - c.HistoryLen() - c.BlockLen(), c.asmConj))
  }

  /** A block is searched once its last marker could be complete. */
  ghost predicate BlockIsIn(c: Config, stream: seq<Complex>, window: nat) {
    window + c.BlockLen() + c.AsmLen() - 1 <= |stream|
  }

  lemma SearchedIsStable(c: Config, stream: seq<Complex>, more: seq<Complex>, window: nat)
    requires c.Valid() && BlockIsIn(c, stream, window)
    ensures Searched(c, stream + more, window) == Searched(c, stream, window)
  {
    HistoryIsNonNegative(c);
    hide c.HistoryLen;
    forall i | 0 <= i < c.BlockLen()
      ensures Searched(c, stream + more, window)[i] == Searched(c, stream, window)[i]
    {
      CorrelationIsStable(stream, more, window + i, c.asmConj);
      CorrelationIsStable(stream, more, window + i - c.HistoryLen() - c.BlockLen(), c.asmConj);
    }
  }

  lemma HistoryIsNonNegative(c: Config)
    ensures 0 <= c.HistoryLen()
  {
    ProductIsNonNegative(c.framesBefore, c.BlockLen());
  }

  /** How markers are scored and recognised. */
  datatype Detector = Detector(magnitude: Complex -> real, detect: Complex -> nat)

  /** The marker is the leader of its block of the stream, at the ambiguity of what was seen there. */
  ghost predicate FoundIn(c: Config, detector: Detector, score: ScoreFunction, stream: seq<Complex>, window: nat, d: AsmPosition)
  {
    && BlockIsIn(c, stream, window) && 1 <= c.BlockLen()
    && var cs := Searched(c, stream, window);
       var l := Leader(Search(score, detector.magnitude, window, cs), c.BlockLen());
       d.offset == window + l && d.ambiguity == detector.detect(cs[l])
  }

  /** Every marker is the leader of its block, under the score it was searched with. */
  ghost predicate AllFound(c: Config, detector: Detector, scores: seq<ScoreFunction>, stream: seq<Complex>, ds: seq<AsmPosition>) {
    && |scores| == |ds|
    && forall j: nat :: j < |ds| ==> FoundIn(c, detector, scores[j], stream, BlockStart(c, j), ds[j])
  }

  lemma AllFoundIsStable(c: Config, detector: Detector, scores: seq<ScoreFunction>, stream: seq<Complex>, more: seq<Complex>, ds: seq<AsmPosition>)
    requires c.Valid() && AllFound(c, detector, scores, stream, ds)
    ensures AllFound(c, detector, scores, stream + more, ds)
  {
    hide Searched, BlockStart;
    forall j: nat | j < |ds|
      ensures FoundIn(c, detector, scores[j], stream + more, BlockStart(c, j), ds[j])
    {
      SearchedIsStable(c, stream, more, BlockStart(c, j));
    }
  }

  lemma AllFoundGrows(c: Config, detector: Detector, scores: seq<ScoreFunction>, stream: seq<Complex>, ds: seq<AsmPosition>,
                      score: ScoreFunction, d: AsmPosition)
    requires AllFound(c, detector, scores, stream, ds) && FoundIn(c, detector, score, stream, BlockStart(c, |ds|), d)
    ensures AllFound(c, detector, scores + [score], stream, ds + [d])
  {
    hide FoundIn;
  }

  /** What was found, by the stream itself; the last position of the block is left out. */
  lemma FoundWrittenOut(c: Config, detector: Detector, score: ScoreFunction, stream: seq<Complex>, window: nat, d: AsmPosition, i: nat)
    requires FoundIn(c, detector, score, stream, window, d) && i + 1 < |c.asmConj| + c.payload
    ensures window <= d.offset < window + |c.asmConj| + c.payload
    ensures d.offset + 1 < window + |c.asmConj| + c.payload ==>
      var first, here := Correlation(stream, window, c.asmConj), Correlation(stream, d.offset, c.asmConj);
      var other := Correlation(stream, window + i, c.asmConj);
      && d.ambiguity == detector.detect(here)
      && (score(window, first).Finite? ==>
            && score(d.offset, here).Finite?
            && (score(window + i, other).Finite? ==>
                  && score(window + i, other).value <= score(d.offset, here).value
                  && (window + i < d.offset ==> score(window + i, other).value < score(d.offset, here).value)))
  {
    hide Leader, Correlation;
    LeaderByScore(score, detector.magnitude, window, Searched(c, stream, window), c.BlockLen(), i);
  }
}
