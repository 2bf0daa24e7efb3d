// Machine words as sequences of bits, the most significant bit first.
module Words {

  type Word = seq<bool>

  function Zeros(n: nat): (w: Word)
    ensures |w| == n
    ensures forall i :: 0 <= i < n ==> !w[i]
  {
    seq(n, _ => false)
  }

  /** Shift to the left within the width of the word. */
  function Shl(w: Word, k: nat): (r: Word)
    requires k <= |w|
    ensures |r| == |w|
  {
    w[k..] + Zeros(k)
  }

  /** Logical shift to the right; everything is shifted out by the width or more. */
  function Shr(w: Word, k: nat): (r: Word)
    ensures |r| == |w|
    ensures forall i :: 0 <= i < |w| ==> r[i] == (k <= i && w[i - k])
  {
    seq(|w|, i requires 0 <= i < |w| => k <= i && w[i - k])
  }

  function Or(a: Word, b: Word): (r: Word)
    requires |a| == |b|
    ensures |r| == |a|
    ensures forall i :: 0 <= i < |a| ==> r[i] == (a[i] || b[i])
  {
    seq(|a|, i requires 0 <= i < |a| => a[i] || b[i])
  }

  function Xor(a: Word, b: Word): (r: Word)
    requires |a| == |b|
    ensures |r| == |a|
    ensures forall i :: 0 <= i < |a| ==> r[i] == (a[i] != b[i])
  {
    seq(|a|, i requires 0 <= i < |a| => a[i] != b[i])
  }

  /** Bit `p` of a bit stream that is zero outside of its ends. */
  function BitAt(bits: seq<bool>, p: int): bool {
    0 <= p < |bits| && bits[p]
  }

  /** A word whose low bits are a slice of a stream takes in the next two bits of it. */
  lemma PushPair(w: Word, stream: seq<bool>, i: nat, j: nat)
    requires i <= j && j + 2 <= |stream| && j + 2 - i <= |w|
    requires w[|w| - (j - i)..] == stream[i..j]
    ensures Shl(w, 2)[|w| - 2 := stream[j]][|w| - 1 := stream[j + 1]][|w| - (j + 2 - i)..] == stream[i..j + 2]
  {
    var r := Shl(w, 2)[|w| - 2 := stream[j]][|w| - 1 := stream[j + 1]];
    var n := |w| - (j + 2 - i);
    forall k | 0 <= k < j + 2 - i
      ensures r[n..][k] == stream[i..j + 2][k]
    {
      if k < j - i {
        assert r[n + k] == w[|w| - (j - i)..][k];
      }
    }
  }

  /** A word that holds some bits at its low end takes in one more. */
  lemma PushBit(w: Word, low: seq<bool>, b: bool)
    requires |low| < |w| && w == Zeros(|w| - |low|) + low
    ensures Shl(w, 1)[|w| - 1 := b] == Zeros(|w| - |low| - 1) + (low + [b])
  {
  }
}
