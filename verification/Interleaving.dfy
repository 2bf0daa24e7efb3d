// The index map of the symbol interleaver (lib/interleaving_aux.h): a transposition, and
// what it does to a burst (section 4 of CCSDS 131.0-B-3).
module Interleaving {
  import opened Arithmetic

  function InterlIndex(index: nat, depth: nat, numElements: nat): nat
    requires index < numElements
  {
    var maxIndex := numElements - 1;
    if index == maxIndex then index else (index * depth) % maxIndex
  }

  /** Position of row `r`, column `q` in a row-wise layout; it stays inside the matrix. */
  lemma CellInRange(q: nat, r: nat, k: nat, depth: nat)
    requires q < depth && r < k
    ensures 0 <= r * depth + q < k * depth
    ensures r * depth + q == k * depth - 1 ==> r == k - 1 && q == depth - 1
  {
    var rest := k - 1 - r;
    assert k * depth - (r * depth + q) == rest * depth + (depth - q);
    ProductIsNonNegative(r, depth);
    ProductIsNonNegative(rest, depth);
    if rest >= 1 {
      ProductIsNonNegative(rest - 1, depth);
      assert rest * depth == (rest - 1) * depth + depth;
    }
  }

  /** The cell is the last one of the matrix exactly when row and column are. */
  lemma LastCell(q: nat, r: nat, k: nat, depth: nat)
    requires q < depth && r < k
    ensures r * depth + q == k * depth - 1 <==> r == k - 1 && q == depth - 1
  {
    CellInRange(q, r, k, depth);
    assert (k - 1) * depth == k * depth - depth;
  }

  lemma ScaledCell(q: nat, r: nat, k: nat, depth: nat)
    ensures (q * k + r) * depth == (k * depth - 1) * q + (r * depth + q)
  {
    assert (q * k + r) * depth == q * k * depth + r * depth;
    assert (k * depth - 1) * q == k * depth * q - q;
    assert q * k * depth == k * depth * q;
  }

  /** The map sends column-wise position q * k + r to row-wise position r * depth + q. */
  lemma InterlIndexTransposes(q: nat, r: nat, k: nat, depth: nat)
    requires q < depth && r < k
    ensures 0 <= q * k + r < k * depth
    ensures InterlIndex(q * k + r, depth, k * depth) == r * depth + q
  {
    CellInRange(q, r, k, depth);
    CellInRange(r, q, depth, k);
    LastCell(q, r, k, depth);
    LastCell(r, q, depth, k);
    Commute(k, depth);
    var n, i, t := k * depth, q * k + r, r * depth + q;
    if i != n - 1 {
      ScaledCell(q, r, k, depth);
      ModuloOf(i * depth, n - 1, q, t);
    }
  }

  lemma Commute(a: int, b: int)
    ensures a * b == b * a
  {
  }

  lemma ModuloOf(x: int, m: nat, q: nat, t: nat)
    requires t < m && x == m * q + t
    ensures x % m == t
  {
    RemainderOf(m, q, t);
  }

  lemma Split(i: nat, k: nat, depth: nat)
    requires 0 < k && i < k * depth
    ensures i == (i / k) * k + i % k && i / k < depth && i % k < k
  {
    var q := i / k;
    Commute(q, k);
    assert i == k * q + i % k;
    var d := q - depth;
    assert d * k == q * k - depth * k;
    if d >= 0 {
      ProductIsNonNegative(d, k);
    }
  }

  lemma AsCell(i: nat, k: nat, depth: nat) returns (q: nat, r: nat)
    requires 0 < k && i < k * depth
    ensures q < depth && r < k && i == q * k + r
    ensures InterlIndex(i, depth, k * depth) == r * depth + q
  {
    q, r := i / k, i % k;
    Split(i, k, depth);
    InterlIndexTransposes(q, r, k, depth);
  }

  /** The map is a bijection on the positions of the matrix. */
  lemma InterlIndexIsBijective(i: nat, j: nat, k: nat, depth: nat)
    requires 0 < k && i < k * depth && j < k * depth
    ensures InterlIndex(i, depth, k * depth) < k * depth
    ensures InterlIndex(i, depth, k * depth) == InterlIndex(j, depth, k * depth) ==> i == j
  {
    hide InterlIndex;
    var q, r := AsCell(i, k, depth);
    var q', r' := AsCell(j, k, depth);
    CellInRange(q, r, k, depth);
    CellIsUnique(q, r, q', r', depth);
  }

  lemma CellIsUnique(q: nat, r: nat, q': nat, r': nat, depth: nat)
    requires q < depth && q' < depth
    ensures r * depth + q == r' * depth + q' ==> r == r' && q == q'
  {
    if r * depth + q == r' * depth + q' {
      Commute(r, depth);
      Commute(r', depth);
      QuotientIsUnique(depth, r, q, r', q');
    }
  }

  /** Every depth-th element, starting with the q-th: one column of the matrix. */
  function Column<T>(s: seq<T>, q: nat, depth: nat, k: nat): (c: seq<T>)
    requires q < depth && k * depth <= |s|
    ensures |c| == k
    ensures forall r :: 0 <= r < k ==> CellOf(r, q, depth) < |s| && c[r] == s[CellOf(r, q, depth)]
  {
    ColumnFits(q, depth, k);
    seq(k, r requires 0 <= r < k => s[CellOf(r, q, depth)])
  }

  function CellOf(r: nat, q: nat, depth: nat): nat {
    ProductIsNonNegative(r, depth);
    r * depth + q
  }

  lemma ColumnFits(q: nat, depth: nat, k: nat)
    requires q < depth
    ensures forall r: nat :: r < k ==> CellOf(r, q, depth) < k * depth
  {
    forall r: nat | r < k
      ensures CellOf(r, q, depth) < k * depth
    {
      CellInRange(q, r, k, depth);
    }
  }

  /** A matrix is determined by its columns. */
  lemma ColumnsDetermine<T>(s: seq<T>, t: seq<T>, depth: nat, k: nat)
    requires |s| == |t| == k * depth && 0 < depth
    requires forall q: nat :: q < depth ==> Column(s, q, depth, k) == Column(t, q, depth, k)
    ensures s == t
  {
    forall i | 0 <= i < k * depth
      ensures s[i] == t[i]
    {
      assert k * depth == depth * k;
      Split(i, depth, k);
      var r, q := i / depth, i % depth;
      assert Column(s, q, depth, k)[r] == Column(t, q, depth, k)[r];
      assert CellOf(r, q, depth) == i;
    }
  }

  // ----- errors and bursts -----

  /** The number of positions in which two sequences differ. */
  function Errors<T(==)>(a: seq<T>, b: seq<T>): nat
    requires |a| == |b|
  {
    if a == [] then 0
    else Errors(a[..|a| - 1], b[..|b| - 1]) + if a[|a| - 1] == b[|b| - 1] then 0 else 1
  }

  /** Errors that are confined to a stretch are no more than its length. */
  lemma {:induction false} ErrorsInStretch<T>(a: seq<T>, b: seq<T>, from: nat, len: nat)
    requires |a| == |b|
    requires forall r :: 0 <= r < |a| && !(from <= r < from + len) ==> a[r] == b[r]
    ensures Errors(a, b) <= len
    ensures |a| <= from ==> Errors(a, b) == 0
    ensures from <= |a| ==> Errors(a, b) <= |a| - from
  {
    if a != [] {
      ErrorsInStretch(a[..|a| - 1], b[..|b| - 1], from, len);
    }
  }

  /** A burst of `rows` whole rows meets a column in that many of its symbols. */
  lemma BurstMeetsColumn<T>(s: seq<T>, t: seq<T>, q: nat, depth: nat, k: nat, from: nat, rows: nat)
    requires |s| == |t| == k * depth && q < depth
    requires forall i :: 0 <= i < |s| && !(from <= i < from + rows * depth) ==> s[i] == t[i]
    ensures Errors(Column(s, q, depth, k), Column(t, q, depth, k)) <= rows
  {
    var first := FirstRow(from, q, depth);
    var a, b := Column(s, q, depth, k), Column(t, q, depth, k);
    forall r | 0 <= r < k && !(first <= r < first + rows)
      ensures a[r] == b[r]
    {
      RowOutsideBurst(r, q, depth, from, rows);
      ColumnFits(q, depth, k);
    }
    ErrorsInStretch(a, b, first, rows);
  }

  /** The first row whose cell in column `q` is not before `from`. */
  function FirstRow(from: nat, q: nat, depth: nat): nat
    requires q < depth
  {
    if from <= q then 0 else (from - q + depth - 1) / depth
  }

  lemma RowOutsideBurst(r: nat, q: nat, depth: nat, from: nat, rows: nat)
    requires q < depth
    requires !(FirstRow(from, q, depth) <= r < FirstRow(from, q, depth) + rows)
    ensures !(from <= CellOf(r, q, depth) < from + rows * depth)
  {
    var first := FirstRow(from, q, depth);
    if from > q {
      var x := from - q + depth - 1;
      assert x == depth * first + x % depth;
    }
    if r < first {
      ProductIsNonNegative(first - 1 - r, depth);
      assert (first - 1 - r) * depth == depth * first - depth - r * depth;
    } else {
      ProductIsNonNegative(r - first - rows, depth);
      assert (r - first - rows) * depth == r * depth - depth * first - rows * depth;
    }
  }

  /** Errors are counted by position. */
  lemma {:induction false} ErrorsAreCounted<T>(a: seq<T>, b: seq<T>)
    requires |a| == |b|
    ensures Errors(a, b) == |set i | 0 <= i < |a| && a[i] != b[i]|
  {
    var s := set i | 0 <= i < |a| && a[i] != b[i];
    if a != [] {
      var n := |a| - 1;
      ErrorsAreCounted(a[..n], b[..n]);
      var t := set i | 0 <= i < |a[..n]| && a[..n][i] != b[..n][i];
      assert s == t + (if a[n] != b[n] then {n} else {});
    }
  }
}
