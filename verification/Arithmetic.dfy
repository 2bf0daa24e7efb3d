// Quotients and remainders with a divisor that is not a literal.
module Arithmetic {

  lemma ProductIsNonNegative(a: int, b: int)
    requires 0 <= a && 0 <= b
    ensures 0 <= a * b
  {
  }

  lemma OneMore(a: int, b: int)
    ensures (a - 1) * b + b == a * b
  {
  }

  lemma SmallRemainder(n: nat, len: nat)
    requires n < len
    ensures n % len == n
  {
  }

  lemma QuotientIsUnique(b: int, w: int, r: int, q: int, s: int)
    requires 0 <= r < b && 0 <= s < b
    requires b * w + r == b * q + s
    ensures w == q
  {
    var d := w - q;
    assert b * d == s - r;
    if d >= 1 {
      ProductIsNonNegative(b, d - 1);
    } else if d <= -1 {
      ProductIsNonNegative(b, -d - 1);
    }
  }

  lemma RemainderOf(b: nat, w: int, r: nat)
    requires r < b
    ensures (b * w + r) % b == r && (b * w + r) / b == w
  {
    var x := b * w + r;
    QuotientIsUnique(b, w, r, x / b, x % b);
  }

  lemma AddToRemainder(n: nat, k: nat, len: nat)
    requires 0 < len
    ensures (n % len + k) % len == (n + k) % len
  {
    var m := n % len + k;
    assert n + k == len * (n / len + m / len) + m % len;
    RemainderOf(len, n / len + m / len, m % len);
  }

  lemma NextMultiple(m: nat, p: int, q: int)
    requires q < p
    ensures m * q + m <= m * p
  {
    ProductIsNonNegative(m, p - q - 1);
    assert m * (p - q - 1) == m * p - m * q - m;
  }
}
