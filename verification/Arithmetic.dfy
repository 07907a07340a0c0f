/** Optional values, and the few facts on division, remainder and products that the other modules need. */
module Arithmetic {

  datatype Option<+T> = None | Some(value: T)

  function Max(a: nat, b: nat): nat { if a < b then b else a }

  function Min(a: nat, b: nat): nat { if a < b then a else b }

  /** A product, kept symbolic. */
  function Times(a: nat, b: nat): nat { a * b }

  lemma {:induction false} MulAtLeast(a: nat, c: nat)
    requires a >= 1
    ensures a * c >= c
  {
    if a > 1 {
      MulAtLeast(a - 1, c);
      assert a * c == (a - 1) * c + c;
    }
  }

  /** Quotient and remainder are determined by the decomposition. */
  lemma DivModIs(x: int, d: int, q: int, r: int)
    requires 0 <= r < d && x == q * d + r
    ensures x / d == q && x % d == r
  {
    var p, s := x / d, x % d;
    assert x == p * d + s;
    if p > q {
      MulAtLeast(p - q, d);
      Distribute(p, q, d);
    } else if q > p {
      MulAtLeast(q - p, d);
      Distribute(q, p, d);
    }
  }

  lemma Distribute(a: int, b: int, c: int)
    ensures (a - b) * c == a * c - b * c
  {
  }

  lemma ModSmall(x: int, d: int)
    requires 0 <= x < d
    ensures x % d == x && x / d == 0
  {
    DivModIs(x, d, 0, x);
  }

  /** Going one period back changes nothing. */
  lemma ModBack(x: int, d: int)
    requires 0 < d
    ensures x % d == (x - d) % d
  {
    var q, r := (x - d) / d, (x - d) % d;
    assert x == (q + 1) * d + r;
    DivModIs(x, d, q + 1, r);
  }

  lemma MulOrder(a: int, b: int, c: int)
    requires c > 0
    ensures a < b <==> a * c < b * c
    ensures a == b <==> a * c == b * c
  {
    if a < b {
      MulAtLeast(b - a, c);
      Distribute(b, a, c);
    } else if b < a {
      MulAtLeast(a - b, c);
      Distribute(a, b, c);
    }
  }
}
