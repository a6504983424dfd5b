/** Division facts that the solver does not find by itself. */
module Arith {

  lemma {:induction false} MulAtLeast(d: int, w: int)
    requires 1 <= d && 1 <= w
    ensures w <= d * w
  {
    if 1 < d {
      MulAtLeast(d - 1, w);
      assert d * w == (d - 1) * w + w;
    }
  }

  lemma ProductsApart(p: int, q: int, w: int)
    requires p < q && 1 <= w
    ensures p * w + w <= q * w
  {
    MulAtLeast(q - p, w);
    assert (q - p) * w == q * w - p * w;
  }

  lemma ProductsAtLeast(p: int, q: int, w: int)
    requires p <= q && 1 <= w
    ensures p * w <= q * w
  {
    if p < q { ProductsApart(p, q, w); }
  }

  /** Quotient and remainder are determined by x == q * w + r. */
  lemma DivModOf(x: int, q: int, r: int, w: int)
    requires 1 <= w && 0 <= r < w && x == q * w + r
    ensures x / w == q && x % w == r
  {
    var q', r' := x / w, x % w;
    assert x == q' * w + r';
    if q' < q {
      ProductsApart(q', q, w);
    } else if q < q' {
      ProductsApart(q, q', w);
    }
  }

  lemma QuotientNonNegative(x: nat, w: int)
    requires 1 <= w
    ensures 0 <= x / w
  {
    if x / w < 0 { ProductsApart(x / w, 0, w); }
  }

  /** A multiple of w, given by its quotient. */
  lemma MultipleOf(x: int, q: int, w: int)
    requires 1 <= w && x == q * w
    ensures x % w == 0 && x / w == q
  {
    DivModOf(x, q, 0, w);
  }

  lemma Quotient(x: int, w: int) returns (q: int)
    requires 1 <= w && x % w == 0
    ensures x == q * w && q == x / w
  {
    q := x / w;
  }

  /** Different multiples of w are at least w apart. */
  lemma MultiplesApart(u: int, v: int, w: int)
    requires 1 <= w && u % w == 0 && v % w == 0 && u < v
    ensures u + w <= v
  {
    var p := Quotient(u, w);
    var q := Quotient(v, w);
    if q < p {
      ProductsApart(q, p, w);
    } else if p < q {
      ProductsApart(p, q, w);
    }
  }

  lemma MulAssoc(a: int, b: int, c: int)
    ensures (a * b) * c == a * (b * c)
  {
  }

  lemma MulSwap(a: int, b: int, c: int)
    ensures a * (b * c) == (a * c) * b
  {
  }

  /** A multiple of a multiple of w is a multiple of w. */
  lemma MultipleTrans(x: int, v: int, w: int)
    requires 1 <= w && 1 <= v && x % v == 0 && v % w == 0
    ensures x % w == 0
  {
    var p := Quotient(x, v);
    var k := Quotient(v, w);
    MulAssoc(p, k, w);
    assert p * (k * w) == p * v;
    MultipleOf(x, p * k, w);
  }

  lemma MultipleSum(u: int, v: int, w: int)
    requires 1 <= w && u % w == 0 && v % w == 0
    ensures (u + v) % w == 0
  {
    var p := Quotient(u, w);
    var q := Quotient(v, w);
    assert (p + q) * w == p * w + q * w;
    MultipleOf(u + v, p + q, w);
  }

  lemma SmallRemainder(r: int, r2: int, v: int, w: int)
    requires 0 <= r < v && 0 <= r2 < w
    ensures 0 <= r2 * v + r < v * w
  {
    if 0 < r2 { MulAtLeast(r2, v); }
    if r2 < w - 1 {
      ProductsApart(r2, w - 1, v);
    }
    assert (w - 1) * v == v * w - v;
  }

  /** Dividing twice is dividing once by the product. */
  lemma DivDiv(x: int, v: int, w: int)
    requires 1 <= v && 1 <= w
    ensures 1 <= v * w && (x / v) / w == x / (v * w)
  {
    MulAtLeast(v, w);
    var q, r := x / v, x % v;
    var q2, r2 := q / w, q % w;
    SmallRemainder(r, r2, v, w);
    TwoRemainders(x, q, r, q2, r2, v, w);
    DivModOf(x, q2, r2 * v + r, v * w);
  }

  lemma TwoRemainders(x: int, q: int, r: int, q2: int, r2: int, v: int, w: int)
    requires x == q * v + r && q == q2 * w + r2
    ensures x == q2 * (v * w) + (r2 * v + r)
  {
    assert (q2 * w + r2) * v == (q2 * w) * v + r2 * v;
    MulAssoc(q2, w, v);
  }

  function Pow2(n: nat): (p: nat)
    ensures 1 <= p
  {
    if n == 0 then 1 else 2 * Pow2(n - 1)
  }

  lemma {:induction false} Pow2Add(m: nat, n: nat)
    ensures Pow2(m + n) == Pow2(m) * Pow2(n)
  {
    if m > 0 {
      Pow2Add(m - 1, n);
      MulAssoc(2, Pow2(m - 1), Pow2(n));
    }
  }

  lemma DivideTimes(u: real, step: real)
    requires 0.0 < step
    ensures u / step * step == u
  {
  }
}
