/** Facts about products, quotients and remainders that the solver does not find by itself. */
module Arithmetic {
  lemma MulMono(u: nat, x: int, y: int)
    requires x <= y
    ensures u * x <= u * y
  {
  }

  lemma MulCancel(u: nat, x: int, y: int)
    requires u * x < u * y
    ensures x < y
  {
    if y <= x { MulMono(u, y, x); }
  }

  lemma MulDistributes(u: int, x: int, y: int)
    ensures u * (x + y) == u * x + u * y
    ensures u * (x - y) == u * x - u * y
  {
  }

  lemma MulAssociates(u: int, x: int, y: int)
    ensures u * (x * y) == (u * x) * y
  {
  }

  /** Division with remainder is unique. */
  lemma DivisionUnique(x: int, u: nat, q: int, r: int)
    requires 0 <= r < u && x == u * q + r
    ensures x / u == q && x % u == r
  {
    var p, s := x / u, x % u;
    assert x == u * p + s;
    MulDistributes(u, q, 1);
    MulDistributes(u, p, 1);
    if p < q { MulMono(u, p + 1, q); } else if q < p { MulMono(u, q + 1, p); }
  }

  /** The remainder by a product, in two steps. */
  lemma RemainderOfProduct(x: nat, u: nat, c: nat)
    requires u > 0 && c > 0
    ensures u * c > 0
    ensures x % (u * c) / u == x / u % c && x % (u * c) % u == x % u
  {
    var a, d := x / u, x % u;
    var q, e := a / c, a % c;
    assert u * c > 0;
    MulDistributes(u, c * q, e);
    assert u * (c * q) == (u * c) * q;
    MulMono(u, e, c - 1);
    MulDistributes(u, c, 1);
    DivisionUnique(x, u * c, q, u * e + d);
    DivisionUnique(u * e + d, u, e, d);
  }

  lemma QuotientRange(r: nat, u: nat, m: nat)
    requires 0 < u <= r < u * m
    ensures 1 <= r / u < m
  {
    var q := r / u;
    assert r == u * q + r % u;
    MulCancel(u, q, m);
    MulDistributes(u, q, 1);
  }
}
