/** Division with remainder, by which numbers of clusters, bits and bytes become sectors and offsets. The
    sources divide by powers of two and write shifts and masks. */
module Division {

  function Quotient(n: nat, d: nat): (q: nat)
    requires d > 0
    ensures q == n / d
  {
    n / d
  }

  function Remainder(n: nat, d: nat): (r: nat)
    requires d > 0
    ensures r == n % d && r < d
  {
    n % d
  }

  lemma DivMod(n: nat, d: nat)
    requires d > 0
    ensures n == n / d * d + n % d && 0 <= n % d < d && n / d >= 0
  {
  }

  /** Sums of a product and a smaller rest are ordered as their factors are. */
  lemma QuotientOrder(q: int, r: int, q': int, r': int, d: int)
    requires d > 0 && 0 <= r && r' < d && q * d + r <= q' * d + r'
    ensures q <= q'
  {
    if q > q' {
      OneMore(q', d);
      KeepOrder(q' + 1, q, d);
      assert false;
    }
  }

  lemma DivModUnique(n: nat, d: nat, q: nat, r: nat)
    requires d > 0 && r < d && n == q * d + r
    ensures n / d == q && n % d == r
  {
    DivMod(n, d);
    QuotientOrder(n / d, n % d, q, r, d);
    QuotientOrder(q, r, n / d, n % d, d);
  }

  /** Splitting an offset inside a group of three into the sector's place and the offset in the sector. */
  lemma SplitOffset(off: nat, eps: nat) returns (r: nat)
    requires eps > 0 && off < 3 * eps
    ensures r < 3 && off == r * eps + off % eps
  {
    r := off / eps;
    DivMod(off, eps);
    QuotientOrder(r, off % eps, 2, eps - 1, eps);
  }

  /** A cluster's entry lies in the group of three sectors from 3 * (c / (3 * eps)) on, and the offset in
      the group that the source computes splits into a sector and an offset in that sector. */
  lemma GroupPlace(c: nat, eps: nat) returns (r: nat)
    requires eps > 0
    ensures 3 * eps > 0 && r < 3 && c / eps == 3 * (c / (3 * eps)) + r
    ensures c - c / (3 * eps) * (3 * eps) == r * eps + c % eps
  {
    var q, off := c / (3 * eps), c % (3 * eps);
    DivMod(c, 3 * eps);
    r := SplitOffset(off, eps);
    GroupParts(c, eps, q, off, r, off % eps);
  }

  lemma GroupParts(c: nat, eps: nat, q: nat, off: nat, r: nat, k: nat)
    requires eps > 0 && k < eps && c == q * (3 * eps) + off && off == r * eps + k
    ensures c / eps == 3 * q + r && c - q * (3 * eps) == r * eps + c % eps
  {
    GroupSum(q, r, eps, k);
    DivModUnique(c, eps, 3 * q + r, k);
  }

  lemma GroupSum(q: nat, r: nat, eps: nat, k: nat)
    ensures q * (3 * eps) + (r * eps + k) == (3 * q + r) * eps + k
  {
  }

  lemma DivMonotone(a: nat, b: nat, d: nat)
    requires a <= b && d > 0
    ensures a / d <= b / d
  {
    QuotientOrder(a / d, a % d, b / d, b % d, d);
  }

  lemma QuotientInjective(a: nat, b: nat, d: nat)
    requires d > 0 && Quotient(a, d) == Quotient(b, d) && Remainder(a, d) == Remainder(b, d)
    ensures a == b
  {
    assert a == a / d * d + a % d && b == b / d * d + b % d;
  }

  /** Different bits of an image have different places. */
  lemma PlaceInjective(a: nat, b: nat, m: nat)
    requires m > 0 && Quotient(a, m) == Quotient(b, m)
    requires Remainder(a, m) / 32 == Remainder(b, m) / 32 && Remainder(a, m) % 32 == Remainder(b, m) % 32
    ensures a == b
  {
    QuotientInjective(a, b, m);
  }

  lemma Distribute(q: nat, b: nat, r: nat, a: nat)
    ensures (q * b + r) * a == q * (a * b) + r * a
  {
    assert (q * b + r) * a == (q * b) * a + r * a;
    assert (q * b) * a == q * (b * a);
  }

  lemma LessProduct(r: nat, b: nat, s: nat, a: nat)
    requires r < b && s < a
    ensures r * a + s < a * b
  {
    OneMore(r, a);
    KeepOrder(r + 1, b, a);
    assert b * a == a * b;
  }

  /** Dividing twice is dividing by the product. */
  lemma DivTwice(v: nat, a: nat, b: nat)
    requires a > 0 && b > 0
    ensures a * b > 0 && v / (a * b) == v / a / b && v % (a * b) == v % a + v / a % b * a
  {
    DivMod(v, a);
    DivMod(v / a, b);
    TwoSteps(v, a, b, v / a, v % a, v / a / b, v / a % b);
  }

  lemma TwoSteps(v: nat, a: nat, b: nat, q: nat, s: nat, q': nat, r: nat)
    requires a > 0 && b > 0 && v == q * a + s && q == q' * b + r && s < a && r < b
    ensures a * b > 0 && v / (a * b) == q' && v % (a * b) == s + r * a
  {
    Distribute(q', b, r, a);
    LessProduct(r, b, s, a);
    DivModUnique(v, a * b, q', r * a + s);
  }

  lemma OneMore(b: int, m: int)
    ensures (b + 1) * m == b * m + m
  {
  }

  lemma KeepOrder(a: int, b: int, m: nat)
    requires a <= b
    ensures a * m <= b * m
  {
    assert (b - a) * m >= 0;
  }

  lemma CancelOrder(a: int, b: int, m: nat)
    requires m > 0 && a * m <= b * m
    ensures a <= b
  {
    OneMore(b, m);
    if a > b {
      KeepOrder(b + 1, a, m);
      assert false;
    }
  }
}
