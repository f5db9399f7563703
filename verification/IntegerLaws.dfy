/** Facts about products, quotients and remainders that the solver needs spelled out. */
module IntegerLaws {

  lemma ProductOrder(a: nat, b: nat, d: nat)
    ensures a >= b ==> a * d >= b * d
  {
  }

  lemma BelowProduct(x: nat, n: nat, d: nat)
    requires d > 0 && x < n * d
    ensures x / d < n
  {
    assert x / d * d <= x;
    ProductOrder(x / d, n, d);
  }

  lemma {:induction false} ModOfMultiple(x: int, q: nat, e: nat)
    requires e > 0
    ensures (x + q * e) % e == x % e
    decreases q
  {
    if q > 0 {
      assert x + q * e == (x + (q - 1) * e) + e;
      ModOfMultiple(x, q - 1, e);
      ModOfSum(x + (q - 1) * e, e);
    }
  }

  lemma ModOfSum(x: int, e: nat)
    requires e > 0
    ensures (x + e) % e == x % e
  {
    var q, r := x / e, x % e;
    assert x + e == (q + 1) * e + r;
    Remainder(q + 1, r, e);
  }

  lemma Remainder(q: int, r: nat, e: nat)
    requires r < e
    ensures (q * e + r) % e == r && (q * e + r) / e == q
  {
    var x := q * e + r;
    var d := x / e - q;
    assert x == (x / e) * e + x % e;
    assert d * e == r - x % e;
    SmallMultiple(d, r - x % e, e);
  }

  /** A multiple of e strictly between -e and e is zero. */
  lemma SmallMultiple(d: int, x: int, e: int)
    requires e > 0 && x == d * e && -e < x < e
    ensures d == 0
  {
    assert d >= 1 ==> d * e >= e;
    assert d <= -1 ==> d * e <= -e;
  }

  lemma ModAdds(a: nat, b: nat, e: nat)
    requires e > 0
    ensures (a % e + b) % e == (a + b) % e
  {
    assert a + b == (a % e + b) + a / e * e;
    ModOfMultiple(a % e + b, a / e, e);
  }

  lemma Scaled(lo: int, x: int, hi: int, k: nat)
    requires lo <= x <= hi
    ensures lo * k <= x * k <= hi * k
  {
  }

  lemma DivUpper(x: nat, n: nat, d: nat)
    requires d > 0 && x <= n * d
    ensures x / d <= n
  {
    assert x / d * d <= x;
    ProductOrder(x / d, n + 1, d);
  }

  lemma DivLower(x: nat, n: nat, d: nat)
    requires d > 0 && n * d <= x
    ensures n <= x / d
  {
    assert x < (x / d + 1) * d;
    ProductOrder(n, x / d + 1, d);
  }

  /** The quotient rounded up. */
  function CeilDiv(x: nat, d: nat): nat
    requires d > 0
  {
    (x + d - 1) / d
  }

  lemma CeilDivBounds(x: nat, d: nat, i: nat)
    requires d > 0
    ensures i < CeilDiv(x, d) <==> i * d < x
  {
    var c := CeilDiv(x, d);
    var r := (x + d - 1) % d;
    assert x + d - 1 == c * d + r;
    ProductOrder(c, i + 1, d);
    ProductOrder(i, c, d);
  }
}
