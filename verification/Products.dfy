/** Multiplication behind a name, so that proofs about digits and weights need not look into it. */
module Products {

  function Product(a: nat, b: nat): nat {
    a * b
  }

  lemma ProductSign(a: nat, b: nat)
    ensures a * b >= 0
  {
  }

  lemma ProductGrows(a: nat, c: nat, b: nat)
    requires a < c
    ensures a * b + b <= c * b
  {
    ProductSign(c - a - 1, b);
    assert (c - a - 1) * b == c * b - a * b - b;
  }

  lemma ProductDistributes(a: nat, c: nat, b: nat)
    ensures Product(a + c, b) == Product(a, b) + Product(c, b) && Product(1, b) == b
  {
  }

  lemma ProductOfZero(b: nat)
    ensures Product(0, b) == 0
  {
  }

  lemma DivisionShrinks(x: nat, y: nat)
    requires y > 0
    ensures 0 <= x / y <= x
  {
    var d: nat := x / y;
    assert x == y * d + x % y;
    ProductSign(y - 1, d);
    assert (y - 1) * d == y * d - d;
  }

  lemma QuotientIsUnique(a: nat, q: nat, b: nat, r: nat, m: nat)
    requires a * b + r == q * b + m && r < b && m < b
    ensures a == q && r == m
  {
    if a > q {
      ProductGrows(q, a, b);
    } else if a < q {
      ProductGrows(a, q, b);
    }
  }

  lemma DivideBack(a: nat, b: nat, r: nat)
    requires r < b
    ensures (Product(a, b) + r) / b == a && (Product(a, b) + r) % b == r
  {
    ProductSign(a, b);
    var x: nat := a * b + r;
    var q: nat := x / b;
    assert x == q * b + x % b;
    QuotientIsUnique(a, q, b, r, x % b);
  }

  lemma Regroup(q: nat, c: nat, r: nat, b: nat)
    ensures (q * c + r) * b == q * (b * c) + r * b
  {
    assert (q * c + r) * b == q * c * b + r * b;
    assert q * c * b == q * (b * c);
  }

  lemma DivideTwice(a: nat, b: nat, c: nat)
    requires b > 0 && c > 0
    ensures Product(b, c) > 0 && a / b / c == a / Product(b, c)
  {
    var y: nat, m: nat := a / b, a % b;
    var q: nat, r: nat := y / c, y % c;
    ProductGrows(r, c, b);
    ProductSign(r, b);
    assert c * b == b * c;
    assert a == y * b + m && y == q * c + r;
    Regroup(q, c, r, b);
    DivideBack(q, b * c, r * b + m);
  }
}
