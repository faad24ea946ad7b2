// Facts about Euclidean division by a variable divisor, stated once.

module Division {
  lemma MulAtLeast(k: int, w: nat)
    requires k >= 1
    ensures k * w >= w
  {
    assert (k - 1) * w >= 0;
  }

  lemma MulMinus(a: int, b: int, w: int)
    ensures (a - b) * w == a * w - b * w
  {}

  // Quotient and remainder are determined by their defining equation.
  lemma DivUnique(x: int, w: nat, q: int, r: int)
    requires w > 0 && 0 <= r < w && x == q * w + r
    ensures x / w == q && x % w == r
  {
    var k, s := x / w, x % w;
    var kw := k * w;
    assert x == kw + s;
    MulMinus(q, k, w);
    MulMinus(k, q, w);
    if k < q {
      MulAtLeast(q - k, w);
    } else if q < k {
      MulAtLeast(k - q, w);
    }
  }

  // Counting on by one starts a new quotient exactly at the multiples.
  lemma NextQuotient(n: nat, w: nat)
    requires n > 0 && w > 0
    ensures n / w == (n - 1) / w + if n % w == 0 then 1 else 0
  {
    var q, r := (n - 1) / w, (n - 1) % w;
    assert n - 1 == q * w + r;
    if r + 1 < w {
      DivUnique(n, w, q, r + 1);
    } else {
      MulMinus(q + 1, 1, w);
      DivUnique(n, w, q + 1, 0);
    }
  }

  lemma MultipleMod(q: int, w: nat)
    requires w > 0
    ensures (q * w) % w == 0
  {
    DivUnique(q * w, w, q, 0);
  }
}
