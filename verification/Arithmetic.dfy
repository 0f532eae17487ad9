/** Integer products and quotients: the few laws that proofs here appeal to by name. */
module Arithmetic {
  function Abs(x: int): nat {
    if x < 0 then -x else x
  }

  lemma Distribute(a: int, b: int, c: int)
    ensures (a + b) * c == a * c + b * c
  {
  }

  lemma Associate(a: int, b: int, c: int)
    ensures (a * b) * c == a * (b * c)
  {
  }

  lemma SwapLast(a: int, b: int, c: int)
    ensures (a * b) * c == (a * c) * b
  {
    Associate(a, b, c);
    Associate(a, c, b);
  }

  lemma NonNegative(a: nat, b: nat)
    ensures a * b >= 0
  {
  }

  lemma MulMono(a: nat, b: nat, p: nat)
    requires a <= b
    ensures a * p <= b * p
  {
    Distribute(b - a, a, p);
    NonNegative(b - a, p);
  }

  lemma AtLeast(x: nat, p: nat)
    requires x > 0
    ensures x * p >= p
  {
    MulMono(1, x, p);
  }

  lemma NonZeroProduct(a: int, b: int)
    requires a != 0 && b != 0
    ensures a * b != 0
  {
  }

  lemma Cancel(a: int, b: int, p: int)
    requires p != 0 && a * p == b * p
    ensures a == b
  {
    Distribute(a - b, b, p);
    if a != b {
      NonZeroProduct(a - b, p);
    }
  }

  lemma SignsMultiply(a: int, b: int)
    requires a >= 0 && b >= 0
    ensures (-a) * b == -(a * b) && a * (-b) == -(a * b) && (-a) * (-b) == a * b
    ensures a * b >= 0
  {
  }

  lemma DivMod(n: nat, d: nat)
    requires d > 0
    ensures n == (n / d) * d + n % d && n / d >= 0 && 0 <= n % d < d
  {
  }

  lemma DivIs(x: nat, d: nat, q: nat, r: nat)
    requires d > 0 && x == q * d + r && r < d
    ensures x / d == q && x % d == r
  {
    var e := x / d - q;
    Distribute(x / d - q, q, d);
    assert e * d == r - x % d;
    if e >= 1 {
      MulMono(1, e, d);
    }
  }

  lemma MultipleDivides(s: int, d: int)
    requires d != 0
    ensures (s * d) % d == 0 && (s * d) / d == s
  {
    var n := s * d;
    var e := n / d - s;
    Distribute(n / d - s, s, d);
    assert e * d == -(n % d);
    if e != 0 {
      SignsMultiply(Abs(e), Abs(d));
      MulMono(1, Abs(e), Abs(d));
    }
  }
}
