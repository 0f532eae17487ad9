/**
 * Deriving a frozen linear conversion from the author's two rationals: reduction, the number of
 * decimal places, and the common coefficients A = scale * 10^t and B = bias * 10^t.
 */
module DecimalDescriptor {
  import opened Arithmetic
  import opened WideIntegers
  import opened DecimalConversion
  import opened Bytes

  const MAXIMUM_AUTHOR_DENOMINATOR: nat := 1_000_000_000_000_000_000

  datatype DecimalDescriptorError =
    | NoError
    | ZeroScale
    | DenominatorOutOfRange
    | NonTerminatingScale
    | NonTerminatingBias
    | ArithmeticOverflow

  datatype Descriptor = Descriptor(
    scaleNumerator: int,
    scaleDenominator: nat,
    biasNumerator: int,
    biasDenominator: nat,
    conversion: LinearConversion)

  // ---------------------------------------------------------------- what a rational needs

  ghost predicate Divides(d: int, n: int) {
    d != 0 && n % d == 0
  }

  /** numerator / denominator is an integer number of 10^-k. */
  ghost predicate Terminates(numerator: int, denominator: nat, k: nat) {
    Divides(denominator, Abs(numerator) * Pow10(k))
  }

  lemma DividesTimes(d: int, q: int)
    requires d != 0
    ensures Divides(d, q * d) && Divides(d, d * q) && (q * d) / d == q
  {
    MultipleDivides(q, d);
  }

  lemma DividesProduct(d: int, n: int, m: int)
    requires Divides(d, n)
    ensures Divides(d, n * m) && Divides(d, m * n)
  {
    hide Divides;
    var q := WholeQuotient(d, n);
    Associate(m, q, d);
    DividesTimes(d, m * q);
  }

  // ---------------------------------------------------------------- greatest common divisor

  function Gcd(a: nat, b: nat): nat
    decreases b
  {
    if b == 0 then a else Gcd(b, a % b)
  }

  method GreatestCommonDivisor(left: nat, right: nat) returns (g: nat)
    ensures g == Gcd(left, right)
  {
    var a, b := left, right;
    while b != 0
      invariant Gcd(a, b) == Gcd(left, right)
      decreases b
    {
      var remainder := a % b;
      a := b;
      b := remainder;
    }
    g := a;
  }

  lemma {:induction false} GcdDivides(a: nat, b: nat)
    requires a > 0 || b > 0
    ensures Gcd(a, b) > 0 && Divides(Gcd(a, b), a) && Divides(Gcd(a, b), b)
    decreases b
  {
    var g := Gcd(a, b);
    if b == 0 {
      DividesTimes(a, 1);
      DividesTimes(a, 0);
    } else {
      GcdDivides(b, a % b);
      DividesProduct(g, b, a / b);
      DividesSum(g, (a / b) * b, a % b);
      DivMod(a, b);
    }
  }

  lemma DividesSum(d: int, m: int, n: int)
    requires Divides(d, m) && Divides(d, n)
    ensures Divides(d, m + n)
  {
    var p, q := m / d, n / d;
    assert m == p * d && n == q * d;
    Distribute(p, q, d);
    DividesTimes(d, p + q);
  }

  /** The greatest common divisor is a combination of the two numbers. */
  lemma {:induction false} Bezout(a: nat, b: nat) returns (x: int, y: int)
    ensures x * a + y * b == Gcd(a, b)
    decreases b
  {
    if b == 0 {
      x, y := 1, 0;
    } else {
      var u, v := Bezout(b, a % b);
      DivMod(a, b);
      var q := a / b;
      x, y := v, u - v * q;
      Combine(u, v, a, b, q, a % b);
    }
  }

  lemma Combine(u: int, v: int, a: int, b: int, q: int, r: int)
    requires a == q * b + r
    ensures v * a + (u - v * q) * b == u * b + v * r
  {
    assert v * (q * b + r) == v * (q * b) + v * r;
    Associate(v, q, b);
    Distribute(u, -(v * q), b);
    assert (-(v * q)) * b == -((v * q) * b);
  }

  function Mul(a: int, b: int): int {
    a * b
  }

  lemma MulDistribute(a: int, b: int, c: int)
    ensures Mul(a + b, c) == Mul(a, c) + Mul(b, c)
  {
    Distribute(a, b, c);
  }

  lemma MulAssociate(a: int, b: int, c: int)
    ensures Mul(Mul(a, b), c) == Mul(a, Mul(b, c))
  {
    Associate(a, b, c);
  }

  lemma MulCommute(a: int, b: int)
    ensures Mul(a, b) == Mul(b, a)
  {
  }

  lemma MulOne(a: int)
    ensures Mul(1, a) == a
  {
  }

  /** A divisor of n * m that has nothing in common with n divides m. */
  lemma CoprimeDivides(n: int, d: int, m: int, x: int, y: int)
    requires x * n + y * d == 1 && Divides(d, n * m)
    ensures Divides(d, m)
  {
    var q := Quotient(d, n, m);
    assert Mul(x, n) + Mul(y, d) == 1;
    Combination(n, d, m, x, y, q);
    DividesMul(d, Mul(x, q) + Mul(y, m));
  }

  lemma Quotient(d: int, n: int, m: int) returns (q: int)
    requires Divides(d, n * m)
    ensures d != 0 && Mul(n, m) == Mul(q, d)
  {
    q := (n * m) / d;
  }

  lemma DividesMul(d: int, q: int)
    requires d != 0
    ensures Divides(d, Mul(q, d))
  {
    DividesTimes(d, q);
  }

  lemma Combination(n: int, d: int, m: int, x: int, y: int, q: int)
    requires Mul(x, n) + Mul(y, d) == 1 && Mul(n, m) == Mul(q, d)
    ensures m == Mul(Mul(x, q) + Mul(y, m), d)
  {
    hide Mul;
    MulOne(m);
    MulDistribute(Mul(x, n), Mul(y, d), m);
    MulAssociate(x, n, m);
    MulAssociate(x, q, d);
    MulAssociate(y, d, m);
    MulAssociate(y, m, d);
    MulCommute(d, m);
    MulDistribute(Mul(x, q), Mul(y, m), d);
  }

  /** No number but 1 divides both. */
  ghost predicate Coprime(n: nat, d: nat) {
    forall g: nat {:trigger Divides(g, d)} :: Divides(g, n) && Divides(g, d) ==> g == 1
  }

  lemma UnitIsCoprime(x: int, y: int, n: nat, d: nat)
    requires x * n + y * d == 1
    ensures Coprime(n, d)
  {
    hide Divides;
    forall g: nat | Divides(g, n) && Divides(g, d)
      ensures g == 1
    {
      DividesProduct(g, n, x);
      DividesProduct(g, d, y);
      DividesSum(g, x * n, y * d);
      OnlyOne(g);
    }
  }

  lemma OnlyOne(g: nat)
    requires Divides(g, 1)
    ensures g == 1
  {
    if g > 1 {
      DivIs(1, g, 0, 1);
    }
  }

  /** The rational in lowest terms. */
  ghost predicate Reduced(numerator: int, denominator: nat, n: int, d: nat) {
    && 1 <= d <= denominator && n * denominator == numerator * d
    && (n < 0 <==> numerator < 0) && Abs(n) <= Abs(numerator) && Coprime(Abs(n), d)
    && forall k: nat {:trigger Pow10(k)} ::
         Terminates(numerator, denominator, k) <==> Divides(d, Pow10(k))
  }

  /** The two rationals' Reduce, including the most negative numerator. */
  method Reduce(numerator: int, denominator: nat) returns (n: int, d: nat)
    requires InInt64(numerator) && denominator > 0
    ensures InInt64(n) && Reduced(numerator, denominator, n, d)
  {
    if numerator == 0 {
      ZeroReduced(denominator);
      return 0, 1;
    }
    var magnitude := Magnitude(numerator);
    var divisor := GreatestCommonDivisor(magnitude, denominator);
    GcdDivides(magnitude, denominator);
    LowestTerms(numerator, denominator);
    d := denominator / divisor;
    n := numerator;
    if divisor != 1 {
      var reducedMagnitude := magnitude / divisor;
      if numerator < 0 && reducedMagnitude == TWO_63 {
        n := -TWO_63;
      } else {
        n := Signed(reducedMagnitude, numerator < 0);
      }
    }
  }

  lemma ZeroReduced(denominator: nat)
    requires denominator > 0
    ensures Reduced(0, denominator, 0, 1)
  {
    DividesTimes(denominator, 0);
    UnitIsCoprime(0, 1, 0, 1);
  }

  lemma LowestTerms(numerator: int, denominator: nat)
    requires numerator != 0 && denominator > 0
    ensures var g := Gcd(Abs(numerator), denominator);
            g > 0 && Reduced(numerator, denominator,
                             Signed(Abs(numerator) / g, numerator < 0), denominator / g)
    ensures Gcd(Abs(numerator), denominator) == 1 ==>
              Signed(Abs(numerator) / 1, numerator < 0) == numerator
  {
    hide Gcd, Divides;
    var m := Abs(numerator);
    var n, d, g := CommonFactor(m, denominator);
    QuotientBounds(m, n, g);
    QuotientBounds(denominator, d, g);
    SameRational(n, d, g);
    SignedRational(n, denominator, numerator < 0);
    SignedRational(m, d, numerator < 0);
    var x, y := Bezout(m, denominator);
    UnitCombination(x, y, n, d, g);
    UnitIsCoprime(x, y, n, d);
    forall k: nat
      ensures Terminates(numerator, denominator, k) <==> Divides(d, Pow10(k))
    {
      TerminatesReduced(n, d, g, Pow10(k), x, y);
    }
  }

  lemma CommonFactor(m: nat, denominator: nat) returns (n: int, d: int, g: nat)
    requires m > 0 && denominator > 0
    ensures g == Gcd(m, denominator) > 0 && n == m / g && d == denominator / g
    ensures m == n * g && denominator == d * g
  {
    GcdDivides(m, denominator);
    g := Gcd(m, denominator);
    n, d := m / g, denominator / g;
  }

  lemma SameRational(n: int, d: int, g: int)
    ensures n * (d * g) == (n * g) * d
  {
    Associate(n, d, g);
    assert (n * g) * d == n * (g * d) by {
      Associate(n, g, d);
    }
  }

  lemma SignedRational(a: int, b: int, negative: bool)
    ensures Signed(a, negative) * b == Signed(a * b, negative)
  {
  }

  lemma QuotientBounds(m: nat, n: int, g: nat)
    requires m > 0 && g > 0 && m == n * g
    ensures 1 <= n <= m
  {
    if n <= 0 {
      SignsMultiply(-n, g);
    } else {
      MulMono(1, g, n);
    }
  }

  lemma UnitCombination(x: int, y: int, n: int, d: int, g: nat)
    requires g > 0 && x * (n * g) + y * (d * g) == g
    ensures x * n + y * d == 1
  {
    Associate(x, n, g);
    Associate(y, d, g);
    Distribute(x * n, y * d, g);
    var s := x * n + y * d;
    Distribute(s, -1, g);
    if s != 1 {
      NonZeroProduct(s - 1, g);
    }
  }

  lemma TerminatesReduced(n: nat, d: nat, g: nat, p: nat, x: int, y: int)
    requires d > 0 && g > 0 && x * n + y * d == 1
    ensures Divides(d * g, (n * g) * p) <==> Divides(d, p)
  {
    NonZeroProduct(d, g);
    Associate(n, g, p);
    assert (n * g) * p == (n * p) * g by {
      Associate(n, p, g);
    }
    ScaleDivides(d, n * p, g);
    if Divides(d, n * p) {
      CoprimeDivides(n, d, p, x, y);
    }
    if Divides(d, p) {
      DividesProduct(d, p, n);
    }
  }

  lemma ScaleDivides(d: int, m: int, g: int)
    requires d != 0 && g != 0
    ensures Divides(d * g, m * g) <==> Divides(d, m)
  {
    hide Divides;
    NonZeroProduct(d, g);
    if Divides(d, m) {
      var q := WholeQuotient(d, m);
      Associate(q, d, g);
      DividesTimes(d * g, q);
    }
    if Divides(d * g, m * g) {
      var q := WholeQuotient(d * g, m * g);
      Associate(q, d, g);
      Cancel(m, q * d, g);
      DividesTimes(d, q);
    }
  }

  lemma WholeQuotient(d: int, n: int) returns (q: int)
    requires Divides(d, n)
    ensures d != 0 && n == q * d
  {
    q := n / d;
  }

  // ---------------------------------------------------------------- decimal places

  function Exp(base: nat, k: nat): (p: nat)
    requires base >= 1
    ensures p >= 1
  {
    if k == 0 then 1 else base * Exp(base, k - 1)
  }

  lemma {:induction false} ExpSum(base: nat, i: nat, j: nat)
    requires base >= 1
    ensures Exp(base, i + j) == Exp(base, i) * Exp(base, j)
  {
    if i > 0 {
      ExpSum(base, i - 1, j);
      Associate(base, Exp(base, i - 1), Exp(base, j));
    }
  }

  lemma {:induction false} TenIsTwoFive(k: nat)
    ensures Pow10(k) == Exp(2, k) * Exp(5, k)
  {
    if k > 0 {
      TenIsTwoFive(k - 1);
      var x, y := Exp(2, k - 1), Exp(5, k - 1);
      assert (2 * x) * (5 * y) == 10 * (x * y) by {
        Associate(2, x, 5 * y);
        assert x * (5 * y) == 5 * (x * y) by {
          Associate(5, x, y);
        }
      }
    }
  }

  /** A power of the base beyond the k-th does not divide base^k times something the base does not. */
  lemma {:induction false} FactorBound(base: nat, a: nat, k: nat, x: nat, q: int)
    requires base > 1 && x % base != 0 && Exp(base, k) * x == q * Exp(base, a)
    ensures a <= k
  {
    if a > 0 {
      Associate(q, Exp(base, a - 1), base);
      if k == 0 {
        MultipleDivides(q * Exp(base, a - 1), base);
      } else {
        assert Exp(base, k) * x == (Exp(base, k - 1) * x) * base by {
          Associate(base, Exp(base, k - 1), x);
        }
        Cancel(Exp(base, k - 1) * x, q * Exp(base, a - 1), base);
        FactorBound(base, a - 1, k - 1, x, q);
      }
    }
  }

  lemma {:induction false} CoprimePowers(k: nat)
    ensures Exp(5, k) % 2 != 0 && Exp(2, k) % 5 != 0
  {
    if k > 0 {
      CoprimePowers(k - 1);
      Residues(Exp(5, k - 1), Exp(2, k - 1));
    }
  }

  lemma Residues(x: nat, y: nat)
    requires x % 2 != 0 && y % 5 != 0
    ensures (5 * x) % 2 != 0 && (2 * y) % 5 != 0
  {
    var h, e := y / 5, y % 5;
    assert 2 * y == 5 * (2 * h) + 2 * e;
    MultipleDivides(2 * h, 5);
  }

  lemma EvenFactor(q: int, r: nat)
    requires (q * r) % 2 == 0 && r % 2 != 0
    ensures q % 2 == 0
  {
    var h := r / 2;
    assert r == 2 * h + 1;
    assert q * r == 2 * (q * h) + q by {
      assert q * (2 * h + 1) == q * (2 * h) + q;
      assert q * (2 * h) == 2 * (q * h);
    }
  }

  lemma FiveFactor(q: int, r: nat)
    requires (q * r) % 5 == 0 && r % 5 != 0
    ensures q % 5 == 0
  {
    var h, e := r / 5, r % 5;
    SplitFactor(q, r, 5 * h, e);
    Associate(5, h, q);
    FiveRest(h * q, q, e, e * q);
  }

  lemma SplitFactor(q: int, r: int, a: int, b: int)
    requires r == a + b
    ensures q * r == a * q + b * q
  {
    Distribute(a, b, q);
  }

  lemma FiveRest(t: int, q: int, e: nat, rest: int)
    requires 1 <= e <= 4 && rest == e * q && (5 * t + rest) % 5 == 0
    ensures q % 5 == 0
  {
    if e == 1 {
      assert rest == q;
    } else if e == 2 {
      assert rest == 2 * q;
    } else if e == 3 {
      assert rest == 3 * q;
    } else {
      assert rest == 4 * q;
    }
  }

  lemma CancelTen(q: int, r: nat, p: int) returns (h: int)
    requires r % 2 != 0 && r % 5 != 0 && q * r == 10 * p
    ensures p == h * r
  {
    TwoTimes(q * r, 5 * p);
    FiveTimes(q * r, 2 * p);
    EvenFactor(q, r);
    FiveFactor(q, r);
    h := Tenth(q);
    Associate(10, h, r);
  }

  lemma TwoTimes(n: int, half: int)
    requires n == 2 * half
    ensures n % 2 == 0
  {
  }

  lemma FiveTimes(n: int, fifth: int)
    requires n == 5 * fifth
    ensures n % 5 == 0
  {
  }

  lemma Tenth(q: int) returns (h: int)
    requires q % 2 == 0 && q % 5 == 0
    ensures q == 10 * h
  {
    var u := q / 5;
    assert q == 5 * u;
    FiveKeepsParity(u);
    h := u / 2;
  }

  lemma FiveKeepsParity(u: int)
    ensures (5 * u) % 2 == u % 2
  {
    var g, e := u / 2, u % 2;
    assert 5 * u == 2 * (5 * g + 2 * e) + e;
  }

  /** Nothing but 1 that is free of 2 and 5 divides a power of ten. */
  lemma {:induction false} RestIsOne(r: nat, k: nat, q: int)
    requires r % 2 != 0 && r % 5 != 0 && Pow10(k) == q * r
    ensures r == 1
  {
    if k == 0 {
      if q <= 0 {
        SignsMultiply(-q, r);
      } else {
        MulMono(1, q, r);
      }
    } else {
      var h := CancelTen(q, r, Pow10(k - 1));
      RestIsOne(r, k - 1, h);
    }
  }

  /** d == 2^a * 5^b * r, with nothing of 2 or 5 left in r. */
  ghost predicate Factored(d: nat, a: nat, b: nat, r: nat) {
    Multiple(d, a, b, r) && r % 2 != 0 && r % 5 != 0
  }

  ghost predicate Multiple(d: nat, a: nat, b: nat, r: nat) {
    d == (Exp(2, a) * Exp(5, b)) * r
  }

  lemma PowerOfTenMultiple(d: nat, a: nat, b: nat, r: nat, k: nat)
    requires Factored(d, a, b, r)
    ensures Divides(d, Pow10(k)) <==> r == 1 && a <= k && b <= k
  {
    hide Exp, Pow10;
    var x, y := Exp(2, a), Exp(5, b);
    NonZeroProduct(x, y);
    NonZeroProduct(x * y, r);
    TenIsTwoFive(k);
    if Divides(d, Pow10(k)) {
      var q := Pow10(k) / d;
      assert Pow10(k) == q * d;
      FactorsDivide(q, x, y, r);
      CoprimePowers(k);
      FactorBound(2, a, k, Exp(5, k), q * (y * r));
      FactorBound(5, b, k, Exp(2, k), q * (x * r));
      RestIsOne(r, k, q * (x * y));
    }
    if r == 1 && a <= k && b <= k {
      ExpSum(2, k - a, a);
      ExpSum(5, k - b, b);
      Rearrange(Exp(2, k - a), x, Exp(5, k - b), y);
      DividesTimes(d, Exp(2, k - a) * Exp(5, k - b));
    }
  }

  lemma FactorsDivide(q: int, x: int, y: int, r: int)
    ensures q * ((x * y) * r) == (q * (y * r)) * x == (q * (x * r)) * y == (q * (x * y)) * r
  {
    Associate(q, x * y, r);
    Associate(x, y, r);
    Associate(q, y * r, x);
    assert (x * y) * r == (y * r) * x;
    Associate(q, x * r, y);
    assert (x * y) * r == (x * r) * y by {
      Associate(y, x, r);
    }
  }

  lemma Rearrange(u: int, x: int, v: int, y: int)
    ensures (u * x) * (v * y) == (u * v) * (x * y)
  {
    Associate(u, x, v * y);
    Associate(u, v, x * y);
    assert x * (v * y) == v * (x * y) by {
      Associate(x, v, y);
      Associate(v, x, y);
    }
  }

  /** How many decimal places a reduced denominator needs, if a terminating decimal exists. */
  method DecimalPlaces(denominator: nat) returns (ok: bool, places: nat)
    requires denominator > 0
    ensures ok <==> Divides(denominator, Pow10(MAX_SCALE))
    ensures ok ==> places <= MAX_SCALE
    ensures ok ==> NeedsPlaces(denominator, places)
  {
    hide Exp, Pow10, Multiple;
    var twos: nat, fives: nat, rest := 0, 0, denominator;
    NoFactors(denominator);
    while rest % 2 == 0
      invariant rest > 0 && Multiple(denominator, twos, fives, rest) && fives == 0
      decreases rest
    {
      TakeTwo(denominator, twos, fives, rest);
      rest := rest / 2;
      twos := twos + 1;
    }
    while rest % 5 == 0
      invariant rest > 0 && Multiple(denominator, twos, fives, rest) && rest % 2 != 0
      decreases rest
    {
      TakeFive(denominator, twos, fives, rest);
      OddFifth(rest);
      rest := rest / 5;
      fives := fives + 1;
    }
    places := Larger(twos, fives);
    PlacesDecide(denominator, twos, fives, rest);
    ok := rest == 1 && places <= MAX_SCALE;
  }

  ghost predicate NeedsPlaces(d: nat, places: nat) {
    forall k: nat {:trigger Pow10(k)} :: Divides(d, Pow10(k)) <==> places <= k
  }

  lemma PlacesDecide(d: nat, twos: nat, fives: nat, rest: nat)
    requires Factored(d, twos, fives, rest)
    ensures Divides(d, Pow10(MAX_SCALE)) <==> rest == 1 && Larger(twos, fives) <= MAX_SCALE
    ensures rest == 1 ==> NeedsPlaces(d, Larger(twos, fives))
  {
    hide Exp, Pow10, Divides, Multiple;
    forall k: nat
      ensures Divides(d, Pow10(k)) <==> rest == 1 && twos <= k && fives <= k
    {
      PowerOfTenMultiple(d, twos, fives, rest, k);
    }
  }

  lemma NoFactors(denominator: nat)
    ensures Multiple(denominator, 0, 0, denominator)
  {
  }

  lemma TakeTwo(d: nat, twos: nat, fives: nat, rest: nat)
    requires rest % 2 == 0 && Multiple(d, twos, fives, rest)
    ensures Multiple(d, twos + 1, fives, rest / 2)
  {
    var x, y, h := Exp(2, twos), Exp(5, fives), rest / 2;
    assert rest == 2 * h;
    Associate(2, x, y);
    Associate(2, x * y, h);
    assert (x * y) * (2 * h) == 2 * ((x * y) * h);
  }

  lemma OddFifth(rest: nat)
    requires rest % 5 == 0 && rest % 2 != 0
    ensures (rest / 5) % 2 != 0
  {
    assert rest == 5 * (rest / 5);
    FiveKeepsParity(rest / 5);
  }

  lemma TakeFive(d: nat, twos: nat, fives: nat, rest: nat)
    requires rest % 5 == 0 && Multiple(d, twos, fives, rest)
    ensures Multiple(d, twos, fives + 1, rest / 5)
  {
    var x, y, h := Exp(2, twos), Exp(5, fives), rest / 5;
    assert rest == 5 * h;
    assert x * (5 * y) == 5 * (x * y) by {
      Associate(5, y, x);
    }
    Associate(5, x * y, h);
    assert (x * y) * (5 * h) == 5 * ((x * y) * h);
  }

  // ---------------------------------------------------------------- coefficients

  function Least(a: nat, b: nat): nat {
    if a < b then a else b
  }

  /** A 256-bit magnitude times a 64-bit number: exact, or refused exactly when it does not fit. */
  method MultiplyWords(words: Wide, multiplier: nat) returns (ok: bool, result: Wide)
    requires multiplier < BASE * BASE
    ensures ok <==> Val(words) * multiplier < LIMIT
    ensures ok ==> Val(result) == Val(words) * multiplier
  {
    hide Val, Power;
    var low, high := multiplier % BASE, multiplier / BASE;
    result := ZERO;
    ValZero(result);
    EmptyVal(words);
    for left := 0 to 8
      invariant Val(result) == Val(words[..left]) * multiplier
    {
      ghost var done := Val(result);
      var carry: nat;
      var inRange;
      inRange, result, carry := MultiplyWord(words, multiplier, result, left, low, high);
      if !inRange {
        return false, result;
      }
      ghost var total := Val(words[..left + 1]) * multiplier;
      var target: nat := left + 2;
      while carry != 0 && target < 8
        invariant left + 2 <= target
        invariant carry < BASE
        invariant Val(result) + carry * Power(Least(target, 8)) == total
        decreases 8 - target
      {
        var sum := result[target] + carry;
        CarryOn(result, target, carry);
        result := result[target := sum % BASE];
        carry := sum / BASE;
        target := target + 1;
      }
      if carry != 0 {
        CarryOverflows(words, multiplier, left, Val(result), carry);
        return false, result;
      }
    }
    assert words[..8] == words;
    WideBound(result);
    ok := true;
  }

  /** The two partial products of one word; false when a product lands above the top word. */
  method MultiplyWord(words: Wide, ghost multiplier: nat, start: Wide, left: nat, low: limb,
                      high: limb)
    returns (inRange: bool, result: Wide, carry: nat)
    requires left < 8 && multiplier == low + high * BASE
    requires Val(start) == Val(words[..left]) * multiplier
    ensures carry < BASE
    ensures inRange ==> Val(result) + carry * Power(Least(left + 2, 8))
                        == Val(words[..left + 1]) * multiplier
    ensures !inRange ==> Val(words) * multiplier >= LIMIT
  {
    hide Val, Power;
    result := start;
    var word := words[left];
    TwoLimbs(word, low, result[left], 0);
    var product: nat := word * low + result[left];
    LowProduct(words, multiplier, start, left, low, high);
    result := result[left := product % BASE];
    carry := product / BASE;
    if left + 1 >= 8 {
      if word != 0 && high != 0 {
        TopProductOverflows(words, multiplier, low, high);
        return false, result, carry;
      }
      NonZeroOrNot(word, high, BASE * Power(left));
    } else {
      TwoLimbs(word, high, result[left + 1], carry);
      product := word * high + result[left + 1] + carry;
      HighProduct(result, left + 1, word, high, carry);
      result := result[left + 1 := product % BASE];
      carry := product / BASE;
    }
    inRange := true;
  }

  lemma NonZeroOrNot(a: int, b: int, p: int)
    requires a == 0 || b == 0
    ensures (a * b) * p == 0
  {
  }

  lemma LowProduct(words: Wide, multiplier: nat, start: Wide, left: nat, low: limb, high: limb)
    requires left < 8 && multiplier == low + high * BASE
    requires Val(start) == Val(words[..left]) * multiplier
    requires words[left] * low >= 0
    ensures var product: nat := words[left] * low + start[left];
            Val(start[left := product % BASE]) + (product / BASE) * Power(left + 1)
              + (words[left] * high) * (BASE * Power(left))
            == Val(words[..left + 1]) * multiplier
    ensures Power(left + 1) == BASE * Power(left)
  {
    hide Val;
    var product: nat := words[left] * low + start[left];
    var p := Power(left);
    ValUpdate(start, left, product % BASE);
    ValPrefix(words, left);
    CarryStep(product, p);
    Distribute(words[left] * low, start[left], p);
    Distribute(Val(words[..left]), words[left] * p, multiplier);
    SplitMultiplier(words[left], p, low, high);
  }

  lemma SplitMultiplier(w: int, p: int, low: int, high: int)
    ensures (w * p) * (low + high * BASE) == (w * low) * p + (w * high) * (BASE * p)
  {
    assert (w * p) * (low + high * BASE) == (w * p) * low + (w * p) * (high * BASE);
    assert (w * p) * low == (w * low) * p;
    assert (w * p) * (high * BASE) == (w * high) * (BASE * p) by {
      Associate(w * p, high, BASE);
      assert (w * p) * high == (w * high) * p;
      Associate(w * high, p, BASE);
    }
  }

  lemma HighProduct(result: Wide, at: nat, word: limb, high: limb, carry: nat)
    requires at < 8 && word * high >= 0
    ensures var product: nat := word * high + result[at] + carry;
            Val(result[at := product % BASE]) + (product / BASE) * Power(at + 1)
            == Val(result) + (word * high) * Power(at) + carry * Power(at)
    ensures at + 1 == Least(at + 1, 8)
  {
    hide Val;
    var product: nat := word * high + result[at] + carry;
    ValUpdate(result, at, product % BASE);
    assert Power(at + 1) == BASE * Power(at);
    CarryStep(product, Power(at));
    ThreeTerms(word * high, result[at], carry, Power(at));
  }

  lemma CarryOn(result: Wide, target: nat, carry: nat)
    requires target < 8 && carry < BASE
    ensures var sum := result[target] + carry;
            Val(result[target := sum % BASE]) + (sum / BASE) * Power(Least(target + 1, 8))
            == Val(result) + carry * Power(Least(target, 8))
  {
    hide Val;
    var sum := result[target] + carry;
    ValUpdate(result, target, sum % BASE);
    assert Power(target + 1) == BASE * Power(target);
    CarryStep(sum, Power(target));
    Distribute(result[target], carry, Power(target));
  }

  lemma PrefixBelow(words: Wide, k: nat, multiplier: nat)
    requires k <= 8
    ensures Val(words[..k]) * multiplier <= Val(words) * multiplier
  {
    hide Val;
    ValSplit(words, k);
    NonNegative(Val(words[k..]), Power(k));
    MulMono(Val(words[..k]), Val(words), multiplier);
  }

  lemma CarryOverflows(words: Wide, multiplier: nat, left: nat, value: nat, carry: nat)
    requires left < 8 && carry > 0
    requires value + carry * Power(8) == Val(words[..left + 1]) * multiplier
    ensures Val(words) * multiplier >= LIMIT
  {
    hide Val, Power;
    LimitIsPower();
    AtLeast(carry, LIMIT);
    PrefixBelow(words, left + 1, multiplier);
  }

  lemma TopProductOverflows(words: Wide, multiplier: nat, low: limb, high: limb)
    requires multiplier == low + high * BASE && words[7] != 0 && high != 0
    ensures Val(words) * multiplier >= LIMIT
  {
    hide Val;
    ValPrefix(words, 7);
    assert words[..8] == words;
    LimitIsPower();
    assert Power(8) == BASE * Power(7);
    MulMono(1, words[7], Power(7));
    MulMono(1, high, BASE);
    MulMono(Power(7), Val(words), multiplier);
    MulMono(BASE, multiplier, Power(7));
  }

  /** numerator * 10^common / denominator, when 10^own is a multiple of the denominator. */
  method MakeCoefficient(numerator: int, denominator: nat, ownPlaces: nat, commonPlaces: nat)
    returns (ok: bool, output: SignedWide)
    requires InInt64(numerator) && denominator > 0 && ownPlaces <= commonPlaces <= MAX_SCALE
    requires Divides(denominator, Pow10(ownPlaces))
    ensures ok
    ensures Int(output) * denominator == numerator * Pow10(commonPlaces)
    ensures Abs(Int(output)) <= TWO_63 * Pow10(MAX_SCALE)
    ensures output.negative ==> Int(output) < 0
  {
    hide Val, Pow10;
    var magnitude := Magnitude(numerator);
    From64Val(magnitude);
    output := SignedWide(From64(magnitude), numerator < 0);
    var own := Power10(ownPlaces);
    var rest := Power10(commonPlaces - ownPlaces);
    var exactFactor := own / denominator;
    FactorFits(magnitude, denominator, ownPlaces, commonPlaces);
    var words;
    ok, words := MultiplyWords(output.magnitude, exactFactor);
    if !ok {
      return;
    }
    ok, words := MultiplyWords(words, rest);
    if !ok {
      return;
    }
    output := output.(magnitude := words);
    if magnitude == 0 {
      output := output.(negative := false);
    }
    SignsMultiply(Val(words), denominator);
    SignsMultiply(magnitude, Pow10(commonPlaces));
    NonZeroFactors(magnitude, exactFactor, rest);
  }

  lemma NonZeroFactors(m: nat, f: nat, r: nat)
    requires f > 0 && r > 0
    ensures m > 0 ==> (m * f) * r > 0
    ensures m == 0 ==> (m * f) * r == 0
  {
    if m > 0 {
      NonNegative(m, f);
      NonZeroProduct(m, f);
      NonNegative(m * f, r);
      NonZeroProduct(m * f, r);
    }
  }

  lemma FactorFits(m: nat, denominator: nat, own: nat, common: nat)
    requires m <= TWO_63 && denominator > 0 && own <= common <= MAX_SCALE
    requires Divides(denominator, Pow10(own))
    ensures var f, r := Pow10(own) / denominator, Pow10(common - own);
            && 0 < f < TWO_64 && m * f < LIMIT && (m * f) * r < LIMIT
            && (m * f) * r <= TWO_63 * Pow10(MAX_SCALE)
            && ((m * f) * r) * denominator == m * Pow10(common)
  {
    hide Pow10;
    var f, r := Pow10(own) / denominator, Pow10(common - own);
    Pow10Max();
    Pow10Grows(own, MAX_SCALE);
    Pow10Grows(common, MAX_SCALE);
    Pow10Sum(common - own, own);
    assert f * denominator == Pow10(own);
    QuotientBounds(Pow10(own), f, denominator);
    Rearrange3(m, f, r, denominator);
    ProductBounds(m, f, r, denominator, Pow10(common), Pow10(MAX_SCALE));
  }

  lemma ProductBounds(m: nat, f: nat, r: nat, denominator: nat, p: nat, max: nat)
    requires m <= TWO_63 && p <= max && denominator > 0 && r > 0
    requires ((m * f) * r) * denominator == m * p
    ensures 0 <= m * f <= (m * f) * r <= TWO_63 * max
  {
    NonNegative(m, f);
    NonNegative(m * f, r);
    AtLeast(denominator, (m * f) * r);
    AtLeast(r, m * f);
    MulMono(m, TWO_63, p);
    MulMono(p, max, TWO_63);
  }

  lemma Rearrange3(m: int, f: int, r: int, d: int)
    ensures ((m * f) * r) * d == m * ((f * d) * r)
  {
    Associate(m * f, r, d);
    Associate(m, f, r * d);
    assert f * (r * d) == (f * d) * r by {
      Associate(f, d, r);
    }
  }

  // ---------------------------------------------------------------- derivation

  predicate LegalDenominators(scaleDenominator: nat, biasDenominator: nat) {
    && 1 <= scaleDenominator <= MAXIMUM_AUTHOR_DENOMINATOR
    && 1 <= biasDenominator <= MAXIMUM_AUTHOR_DENOMINATOR
  }

  /** The coefficient is exactly the rational times 10^places. */
  ghost predicate Exact(a: SignedWide, numerator: int, denominator: nat, places: nat) {
    Int(a) * denominator == numerator * Pow10(places)
  }

  /** Both rationals are integers in units of 10^-k exactly from `places` on. */
  ghost predicate BothTerminate(n: int, d: nat, m: int, e: nat, places: nat) {
    forall k: nat {:trigger Pow10(k)} :: Terminates(n, d, k) && Terminates(m, e, k) <==> places <= k
  }

  /** `d` describes scale * raw + bias over the fewest decimal places that do. */
  ghost predicate Describes(d: Descriptor, scaleNumerator: int, scaleDenominator: nat,
                            biasNumerator: int, biasDenominator: nat)
  {
    var c := d.conversion;
    && Moderate(c)
    && Exact(c.scaleCoefficient, scaleNumerator, scaleDenominator, c.decimalPlaces)
    && Exact(c.biasCoefficient, biasNumerator, biasDenominator, c.decimalPlaces)
    && BothTerminate(scaleNumerator, scaleDenominator, biasNumerator, biasDenominator,
                     c.decimalPlaces)
    && Reduced(scaleNumerator, scaleDenominator, d.scaleNumerator, d.scaleDenominator)
    && Reduced(biasNumerator, biasDenominator, d.biasNumerator, d.biasDenominator)
  }

  /**
   * Derivation succeeds exactly for a non-zero scale, legal denominators and at most 18 decimal
   * places; the coefficients are then exactly scale * 10^t and bias * 10^t for the smallest t that
   * makes both integers, and small enough for both conversions. Overflow cannot happen.
   */
  method DeriveLinearConversion(rawValueType: ValueType, scaleNumerator: int,
                                scaleDenominator: nat, biasNumerator: int, biasDenominator: nat)
    returns (error: DecimalDescriptorError, output: Option<Descriptor>)
    requires InInt64(scaleNumerator) && InInt64(biasNumerator)
    ensures error ==
            if scaleNumerator == 0 then ZeroScale
            else if !LegalDenominators(scaleDenominator, biasDenominator) then DenominatorOutOfRange
            else if !Terminates(scaleNumerator, scaleDenominator, MAX_SCALE) then NonTerminatingScale
            else if !Terminates(biasNumerator, biasDenominator, MAX_SCALE) then NonTerminatingBias
            else NoError
    ensures output.Some? <==> error == NoError
    ensures output.Some? ==> output.value.conversion.rawValueType == rawValueType
    ensures output.Some? ==> Describes(output.value, scaleNumerator, scaleDenominator,
                                       biasNumerator, biasDenominator)
  {
    hide Divides, Pow10, Reduced, NeedsPlaces, Describes, Terminates;
    output := None;
    if scaleNumerator == 0 {
      return ZeroScale, output;
    }
    if scaleDenominator == 0 || biasDenominator == 0
       || scaleDenominator > MAXIMUM_AUTHOR_DENOMINATOR
       || biasDenominator > MAXIMUM_AUTHOR_DENOMINATOR {
      return DenominatorOutOfRange, output;
    }
    var sn, sd := Reduce(scaleNumerator, scaleDenominator);
    var bn, bd := Reduce(biasNumerator, biasDenominator);
    ReducedFacts(scaleNumerator, scaleDenominator, sn, sd);
    ReducedFacts(biasNumerator, biasDenominator, bn, bd);
    var scaleTerminates, scalePlaces := DecimalPlaces(sd);
    if !scaleTerminates {
      return NonTerminatingScale, output;
    }
    var biasTerminates, biasPlaces := DecimalPlaces(bd);
    if !biasTerminates {
      return NonTerminatingBias, output;
    }
    var places := Larger(scalePlaces, biasPlaces);
    PlacesSuffice(sd, scalePlaces);
    PlacesSuffice(bd, biasPlaces);
    var ok, scale := MakeCoefficient(sn, sd, scalePlaces, places);
    if !ok {
      return ArithmeticOverflow, output;
    }
    var bias;
    ok, bias := MakeCoefficient(bn, bd, biasPlaces, places);
    if !ok {
      return ArithmeticOverflow, output;
    }
    var descriptor := Descriptor(sn, sd, bn, bd, LinearConversion(rawValueType, places, scale, bias));
    DerivationDescribes(descriptor, scaleNumerator, scaleDenominator, biasNumerator,
                        biasDenominator, scalePlaces, biasPlaces);
    return NoError, Some(descriptor);
  }

  /** The description in numbers: for every `k` from the decimal places on, and for no other. */
  lemma DescribesMeans(d: Descriptor, scaleNumerator: int, scaleDenominator: nat,
                       biasNumerator: int, biasDenominator: nat, k: nat, g: nat)
    requires Describes(d, scaleNumerator, scaleDenominator, biasNumerator, biasDenominator)
    requires scaleDenominator > 0 && biasDenominator > 0
    ensures var c := d.conversion;
            && Int(c.scaleCoefficient) * scaleDenominator
               == scaleNumerator * Pow10(c.decimalPlaces)
            && Int(c.biasCoefficient) * biasDenominator == biasNumerator * Pow10(c.decimalPlaces)
            && ((Abs(scaleNumerator) * Pow10(k)) % scaleDenominator == 0
                && (Abs(biasNumerator) * Pow10(k)) % biasDenominator == 0
                <==> c.decimalPlaces <= k)
    ensures 1 <= d.scaleDenominator && 1 <= d.biasDenominator
    ensures d.scaleNumerator * scaleDenominator == scaleNumerator * d.scaleDenominator
    ensures d.biasNumerator * biasDenominator == biasNumerator * d.biasDenominator
    ensures g >= 1 && Abs(d.scaleNumerator) % g == 0 && d.scaleDenominator % g == 0 ==> g == 1
    ensures g >= 1 && Abs(d.biasNumerator) % g == 0 && d.biasDenominator % g == 0 ==> g == 1
  {
    hide Pow10;
    assert Terminates(scaleNumerator, scaleDenominator, k)
           <==> (Abs(scaleNumerator) * Pow10(k)) % scaleDenominator == 0;
    assert Terminates(biasNumerator, biasDenominator, k)
           <==> (Abs(biasNumerator) * Pow10(k)) % biasDenominator == 0;
    assert g >= 1 ==> (Divides(g, d.scaleDenominator) <==> d.scaleDenominator % g == 0);
    assert g >= 1 ==> (Divides(g, d.biasDenominator) <==> d.biasDenominator % g == 0);
  }

  /** When derivation fails, in numbers. */
  lemma TerminatesMeans(numerator: int, denominator: nat)
    requires denominator > 0
    ensures Terminates(numerator, denominator, MAX_SCALE)
            <==> (Abs(numerator) * 1_000_000_000_000_000_000) % denominator == 0
    ensures LegalDenominators(denominator, 1) <==> denominator <= 1_000_000_000_000_000_000
    ensures LegalDenominators(1, denominator) <==> denominator <= 1_000_000_000_000_000_000
  {
    Pow10Max();
  }

  lemma ReducedFacts(numerator: int, denominator: nat, n: int, d: nat)
    requires Reduced(numerator, denominator, n, d)
    ensures d > 0 && n * denominator == numerator * d
    ensures Terminates(numerator, denominator, MAX_SCALE) <==> Divides(d, Pow10(MAX_SCALE))
  {
    hide Pow10, Terminates, Divides;
  }

  lemma PlacesSuffice(d: nat, places: nat)
    requires NeedsPlaces(d, places)
    ensures Divides(d, Pow10(places))
  {
    hide Pow10, Divides;
  }

  lemma FewestPlaces(n: int, d: nat, n': int, d': nat, i: nat,
                     m: int, e: nat, m': int, e': nat, j: nat)
    requires Reduced(n, d, n', d') && NeedsPlaces(d', i)
    requires Reduced(m, e, m', e') && NeedsPlaces(e', j)
    ensures BothTerminate(n, d, m, e, Larger(i, j))
  {
    hide Pow10, Terminates, Divides;
    forall k: nat
      ensures Terminates(n, d, k) && Terminates(m, e, k) <==> Larger(i, j) <= k
    {
      assert Terminates(n, d, k) <==> Divides(d', Pow10(k));
    }
  }

  lemma DerivationDescribes(d: Descriptor, scaleNumerator: int, scaleDenominator: nat,
                            biasNumerator: int, biasDenominator: nat, scalePlaces: nat,
                            biasPlaces: nat)
    requires Reduced(scaleNumerator, scaleDenominator, d.scaleNumerator, d.scaleDenominator)
    requires Reduced(biasNumerator, biasDenominator, d.biasNumerator, d.biasDenominator)
    requires NeedsPlaces(d.scaleDenominator, scalePlaces)
    requires NeedsPlaces(d.biasDenominator, biasPlaces)
    requires d.conversion.decimalPlaces == Larger(scalePlaces, biasPlaces) <= MAX_SCALE
    requires scaleNumerator != 0
    requires var c := d.conversion;
             && Exact(c.scaleCoefficient, d.scaleNumerator, d.scaleDenominator, c.decimalPlaces)
             && Exact(c.biasCoefficient, d.biasNumerator, d.biasDenominator, c.decimalPlaces)
             && Abs(c.Scale()) <= TWO_63 * Pow10(MAX_SCALE)
             && Abs(c.Bias()) <= TWO_63 * Pow10(MAX_SCALE)
    ensures Describes(d, scaleNumerator, scaleDenominator, biasNumerator, biasDenominator)
  {
    hide Pow10, Terminates, Divides, Int, Reduced, NeedsPlaces, BothTerminate;
    var c := d.conversion;
    ReducedFacts(scaleNumerator, scaleDenominator, d.scaleNumerator, d.scaleDenominator);
    ReducedFacts(biasNumerator, biasDenominator, d.biasNumerator, d.biasDenominator);
    FewestPlaces(scaleNumerator, scaleDenominator, d.scaleNumerator, d.scaleDenominator, scalePlaces,
                 biasNumerator, biasDenominator, d.biasNumerator, d.biasDenominator, biasPlaces);
    var p := Pow10(c.decimalPlaces);
    SameQuotient(c.Scale(), d.scaleNumerator, d.scaleDenominator, scaleNumerator,
                 scaleDenominator, p);
    SameQuotient(c.Bias(), d.biasNumerator, d.biasDenominator, biasNumerator, biasDenominator, p);
    NonZeroScale(c.Scale(), scaleNumerator, scaleDenominator, p);
  }

  lemma SameQuotient(a: int, n: int, d: nat, numerator: int, denominator: nat, p: nat)
    requires d > 0 && a * d == n * p && n * denominator == numerator * d
    ensures a * denominator == numerator * p
  {
    assert (a * denominator) * d == (numerator * p) * d by {
      calc {
        (a * denominator) * d;
        (a * d) * denominator;
        (n * p) * denominator;
        (n * denominator) * p;
        (numerator * d) * p;
        (numerator * p) * d;
      }
    }
    Cancel(a * denominator, numerator * p, d);
  }

  lemma NonZeroScale(a: int, numerator: int, denominator: nat, p: nat)
    requires numerator != 0 && p > 0 && a * denominator == numerator * p
    ensures a != 0
  {
    NonZeroProduct(numerator, p);
  }
}
