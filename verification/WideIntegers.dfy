/**
 * 256-bit unsigned magnitudes in eight 32-bit limbs, low limb first: the schoolbook loops of the
 * decimal conversions, each proved against the integer the limbs stand for.
 */
module WideIntegers {
  import opened Arithmetic
  const BASE: nat := 0x1_0000_0000

  type limb = x: int | 0 <= x < BASE

  type limbs = seq<limb>

  /** The source's fixed-size limb array. */
  type Wide = w: limbs | |w| == 8 witness [0, 0, 0, 0, 0, 0, 0, 0]

  const ZERO: Wide := [0, 0, 0, 0, 0, 0, 0, 0]

  /** One past the largest magnitude. */
  const LIMIT: nat := 0x1_0000_0000_0000_0000_0000_0000_0000_0000_0000_0000_0000_0000_0000_0000_0000_0000

  function Power(k: nat): (p: nat)
    ensures p >= 1
  {
    if k == 0 then 1 else BASE * Power(k - 1)
  }

  /** The integer that limbs stand for. */
  function Val(w: limbs): nat {
    if w == [] then 0 else Val(w[..|w| - 1]) + w[|w| - 1] * Power(|w| - 1)
  }

  /** Words of 32 bits, the lowest first. */
  lemma {:induction false} ValMeans(x: limb, w: limbs)
    ensures Val([]) == 0 && Val([x] + w) == x + 0x1_0000_0000 * Val(w)
  {
    if w == [] {
      assert [x] + w == [x] && [x][..0] == [];
    } else {
      var k := |w| - 1;
      ValMeans(x, w[..k]);
      assert ([x] + w)[..k + 1] == [x] + w[..k];
      Distribute(Val(w[..k]), w[k] * Power(k), 0x1_0000_0000);
      Associate(w[k], Power(k), 0x1_0000_0000);
    }
  }

  lemma ValAppend(w: limbs, x: limb)
    ensures Val(w + [x]) == Val(w) + x * Power(|w|)
  {
    assert (w + [x])[..|w|] == w;
  }

  lemma ValPrefix(w: limbs, k: nat)
    requires k < |w|
    ensures Val(w[..k + 1]) == Val(w[..k]) + w[k] * Power(k)
  {
    assert w[..k + 1][..k] == w[..k];
  }

  lemma {:induction false} ValBound(w: limbs)
    ensures Val(w) < Power(|w|)
  {
    if w != [] {
      var k := |w| - 1;
      ValBound(w[..k]);
      TopLimb(Power(k), w[k]);
    }
  }

  lemma TopLimb(p: nat, x: limb)
    ensures p + x * p <= BASE * p
  {
    Distribute(1, x, p);
    MulMono(1 + x, BASE, p);
  }

  lemma LimitIsPower()
    ensures Power(8) == LIMIT
  {
    assert Power(1) == 0x1_0000_0000;
    assert Power(2) == 0x1_0000_0000_0000_0000;
    assert Power(3) == 0x1_0000_0000_0000_0000_0000_0000;
    assert Power(4) == 0x1_0000_0000_0000_0000_0000_0000_0000_0000;
    assert Power(5) == 0x1_0000_0000_0000_0000_0000_0000_0000_0000_0000_0000;
    assert Power(6) == 0x1_0000_0000_0000_0000_0000_0000_0000_0000_0000_0000_0000_0000;
    assert Power(7) == 0x1_0000_0000_0000_0000_0000_0000_0000_0000_0000_0000_0000_0000_0000_0000;
    assert Power(8) == 0x1_0000_0000_0000_0000_0000_0000_0000_0000_0000_0000_0000_0000_0000_0000_0000_0000;
  }

  lemma WideBound(w: Wide)
    ensures Val(w) < LIMIT
  {
    ValBound(w);
    LimitIsPower();
  }

  lemma {:induction false} ValZero(w: limbs)
    ensures Val(w) == 0 <==> forall i | 0 <= i < |w| :: w[i] == 0
  {
    if w != [] {
      var k := |w| - 1;
      ValZero(w[..k]);
      if w[k] != 0 {
        assert w[k] * Power(k) >= 1;
      }
    }
  }

  lemma {:induction false} ValUpdate(w: limbs, i: nat, x: limb)
    requires i < |w|
    ensures Val(w[i := x]) + w[i] * Power(i) == Val(w) + x * Power(i)
  {
    var k := |w| - 1;
    if i == k {
      assert w[i := x][..k] == w[..k];
    } else {
      assert w[i := x][..k] == w[..k][i := x];
      ValUpdate(w[..k], i, x);
    }
  }

  /** Low limbs, one limb, and the rest. */
  lemma {:induction false} ValSplit(w: limbs, k: nat)
    requires k <= |w|
    ensures Val(w) == Val(w[..k]) + Val(w[k..]) * Power(k)
  {
    if k == |w| {
      assert w[..k] == w && w[k..] == [];
    } else {
      var n := |w| - 1;
      ValSplit(w[..n], k);
      assert w[..n][..k] == w[..k];
      assert w[k..][..n - k] == w[..n][k..];
      PowerSum(n - k, k);
      var x := w[n];
      Distribute(Val(w[..n][k..]), x * Power(n - k), Power(k));
      Associate(x, Power(n - k), Power(k));
    }
  }

  lemma {:induction false} PowerSum(i: nat, j: nat)
    ensures Power(i + j) == Power(i) * Power(j)
  {
    if i > 0 {
      PowerSum(i - 1, j);
      Associate(BASE, Power(i - 1), Power(j));
    }
  }

  /** Splitting a two-limb value into its limbs loses nothing. */
  lemma CarryStep(s: nat, p: nat)
    ensures (s % BASE) * p + (s / BASE) * (BASE * p) == s * p
  {
    Associate(s / BASE, BASE, p);
    Distribute(s % BASE, (s / BASE) * BASE, p);
  }

  // ---------------------------------------------------------------- conversions and comparison

  function From64(value: nat): (w: Wide)
    requires value < BASE * BASE
  {
    [value % BASE, value / BASE, 0, 0, 0, 0, 0, 0]
  }

  lemma From64Val(value: nat)
    requires value < BASE * BASE
    ensures Val(From64(value)) == value
  {
    var w := From64(value);
    ValSplit(w, 2);
    ValZero(w[2..]);
    ValPrefix(w, 1);
    ValPrefix(w, 0);
    assert Power(0) == 1 && Power(1) == BASE;
  }

  method Compare(left: Wide, right: Wide) returns (order: int)
    ensures order == if Val(left) < Val(right) then -1 else if Val(left) > Val(right) then 1 else 0
  {
    hide Val, Power;
    var index := |left|;
    while index > 0
      invariant 0 <= index <= 8
      invariant left[index..] == right[index..]
    {
      index := index - 1;
      if left[index] != right[index] {
        ValSplit(left, index + 1);
        ValSplit(right, index + 1);
        ValPrefix(left, index);
        ValPrefix(right, index);
        HigherLimbDecides(left, right, index);
        return if left[index] < right[index] then -1 else 1;
      }
      assert left[index..] == [left[index]] + left[index + 1..];
      assert right[index..] == [right[index]] + right[index + 1..];
    }
    assert left == left[0..] && right == right[0..];
    order := 0;
  }

  lemma HigherLimbDecides(a: Wide, b: Wide, k: nat)
    requires k < 8 && a[k] != b[k]
    ensures a[k] < b[k] <==> Val(a[..k]) + a[k] * Power(k) < Val(b[..k]) + b[k] * Power(k)
    ensures a[k] > b[k] <==> Val(a[..k]) + a[k] * Power(k) > Val(b[..k]) + b[k] * Power(k)
  {
    ValBound(a[..k]);
    ValBound(b[..k]);
    Steps(Val(a[..k]), a[k], Val(b[..k]), b[k], Power(k));
    Steps(Val(b[..k]), b[k], Val(a[..k]), a[k], Power(k));
  }

  lemma Steps(x: nat, a: nat, y: nat, b: nat, p: nat)
    requires x < p && y < p
    ensures a < b ==> x + a * p < y + b * p
  {
    if a < b {
      Distribute(1, a, p);
      MulMono(1 + a, b, p);
    }
  }

  method IsZero(value: Wide) returns (zero: bool)
    ensures zero == (Val(value) == 0)
  {
    var order := Compare(value, ZERO);
    ValZero(ZERO);
    zero := order == 0;
  }

  /** Narrowing is refused exactly when it would lose something. */
  method To64(value: Wide) returns (ok: bool, output: nat)
    ensures ok <==> Val(value) < BASE * BASE
    ensures ok ==> output == Val(value)
  {
    hide Val, Power;
    ValSplit(value, 2);
    LowLimbs(value);
    PowerTwo();
    ValBound(value[..2]);
    for index := 2 to 8
      invariant forall i | 2 <= i < index :: value[i] == 0
    {
      if value[index] != 0 {
        ValZero(value[2..]);
        assert value[2..][index - 2] != 0;
        AtLeast(Val(value[2..]), Power(2));
        return false, 0;
      }
    }
    ValZero(value[2..]);
    return true, value[1] * BASE + value[0];
  }

  lemma PowerTwo()
    ensures Power(0) == 1 && Power(1) == BASE && Power(2) == BASE * BASE
  {
  }

  lemma LowLimbs(value: Wide)
    ensures Val(value[..2]) == value[0] + value[1] * BASE
  {
    ValPrefix(value, 1);
    ValPrefix(value, 0);
    PowerTwo();
  }

  // ---------------------------------------------------------------- addition and subtraction

  /** Exact, or refused exactly when the sum does not fit. */
  method Add(left: Wide, right: Wide) returns (ok: bool, output: Wide)
    ensures ok <==> Val(left) + Val(right) < LIMIT
    ensures ok ==> Val(output) == Val(left) + Val(right)
  {
    hide Val, Power;
    var result: limbs := [];
    var carry: nat := 0;
    EmptyVal(left);
    EmptyVal(right);
    for index := 0 to 8
      invariant |result| == index && carry <= 1
      invariant Val(result) + carry * Power(index) == Val(left[..index]) + Val(right[..index])
    {
      var sum := left[index] + right[index] + carry;
      AddStep(left, right, result, carry, index);
      result := result + [sum % BASE];
      carry := sum / BASE;
    }
    LimitIsPower();
    ValBound(result);
    assert left[..8] == left && right[..8] == right;
    if carry != 0 {
      return false, ZERO;
    }
    return true, result;
  }

  lemma EmptyVal(w: limbs)
    ensures Val([]) == Val(w[..0]) == 0
  {
  }

  lemma AddStep(left: limbs, right: limbs, result: limbs, carry: nat, k: nat)
    requires k < |left| && k < |right| && |result| == k
    requires Val(result) + carry * Power(k) == Val(left[..k]) + Val(right[..k])
    ensures var sum := left[k] + right[k] + carry;
            Val(result + [sum % BASE]) + (sum / BASE) * Power(k + 1)
            == Val(left[..k + 1]) + Val(right[..k + 1])
  {
    hide Val;
    var sum := left[k] + right[k] + carry;
    var p := Power(k);
    ValAppend(result, sum % BASE);
    ValPrefix(left, k);
    ValPrefix(right, k);
    assert Power(k + 1) == BASE * p;
    CarryStep(sum, p);
    var a: int, b: int := left[k], right[k];
    Distribute(a, b, p);
    Distribute(a + b, carry, p);
  }

  /** Modulo 2^256: the borrow out of the top limb is dropped. */
  method Subtract(left: Wide, right: Wide) returns (result: Wide)
    ensures Val(result) == if Val(left) >= Val(right) then Val(left) - Val(right)
                           else Val(left) + LIMIT - Val(right)
  {
    hide Val, Power;
    var digits: limbs := [];
    var borrow: nat := 0;
    EmptyVal(left);
    EmptyVal(right);
    for index := 0 to 8
      invariant |digits| == index && borrow <= 1
      invariant Val(digits) + Val(right[..index]) == Val(left[..index]) + borrow * Power(index)
    {
      var subtrahend := right[index] + borrow;
      var word := if left[index] < subtrahend then left[index] + BASE - subtrahend
                  else left[index] - subtrahend;
      SubtractStep(left, right, digits, borrow, index, word);
      digits := digits + [word];
      borrow := if left[index] < subtrahend then 1 else 0;
    }
    LimitIsPower();
    ValBound(digits);
    WideBound(left);
    WideBound(right);
    assert left[..8] == left && right[..8] == right;
    assert borrow * Power(8) == if borrow == 1 then LIMIT else 0;
    result := digits;
  }

  lemma SubtractStep(left: limbs, right: limbs, digits: limbs, borrow: nat, k: nat, word: limb)
    requires k < |left| && k < |right| && |digits| == k
    requires Val(digits) + Val(right[..k]) == Val(left[..k]) + borrow * Power(k)
    requires word == if left[k] < right[k] + borrow then left[k] + BASE - (right[k] + borrow)
                     else left[k] - (right[k] + borrow)
    ensures Val(digits + [word]) + Val(right[..k + 1])
            == Val(left[..k + 1]) + (if left[k] < right[k] + borrow then 1 else 0) * Power(k + 1)
  {
    hide Val;
    var p := Power(k);
    var out := if left[k] < right[k] + borrow then 1 else 0;
    ValAppend(digits, word);
    ValPrefix(left, k);
    ValPrefix(right, k);
    assert Power(k + 1) == BASE * p;
    assert word + right[k] + borrow == left[k] + out * BASE;
    assert (word + right[k] + borrow) * p == word * p + right[k] * p + borrow * p;
    assert (left[k] + out * BASE) * p == left[k] * p + out * (BASE * p);
  }

  // ---------------------------------------------------------------- multiplication

  /** Exact, or refused exactly when the product does not fit. */
  method Multiply(left: Wide, right: Wide) returns (ok: bool, output: Wide)
    ensures ok <==> Val(left) * Val(right) < LIMIT
    ensures ok ==> Val(output) == Val(left) * Val(right)
  {
    hide Val, Power;
    var product: limbs := seq(16, _ => 0);
    ValZero(product);
    EmptyVal(left);
    for leftIndex := 0 to 8
      invariant |product| == 16 && forall i | leftIndex + 8 <= i < 16 :: product[i] == 0
      invariant Val(product) == Val(left[..leftIndex]) * Val(right)
    {
      var word := left[leftIndex];
      ghost var done := Val(product);
      var carry: nat := 0;
      EmptyVal(right);
      for rightIndex := 0 to 8
        invariant |product| == 16 && forall i | leftIndex + 8 <= i < 16 :: product[i] == 0
        invariant carry < BASE
        invariant Val(product) + carry * Power(leftIndex + rightIndex)
                  == done + word * (Power(leftIndex) * Val(right[..rightIndex]))
      {
        var target := leftIndex + rightIndex;
        TwoLimbs(word, right[rightIndex], product[target], carry);
        var value: nat := word * right[rightIndex] + product[target] + carry;
        MultiplyStep(product, right, done, word, carry, leftIndex, rightIndex);
        product := product[target := value % BASE];
        carry := value / BASE;
      }
      assert right[..8] == right;
      RowDone(product, left, right, done, carry, leftIndex);
      product := product[leftIndex + 8 := carry];
    }
    assert left[..8] == left;
    HighHalf(product);
    for index := 8 to 16
      invariant forall i | 8 <= i < index :: product[i] == 0
    {
      if product[index] != 0 {
        assert product[8..][index - 8] != 0;
        return false, ZERO;
      }
    }
    return true, product[..8];
  }

  /** A product of limbs, a limb and a carry still fit in two limbs. */
  lemma TwoLimbs(x: limb, y: limb, z: limb, carry: nat)
    requires carry < BASE
    ensures x * y >= 0
    ensures 0 <= (x * y + z + carry) / BASE < BASE
  {
    NonNegative(x, y);
    MulMono(x, BASE - 1, y);
  }

  lemma MultiplyStep(product: limbs, right: limbs, done: nat, word: limb, carry: nat, i: nat, j: nat)
    requires j < |right| && i + j < |product|
    requires Val(product) + carry * Power(i + j) == done + word * (Power(i) * Val(right[..j]))
    ensures word * right[j] >= 0
    ensures var value := word * right[j] + product[i + j] + carry;
            Val(product[i + j := value % BASE]) + (value / BASE) * Power(i + j + 1)
            == done + word * (Power(i) * Val(right[..j + 1]))
  {
    hide Val;
    NonNegative(word, right[j]);
    var value: nat := word * right[j] + product[i + j] + carry;
    var p, q := Power(i), Power(j);
    ValUpdate(product, i + j, value % BASE);
    ValPrefix(right, j);
    PowerSum(i, j);
    assert Power(i + j + 1) == BASE * Power(i + j);
    CarryStep(value, Power(i + j));
    ThreeTerms(word * right[j], product[i + j], carry, p * q);
    Regroup(word, right[j], p, q, Val(right[..j]));
  }

  lemma ThreeTerms(a: int, b: int, c: int, p: int)
    ensures (a + b + c) * p == a * p + b * p + c * p
  {
  }

  lemma Regroup(word: int, r: int, p: int, q: int, v: int)
    ensures word * (p * (v + r * q)) == word * (p * v) + (word * r) * (p * q)
  {
    assert p * (v + r * q) == p * v + p * (r * q);
    assert p * (r * q) == r * (p * q);
    assert word * (p * v + r * (p * q)) == word * (p * v) + word * (r * (p * q));
    Associate(word, r, p * q);
  }

  lemma RowDone(product: limbs, left: limbs, right: limbs, done: nat, carry: limb, i: nat)
    requires i < |left| && i + 8 < |product| && product[i + 8] == 0
    requires done == Val(left[..i]) * Val(right)
    requires Val(product) + carry * Power(i + 8) == done + left[i] * (Power(i) * Val(right))
    ensures Val(product[i + 8 := carry]) == Val(left[..i + 1]) * Val(right)
  {
    hide Val, Power;
    ValUpdate(product, i + 8, carry);
    ValPrefix(left, i);
    Associate(left[i], Power(i), Val(right));
    Distribute(Val(left[..i]), left[i] * Power(i), Val(right));
  }

  lemma HighHalf(product: limbs)
    requires |product| == 16
    ensures Val(product) < LIMIT <==> forall i | 8 <= i < 16 :: product[i] == 0
    ensures Val(product) < LIMIT ==> Val(product[..8]) == Val(product)
  {
    hide Val, Power;
    ValSplit(product, 8);
    LimitIsPower();
    ValBound(product[..8]);
    var high := product[8..];
    ValZero(high);
    assert forall i | 8 <= i < 16 :: product[i] == high[i - 8];
    assert forall i | 0 <= i < 8 :: high[i] == product[i + 8];
    if Val(high) > 0 {
      AtLeast(Val(high), LIMIT);
    }
  }

  // ---------------------------------------------------------------- division

  function Pow2(k: nat): (p: nat)
    ensures p >= 1
  {
    if k == 0 then 1 else 2 * Pow2(k - 1)
  }

  lemma {:induction false} Pow2Sum(i: nat, j: nat)
    ensures Pow2(i + j) == Pow2(i) * Pow2(j)
  {
    if i > 0 {
      Pow2Sum(i - 1, j);
      Associate(2, Pow2(i - 1), Pow2(j));
    }
  }

  lemma LimbIsPow2()
    ensures Pow2(32) == BASE && Pow2(31) == 0x8000_0000
  {
    assert Pow2(4) == 16;
    assert Pow2(8) == 0x100 by { Pow2Sum(4, 4); }
    assert Pow2(16) == 0x1_0000 by { Pow2Sum(8, 8); }
    assert Pow2(32) == BASE by { Pow2Sum(16, 16); }
    assert Pow2(32) == 2 * Pow2(31);
  }

  lemma {:induction false} PowerIsPow2(k: nat)
    ensures Power(k) == Pow2(32 * k)
  {
    if k > 0 {
      PowerIsPow2(k - 1);
      LimbIsPow2();
      Pow2Sum(32, 32 * (k - 1));
    }
  }

  function WordBit(w: limb, m: nat): nat {
    (w / Pow2(m)) % 2
  }

  /** A bit of a limb is a bit of the number. */
  lemma NumberBit(w: limbs, k: nat, m: nat)
    requires k < |w| && m < 32
    ensures (Val(w) / Pow2(32 * k + m)) % 2 == WordBit(w[k], m)
  {
    hide Val, Power, Pow2;
    var lo, mid, hi, p, n := Val(w[..k]), w[k], Val(w[k + 1..]), Power(k), Pow2(m);
    var half := Pow2(31 - m);
    LimbParts(m);
    PowerIsPow2(k);
    Pow2Sum(32 * k, m);
    ValBound(w[..k]);
    ValSplit(w, k + 1);
    ValPrefix(w, k);
    NextPower(k);
    BitParity(lo, mid, hi, p, n, half);
  }

  lemma NextPower(k: nat)
    ensures Power(k + 1) == BASE * Power(k)
  {
  }

  lemma LimbParts(m: nat)
    requires m < 32
    ensures BASE == 2 * Pow2(31 - m) * Pow2(m)
  {
    LimbIsPow2();
    Pow2Sum(31 - m, m);
    Associate(2, Pow2(31 - m), Pow2(m));
  }

  lemma BitParity(lo: nat, mid: nat, hi: nat, p: nat, n: nat, half: nat)
    requires lo < p && n >= 1 && BASE == 2 * half * n
    ensures p * n > 0
    ensures ((lo + mid * p + hi * (BASE * p)) / (p * n)) % 2 == (mid / n) % 2
  {
    var a, c := mid / n, mid % n;
    NonNegative(half, hi);
    NonNegative(c, p);
    var q: nat, r: nat := a + 2 * (half * hi), lo + c * p;
    BelowUnit(lo, c, p, n);
    DivMod(mid, n);
    Quotient(lo, a, c, hi, p, n, half);
    QuotientParity(lo + mid * p + hi * (BASE * p), p * n, q, r, a, half * hi);
  }

  lemma QuotientParity(x: nat, d: nat, q: nat, r: nat, a: nat, h: nat)
    requires x == q * d + r && r < d && q == a + 2 * h
    ensures (x / d) % 2 == a % 2
  {
    DivIs(x, d, q, r);
    Parity(a, h);
  }

  lemma Parity(a: nat, x: nat)
    ensures (a + 2 * x) % 2 == a % 2
  {
  }

  lemma BelowUnit(lo: nat, c: nat, p: nat, n: nat)
    requires lo < p && c < n
    ensures lo + c * p < p * n && p * n > 0
  {
    Distribute(1, c, p);
    MulMono(1 + c, n, p);
  }

  lemma Quotient(lo: nat, a: nat, c: nat, hi: nat, p: nat, n: nat, half: nat)
    requires BASE == 2 * half * n
    ensures lo + (a * n + c) * p + hi * (BASE * p) == (a + 2 * (half * hi)) * (p * n) + (lo + c * p)
  {
    Distribute(a * n, c, p);
    Associate(a, n, p);
    Distribute(a, 2 * (half * hi), p * n);
    Regroup2(hi, half, n, p);
  }

  lemma Regroup2(hi: nat, half: nat, n: nat, p: nat)
    ensures hi * ((2 * half * n) * p) == (2 * (half * hi)) * (p * n)
  {
    Associate(2 * half, n, p);
    Associate(hi, 2 * half, n * p);
    Associate(2, half, hi);
  }

  /** One more bit of a number. */
  lemma NextBit(n: nat, bit: nat)
    ensures n / Pow2(bit) == 2 * (n / Pow2(bit + 1)) + (n / Pow2(bit)) % 2
  {
    hide Pow2;
    var p := Pow2(bit);
    var q, r := n / p, n % p;
    Pow2Next(bit);
    var h, e := q / 2, q % 2;
    Distribute(2 * h, e, p);
    Associate(h, 2, p);
    assert n == h * (2 * p) + (e * p + r);
    assert e * p == 0 || e * p == p;
    DivIs(n, 2 * p, h, e * p + r);
  }

  lemma Pow2Next(k: nat)
    ensures Pow2(k + 1) == 2 * Pow2(k)
  {
  }

  /** `word | (1 << m)`. */
  function SetBit(word: limb, m: nat): (w: limb)
    requires m < 32
  {
    if WordBit(word, m) == 0 then
      SetBitFits(word, m);
      assert 0 <= word + Pow2(m) < BASE;
      word + Pow2(m)
    else word
  }

  lemma SetBitFits(word: limb, m: nat)
    requires m < 32 && WordBit(word, m) == 0
    ensures word + Pow2(m) < BASE
  {
    hide Pow2;
    LimbParts(m);
    var n, half := Pow2(m), Pow2(31 - m);
    var a: int, c: int := word / n, word % n;
    assert word == a * n + c;
    if a >= 2 * half {
      MulMono(2 * half, a, n);
    }
    assert a + 2 <= 2 * half;
    MulMono(a + 2, 2 * half, n);
    Distribute(a, 2, n);
  }

  /** `(remainder << 1) | carry`, limb by limb; the top bit falls out. */
  method ShiftIn(w: Wide, bit: nat) returns (shifted: Wide)
    requires bit <= 1
    ensures Val(shifted) + (w[7] / 0x8000_0000) * LIMIT == 2 * Val(w) + bit
  {
    hide Val, Power;
    var result: limbs := [];
    var carry := bit;
    EmptyVal(w);
    UnitPower();
    for index := 0 to 8
      invariant |result| == index && carry <= 1
      invariant index > 0 ==> carry == w[index - 1] / 0x8000_0000
      invariant Val(result) + carry * Power(index) == 2 * Val(w[..index]) + bit
    {
      var next := w[index] / 0x8000_0000;
      ShiftStep(w, result, carry, bit, index);
      result := result + [(2 * w[index]) % BASE + carry];
      carry := next;
    }
    LimitIsPower();
    assert w[..8] == w;
    shifted := result;
  }

  lemma UnitPower()
    ensures Power(0) == 1
  {
  }

  lemma ShiftStep(w: limbs, result: limbs, carry: nat, bit: nat, k: nat)
    requires k < |w| && |result| == k && carry <= 1
    requires Val(result) + carry * Power(k) == 2 * Val(w[..k]) + bit
    ensures (2 * w[k]) % BASE + carry < BASE && w[k] / 0x8000_0000 <= 1
    ensures Val(result + [(2 * w[k]) % BASE + carry]) + (w[k] / 0x8000_0000) * Power(k + 1)
            == 2 * Val(w[..k + 1]) + bit
  {
    hide Val;
    var x: int := w[k];
    var p, d, s := Power(k), 2 * x, 2 * x + carry;
    Doubled(x, carry);
    ValAppend(result, s % BASE);
    ValPrefix(w, k);
    assert Power(k + 1) == BASE * p;
    CarryStep(s, p);
    Distribute(d, carry, p);
    Associate(2, x, p);
  }

  lemma Doubled(x: nat, carry: nat)
    requires x < BASE && carry <= 1
    ensures (2 * x + carry) % BASE == (2 * x) % BASE + carry < BASE
    ensures (2 * x + carry) / BASE == x / 0x8000_0000 <= 1
  {
  }

  /** What the bits above `bit` of the numerator have given so far. */
  ghost predicate Divided(n: nat, d: nat, bit: nat, q: nat, quotient: limbs, r: nat) {
    n / Pow2(bit) == q * d + r && r < d && Val(quotient) == q * Pow2(bit)
  }

  /** Long division: the quotient and remainder, for every non-zero denominator. */
  method Divide(numerator: Wide, denominator: Wide)
    returns (ok: bool, quotient: Wide, remainder: Wide)
    ensures ok <==> Val(denominator) != 0
    ensures ok ==> Val(numerator) == Val(quotient) * Val(denominator) + Val(remainder)
    ensures ok ==> Val(remainder) < Val(denominator)
  {
    hide Val, Power, Pow2, Divided;
    quotient, remainder := ZERO, ZERO;
    var zero := IsZero(denominator);
    if zero {
      return false, quotient, remainder;
    }
    ghost var n, d := Val(numerator), Val(denominator);
    ghost var q: nat := 0;
    var bit := 256;
    NothingDivided(numerator, d);
    while bit > 0
      invariant 0 <= bit <= 256
      invariant Divided(n, d, bit, q, quotient, Val(remainder))
    {
      bit := bit - 1;
      var highBit := remainder[7] / 0x8000_0000 != 0;
      var carry := WordBit(numerator[bit / 32], bit % 32);
      NumberBit(numerator, bit / 32, bit % 32);
      var shifted := ShiftIn(remainder, carry);
      var order := Compare(shifted, denominator);
      ghost var r := Val(remainder);
      BitDivides(n, d, bit, q, quotient, r, carry);
      WideBound(shifted);
      WideBound(denominator);
      TopBit(remainder);
      if highBit || order >= 0 {
        remainder := Subtract(shifted, denominator);
        quotient := quotient[bit / 32 := SetBit(quotient[bit / 32], bit % 32)];
        q := 2 * q + 1;
      } else {
        remainder := shifted;
        q := 2 * q;
      }
    }
    AllDivided(n, d, q, quotient, Val(remainder));
    ok := true;
  }

  lemma TopBit(w: Wide)
    ensures w[7] / 0x8000_0000 <= 1
  {
  }

  lemma NothingDivided(numerator: Wide, d: nat)
    requires d > 0
    ensures Divided(Val(numerator), d, 256, 0, ZERO, Val(ZERO))
  {
    hide Val, Power, Pow2;
    ValZero(ZERO);
    WideBound(numerator);
    PowerIsPow2(8);
    LimitIsPower();
  }

  lemma AllDivided(n: nat, d: nat, q: nat, quotient: limbs, r: nat)
    requires Divided(n, d, 0, q, quotient, r)
    ensures n == Val(quotient) * d + r && r < d
  {
    hide Val;
    assert Pow2(0) == 1;
  }

  /** Bringing down one bit; the divisor then goes in at most once more. */
  lemma BitDivides(n: nat, d: nat, bit: nat, q: nat, quotient: Wide, r: nat, e: nat)
    requires bit < 256 && Divided(n, d, bit + 1, q, quotient, r)
    requires e == (n / Pow2(bit)) % 2
    ensures 2 * r + e < 2 * d
    ensures 2 * r + e < d ==> Divided(n, d, bit, 2 * q, quotient, 2 * r + e)
    ensures 2 * r + e >= d ==>
              Divided(n, d, bit, 2 * q + 1,
                      quotient[bit / 32 := SetBit(quotient[bit / 32], bit % 32)], 2 * r + e - d)
  {
    hide Val, Power, Pow2, SetBit, WordBit;
    NextBit(n, bit);
    Pow2Next(bit);
    Associate(q, 2, Pow2(bit));
    Associate(2, q, d);
    Distribute(2 * q, 1, d);
    Distribute(2 * q, 1, Pow2(bit));
    QuotientBit(quotient, q, bit);
  }

  lemma QuotientBit(quotient: Wide, q: nat, bit: nat)
    requires bit < 256 && Val(quotient) == (q * 2) * Pow2(bit)
    ensures Val(quotient[bit / 32 := SetBit(quotient[bit / 32], bit % 32)])
            == Val(quotient) + Pow2(bit)
  {
    hide Val, Power, Pow2;
    var k, m := bit / 32, bit % 32;
    NumberBit(quotient, k, m);
    DivIs(Val(quotient), Pow2(bit), q * 2, 0);
    SetBitFits(quotient[k], m);
    ValUpdate(quotient, k, quotient[k] + Pow2(m));
    PowerIsPow2(k);
    Pow2Sum(m, 32 * k);
    Distribute(quotient[k], Pow2(m), Power(k));
  }
}
