/**
 * The two directions of a linear decimal conversion, logical = (raw * A + B) / 10^t, in exact
 * wide arithmetic, each proved against its value over the integers.
 */
module DecimalConversion {
  import opened Arithmetic
  import opened WideIntegers

  const TWO_63: int := 0x8000_0000_0000_0000
  const TWO_64: int := 0x1_0000_0000_0000_0000
  const MAX_SCALE: nat := 18

  datatype ValueType = Uint64 | Int64

  datatype SignedWide = SignedWide(magnitude: Wide, negative: bool)

  datatype Decimal64 = Decimal64(coefficient: int, scale: int)

  /** What the plan freezes of a conversion. */
  datatype LinearConversion = LinearConversion(
    rawValueType: ValueType,
    decimalPlaces: nat,
    scaleCoefficient: SignedWide,
    biasCoefficient: SignedWide)
  {
    ghost function Scale(): int { Int(scaleCoefficient) }

    ghost function Bias(): int { Int(biasCoefficient) }
  }

  datatype DecimalArithmeticStatus =
    | Ok
    | DecimalScaleOutOfRange
    | RawNotIntegral
    | RawOutOfRange
    | LogicalOutOfRange
    | InternalError

  ghost function Int(s: SignedWide): int {
    var magnitude: int := Val(s.magnitude);
    if s.negative then -magnitude else magnitude
  }

  function Pow10(k: nat): (p: nat)
    ensures p >= 1
  {
    if k == 0 then 1 else 10 * Pow10(k - 1)
  }

  // ---------------------------------------------------------------- the conversion over integers

  /** Trailing zeros of the coefficient are given up against the scale. */
  function Strip(n: int, scale: nat): Decimal64
    decreases scale
  {
    if scale > 0 && n % 10 == 0 then Strip(n / 10, scale - 1) else Decimal64(n, scale)
  }

  predicate InInt64(n: int) {
    -TWO_63 <= n < TWO_63
  }

  function WidthLimit(byteWidth: nat): (p: nat)
    ensures p >= 1
  {
    Pow2(8 * byteWidth)
  }

  /** The integer that a bit pattern of a type stands for. */
  function RawValue(rawBits: nat, valueType: ValueType, byteWidth: nat): int
    requires 1 <= byteWidth <= 8
  {
    if valueType == Uint64 || (rawBits / Pow2(8 * byteWidth - 1)) % 2 == 0 then rawBits
    else rawBits % WidthLimit(byteWidth) - WidthLimit(byteWidth)
  }

  predicate InRange(raw: int, valueType: ValueType, byteWidth: nat) {
    && 1 <= byteWidth <= 8
    && var half: int := Pow2(8 * byteWidth - 1);
       if valueType == Uint64 then 0 <= raw < WidthLimit(byteWidth) else -half <= raw < half
  }

  datatype Decoding = Decoded(value: Decimal64) | DecodeFailed(status: DecimalArithmeticStatus)

  ghost function Decode(c: LinearConversion, rawBits: nat, byteWidth: nat): Decoding
    requires 1 <= byteWidth <= 8
  {
    var raw := RawValue(rawBits, c.rawValueType, byteWidth);
    var logical := Strip(raw * c.Scale() + c.Bias(), c.decimalPlaces);
    if !InRange(raw, c.rawValueType, byteWidth) then DecodeFailed(RawOutOfRange)
    else if InInt64(logical.coefficient) then Decoded(logical)
    else DecodeFailed(LogicalOutOfRange)
  }

  datatype Encoding = Encoded(rawBits: nat) | EncodeFailed(status: DecimalArithmeticStatus)

  function Larger(a: nat, b: nat): nat {
    if a < b then b else a
  }

  ghost function Numerator(c: LinearConversion, logical: Decimal64): int
    requires 0 <= logical.scale
  {
    var u := Larger(logical.scale, c.decimalPlaces);
    logical.coefficient * Pow10(u - logical.scale) - c.Bias() * Pow10(u - c.decimalPlaces)
  }

  ghost function Denominator(c: LinearConversion, logical: Decimal64): int
    requires 0 <= logical.scale
  {
    c.Scale() * Pow10(Larger(logical.scale, c.decimalPlaces) - c.decimalPlaces)
  }

  function ToBits(raw: int, byteWidth: nat): int {
    if raw < 0 then raw + WidthLimit(byteWidth) else raw
  }

  ghost function Encode(c: LinearConversion, logical: Decimal64, byteWidth: nat): Encoding
    requires 0 <= logical.scale <= MAX_SCALE ==> Denominator(c, logical) != 0
  {
    if !(0 <= logical.scale <= MAX_SCALE) then EncodeFailed(DecimalScaleOutOfRange)
    else
      var n, d := Numerator(c, logical), Denominator(c, logical);
      if n % d != 0 then EncodeFailed(RawNotIntegral)
      else if !InRange(n / d, c.rawValueType, byteWidth) then EncodeFailed(RawOutOfRange)
      else Encoded(ToBits(n / d, byteWidth))
  }

  // ---------------------------------------------------------------- signed arithmetic

  method Canonical(value: SignedWide) returns (output: SignedWide)
    ensures Int(output) == Int(value) && (output.negative ==> Int(output) < 0)
    ensures output.magnitude == value.magnitude
  {
    var zero := IsZero(value.magnitude);
    output := if zero then value.(negative := false) else value;
  }

  /** Unsigned negation, so that the most negative value has a magnitude too. */
  function Magnitude(value: int): nat
    requires InInt64(value)
  {
    if value < 0 then TWO_64 - (value + TWO_64) else value
  }

  method FromSigned(value: int) returns (output: SignedWide)
    requires InInt64(value)
    ensures Int(output) == value
  {
    From64Val(Magnitude(value));
    output := SignedWide(From64(Magnitude(value)), value < 0);
  }

  method SignedAdd(left: SignedWide, right: SignedWide) returns (ok: bool, output: SignedWide)
    ensures ok <==> Abs(Int(left) + Int(right)) < LIMIT
    ensures ok ==> Int(output) == Int(left) + Int(right) && (output.negative ==> Int(output) < 0)
  {
    hide Val;
    WideBound(left.magnitude);
    WideBound(right.magnitude);
    var result := SignedWide(ZERO, false);
    if left.negative == right.negative {
      var sum;
      ok, sum := Add(left.magnitude, right.magnitude);
      if !ok {
        return false, result;
      }
      result := SignedWide(sum, left.negative);
    } else {
      var order := Compare(left.magnitude, right.magnitude);
      if order >= 0 {
        var difference := Subtract(left.magnitude, right.magnitude);
        result := SignedWide(difference, left.negative);
      } else {
        var difference := Subtract(right.magnitude, left.magnitude);
        result := SignedWide(difference, right.negative);
      }
    }
    output := Canonical(result);
    ok := true;
  }

  method SignedMultiply(left: SignedWide, right: SignedWide) returns (ok: bool, output: SignedWide)
    ensures ok <==> Abs(Int(left) * Int(right)) < LIMIT
    ensures ok ==> Int(output) == Int(left) * Int(right) && (output.negative ==> Int(output) < 0)
  {
    hide Val;
    SignsMultiply(Val(left.magnitude), Val(right.magnitude));
    var product;
    ok, product := Multiply(left.magnitude, right.magnitude);
    if !ok {
      return false, SignedWide(ZERO, false);
    }
    output := Canonical(SignedWide(product, left.negative != right.negative));
  }

  method ToSigned(value: SignedWide) returns (ok: bool, output: int)
    ensures ok <==> InInt64(Int(value))
    ensures ok ==> output == Int(value)
  {
    hide Val;
    var narrow, magnitude := To64(value.magnitude);
    if !narrow {
      return false, 0;
    }
    if magnitude > if value.negative then TWO_63 else TWO_63 - 1 {
      return false, 0;
    }
    return true, if value.negative then -magnitude else magnitude;
  }

  method Power10(exponent: nat) returns (value: nat)
    requires exponent <= MAX_SCALE
    ensures value == Pow10(exponent) < TWO_64
  {
    value := 1;
    for index := 0 to exponent
      invariant value == Pow10(index)
    {
      value := value * 10;
    }
    Pow10Grows(exponent, MAX_SCALE);
    Pow10Max();
  }

  lemma {:induction false} Pow10Grows(i: nat, j: nat)
    requires i <= j
    ensures Pow10(i) <= Pow10(j)
  {
    if i < j {
      Pow10Grows(i, j - 1);
    }
  }

  lemma Pow10Max()
    ensures Pow10(18) == 1_000_000_000_000_000_000
  {
    assert Pow10(6) == 1_000_000;
    assert Pow10(12) == 1_000_000_000_000;
  }

  lemma {:induction false} Pow10Sum(i: nat, j: nat)
    ensures Pow10(i + j) == Pow10(i) * Pow10(j)
  {
    if i > 0 {
      Pow10Sum(i - 1, j);
      Associate(10, Pow10(i - 1), Pow10(j));
    }
  }

  lemma WidthFacts(byteWidth: nat)
    requires 1 <= byteWidth <= 8
    ensures WidthLimit(byteWidth) == 2 * Pow2(8 * byteWidth - 1)
    ensures WidthLimit(byteWidth) <= TWO_64 && WidthLimit(8) == TWO_64
  {
    hide Pow2;
    LimbIsPow2();
    Pow2Sum(32, 32);
    Pow2Next(8 * byteWidth - 1);
    Pow2Sum(8 * byteWidth, 64 - 8 * byteWidth);
    MulMono(1, Pow2(64 - 8 * byteWidth), Pow2(8 * byteWidth));
  }

  method FitsRaw(raw: SignedWide, valueType: ValueType, byteWidth: nat) returns (fits: bool)
    requires raw.negative ==> Int(raw) < 0
    ensures fits == InRange(Int(raw), valueType, byteWidth)
  {
    hide Val, Pow2;
    if byteWidth == 0 || byteWidth > 8 {
      return false;
    }
    WidthFacts(byteWidth);
    var narrow, magnitude := To64(raw.magnitude);
    if !narrow {
      return false;
    }
    if valueType == Uint64 {
      return !raw.negative && (byteWidth == 8 || magnitude < WidthLimit(byteWidth));
    }
    var sign := Pow2(8 * byteWidth - 1);
    return magnitude <= if raw.negative then sign else sign - 1;
  }

  // ---------------------------------------------------------------- the two directions

  /** The coefficients a derived conversion can have; with them no wide result overflows. */
  ghost predicate Moderate(c: LinearConversion) {
    && c.decimalPlaces <= MAX_SCALE && c.Scale() != 0
    && Abs(c.Scale()) <= TWO_63 * Pow10(MAX_SCALE) && Abs(c.Bias()) <= TWO_63 * Pow10(MAX_SCALE)
  }

  lemma {:induction false} StripZero(scale: nat)
    ensures Strip(0, scale) == Decimal64(0, 0)
  {
    if scale > 0 {
      StripZero(scale - 1);
    }
  }

  /** Trailing zeros go before the coefficient is narrowed. */
  method Normalize(value: SignedWide, decimalPlaces: nat)
    returns (status: DecimalArithmeticStatus, output: Decimal64)
    ensures var stripped := Strip(Int(value), decimalPlaces);
            if InInt64(stripped.coefficient) then status == Ok && output == stripped
            else status == LogicalOutOfRange
  {
    hide Val;
    output := Decimal64(0, 0);
    var zero := IsZero(value.magnitude);
    if zero {
      StripZero(decimalPlaces);
      return Ok, output;
    }
    var coefficient, scale := value, decimalPlaces;
    From64Val(10);
    while scale != 0
      invariant Int(coefficient) != 0
      invariant Strip(Int(coefficient), scale) == Strip(Int(value), decimalPlaces)
    {
      var divided, quotient, remainder := Divide(coefficient.magnitude, From64(10));
      if !divided {
        return InternalError, output;
      }
      var exact := IsZero(remainder);
      if !exact {
        break;
      }
      coefficient := coefficient.(magnitude := quotient);
      scale := scale - 1;
    }
    assert Strip(Int(coefficient), scale) == Decimal64(Int(coefficient), scale);
    var narrow, narrowed := ToSigned(coefficient);
    if !narrow {
      return LogicalOutOfRange, output;
    }
    return Ok, Decimal64(narrowed, scale);
  }

  lemma SignBit(n: nat, half: nat)
    requires half > 0
    ensures (n / half) % 2 == 1 <==> n % (2 * half) >= half
  {
    DivMod(n, 2 * half);
    SignBitOf(n / (2 * half), n % (2 * half), half);
  }

  lemma SignBitOf(q: nat, m: nat, half: nat)
    requires half > 0 && m < 2 * half
    ensures ((q * (2 * half) + m) / half) % 2 == 1 <==> m >= half
  {
    NonNegative(q, 2 * half);
    Associate(q, 2, half);
    if m >= half {
      Distribute(2 * q, 1, half);
      DivIs(q * (2 * half) + m, half, 2 * q + 1, m - half);
    } else {
      DivIs(q * (2 * half) + m, half, 2 * q, m);
    }
  }

  /** Two's complement of the wire width. */
  method RawSigned(rawBits: nat, valueType: ValueType, byteWidth: nat) returns (raw: SignedWide)
    requires 1 <= byteWidth <= 8 && rawBits < TWO_64
    ensures Int(raw) == RawValue(rawBits, valueType, byteWidth)
    ensures raw.negative ==> Int(raw) < 0
  {
    hide Val, Pow2;
    From64Val(rawBits);
    if valueType == Uint64 {
      return SignedWide(From64(rawBits), false);
    }
    var sign := Pow2(8 * byteWidth - 1);
    if (rawBits / sign) % 2 == 0 {
      return SignedWide(From64(rawBits), false);
    }
    WidthFacts(byteWidth);
    SignBit(rawBits, sign);
    var magnitude := WidthLimit(byteWidth) - rawBits % WidthLimit(byteWidth);
    From64Val(magnitude);
    raw := Canonical(SignedWide(From64(magnitude), true));
  }

  lemma AbsProduct(a: int, b: int, x: nat, y: nat)
    requires Abs(a) <= x && Abs(b) <= y
    ensures Abs(a * b) <= x * y
  {
    SignsMultiply(Abs(a), Abs(b));
    MulMono(Abs(a), x, Abs(b));
    MulMono(Abs(b), y, x);
  }

  lemma RawBound(raw: int, valueType: ValueType, byteWidth: nat)
    requires InRange(raw, valueType, byteWidth)
    ensures Abs(raw) <= TWO_64
  {
    WidthFacts(byteWidth);
  }

  lemma DecodeFits(c: LinearConversion, raw: int)
    requires Moderate(c) && Abs(raw) <= TWO_64
    ensures Abs(raw * c.Scale()) < LIMIT && Abs(raw * c.Scale() + c.Bias()) < LIMIT
  {
    Pow10Max();
    AbsProduct(raw, c.Scale(), TWO_64, TWO_63 * Pow10(MAX_SCALE));
  }

  /** Decode never fails for a reason of its own: the wide arithmetic is large enough. */
  method DecodeDecimal(c: LinearConversion, rawBits: nat, byteWidth: nat)
    returns (status: DecimalArithmeticStatus, output: Decimal64)
    requires Moderate(c) && 1 <= byteWidth <= 8 && rawBits < TWO_64
    ensures match Decode(c, rawBits, byteWidth)
            case Decoded(value) => status == Ok && output == value
            case DecodeFailed(reason) => status == reason
  {
    hide Val, Moderate, InRange, RawValue, Strip, WidthLimit;
    output := Decimal64(0, 0);
    var raw := RawSigned(rawBits, c.rawValueType, byteWidth);
    var fits := FitsRaw(raw, c.rawValueType, byteWidth);
    if !fits {
      return RawOutOfRange, output;
    }
    RawBound(Int(raw), c.rawValueType, byteWidth);
    DecodeFits(c, Int(raw));
    var scale := Canonical(c.scaleCoefficient);
    var bias := Canonical(c.biasCoefficient);
    var multiplied, value := SignedMultiply(raw, scale);
    if !multiplied {
      return InternalError, output;
    }
    var added, sum := SignedAdd(value, bias);
    if !added {
      return InternalError, output;
    }
    status, output := Normalize(sum, c.decimalPlaces);
  }

  lemma EncodeFits(c: LinearConversion, logical: Decimal64, i: nat, j: nat)
    requires Moderate(c) && InInt64(logical.coefficient) && i <= MAX_SCALE && j <= MAX_SCALE
    ensures Abs(logical.coefficient * Pow10(i)) < LIMIT
    ensures Abs(c.Bias() * Pow10(j)) < LIMIT && Abs(c.Scale() * Pow10(j)) < LIMIT
    ensures Abs(logical.coefficient * Pow10(i) - c.Bias() * Pow10(j)) < LIMIT
    ensures c.Scale() * Pow10(j) != 0
  {
    Pow10Max();
    ScaledFits(logical.coefficient, i);
    ScaledFits(c.Bias(), j);
    ScaledFits(c.Scale(), j);
    NonZeroProduct(c.Scale(), Pow10(j));
  }

  lemma ScaledFits(x: int, k: nat)
    requires Abs(x) <= TWO_63 * Pow10(MAX_SCALE) && k <= MAX_SCALE
    ensures Abs(x * Pow10(k)) < LIMIT / 2
  {
    Pow10Max();
    Pow10Grows(k, MAX_SCALE);
    AbsProduct(x, Pow10(k), TWO_63 * Pow10(MAX_SCALE), Pow10(MAX_SCALE));
  }

  function Signed(magnitude: int, negative: bool): int {
    if negative then -magnitude else magnitude
  }

  lemma SignedProduct(q: int, d: int, negative: bool)
    requires q >= 0
    ensures Signed(q, negative != (d < 0)) * d == Signed(q * Abs(d), negative)
  {
    SignsMultiply(q, Abs(d));
  }

  /** Sign and magnitude division gives the integer quotient whenever it is exact. */
  lemma ExactQuotient(n: int, d: int, q: nat, r: nat)
    requires d != 0 && r < Abs(d) && Abs(n) == q * Abs(d) + r
    ensures n % d == 0 <==> r == 0
    ensures r == 0 ==> n / d == Signed(q, (n < 0) != (d < 0))
  {
    if r == 0 {
      SignedProduct(q, d, n < 0);
      MultipleDivides(Signed(q, (n < 0) != (d < 0)), d);
    } else {
      LeavesRemainder(n, d, q, r);
    }
  }

  lemma LeavesRemainder(n: int, d: int, q: nat, r: nat)
    requires d != 0 && 0 < r < Abs(d) && Abs(n) == q * Abs(d) + r
    ensures n % d != 0
  {
    if n % d == 0 {
      AbsMultiple(n / d, d, n);
      DivIs(Abs(n), Abs(d), Abs(n / d), 0);
      DivIs(Abs(n), Abs(d), q, r);
    }
  }

  lemma AbsMultiple(s: int, d: int, n: int)
    requires n == s * d
    ensures Abs(n) == Abs(s) * Abs(d)
  {
    SignsMultiply(Abs(s), Abs(d));
  }

  /** Encode never fails for a reason of its own either. */
  method EncodeDecimal(c: LinearConversion, logical: Decimal64, byteWidth: nat)
    returns (status: DecimalArithmeticStatus, rawBits: nat)
    requires Moderate(c) && InInt64(logical.coefficient)
    ensures 0 <= logical.scale <= MAX_SCALE ==> Denominator(c, logical) != 0
    ensures match Encode(c, logical, byteWidth)
            case Encoded(bits) => status == Ok && rawBits == bits
            case EncodeFailed(reason) => status == reason
  {
    hide Val, InRange, Pow10;
    rawBits := 0;
    if logical.scale < 0 || logical.scale > MAX_SCALE {
      return DecimalScaleOutOfRange, rawBits;
    }
    var commonScale := Larger(logical.scale, c.decimalPlaces);
    var i, j := commonScale - logical.scale, commonScale - c.decimalPlaces;
    EncodeFits(c, logical, i, j);
    var numerator, denominator;
    status, numerator, denominator := AlignScales(c, logical, i, j);
    if status != Ok {
      return status, rawBits;
    }
    var divided, quotient, remainder := Divide(numerator.magnitude, denominator.magnitude);
    if !divided {
      return InternalError, rawBits;
    }
    ghost var n, d := Int(numerator), Int(denominator);
    assert n == Numerator(c, logical) && d == Denominator(c, logical);
    ExactQuotient(n, d, Val(quotient), Val(remainder));
    var exact := IsZero(remainder);
    if !exact {
      return RawNotIntegral, rawBits;
    }
    var raw := Canonical(SignedWide(quotient, numerator.negative != denominator.negative));
    assert Int(raw) == n / d;
    var fits := FitsRaw(raw, c.rawValueType, byteWidth);
    if !fits {
      return RawOutOfRange, rawBits;
    }
    status, rawBits := BitsOf(raw, c.rawValueType, byteWidth);
  }

  /** Both sides brought to the larger scale, the bias taken off. */
  method AlignScales(c: LinearConversion, logical: Decimal64, i: nat, j: nat)
    returns (status: DecimalArithmeticStatus, numerator: SignedWide, denominator: SignedWide)
    requires Moderate(c) && InInt64(logical.coefficient) && i <= MAX_SCALE && j <= MAX_SCALE
    ensures status == Ok
    ensures Int(numerator) == logical.coefficient * Pow10(i) - c.Bias() * Pow10(j)
    ensures Int(denominator) == c.Scale() * Pow10(j)
    ensures numerator.negative ==> Int(numerator) < 0
    ensures denominator.negative ==> Int(denominator) < 0
  {
    hide Val, Pow10, Moderate;
    EncodeFits(c, logical, i, j);
    numerator, denominator := SignedWide(ZERO, false), SignedWide(ZERO, false);
    var logicalFactor := Power10(i);
    var planFactor := Power10(j);
    From64Val(logicalFactor);
    From64Val(planFactor);
    var coefficient := FromSigned(logical.coefficient);
    var frozenBias := Canonical(c.biasCoefficient);
    var frozenScale := Canonical(c.scaleCoefficient);
    var ok, value := SignedMultiply(coefficient, SignedWide(From64(logicalFactor), false));
    if !ok {
      return InternalError, numerator, denominator;
    }
    var bias;
    ok, bias := SignedMultiply(frozenBias, SignedWide(From64(planFactor), false));
    if !ok {
      return InternalError, numerator, denominator;
    }
    ok, denominator := SignedMultiply(frozenScale, SignedWide(From64(planFactor), false));
    if !ok {
      return InternalError, numerator, denominator;
    }
    bias := bias.(negative := !bias.negative);
    ok, numerator := SignedAdd(value, bias);
    if !ok {
      return InternalError, numerator, denominator;
    }
    status := Ok;
  }

  /** The wire bits of an integer already known to fit. */
  method BitsOf(raw: SignedWide, ghost valueType: ValueType, byteWidth: nat)
    returns (status: DecimalArithmeticStatus, rawBits: nat)
    requires InRange(Int(raw), valueType, byteWidth) && (raw.negative ==> Int(raw) < 0)
    ensures status == Ok && rawBits == ToBits(Int(raw), byteWidth)
  {
    hide Val, InRange, WidthLimit;
    rawBits := 0;
    RangeBounds(Int(raw), valueType, byteWidth);
    var narrow, magnitude := To64(raw.magnitude);
    if !narrow {
      status := InternalError;
      return;
    }
    rawBits := if raw.negative then (TWO_64 - magnitude) % TWO_64 else magnitude;
    if byteWidth < 8 {
      MaskedBits(Int(raw), byteWidth, rawBits, WidthLimit(byteWidth));
      rawBits := rawBits % WidthLimit(byteWidth);
    }
    status := Ok;
  }

  lemma RangeBounds(raw: int, valueType: ValueType, byteWidth: nat)
    requires InRange(raw, valueType, byteWidth)
    ensures 1 <= byteWidth <= 8 && WidthLimit(byteWidth) <= TWO_64 && WidthLimit(8) == TWO_64
    ensures 0 < raw + WidthLimit(byteWidth) && raw < WidthLimit(byteWidth)
    ensures 0 <= ToBits(raw, byteWidth) < WidthLimit(byteWidth)
  {
    hide Pow2;
    WidthFacts(byteWidth);
  }

  lemma MaskedBits(raw: int, byteWidth: nat, bits: nat, limit: nat)
    requires byteWidth < 8 && limit == WidthLimit(byteWidth) && 0 <= raw + limit && raw < limit
    requires bits == if raw < 0 then raw + TWO_64 else raw
    ensures bits % limit == ToBits(raw, byteWidth)
  {
    hide Pow2;
    LimbIsPow2();
    Pow2Sum(32, 32);
    var k := Pow2(64 - 8 * byteWidth);
    Pow2Sum(64 - 8 * byteWidth, 8 * byteWidth);
    if raw < 0 {
      Distribute(k - 1, 1, limit);
      DivIs(bits, limit, k - 1, raw + limit);
    } else {
      DivIs(bits, limit, 0, bits);
    }
  }
}
