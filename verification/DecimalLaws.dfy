/**
 * What the conversions promise each other: each direction undoes the other, Encode succeeds
 * exactly when an integer solves the equation, and DecimalEqual is equality of values.
 */
module DecimalLaws {
  import opened Arithmetic
  import opened WideIntegers
  import opened DecimalConversion

  // ---------------------------------------------------------------- stripped decimals

  /** No zero is left to give up. */
  predicate Stripped(d: Decimal64) {
    d.scale == 0 || d.coefficient % 10 != 0
  }

  /** Two decimals with the same value, cross-multiplied. */
  ghost predicate SameValue(a: Decimal64, b: Decimal64)
    requires a.scale >= 0 && b.scale >= 0
  {
    a.coefficient * Pow10(b.scale) == b.coefficient * Pow10(a.scale)
  }

  lemma {:induction false} StripFacts(n: int, scale: nat)
    ensures var d := Strip(n, scale);
            0 <= d.scale <= scale && n == d.coefficient * Pow10(scale - d.scale) && Stripped(d)
    ensures Abs(Strip(n, scale).coefficient) <= Abs(n)
    decreases scale
  {
    var d := Strip(n, scale);
    if scale > 0 && n % 10 == 0 {
      StripFacts(n / 10, scale - 1);
      Associate(d.coefficient, Pow10(scale - 1 - d.scale), 10);
    } else {
      assert Pow10(scale - d.scale) == 1;
    }
  }

  /** The stripped form keeps the value. */
  lemma StripSameValue(n: int, scale: nat)
    ensures Strip(n, scale).scale >= 0 && SameValue(Strip(n, scale), Decimal64(n, scale))
  {
    StripFacts(n, scale);
    var d := Strip(n, scale);
    Associate(d.coefficient, Pow10(scale - d.scale), Pow10(d.scale));
    Pow10Sum(scale - d.scale, d.scale);
  }

  lemma SameValueTransitive(a: Decimal64, b: Decimal64, c: Decimal64)
    requires a.scale >= 0 && b.scale >= 0 && c.scale >= 0 && SameValue(a, b) && SameValue(b, c)
    ensures SameValue(a, c)
  {
    var x, y, z := Pow10(a.scale), Pow10(b.scale), Pow10(c.scale);
    CrossMultiply(a.coefficient, b.coefficient, c.coefficient, x, y, z);
    Cancel(a.coefficient * z, c.coefficient * x, y);
  }

  lemma CrossMultiply(u: int, v: int, w: int, x: int, y: int, z: int)
    requires u * y == v * x && v * z == w * y
    ensures (u * z) * y == (w * x) * y
  {
    SwapLast(u, z, y);
    SwapLast(v, x, z);
    SwapLast(w, y, x);
  }

  /** A value has one stripped form. */
  lemma StrippedUnique(a: Decimal64, b: Decimal64)
    requires a.scale >= 0 && b.scale >= 0 && Stripped(a) && Stripped(b) && SameValue(a, b)
    ensures a == b
  {
    if a.scale < b.scale {
      SmallerScale(a, b);
    } else if b.scale < a.scale {
      SmallerScale(b, a);
    } else {
      Cancel(a.coefficient, b.coefficient, Pow10(a.scale));
    }
  }

  /** At a smaller scale the same value leaves the other one a zero to strip. */
  lemma SmallerScale(a: Decimal64, b: Decimal64)
    requires 0 <= a.scale < b.scale && SameValue(a, b)
    ensures !Stripped(b)
  {
    hide Pow10;
    var k := b.scale - a.scale;
    Pow10Sum(k, a.scale);
    Associate(a.coefficient, Pow10(k), Pow10(a.scale));
    Cancel(a.coefficient * Pow10(k), b.coefficient, Pow10(a.scale));
    EndsInZero(a.coefficient, k);
  }

  lemma EndsInZero(x: int, k: nat)
    requires k > 0
    ensures (x * Pow10(k)) % 10 == 0
  {
    Associate(x, Pow10(k - 1), 10);
    MultipleDivides(x * Pow10(k - 1), 10);
  }

  /** Stripping finds the one stripped form of a value. */
  lemma StripFinds(n: int, scale: nat, d: Decimal64)
    requires d.scale >= 0 && Stripped(d) && SameValue(d, Decimal64(n, scale))
    ensures Strip(n, scale) == d
  {
    StripFacts(n, scale);
    StripSameValue(n, scale);
    SameValueTransitive(Strip(n, scale), Decimal64(n, scale), d);
    StrippedUnique(Strip(n, scale), d);
  }

  /** The final comparison of Encode: true exactly for two legal decimals of the same value. */
  method DecimalEqual(left: Decimal64, right: Decimal64) returns (equal: bool)
    requires InInt64(left.coefficient) && InInt64(right.coefficient)
    ensures equal <==> 0 <= left.scale <= MAX_SCALE && 0 <= right.scale <= MAX_SCALE
                       && SameValue(left, right)
  {
    hide Val, SameValue, Stripped, Strip;
    if left.scale < 0 || left.scale > MAX_SCALE || right.scale < 0 || right.scale > MAX_SCALE {
      return false;
    }
    var wideLeft := FromSigned(left.coefficient);
    var leftStatus, normalizedLeft := Normalize(wideLeft, left.scale);
    var wideRight := FromSigned(right.coefficient);
    var rightStatus, normalizedRight := Normalize(wideRight, right.scale);
    EqualWhenStripped(left, right);
    if leftStatus != Ok || rightStatus != Ok {
      return false;
    }
    equal := normalizedLeft.coefficient == normalizedRight.coefficient
             && normalizedLeft.scale == normalizedRight.scale;
  }

  lemma EqualWhenStripped(a: Decimal64, b: Decimal64)
    requires a.scale >= 0 && b.scale >= 0
    requires InInt64(a.coefficient) && InInt64(b.coefficient)
    ensures InInt64(Strip(a.coefficient, a.scale).coefficient)
    ensures InInt64(Strip(b.coefficient, b.scale).coefficient)
    ensures Strip(a.coefficient, a.scale) == Strip(b.coefficient, b.scale) <==> SameValue(a, b)
  {
    StripInRange(a.coefficient, a.scale);
    StripInRange(b.coefficient, b.scale);
    var x, y := Strip(a.coefficient, a.scale), Strip(b.coefficient, b.scale);
    StripFacts(a.coefficient, a.scale);
    StripFacts(b.coefficient, b.scale);
    StripSameValue(a.coefficient, a.scale);
    StripSameValue(b.coefficient, b.scale);
    if x == y {
      SameValueTransitive(a, x, b);
    }
    if SameValue(a, b) {
      SameValueTransitive(x, a, b);
      StripFinds(b.coefficient, b.scale, x);
    }
  }

  lemma {:induction false} StripInRange(n: int, scale: nat)
    requires InInt64(n)
    ensures InInt64(Strip(n, scale).coefficient)
    decreases scale
  {
    if scale > 0 && n % 10 == 0 {
      StripInRange(n / 10, scale - 1);
    }
  }

  // ---------------------------------------------------------------- the equation

  /** `raw` solves raw * A + B == C * 10^(t - s), without fractions. */
  ghost predicate Solves(c: LinearConversion, logical: Decimal64, raw: int)
    requires logical.scale >= 0
  {
    SameValue(Decimal64(raw * c.Scale() + c.Bias(), c.decimalPlaces), logical)
  }

  /** At the common scale the equation is the one Encode divides. */
  lemma SolvesAligned(c: LinearConversion, logical: Decimal64, raw: int)
    requires logical.scale >= 0
    ensures Solves(c, logical, raw) <==> raw * Denominator(c, logical) == Numerator(c, logical)
  {
    var a, b, m := c.Scale(), c.Bias(), logical.coefficient;
    var s, t := logical.scale, c.decimalPlaces;
    var u := Larger(s, t);
    var low := if s < t then s else t;
    var i, j := Pow10(u - s), Pow10(u - t);
    Pow10Sum(u - t, low);
    Pow10Sum(u - s, low);
    assert Pow10(s) == j * Pow10(low) && Pow10(t) == i * Pow10(low) by {
      assert Pow10(0) == 1;
    }
    var lhs := (raw * a + b) * j;
    var rhs := m * i;
    Associate(raw * a + b, j, Pow10(low));
    Associate(m, i, Pow10(low));
    assert Solves(c, logical, raw) <==> lhs * Pow10(low) == rhs * Pow10(low);
    if lhs * Pow10(low) == rhs * Pow10(low) {
      Cancel(lhs, rhs, Pow10(low));
    }
    Distribute(raw * a, b, j);
    Associate(raw, a, j);
  }

  /** Encode succeeds exactly when some in-range integer solves the equation. */
  lemma EncodesExactly(c: LinearConversion, logical: Decimal64, byteWidth: nat)
    requires Moderate(c) && InInt64(logical.coefficient)
    requires 0 <= logical.scale <= MAX_SCALE ==> Denominator(c, logical) != 0
    ensures Encode(c, logical, byteWidth).Encoded? <==>
            && 0 <= logical.scale <= MAX_SCALE
            && exists raw :: InRange(raw, c.rawValueType, byteWidth) && Solves(c, logical, raw)
    ensures forall raw | Encode(c, logical, byteWidth).Encoded? && Solves(c, logical, raw) ::
              Encode(c, logical, byteWidth).rawBits == ToBits(raw, byteWidth)
  {
    hide InRange, Solves, Numerator, Denominator, ToBits;
    if 0 <= logical.scale <= MAX_SCALE {
      var n, d := Numerator(c, logical), Denominator(c, logical);
      forall raw | Solves(c, logical, raw)
        ensures n % d == 0 && raw == n / d
      {
        SolutionIsQuotient(c, logical, raw);
      }
      if n % d == 0 {
        QuotientSolves(c, logical);
      }
    }
  }

  lemma SolutionIsQuotient(c: LinearConversion, logical: Decimal64, raw: int)
    requires logical.scale >= 0 && Denominator(c, logical) != 0 && Solves(c, logical, raw)
    ensures Numerator(c, logical) % Denominator(c, logical) == 0
    ensures raw == Numerator(c, logical) / Denominator(c, logical)
  {
    hide Solves, Numerator, Denominator;
    SolvesAligned(c, logical, raw);
    MultipleDivides(raw, Denominator(c, logical));
  }

  lemma QuotientSolves(c: LinearConversion, logical: Decimal64)
    requires logical.scale >= 0 && Denominator(c, logical) != 0
    requires Numerator(c, logical) % Denominator(c, logical) == 0
    ensures Solves(c, logical, Numerator(c, logical) / Denominator(c, logical))
  {
    hide Solves, Numerator, Denominator;
    var n, d := Numerator(c, logical), Denominator(c, logical);
    assert (n / d) * d == n;
    SolvesAligned(c, logical, n / d);
  }

  /** Decode reads the integer that was written. */
  lemma BitsRead(raw: int, valueType: ValueType, byteWidth: nat)
    requires InRange(raw, valueType, byteWidth)
    ensures 0 <= ToBits(raw, byteWidth) < WidthLimit(byteWidth) <= TWO_64
    ensures RawValue(ToBits(raw, byteWidth), valueType, byteWidth) == raw
  {
    hide Pow2;
    RangeBounds(raw, valueType, byteWidth);
    WidthFacts(byteWidth);
    var half, bits := Pow2(8 * byteWidth - 1), ToBits(raw, byteWidth);
    SignBit(bits, half);
    DivIs(bits, 2 * half, 0, bits);
  }

  /** What a bit pattern of the wire width stands for determines the pattern. */
  lemma BitsWritten(rawBits: nat, valueType: ValueType, byteWidth: nat)
    requires 1 <= byteWidth <= 8
    requires InRange(RawValue(rawBits, valueType, byteWidth), valueType, byteWidth)
    ensures ToBits(RawValue(rawBits, valueType, byteWidth), byteWidth)
            == rawBits % WidthLimit(byteWidth)
  {
    hide Pow2;
    WidthFacts(byteWidth);
    var half := Pow2(8 * byteWidth - 1);
    SignBit(rawBits, half);
    if RawValue(rawBits, valueType, byteWidth) == rawBits {
      DivIs(rawBits, 2 * half, 0, rawBits);
    }
  }

  // ---------------------------------------------------------------- without the model's own words

  /** Two's complement of a width, or the number itself. */
  lemma PatternValue(rawBits: nat, valueType: ValueType, byteWidth: nat)
    requires 1 <= byteWidth <= 8 && rawBits < WidthLimit(byteWidth)
    ensures RawValue(rawBits, valueType, byteWidth)
            == if valueType == Uint64 || 2 * rawBits < WidthLimit(byteWidth) then rawBits
               else rawBits - WidthLimit(byteWidth)
  {
    hide Pow2;
    WidthFacts(byteWidth);
    SignBit(rawBits, Pow2(8 * byteWidth - 1));
    DivIs(rawBits, WidthLimit(byteWidth), 0, rawBits);
  }

  lemma RangeOfWidth(raw: int, valueType: ValueType, byteWidth: nat)
    ensures InRange(raw, valueType, byteWidth)
            <==> 1 <= byteWidth <= 8
                 && if valueType == Uint64 then 0 <= raw < WidthLimit(byteWidth)
                    else 0 <= 2 * raw + WidthLimit(byteWidth) && 2 * raw < WidthLimit(byteWidth)
  {
    hide WidthLimit, Pow2;
    if 1 <= byteWidth <= 8 {
      WidthFacts(byteWidth);
    }
  }

  /** The integers of a wire type are exactly what the patterns of its width stand for. */
  lemma PatternsFillRange(raw: int, valueType: ValueType, byteWidth: nat)
    requires 1 <= byteWidth <= 8
    ensures InRange(raw, valueType, byteWidth)
            <==> exists rawBits: nat :: rawBits < WidthLimit(byteWidth)
                                        && RawValue(rawBits, valueType, byteWidth) == raw
  {
    hide RawValue, WidthLimit, ToBits;
    if InRange(raw, valueType, byteWidth) {
      BitsRead(raw, valueType, byteWidth);
      var rawBits: nat := ToBits(raw, byteWidth);
      assert RawValue(rawBits, valueType, byteWidth) == raw;
    }
    forall rawBits: nat | rawBits < WidthLimit(byteWidth)
      ensures InRange(RawValue(rawBits, valueType, byteWidth), valueType, byteWidth)
    {
      PatternValue(rawBits, valueType, byteWidth);
      RangeOfWidth(RawValue(rawBits, valueType, byteWidth), valueType, byteWidth);
    }
  }

  /**
   * Decode of what a field can hold: the one decimal without trailing zeros that equals
   * (raw A + B) / 10^t, refused exactly if its coefficient leaves the 64-bit range.
   */
  lemma DecodesExactly(c: LinearConversion, rawBits: nat, byteWidth: nat, d: Decimal64)
    requires 1 <= byteWidth <= 8 && rawBits < WidthLimit(byteWidth)
    ensures var raw := if c.rawValueType == Uint64 || 2 * rawBits < WidthLimit(byteWidth)
                       then rawBits else rawBits - WidthLimit(byteWidth);
            Decode(c, rawBits, byteWidth) == Decoded(d)
            <==> && 0 <= d.scale <= c.decimalPlaces
                 && d.coefficient * Pow10(c.decimalPlaces - d.scale)
                    == raw * Int(c.scaleCoefficient) + Int(c.biasCoefficient)
                 && (d.scale == 0 || d.coefficient % 10 != 0)
                 && -0x8000_0000_0000_0000 <= d.coefficient < 0x8000_0000_0000_0000
    ensures Decode(c, rawBits, byteWidth).Decoded?
            || Decode(c, rawBits, byteWidth) == DecodeFailed(LogicalOutOfRange)
  {
    hide InRange, RawValue, WidthLimit, Pow10, Strip, Int;
    PatternValue(rawBits, c.rawValueType, byteWidth);
    var raw := RawValue(rawBits, c.rawValueType, byteWidth);
    PatternsFillRange(raw, c.rawValueType, byteWidth);
    var n := raw * c.Scale() + c.Bias();
    StripFacts(n, c.decimalPlaces);
    if 0 <= d.scale <= c.decimalPlaces && (d.scale == 0 || d.coefficient % 10 != 0)
       && d.coefficient * Pow10(c.decimalPlaces - d.scale) == n
    {
      Associate(d.coefficient, Pow10(c.decimalPlaces - d.scale), Pow10(d.scale));
      Pow10Sum(c.decimalPlaces - d.scale, d.scale);
      StripFinds(n, c.decimalPlaces, d);
    }
  }

  /** `raw` satisfies (raw A + B) / 10^t == C / 10^s. */
  ghost predicate Equation(c: LinearConversion, logical: Decimal64, raw: int)
    requires logical.scale >= 0
  {
    (raw * Int(c.scaleCoefficient) + Int(c.biasCoefficient)) * Pow10(logical.scale)
    == logical.coefficient * Pow10(c.decimalPlaces)
  }

  /** Encode of a decimal: the pattern whose value satisfies the equation, or why there is none. */
  lemma EncodesPattern(c: LinearConversion, logical: Decimal64, byteWidth: nat, rawBits: nat)
    requires Moderate(c) && InInt64(logical.coefficient) && 1 <= byteWidth <= 8
    requires 0 <= logical.scale <= MAX_SCALE ==> Denominator(c, logical) != 0
    ensures Encode(c, logical, byteWidth) == Encoded(rawBits)
            <==> && 0 <= logical.scale <= 18 && rawBits < WidthLimit(byteWidth)
                 && Equation(c, logical,
                             if c.rawValueType == Uint64 || 2 * rawBits < WidthLimit(byteWidth)
                             then rawBits else rawBits - WidthLimit(byteWidth))
    ensures Encode(c, logical, byteWidth) == EncodeFailed(DecimalScaleOutOfRange)
            <==> !(0 <= logical.scale <= 18)
    ensures Encode(c, logical, byteWidth) == EncodeFailed(RawNotIntegral)
            <==> 0 <= logical.scale <= 18 && forall raw: int :: !Equation(c, logical, raw)
  {
    hide InRange, Solves, Numerator, Denominator, ToBits, RawValue, WidthLimit, Int, Pow10;
    if 0 <= logical.scale <= MAX_SCALE {
      forall raw: int
        ensures Equation(c, logical, raw) <==> Solves(c, logical, raw)
      {
        SolvesIsEquation(c, logical, raw);
      }
      EncodesExactly(c, logical, byteWidth);
      if Encode(c, logical, byteWidth).Encoded? {
        var raw :| InRange(raw, c.rawValueType, byteWidth) && Solves(c, logical, raw);
        BitsRead(raw, c.rawValueType, byteWidth);
        PatternValue(ToBits(raw, byteWidth), c.rawValueType, byteWidth);
      }
      if rawBits < WidthLimit(byteWidth) {
        PatternValue(rawBits, c.rawValueType, byteWidth);
        var value := RawValue(rawBits, c.rawValueType, byteWidth);
        PatternsFillRange(value, c.rawValueType, byteWidth);
        BitsWritten(rawBits, c.rawValueType, byteWidth);
        DivIs(rawBits, WidthLimit(byteWidth), 0, rawBits);
      }
      NoSolution(c, logical);
    }
  }

  lemma SolvesIsEquation(c: LinearConversion, logical: Decimal64, raw: int)
    requires logical.scale >= 0
    ensures Equation(c, logical, raw) <==> Solves(c, logical, raw)
  {
  }

  /** No quotient, no solution. */
  lemma NoSolution(c: LinearConversion, logical: Decimal64)
    requires logical.scale >= 0 && Denominator(c, logical) != 0
    ensures Numerator(c, logical) % Denominator(c, logical) != 0
            <==> forall raw: int :: !Solves(c, logical, raw)
  {
    hide Solves, Numerator, Denominator;
    if Numerator(c, logical) % Denominator(c, logical) == 0 {
      QuotientSolves(c, logical);
    } else {
      forall raw: int
        ensures !Solves(c, logical, raw)
      {
        if Solves(c, logical, raw) {
          SolutionIsQuotient(c, logical, raw);
        }
      }
    }
  }

  /**
   * Decoding and encoding again gives the bits back: all of those the wire width has. Bits above
   * the width are lost, and nothing else is.
   */
  lemma DecodeThenEncode(c: LinearConversion, rawBits: nat, byteWidth: nat)
    requires Moderate(c) && 1 <= byteWidth <= 8 && rawBits < TWO_64
    requires Decode(c, rawBits, byteWidth).Decoded?
    ensures var logical := Decode(c, rawBits, byteWidth).value;
            && 0 <= logical.scale <= MAX_SCALE && InInt64(logical.coefficient)
            && Denominator(c, logical) != 0
            && Encode(c, logical, byteWidth) == Encoded(rawBits % WidthLimit(byteWidth))
    ensures var back := Encode(c, Decode(c, rawBits, byteWidth).value, byteWidth);
            back == Encoded(rawBits) <==> rawBits < WidthLimit(byteWidth)
  {
    hide InRange, ToBits, RawValue, WidthLimit, Encode, Solves, Numerator;
    var raw := RawValue(rawBits, c.rawValueType, byteWidth);
    var logical := Decode(c, rawBits, byteWidth).value;
    var n := raw * c.Scale() + c.Bias();
    StripFacts(n, c.decimalPlaces);
    StripSameValue(n, c.decimalPlaces);
    NonZeroProduct(c.Scale(), Pow10(Larger(logical.scale, c.decimalPlaces) - c.decimalPlaces));
    ReadSolves(c, logical, raw);
    EncodesExactly(c, logical, byteWidth);
    BitsWritten(rawBits, c.rawValueType, byteWidth);
    DivMod(rawBits, WidthLimit(byteWidth));
    if rawBits < WidthLimit(byteWidth) {
      DivIs(rawBits, WidthLimit(byteWidth), 0, rawBits);
    }
  }

  /**
   * A pattern that does not come back: 0x180 in a field of one byte reads as -128, which is written
   * as 0x80. The codec never passes such bits, for what it loads from `width` bytes is below
   * WidthLimit(width).
   */
  lemma BitsAboveAreLost(c: LinearConversion)
    requires c.rawValueType == Int64 && c.decimalPlaces == 0 && c.Scale() == 1 && c.Bias() == 0
    ensures Decode(c, 0x180, 1) == Decoded(Decimal64(-128, 0))
    ensures Encode(c, Decimal64(-128, 0), 1) == Encoded(0x80)
  {
    hide Pow2, Pow10, Int, InRange;
    OneByteFacts();
    assert RawValue(0x180, Int64, 1) == -128;
    assert Numerator(c, Decimal64(-128, 0)) == -128 && Denominator(c, Decimal64(-128, 0)) == 1;
  }

  lemma OneByteFacts()
    ensures Pow2(7) == 128 && WidthLimit(1) == 256 && Pow10(0) == 1
    ensures InRange(-128, Int64, 1)
  {
    assert Pow2(8) == 2 * Pow2(7);
    assert Pow2(3) == 8 && Pow2(4) == 16;
    Pow2Sum(3, 4);
  }

  lemma ReadSolves(c: LinearConversion, logical: Decimal64, raw: int)
    requires logical.scale >= 0
    requires SameValue(logical, Decimal64(raw * c.Scale() + c.Bias(), c.decimalPlaces))
    ensures Solves(c, logical, raw)
  {
  }

  lemma DecimalPlacesBound(c: LinearConversion)
    requires Moderate(c)
    ensures c.decimalPlaces <= MAX_SCALE
  {
  }

  /**
   * Encoding and decoding again gives an equal decimal, so the review of a written decimal field
   * cannot fail.
   */
  lemma EncodeThenDecode(c: LinearConversion, logical: Decimal64, byteWidth: nat)
    requires Moderate(c) && InInt64(logical.coefficient)
    requires 0 <= logical.scale <= MAX_SCALE ==> Denominator(c, logical) != 0
    requires Encode(c, logical, byteWidth).Encoded?
    ensures 1 <= byteWidth <= 8
    ensures var bits := Encode(c, logical, byteWidth).rawBits;
            && bits < WidthLimit(byteWidth) <= TWO_64
            && Decode(c, bits, byteWidth).Decoded?
            && 0 <= Decode(c, bits, byteWidth).value.scale <= MAX_SCALE
            && SameValue(Decode(c, bits, byteWidth).value, logical)
  {
    hide Encode, ToBits, RawValue, WidthLimit, Numerator, Denominator, Strip, Pow10, Moderate;
    DecimalPlacesBound(c);
    EncodesExactly(c, logical, byteWidth);
    var raw :| InRange(raw, c.rawValueType, byteWidth) && Solves(c, logical, raw);
    BitsRead(raw, c.rawValueType, byteWidth);
    var n := raw * c.Scale() + c.Bias();
    var whole := Decimal64(n, c.decimalPlaces);
    var stripped := Strip(logical.coefficient, logical.scale);
    StripFacts(logical.coefficient, logical.scale);
    StripSameValue(logical.coefficient, logical.scale);
    StripInRange(logical.coefficient, logical.scale);
    SameValueTransitive(whole, logical, stripped);
    StripFinds(n, c.decimalPlaces, stripped);
  }
}
