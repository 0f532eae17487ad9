/**
 * The two checksums of the codec, CRC-16/CRC-32 with free parameters and SUM8, and which errors
 * they cannot miss.
 */
module Integrity {
  import opened Bytes
  import opened Words

  /** A frozen CRC: width 16 or 32, parameters within the width, low bit of the polynomial set. */
  datatype CrcParameters = CrcParameters(
    width: nat,
    polynomial: bv32,
    initialValue: bv32,
    reflectInput: bool,
    reflectOutput: bool,
    xorOutput: bv32)
  {
    function Mask(): bv32 {
      if width == 16 then 0xFFFF else 0xFFFF_FFFF
    }

    function TopBit(): bv32 {
      if width == 16 then 0x8000 else 0x8000_0000
    }
  }

  predicate ValidCrc(p: CrcParameters) {
    && (p.width == 16 || p.width == 32)
    && p.polynomial != 0 && p.polynomial & 1 != 0
    && p.polynomial & p.Mask() == p.polynomial
    && p.initialValue & p.Mask() == p.initialValue
    && p.xorOutput & p.Mask() == p.xorOutput
  }

  // ---------------------------------------------------------------- words

  // Names for the machine's operations on words, so that proofs can use their laws without
  // looking at bits.

  function Xor(x: bv32, y: bv32): bv32 {
    x ^ y
  }

  function And(x: bv32, y: bv32): bv32 {
    x & y
  }

  function Shl(x: bv32): bv32 {
    x << 1
  }

  lemma XorAssociates(a: bv32, b: bv32, c: bv32)
    ensures Xor(Xor(a, b), c) == Xor(a, Xor(b, c))
  {
    assert (a ^ b) ^ c == a ^ (b ^ c);
  }

  lemma XorCommutes(a: bv32, b: bv32)
    ensures Xor(a, b) == Xor(b, a)
  {
  }

  lemma XorRegroup(a: bv32, b: bv32, c: bv32, d: bv32)
    ensures Xor(Xor(a, b), Xor(c, d)) == Xor(Xor(a, c), Xor(b, d))
  {
    hide Xor;
    XorAssociates(a, b, Xor(c, d));
    XorAssociates(b, c, d);
    XorCommutes(b, c);
    XorAssociates(c, b, d);
    XorAssociates(a, c, Xor(b, d));
  }

  lemma XorCancels(x: bv32, y: bv32, z: bv32)
    ensures Xor(x, z) == Xor(y, z) <==> x == y
    ensures Xor(z, x) == Xor(z, y) <==> x == y
  {
  }

  lemma XorNothing(x: bv32)
    ensures Xor(x, 0) == x && Xor(0, x) == x && Xor(x, x) == 0
  {
  }

  lemma ShlXor(x: bv32, y: bv32)
    ensures Shl(Xor(x, y)) == Xor(Shl(x), Shl(y))
  {
  }

  lemma AndXor16(x: bv32, y: bv32)
    ensures And(Xor(x, y), 0xFFFF) == Xor(And(x, 0xFFFF), And(y, 0xFFFF))
  {
  }

  lemma AndXor32(x: bv32, y: bv32)
    ensures And(Xor(x, y), 0xFFFF_FFFF) == Xor(And(x, 0xFFFF_FFFF), And(y, 0xFFFF_FFFF))
  {
  }

  lemma MaskXor(p: CrcParameters, x: bv32, y: bv32)
    ensures And(Xor(x, y), p.Mask()) == Xor(And(x, p.Mask()), And(y, p.Mask()))
  {
    hide And, Xor;
    if p.width == 16 {
      AndXor16(x, y);
    } else {
      AndXor32(x, y);
    }
  }

  lemma AndTwice(v: bv32, m: bv32)
    ensures And(And(v, m), m) == And(v, m)
  {
  }

  lemma NothingAnd(m: bv32)
    ensures And(0, m) == 0
  {
  }

  // ---------------------------------------------------------------- one register step

  function Shifted(p: CrcParameters, v: bv32): bv32 {
    And(Shl(v), p.Mask())
  }

  predicate FallsOut(p: CrcParameters, v: bv32) {
    And(v, p.TopBit()) != 0
  }

  /** Shift left by one; the bit that falls out feeds the polynomial back. */
  function Step(p: CrcParameters, v: bv32): bv32 {
    if FallsOut(p, v) then Xor(Shifted(p, v), p.polynomial) else Shifted(p, v)
  }

  function Steps(p: CrcParameters, v: bv32, k: nat): bv32
    decreases k
  {
    if k == 0 then v else Steps(p, Step(p, v), k - 1)
  }

  predicate Within(p: CrcParameters, v: bv32) {
    And(v, p.Mask()) == v
  }

  lemma XorWithin(p: CrcParameters, x: bv32, y: bv32)
    requires Within(p, x) && Within(p, y)
    ensures Within(p, Xor(x, y))
  {
    hide Xor, And;
    MaskXor(p, x, y);
  }

  lemma ValidPolynomial(p: CrcParameters)
    requires ValidCrc(p)
    ensures Within(p, p.polynomial) && Within(p, p.initialValue) && Within(p, p.xorOutput)
    ensures And(p.polynomial, 1) != 0 && (p.width == 16 || p.width == 32)
  {
  }

  lemma StepWithin(p: CrcParameters, v: bv32)
    requires ValidCrc(p)
    ensures Within(p, Step(p, v))
  {
    hide Xor, And, Shl, ValidCrc;
    ValidPolynomial(p);
    AndTwice(Shl(v), p.Mask());
    XorWithin(p, Shifted(p, v), p.polynomial);
  }

  lemma ShiftedXor(p: CrcParameters, x: bv32, y: bv32)
    ensures Shifted(p, Xor(x, y)) == Xor(Shifted(p, x), Shifted(p, y))
  {
    hide Xor, And, Shl;
    ShlXor(x, y);
    MaskXor(p, Shl(x), Shl(y));
  }

  lemma TopOfXor16(x: bv32, y: bv32)
    ensures And(Xor(x, y), 0x8000) != 0 <==> (And(x, 0x8000) != 0) != (And(y, 0x8000) != 0)
  {
  }

  lemma TopOfXor32(x: bv32, y: bv32)
    ensures And(Xor(x, y), 0x8000_0000) != 0
            <==> (And(x, 0x8000_0000) != 0) != (And(y, 0x8000_0000) != 0)
  {
  }

  lemma FallsOutXor(p: CrcParameters, x: bv32, y: bv32)
    ensures FallsOut(p, Xor(x, y)) <==> FallsOut(p, x) != FallsOut(p, y)
  {
    hide And, Xor;
    if p.width == 16 {
      TopOfXor16(x, y);
    } else {
      TopOfXor32(x, y);
    }
  }

  /** The register step is linear. */
  lemma StepXor(p: CrcParameters, x: bv32, y: bv32)
    ensures Step(p, Xor(x, y)) == Xor(Step(p, x), Step(p, y))
  {
    hide Xor, Shifted, FallsOut;
    var a, b, c := Shifted(p, x), Shifted(p, y), p.polynomial;
    ShiftedXor(p, x, y);
    FallsOutXor(p, x, y);
    XorRegroup(a, c, b, c);
    XorNothing(c);
    XorNothing(Xor(a, b));
    XorAssociates(a, b, c);
    XorAssociates(a, c, b);
    XorCommutes(b, c);
  }

  lemma ShiftIsEven(x: bv32)
    ensures (x << 1) & 0xFFFF & 1 == 0 && (x << 1) & 0xFFFF_FFFF & 1 == 0
  {
  }

  lemma ShiftLosesTop16(x: bv32, y: bv32)
    requires And(x, 0xFFFF) == x && And(y, 0xFFFF) == y
    requires And(Shl(x), 0xFFFF) == And(Shl(y), 0xFFFF)
    requires (And(x, 0x8000) != 0) == (And(y, 0x8000) != 0)
    ensures x == y
  {
  }

  lemma ShiftLosesTop32(x: bv32, y: bv32)
    requires And(Shl(x), 0xFFFF_FFFF) == And(Shl(y), 0xFFFF_FFFF)
    requires (And(x, 0x8000_0000) != 0) == (And(y, 0x8000_0000) != 0)
    ensures x == y
  {
  }

  lemma ShiftLosesTop(p: CrcParameters, x: bv32, y: bv32)
    requires Within(p, x) && Within(p, y)
    requires Shifted(p, x) == Shifted(p, y) && FallsOut(p, x) == FallsOut(p, y)
    ensures x == y
  {
    hide And, Shl;
    if p.width == 16 {
      ShiftLosesTop16(x, y);
    } else {
      ShiftLosesTop32(x, y);
    }
  }

  lemma OddEven(a: bv32, polynomial: bv32)
    requires And(a, 1) == 0 && And(polynomial, 1) != 0
    ensures And(Xor(a, polynomial), 1) != 0
  {
  }

  lemma ShiftedEven(p: CrcParameters, v: bv32)
    ensures And(Shifted(p, v), 1) == 0
  {
    ShiftIsEven(v);
  }

  /** The register step loses nothing, because the polynomial's low bit marks the feedback. */
  lemma StepInjective(p: CrcParameters, x: bv32, y: bv32)
    requires ValidCrc(p) && Within(p, x) && Within(p, y) && Step(p, x) == Step(p, y)
    ensures x == y
  {
    hide Xor, And, Shl, Shifted, FallsOut, Within, ValidCrc;
    ValidPolynomial(p);
    ShiftedEven(p, x);
    ShiftedEven(p, y);
    OddEven(Shifted(p, x), p.polynomial);
    OddEven(Shifted(p, y), p.polynomial);
    XorCancels(Shifted(p, x), Shifted(p, y), p.polynomial);
    ShiftLosesTop(p, x, y);
  }

  lemma {:induction false} StepsWithin(p: CrcParameters, v: bv32, k: nat)
    requires ValidCrc(p) && Within(p, v)
    ensures Within(p, Steps(p, v, k))
    decreases k
  {
    hide Step, Within, ValidCrc;
    if k > 0 {
      StepWithin(p, v);
      StepsWithin(p, Step(p, v), k - 1);
    }
  }

  lemma {:induction false} StepsXor(p: CrcParameters, x: bv32, y: bv32, k: nat)
    ensures Steps(p, Xor(x, y), k) == Xor(Steps(p, x, k), Steps(p, y, k))
    decreases k
  {
    hide Step, Xor;
    if k > 0 {
      StepXor(p, x, y);
      StepsXor(p, Step(p, x), Step(p, y), k - 1);
    }
  }

  lemma {:induction false} StepsInjective(p: CrcParameters, x: bv32, y: bv32, k: nat)
    requires ValidCrc(p) && Within(p, x) && Within(p, y) && Steps(p, x, k) == Steps(p, y, k)
    ensures x == y
    decreases k
  {
    hide Step, Within, ValidCrc;
    if k > 0 {
      StepWithin(p, x);
      StepWithin(p, y);
      StepsInjective(p, Step(p, x), Step(p, y), k - 1);
      StepInjective(p, x, y);
    }
  }

  lemma {:induction false} StepsSum(p: CrcParameters, v: bv32, i: nat, j: nat)
    ensures Steps(p, v, i + j) == Steps(p, Steps(p, v, i), j)
    decreases i
  {
    hide Step, Within, ValidCrc;
    if i > 0 {
      StepsSum(p, Step(p, v), i - 1, j);
    }
  }

  // ---------------------------------------------------------------- bit reversal

  /** The source's loop: low bits of the value become high bits of the result. */
  function Reversed(reversed: bv32, value: bv32, count: nat): bv32
    decreases count
  {
    if count == 0 then reversed
    else Reversed((reversed << 1) | (value & 1), value >> 1, count - 1)
  }

  method ReverseLowBits(value: bv32, width: nat) returns (reversed: bv32)
    ensures reversed == Reversed(0, value, width)
  {
    reversed := 0;
    var rest := value;
    for index := 0 to width
      invariant Reversed(reversed, rest, width - index) == Reversed(0, value, width)
    {
      reversed := (reversed << 1) | (rest & 1);
      rest := rest >> 1;
    }
  }

  function Join(r: bv32, x: bv32): bv32 {
    (r << 8) | x
  }

  function Shr8(x: bv32): bv32 {
    x >> 8
  }

  /** The low eight bits, in reverse. */
  function ReverseByte(x: bv32): bv32 {
    ((x & 1) << 7) | ((x & 2) << 5) | ((x & 4) << 3) | ((x & 8) << 1)
    | ((x & 16) >> 1) | ((x & 32) >> 3) | ((x & 64) >> 5) | ((x & 128) >> 7)
  }

  /** One turn of the loop, on the reversed bits and on those to come. */
  function Turned(r: bv32, v: bv32): bv32 {
    (r << 1) | (v & 1)
  }

  lemma ReversedOnce(r: bv32, v: bv32, k: nat) returns (r': bv32, v': bv32)
    requires k > 0
    ensures r' == Turned(r, v) && v' == Shr1(v)
    ensures Reversed(r, v, k) == Reversed(r', v', k - 1)
  {
    r', v' := Turned(r, v), Shr1(v);
  }

  lemma HalfByteTurns(r: bv32, v: bv32) returns (r4: bv32, v4: bv32)
    ensures r4 == Turned(Turned(Turned(Turned(r, v), Shr1(v)), Shr1(Shr1(v))), Shr1(Shr1(Shr1(v))))
    ensures v4 == Shr1(Shr1(Shr1(Shr1(v))))
    ensures r4 == (r << 4) | ((v & 1) << 3) | ((v & 2) << 1) | ((v & 4) >> 1) | ((v & 8) >> 3)
    ensures v4 == v >> 4
  {
    r4 := (r << 4) | ((v & 1) << 3) | ((v & 2) << 1) | ((v & 4) >> 1) | ((v & 8) >> 3);
    v4 := v >> 4;
  }

  lemma TwoHalves(r: bv32, v: bv32, r4: bv32, v4: bv32, r8: bv32, v8: bv32)
    requires r4 == (r << 4) | ((v & 1) << 3) | ((v & 2) << 1) | ((v & 4) >> 1) | ((v & 8) >> 3)
    requires v4 == v >> 4 && v8 == v4 >> 4
    requires r8 == (r4 << 4) | ((v4 & 1) << 3) | ((v4 & 2) << 1) | ((v4 & 4) >> 1) | ((v4 & 8) >> 3)
    ensures r8 == Join(r, ReverseByte(v)) && v8 == Shr8(v)
  {
  }

  /** Eight turns of the loop at a time. */
  lemma ReversedByte(r: bv32, v: bv32, k: nat)
    requires k >= 8
    ensures Reversed(r, v, k) == Reversed(Join(r, ReverseByte(v)), Shr8(v), k - 8)
  {
    hide Reversed, Turned, Shr1, Join, ReverseByte, Shr8;
    var r4, v4 := HalfByteTurns(r, v);
    ReversedFour(r, v, k);
    var r8, v8 := HalfByteTurns(r4, v4);
    ReversedFour(r4, v4, k - 4);
    TwoHalves(r, v, r4, v4, r8, v8);
  }

  lemma ReversedFour(r: bv32, v: bv32, k: nat)
    requires k >= 4
    ensures Reversed(r, v, k)
            == Reversed(Turned(Turned(Turned(Turned(r, v), Shr1(v)), Shr1(Shr1(v))),
                               Shr1(Shr1(Shr1(v)))),
                        Shr1(Shr1(Shr1(Shr1(v)))), k - 4)
  {
    hide Reversed, Turned, Shr1;
    var r1, v1 := ReversedOnce(r, v, k);
    var r2, v2 := ReversedOnce(r1, v1, k - 1);
    var r3, v3 := ReversedOnce(r2, v2, k - 2);
    var r4, v4 := ReversedOnce(r3, v3, k - 3);
  }

  lemma ReverseByteInjective(x: bv32, y: bv32)
    requires ReverseByte(x) == ReverseByte(y)
    ensures And(x, 0xFF) == And(y, 0xFF)
  {
  }

  lemma ReverseByteSmall(x: bv32)
    ensures ReverseByte(x) < 0x100
  {
  }

  lemma JoinInjective(r: bv32, x: bv32, s: bv32, y: bv32)
    requires r < 0x100_0000 && s < 0x100_0000 && x < 0x100 && y < 0x100
    requires Join(r, x) == Join(s, y)
    ensures r == s && x == y
  {
  }

  lemma JoinBounds(r: bv32, x: bv32)
    requires x < 0x100
    ensures r == 0 ==> Join(r, x) < 0x100
    ensures r < 0x100 ==> Join(r, x) < 0x1_0000
    ensures r < 0x1_0000 ==> Join(r, x) < 0x100_0000
  {
  }

  /** The state of the reversal after `n` whole bytes of `v`. */
  function BytesReversed(v: bv32, n: nat): bv32 {
    if n == 0 then 0 else Join(BytesReversed(v, n - 1), ReverseByte(BytesDropped(v, n - 1)))
  }

  function BytesDropped(v: bv32, n: nat): bv32 {
    if n == 0 then v else Shr8(BytesDropped(v, n - 1))
  }

  lemma {:induction false} ReversedBytes(v: bv32, n: nat, k: nat)
    requires 8 * n <= k
    ensures Reversed(0, v, k) == Reversed(BytesReversed(v, n), BytesDropped(v, n), k - 8 * n)
  {
    hide Reversed, ReverseByte, Join, Shr8;
    if n > 0 {
      ReversedBytes(v, n - 1, k);
      ReversedByte(BytesReversed(v, n - 1), BytesDropped(v, n - 1), k - 8 * (n - 1));
    }
  }

  predicate Small(v: bv32, n: nat) {
    (n == 0 ==> v == 0) && (n == 1 ==> v < 0x100) && (n == 2 ==> v < 0x1_0000)
    && (n == 3 ==> v < 0x100_0000)
  }

  lemma JoinSmall(r: bv32, x: bv32, n: nat)
    requires Small(r, n) && n < 4 && x < 0x100
    ensures Small(Join(r, x), n + 1) && r < 0x100_0000
  {
    hide Join;
    JoinBounds(r, x);
  }

  lemma {:induction false} BytesReversedInjective(v: bv32, u: bv32, n: nat, i: nat)
    requires i < n <= 4 && BytesReversed(v, n) == BytesReversed(u, n)
    ensures And(BytesDropped(v, i), 0xFF) == And(BytesDropped(u, i), 0xFF)
  {
    hide ReverseByte, Join, And, Small, BytesDropped;
    BytesReversedSmall(v, n - 1);
    BytesReversedSmall(u, n - 1);
    var x, y := ReverseByte(BytesDropped(v, n - 1)), ReverseByte(BytesDropped(u, n - 1));
    ReverseByteSmall(BytesDropped(v, n - 1));
    ReverseByteSmall(BytesDropped(u, n - 1));
    JoinSmall(BytesReversed(v, n - 1), x, n - 1);
    JoinSmall(BytesReversed(u, n - 1), y, n - 1);
    JoinInjective(BytesReversed(v, n - 1), x, BytesReversed(u, n - 1), y);
    ReverseByteInjective(BytesDropped(v, n - 1), BytesDropped(u, n - 1));
    if i < n - 1 {
      BytesReversedInjective(v, u, n - 1, i);
    }
  }

  lemma {:induction false} BytesReversedSmall(v: bv32, n: nat)
    requires n < 4
    ensures Small(BytesReversed(v, n), n)
  {
    hide ReverseByte, Join, BytesDropped, Small;
    if n > 0 {
      BytesReversedSmall(v, n - 1);
      ReverseByteSmall(BytesDropped(v, n - 1));
      JoinSmall(BytesReversed(v, n - 1), ReverseByte(BytesDropped(v, n - 1)), n - 1);
    } else {
      SmallZero();
    }
  }

  lemma SmallZero()
    ensures Small(0, 0)
  {
  }

  lemma SameByte(x: bv32, y: bv32)
    requires And(x, 0xFF) == x && And(y, 0xFF) == y && And(x, 0xFF) == And(y, 0xFF)
    ensures x == y
  {
  }

  lemma SameBytes16(x: bv32, y: bv32)
    requires And(x, 0xFFFF) == x && And(y, 0xFFFF) == y
    requires And(x, 0xFF) == And(y, 0xFF) && And(Shr8(x), 0xFF) == And(Shr8(y), 0xFF)
    ensures x == y
  {
  }

  lemma SameBytes32(x: bv32, y: bv32)
    requires And(x, 0xFF) == And(y, 0xFF) && And(Shr8(x), 0xFF) == And(Shr8(y), 0xFF)
    requires And(Shr8(Shr8(x)), 0xFF) == And(Shr8(Shr8(y)), 0xFF)
    requires And(Shr8(Shr8(Shr8(x))), 0xFF) == And(Shr8(Shr8(Shr8(y))), 0xFF)
    ensures x == y
  {
  }

  lemma Dropped(v: bv32)
    ensures BytesDropped(v, 0) == v && BytesDropped(v, 1) == Shr8(v)
    ensures BytesDropped(v, 2) == Shr8(Shr8(v)) && BytesDropped(v, 3) == Shr8(Shr8(Shr8(v)))
  {
    hide Shr8;
    assert BytesDropped(v, 1) == Shr8(BytesDropped(v, 0));
    assert BytesDropped(v, 2) == Shr8(BytesDropped(v, 1));
    assert BytesDropped(v, 3) == Shr8(BytesDropped(v, 2));
  }

  /** Reversal of whole bytes loses nothing of a value that has no more bits than that. */
  lemma ReversedInjective(x: bv32, y: bv32, n: nat)
    requires n == 1 || n == 2 || n == 4
    requires n == 1 ==> And(x, 0xFF) == x && And(y, 0xFF) == y
    requires n == 2 ==> And(x, 0xFFFF) == x && And(y, 0xFFFF) == y
    requires Reversed(0, x, 8 * n) == Reversed(0, y, 8 * n)
    ensures x == y
  {
    hide ReverseByte, Join, And, Shr8, BytesDropped, BytesReversed;
    ReversedBytes(x, n, 8 * n);
    ReversedBytes(y, n, 8 * n);
    Dropped(x);
    Dropped(y);
    BytesReversedInjective(x, y, n, 0);
    if n == 1 {
      SameByte(x, y);
    } else {
      BytesReversedInjective(x, y, n, 1);
      if n == 2 {
        SameBytes16(x, y);
      } else {
        BytesReversedInjective(x, y, n, 2);
        BytesReversedInjective(x, y, n, 3);
        SameBytes32(x, y);
      }
    }
  }

  lemma ReversedWithin(x: bv32)
    ensures And(Reversed(0, x, 8), 0xFF) == Reversed(0, x, 8)
    ensures And(Reversed(0, x, 16), 0xFFFF) == Reversed(0, x, 16)
  {
    hide Reversed, BytesReversed, BytesDropped, Join, ReverseByte;
    ReversedBytes(x, 1, 8);
    ReversedBytes(x, 2, 16);
    BytesReversedSmall(x, 1);
    BytesReversedSmall(x, 2);
    NothingLeft(BytesReversed(x, 1), BytesDropped(x, 1));
    NothingLeft(BytesReversed(x, 2), BytesDropped(x, 2));
  }

  lemma NothingLeft(r: bv32, v: bv32)
    ensures Reversed(r, v, 0) == r
    ensures r < 0x100 ==> And(r, 0xFF) == r
    ensures r < 0x1_0000 ==> And(r, 0xFFFF) == r
  {
  }

  // ---------------------------------------------------------------- the checksum

  /** `input << (width - 8)`. */
  function Placed(p: CrcParameters, x: bv32): bv32 {
    if p.width == 16 then x << 8 else x << 24
  }

  function InputByte(p: CrcParameters, b: byte): bv32 {
    if p.reflectInput then Reversed(0, Word(b), 8) else Word(b)
  }

  /** A byte, widened. */
  function Word(b: byte): bv32 {
    (b as bv8) as bv32
  }

  function AddByte(p: CrcParameters, v: bv32, b: byte): bv32 {
    Steps(p, Xor(v, Placed(p, InputByte(p, b))), 8)
  }

  function Register(p: CrcParameters, v: bv32, data: bytes): bv32
    decreases |data|
  {
    if data == [] then v else Register(p, AddByte(p, v, data[0]), data[1..])
  }

  function Finish(p: CrcParameters, v: bv32): bv32 {
    And(Xor(if p.reflectOutput then Reversed(0, v, p.width) else v, p.xorOutput), p.Mask())
  }

  function CrcOf(p: CrcParameters, data: bytes): bv32 {
    Finish(p, Register(p, p.initialValue, data))
  }

  method Crc(p: CrcParameters, data: bytes, rangeOffset: nat, rangeLength: nat) returns (crc: bv32)
    requires p.width == 16 || p.width == 32
    requires rangeOffset + rangeLength <= |data|
    ensures crc == CrcOf(p, data[rangeOffset..rangeOffset + rangeLength])
  {
    hide Xor, And, Shl, Reversed, Placed;
    ghost var covered := data[rangeOffset..rangeOffset + rangeLength];
    var value := p.initialValue;
    assert covered[0..] == covered;
    for index := 0 to rangeLength
      invariant Register(p, value, covered[index..]) == Register(p, p.initialValue, covered)
    {
      var b := data[rangeOffset + index];
      var input := Word(b);
      if p.reflectInput {
        input := ReverseLowBits(input, 8);
      }
      ghost var before := value;
      value := Xor(value, Placed(p, input));
      for bit := 0 to 8
        invariant Steps(p, value, 8 - bit) == AddByte(p, before, b)
      {
        var high := And(value, p.TopBit()) != 0;
        value := And(Shl(value), p.Mask());
        if high {
          value := Xor(value, p.polynomial);
        }
      }
      assert covered[index..][0] == b && covered[index..][1..] == covered[index + 1..];
    }
    assert covered[rangeLength..] == [];
    if p.reflectOutput {
      value := ReverseLowBits(value, p.width);
    }
    crc := And(Xor(value, p.xorOutput), p.Mask());
  }

  lemma ByteWord(b: byte)
    ensures And(Word(b), 0xFF) == Word(b)
  {
    WidenedSmall(b as bv8);
  }

  lemma WidenedSmall(w: bv8)
    ensures And(w as bv32, 0xFF) == w as bv32
  {
  }

  lemma WordInjective(a: byte, b: byte)
    requires Word(a) == Word(b)
    ensures a == b
  {
    Widened(a as bv8, b as bv8);
    NarrowByte(a);
    NarrowByte(b);
  }

  lemma InputByteSmall(p: CrcParameters, b: byte)
    ensures And(InputByte(p, b), 0xFF) == InputByte(p, b)
  {
    hide And, Reversed, Word;
    ByteWord(b);
    ReversedWithin(Word(b));
  }

  lemma InputByteInjective(p: CrcParameters, a: byte, b: byte)
    requires InputByte(p, a) == InputByte(p, b)
    ensures a == b
  {
    hide And, Reversed, Word;
    ByteWord(a);
    ByteWord(b);
    if p.reflectInput {
      ReversedInjective(Word(a), Word(b), 1);
    }
    WordInjective(a, b);
  }

  lemma PlacedWithin(p: CrcParameters, x: bv32)
    requires ValidCrc(p) && And(x, 0xFF) == x
    ensures Within(p, Placed(p, x))
  {
    PlacedWithin16(x);
    FullMask(x << 24);
  }

  lemma PlacedWithin16(x: bv32)
    requires And(x, 0xFF) == x
    ensures And(x << 8, 0xFFFF) == x << 8
  {
  }

  lemma FullMask(x: bv32)
    ensures And(x, 0xFFFF_FFFF) == x
  {
  }

  lemma AddByteWithin(p: CrcParameters, v: bv32, b: byte)
    requires ValidCrc(p) && Within(p, v)
    ensures Within(p, Xor(v, Placed(p, InputByte(p, b)))) && Within(p, AddByte(p, v, b))
  {
    hide And, Xor, Placed, Within, ValidCrc, Steps, InputByte;
    InputByteSmall(p, b);
    PlacedWithin(p, InputByte(p, b));
    XorWithin(p, v, Placed(p, InputByte(p, b)));
    StepsWithin(p, Xor(v, Placed(p, InputByte(p, b))), 8);
  }

  /** The register, after equal bytes, remembers what it was. */
  lemma {:induction false} RegisterInjective(p: CrcParameters, v: bv32, u: bv32, data: bytes)
    requires ValidCrc(p) && Within(p, v) && Within(p, u)
    requires Register(p, v, data) == Register(p, u, data)
    ensures v == u
    decreases |data|
  {
    hide And, Xor, Placed, Within, ValidCrc, Steps, InputByte;
    if data != [] {
      var placed := Placed(p, InputByte(p, data[0]));
      AddByteWithin(p, v, data[0]);
      AddByteWithin(p, u, data[0]);
      RegisterInjective(p, AddByte(p, v, data[0]), AddByte(p, u, data[0]), data[1..]);
      StepsInjective(p, Xor(v, placed), Xor(u, placed), 8);
      XorCancels(v, u, placed);
    }
  }

  lemma {:induction false} RegisterWithin(p: CrcParameters, v: bv32, data: bytes)
    requires ValidCrc(p) && Within(p, v)
    ensures Within(p, Register(p, v, data))
    decreases |data|
  {
    hide And, Xor, Placed, Within, ValidCrc, Steps, InputByte, AddByte;
    if data != [] {
      AddByteWithin(p, v, data[0]);
      RegisterWithin(p, AddByte(p, v, data[0]), data[1..]);
    }
  }

  lemma {:induction false} RegisterSplit(p: CrcParameters, v: bv32, a: bytes, b: bytes)
    ensures Register(p, v, a + b) == Register(p, Register(p, v, a), b)
    decreases |a|
  {
    hide AddByte;
    if a == [] {
      assert a + b == b;
    } else {
      assert (a + b)[1..] == a[1..] + b;
      RegisterSplit(p, AddByte(p, v, a[0]), a[1..], b);
    }
  }

  lemma FinishWithin(p: CrcParameters, v: bv32)
    ensures Within(p, Finish(p, v))
  {
    hide And, Xor, Reversed;
    AndTwice(Xor(if p.reflectOutput then Reversed(0, v, p.width) else v, p.xorOutput), p.Mask());
  }

  lemma FinishInjective(p: CrcParameters, v: bv32, u: bv32)
    requires ValidCrc(p) && Within(p, v) && Within(p, u) && Finish(p, v) == Finish(p, u)
    ensures v == u
  {
    hide And, Xor, Reversed, ValidCrc;
    ValidPolynomial(p);
    var x := if p.reflectOutput then Reversed(0, v, p.width) else v;
    var y := if p.reflectOutput then Reversed(0, u, p.width) else u;
    ReversedWithin(v);
    ReversedWithin(u);
    FullMask(x);
    FullMask(y);
    XorWithin(p, x, p.xorOutput);
    XorWithin(p, y, p.xorOutput);
    XorCancels(x, y, p.xorOutput);
    if p.reflectOutput {
      ReversedInjective(v, u, p.width / 8);
    }
  }

  // ---------------------------------------------------------------- bursts

  /** A burst no longer than the register, as if it had been shifted in before any feedback. */
  function Packed(p: CrcParameters, data: bytes): bv32 {
    if data == [] then 0
    else Xor(Placed(p, InputByte(p, data[0])), Shr8(Packed(p, data[1..])))
  }

  /** The bits below the top `m` bytes of the register. */
  function LowMask(p: CrcParameters, m: nat): bv32 {
    if p.width == 16 then if m == 0 then 0xFFFF else if m == 1 then 0xFF else 0
    else if m == 0 then 0xFFFF_FFFF else if m == 1 then 0xFF_FFFF
    else if m == 2 then 0xFFFF else if m == 3 then 0xFF else 0
  }

  lemma ShrLow16(v: bv32, x: bv32)
    requires And(v, 0xFFFF) == v && (And(x, 0xFF) == x || x == 0)
    ensures And(Shr8(v), 0xFFFF) == Shr8(v)
    ensures And(v, 0xFFFF) == 0 ==> And(Xor(x << 8, Shr8(v)), 0xFF) == 0
  {
  }

  lemma ShrLow32(v: bv32, x: bv32)
    requires And(x, 0xFF) == x
    ensures And(v, 0xFFFF_FFFF) == 0 ==> And(Xor(x << 24, Shr8(v)), 0xFF_FFFF) == 0
    ensures And(v, 0xFF_FFFF) == 0 ==> And(Xor(x << 24, Shr8(v)), 0xFFFF) == 0
    ensures And(v, 0xFFFF) == 0 ==> And(Xor(x << 24, Shr8(v)), 0xFF) == 0
  {
  }

  lemma AndZero(v: bv32)
    ensures And(v, 0) == 0
  {
  }

  lemma LowMaskMoves(p: CrcParameters, rest: bv32, x: bv32, m: nat)
    requires ValidCrc(p) && Within(p, rest) && And(rest, LowMask(p, m)) == 0
    requires And(x, 0xFF) == x && 8 * (m + 1) <= p.width
    ensures And(Xor(Placed(p, x), Shr8(rest)), LowMask(p, m + 1)) == 0
  {
    hide And, Xor, Shr8, ValidCrc;
    ValidPolynomial(p);
    AndZero(Xor(Placed(p, x), Shr8(rest)));
    if p.width == 16 {
      ShrLow16(rest, x);
    } else {
      ShrLow32(rest, x);
    }
  }

  lemma Shr8Within(p: CrcParameters, v: bv32)
    requires ValidCrc(p) && Within(p, v)
    ensures Within(p, Shr8(v))
  {
    hide And, Xor, Shr8, ValidCrc;
    ValidPolynomial(p);
    FullMask(Shr8(v));
    if p.width == 16 {
      ShrLow16(v, 0);
    }
  }

  lemma {:induction false} PackedLow(p: CrcParameters, data: bytes)
    requires ValidCrc(p) && 8 * |data| <= p.width
    ensures Within(p, Packed(p, data)) && And(Packed(p, data), LowMask(p, |data|)) == 0
  {
    hide And, Xor, Shr8, InputByte, ValidCrc, LowMask, Placed;
    if data == [] {
      NothingAnd(p.Mask());
      NothingAnd(LowMask(p, 0));
    } else {
      var rest, x := Packed(p, data[1..]), InputByte(p, data[0]);
      PackedLow(p, data[1..]);
      InputByteSmall(p, data[0]);
      PlacedWithin(p, x);
      Shr8Within(p, rest);
      LowMaskMoves(p, rest, x, |data| - 1);
      XorWithin(p, Placed(p, x), Shr8(rest));
    }
  }

  function Shr1(v: bv32): bv32 {
    v >> 1
  }

  /** The `j` lowest bits. */
  function LowBits(j: nat): bv32 {
    if j == 0 then 0 else if j == 1 then 1 else if j == 2 then 3 else if j == 3 then 7
    else if j == 4 then 0xF else if j == 5 then 0x1F else if j == 6 then 0x3F
    else if j == 7 then 0x7F else 0xFF
  }

  lemma LowBitsDrop(v: bv32)
    ensures And(v, 0x1) == 0 ==> And(v, 1) == 0 && And(Shr1(v), 0x0) == 0
    ensures And(v, 0x3) == 0 ==> And(v, 1) == 0 && And(Shr1(v), 0x1) == 0
    ensures And(v, 0x7) == 0 ==> And(v, 1) == 0 && And(Shr1(v), 0x3) == 0
    ensures And(v, 0xF) == 0 ==> And(v, 1) == 0 && And(Shr1(v), 0x7) == 0
    ensures And(v, 0x1F) == 0 ==> And(v, 1) == 0 && And(Shr1(v), 0xF) == 0
    ensures And(v, 0x3F) == 0 ==> And(v, 1) == 0 && And(Shr1(v), 0x1F) == 0
    ensures And(v, 0x7F) == 0 ==> And(v, 1) == 0 && And(Shr1(v), 0x3F) == 0
    ensures And(v, 0xFF) == 0 ==> And(v, 1) == 0 && And(Shr1(v), 0x7F) == 0
  {
  }

  lemma LowBitsShift(v: bv32, j: nat)
    requires 1 <= j <= 8 && And(v, LowBits(j)) == 0
    ensures And(v, 1) == 0 && And(Shr1(v), LowBits(j - 1)) == 0
  {
    hide And, Shr1;
    LowBitsDrop(v);
  }

  lemma UpOne16(v: bv32)
    requires And(v, 0xFFFF) == v && And(v, 1) == 0
    ensures And(Shl(Shr1(v)), 0xFFFF) == v
  {
  }

  lemma UpOne16Within(v: bv32)
    requires And(v, 0xFFFF) == v
    ensures And(Shr1(v), 0x8000) == 0
  {
  }

  lemma UpOne16Below(v: bv32)
    requires And(v, 0xFFFF) == v
    ensures And(Shr1(v), 0xFFFF) == Shr1(v)
  {
  }

  lemma UpOne32(v: bv32)
    requires And(v, 1) == 0
    ensures And(Shr1(v), 0x8000_0000) == 0 && And(Shl(Shr1(v)), 0xFFFF_FFFF) == v
  {
  }

  /** A bit that is not at the top moves up without feedback. */
  lemma UpOne(p: CrcParameters, v: bv32)
    requires ValidCrc(p) && Within(p, v) && And(v, 1) == 0
    ensures Within(p, Shr1(v)) && Step(p, Shr1(v)) == v
  {
    hide And, Xor, Shl, Shr1, ValidCrc;
    ValidPolynomial(p);
    FullMask(Shr1(v));
    if p.width == 16 {
      UpOne16(v);
      UpOne16Within(v);
      UpOne16Below(v);
    } else {
      UpOne32(v);
    }
  }

  function Back(v: bv32, j: nat): bv32
    decreases j
  {
    if j == 0 then v else Back(Shr1(v), j - 1)
  }

  lemma {:induction false} MovesUp(p: CrcParameters, v: bv32, j: nat)
    requires ValidCrc(p) && Within(p, v) && j <= 8 && And(v, LowBits(j)) == 0
    ensures Steps(p, Back(v, j), j) == v
    decreases j
  {
    hide And, Xor, Shl, Shr1, ValidCrc, Within, LowBits, Step;
    if j > 0 {
      LowBitsShift(v, j);
      UpOne(p, v);
      MovesUp(p, Shr1(v), j - 1);
      StepsSum(p, Back(v, j), j - 1, 1);
      assert Steps(p, Shr1(v), 1) == Steps(p, Step(p, Shr1(v)), 0);
    }
  }

  lemma BackByte(v: bv32)
    ensures Back(v, 8) == Shr8(v)
  {
    hide Back;
    var v1 := BackOnce(v, 8);
    var v2 := BackOnce(v1, 7);
    var v3 := BackOnce(v2, 6);
    var v4 := BackOnce(v3, 5);
    var v5 := BackOnce(v4, 4);
    var v6 := BackOnce(v5, 3);
    var v7 := BackOnce(v6, 2);
    var v8 := BackOnce(v7, 1);
    BackZero(v8);
    assert v8 == v >> 8;
  }

  lemma BackOnce(v: bv32, j: nat) returns (v': bv32)
    requires j > 0
    ensures v' == v >> 1 && Back(v, j) == Back(v', j - 1)
  {
    v' := v >> 1;
  }

  lemma BackZero(v: bv32)
    ensures Back(v, 0) == v
  {
  }

  /** A burst's effect on the register is that of its packed form. */
  lemma {:induction false} RegisterPacked(p: CrcParameters, v: bv32, data: bytes)
    requires ValidCrc(p) && 8 * |data| <= p.width
    ensures Register(p, v, data) == Steps(p, Xor(v, Packed(p, data)), 8 * |data|)
    decreases |data|
  {
    hide And, Xor, Shl, Shr8, Back, ValidCrc, InputByte, Placed, LowMask, Within, Step, Steps;
    if data == [] {
      XorNothing(v);
      NoSteps(p, v);
    } else {
      var rest, placed := Packed(p, data[1..]), Placed(p, InputByte(p, data[0]));
      RegisterPacked(p, AddByte(p, v, data[0]), data[1..]);
      PackedOnTop(p, v, placed, data[1..]);
      StepsSum(p, Xor(v, Packed(p, data)), 8, 8 * |data[1..]|);
    }
  }

  lemma NoSteps(p: CrcParameters, v: bv32)
    ensures Steps(p, v, 0) == v
  {
  }

  lemma PackedOnTop(p: CrcParameters, v: bv32, placed: bv32, data: bytes)
    requires ValidCrc(p) && 8 * (|data| + 1) <= p.width
    ensures var rest := Packed(p, data);
            Xor(Steps(p, Xor(v, placed), 8), rest)
            == Steps(p, Xor(v, Xor(placed, Shr8(rest))), 8)
  {
    hide And, Xor, Shl, Shr8, Back, ValidCrc, LowMask, Within, Step, Steps, Packed;
    var rest := Packed(p, data);
    PackedLow(p, data);
    LowByte(p, rest, |data|);
    LowEight();
    MovesUp(p, rest, 8);
    BackByte(rest);
    StepsXor(p, Xor(v, placed), Shr8(rest), 8);
    XorAssociates(v, placed, Shr8(rest));
  }

  lemma LowEight()
    ensures LowBits(8) == 0xFF
  {
  }

  lemma LowByte(p: CrcParameters, v: bv32, m: nat)
    requires ValidCrc(p) && 8 * (m + 1) <= p.width && And(v, LowMask(p, m)) == 0
    ensures And(v, 0xFF) == 0
  {
    LowByteOf(v);
  }

  lemma LowByteOf(v: bv32)
    ensures And(v, 0xFFFF) == 0 ==> And(v, 0xFF) == 0
    ensures And(v, 0xFF_FFFF) == 0 ==> And(v, 0xFF) == 0
    ensures And(v, 0xFFFF_FFFF) == 0 ==> And(v, 0xFF) == 0
  {
  }

  lemma TopByteApart16(x: bv32, v: bv32, y: bv32, u: bv32)
    requires And(x, 0xFF) == x && And(y, 0xFF) == y
    requires And(v, 0xFFFF) == v && And(u, 0xFFFF) == u && And(v, 0xFF) == 0 && And(u, 0xFF) == 0
    requires Xor(x << 8, Shr8(v)) == Xor(y << 8, Shr8(u))
    ensures x == y && v == u
  {
  }

  lemma TopByteApart32(x: bv32, v: bv32, y: bv32, u: bv32)
    requires And(x, 0xFF) == x && And(y, 0xFF) == y && And(v, 0xFF) == 0 && And(u, 0xFF) == 0
    requires Xor(x << 24, Shr8(v)) == Xor(y << 24, Shr8(u))
    ensures x == y && v == u
  {
  }

  lemma {:induction false} PackedInjective(p: CrcParameters, a: bytes, b: bytes)
    requires ValidCrc(p) && |a| == |b| && 8 * |a| <= p.width && Packed(p, a) == Packed(p, b)
    ensures a == b
  {
    hide And, Xor, Shr8, InputByte, Placed, ValidCrc, LowMask;
    if a != [] {
      PackedLow(p, a[1..]);
      PackedLow(p, b[1..]);
      PackedApart(p, a[0], Packed(p, a[1..]), b[0], Packed(p, b[1..]), |a| - 1);
      PackedInjective(p, a[1..], b[1..]);
      assert a == [a[0]] + a[1..] && b == [b[0]] + b[1..];
    }
  }

  /** The first byte and the rest of what is packed can be told apart. */
  lemma PackedApart(p: CrcParameters, a: byte, v: bv32, b: byte, u: bv32, m: nat)
    requires ValidCrc(p) && 8 * (m + 1) <= p.width
    requires And(v, LowMask(p, m)) == 0 && And(u, LowMask(p, m)) == 0
    requires p.width == 16 ==> And(v, 0xFFFF) == v && And(u, 0xFFFF) == u
    requires Xor(Placed(p, InputByte(p, a)), Shr8(v)) == Xor(Placed(p, InputByte(p, b)), Shr8(u))
    ensures a == b && v == u
  {
    hide And, Xor, Shr8, InputByte, LowMask, Placed, ValidCrc;
    InputByteSmall(p, a);
    InputByteSmall(p, b);
    LowByte(p, v, m);
    LowByte(p, u, m);
    PlacedApart(p, InputByte(p, a), v, InputByte(p, b), u);
    InputByteInjective(p, a, b);
  }

  lemma PlacedApart(p: CrcParameters, x: bv32, v: bv32, y: bv32, u: bv32)
    requires And(x, 0xFF) == x && And(y, 0xFF) == y && And(v, 0xFF) == 0 && And(u, 0xFF) == 0
    requires p.width == 16 ==> And(v, 0xFFFF) == v && And(u, 0xFFFF) == u
    requires Xor(Placed(p, x), Shr8(v)) == Xor(Placed(p, y), Shr8(u))
    ensures x == y && v == u
  {
    hide And, Xor, Shr8;
    if p.width == 16 {
      TopByteApart16(x, v, y, u);
    } else {
      TopByteApart32(x, v, y, u);
    }
  }

  /** `x` and `y` agree outside the `n` bytes from `i` on. */
  ghost predicate DifferWithin(x: bytes, y: bytes, i: nat, n: nat) {
    |x| == |y| && i + n <= |x| && x[..i] == y[..i] && x[i + n..] == y[i + n..]
  }

  lemma CutBurst(x: bytes, i: nat, n: nat)
    requires i + n <= |x|
    ensures x == x[..i] + (x[i..i + n] + x[i + n..])
  {
  }

  /** No error confined to as many bytes as the CRC has escapes it. */
  lemma CrcSeesBursts(p: CrcParameters, x: bytes, y: bytes, i: nat, n: nat)
    requires ValidCrc(p) && DifferWithin(x, y, i, n) && 8 * n <= p.width
    requires CrcOf(p, x) == CrcOf(p, y)
    ensures x == y
  {
    hide And, Xor, ValidCrc, Register, Finish, Steps, Packed, Within;
    ValidPolynomial(p);
    var v := Register(p, p.initialValue, x[..i]);
    var a, b, tail := x[i..i + n], y[i..i + n], x[i + n..];
    CutBurst(x, i, n);
    CutBurst(y, i, n);
    RegisterSplit(p, p.initialValue, x[..i], a + tail);
    RegisterSplit(p, p.initialValue, x[..i], b + tail);
    RegisterSplit(p, v, a, tail);
    RegisterSplit(p, v, b, tail);
    RegisterWithin(p, p.initialValue, x[..i]);
    RegisterWithin(p, v, a);
    RegisterWithin(p, v, b);
    RegisterWithin(p, Register(p, v, a), tail);
    RegisterWithin(p, Register(p, v, b), tail);
    FinishInjective(p, Register(p, Register(p, v, a), tail), Register(p, Register(p, v, b), tail));
    RegisterInjective(p, Register(p, v, a), Register(p, v, b), tail);
    RegisterPacked(p, v, a);
    RegisterPacked(p, v, b);
    PackedLow(p, a);
    PackedLow(p, b);
    XorWithin(p, v, Packed(p, a));
    XorWithin(p, v, Packed(p, b));
    StepsInjective(p, Xor(v, Packed(p, a)), Xor(v, Packed(p, b)), 8 * n);
    XorCancels(Packed(p, a), Packed(p, b), v);
    PackedInjective(p, a, b);
  }

  // ---------------------------------------------------------------- SUM8

  function Total(data: bytes): nat {
    if data == [] then 0 else Total(data[..|data| - 1]) + data[|data| - 1]
  }

  function SumOf(data: bytes): byte {
    Total(data) % 256
  }

  method Sum8(data: bytes, offset: nat, length: nat) returns (sum: byte)
    requires offset + length <= |data|
    ensures sum == SumOf(data[offset..offset + length])
  {
    sum := 0;
    assert data[offset..offset] == [];
    for index := 0 to length
      invariant sum == SumOf(data[offset..offset + index])
    {
      assert data[offset..offset + (index + 1)][..index] == data[offset..offset + index];
      sum := (sum + data[offset + index]) % 256;
    }
  }

  lemma {:induction false} TotalSplit(a: bytes, b: bytes)
    ensures Total(a + b) == Total(a) + Total(b)
    decreases |b|
  {
    if b == [] {
      assert a + b == a;
    } else {
      assert (a + b)[..|a + b| - 1] == a + b[..|b| - 1];
      TotalSplit(a, b[..|b| - 1]);
    }
  }

  /** The sum of the bytes modulo 256: nothing gives 0, and parts add up. */
  lemma SumMeans(b: byte, x: bytes, y: bytes)
    ensures SumOf([]) == 0 && SumOf([b]) == b
    ensures SumOf(x + y) == (SumOf(x) + SumOf(y)) as int % 256
  {
    assert [b][..0] == [];
    hide Total;
    TotalSplit(x, y);
  }

  /** No error confined to one byte escapes SUM8. */
  lemma SumSeesBytes(x: bytes, y: bytes, i: nat)
    requires DifferWithin(x, y, i, 1) && SumOf(x) == SumOf(y)
    ensures x == y
  {
    hide Total;
    TotalAround(x, i);
    TotalAround(y, i);
    CutBurst(x, i, 1);
    CutBurst(y, i, 1);
    assert x[i..i + 1] == [x[i]] && y[i..i + 1] == [y[i]];
  }

  lemma TotalAround(x: bytes, i: nat)
    requires i < |x|
    ensures Total(x) == Total(x[..i]) + x[i] + Total(x[i + 1..])
  {
    CutBurst(x, i, 1);
    TotalSplit(x[..i], x[i..i + 1] + x[i + 1..]);
    TotalSplit(x[i..i + 1], x[i + 1..]);
    assert x[i..i + 1] == [x[i]] && [x[i]][..0] == [];
  }
}
