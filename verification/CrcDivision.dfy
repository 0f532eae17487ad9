/**
 * What a CRC is, apart from how the codec computes it: the remainder of a long division of bit
 * sequences, most significant bit first.
 */
module CrcDivision {
  import opened Bytes
  import opened Words
  import opened Integrity

  // ---------------------------------------------------------------- the division

  /** The low `n` bits of a word, the highest of them first. */
  function Bits(v: bv32, n: nat): (s: seq<bool>)
    ensures |s| == n
  {
    if n == 0 then [] else Bits(v >> 1, n - 1) + [v & 1 != 0]
  }

  /** The low `n` bits of a number, the highest of them first. */
  function Digits(b: nat, n: nat): (s: seq<bool>)
    ensures |s| == n
  {
    if n == 0 then [] else Digits(b / 2, n - 1) + [b % 2 == 1]
  }

  function Zeros(n: nat): (s: seq<bool>)
    ensures |s| == n && forall i | 0 <= i < n :: !s[i]
  {
    seq(n, _ => false)
  }

  function Backwards(s: seq<bool>): (r: seq<bool>)
    ensures |r| == |s| && forall i | 0 <= i < |s| :: r[i] == s[|s| - 1 - i]
  {
    seq(|s|, i requires 0 <= i < |s| => s[|s| - 1 - i])
  }

  /** `v` added, bit by bit and without carry, to the front of `s`. */
  function Added(s: seq<bool>, v: seq<bool>): (r: seq<bool>)
    ensures |r| == |s|
    ensures forall i | 0 <= i < |s| :: r[i] == if i < |v| then s[i] != v[i] else s[i]
  {
    seq(|s|, i requires 0 <= i < |s| => if i < |v| then s[i] != v[i] else s[i])
  }

  /** Long division by `x^n + g`, for `n` bits `g`: what is left of `s` in its last `n` places. */
  function Remainder(s: seq<bool>, g: seq<bool>): (r: seq<bool>)
    ensures |s| >= |g| ==> |r| == |g|
    decreases |s|
  {
    if |s| <= |g| then s
    else Remainder(if s[0] then Added(s[1..], g) else s[1..], g)
  }

  /** The remainder is unchanged by leading zeros and by subtracting the divisor at the front. */
  lemma RemainderMeans(s: seq<bool>, g: seq<bool>)
    ensures |s| <= |g| ==> Remainder(s, g) == s
    ensures |s| >= |g| ==> Remainder([false] + s, g) == Remainder(s, g)
    ensures |s| > |g| && s[0] ==> Remainder(s, g) == Remainder(Added(s, [true] + g), g)
  {
    hide Added;
    assert ([false] + s)[1..] == s;
    if |s| > |g| && s[0] {
      Subtracted(s, g);
    }
  }

  lemma Subtracted(s: seq<bool>, g: seq<bool>)
    requires |s| > |g| && s[0]
    ensures !Added(s, [true] + g)[0] && Added(s, [true] + g)[1..] == Added(s[1..], g)
  {
    hide Remainder;
  }

  /** A message's bits: each byte's highest first, or its lowest if the input is reflected. */
  function MessageBits(reflected: bool, data: bytes): (s: seq<bool>)
    ensures |s| == 8 * |data|
  {
    if data == [] then []
    else (if reflected then Backwards(Digits(data[0], 8)) else Digits(data[0], 8))
         + MessageBits(reflected, data[1..])
  }

  lemma DigitsMore(n: nat, k: nat, bit: bool)
    ensures Digits(n, 0) == []
    ensures Digits(2 * n + if bit then 1 else 0, k + 1) == Digits(n, k) + [bit]
  {
    var m := 2 * n + if bit then 1 else 0;
    assert m / 2 == n && (m % 2 == 1) == bit;
  }

  /** The number that four bits stand for. */
  function Nibble(d: bool, c: bool, b: bool, a: bool): nat {
    (if d then 8 else 0) + (if c then 4 else 0) + (if b then 2 else 0) + if a then 1 else 0
  }

  lemma FourDigits(n: nat, k: nat, d: bool, c: bool, b: bool, a: bool)
    ensures Digits(16 * n + Nibble(d, c, b, a), k + 4) == Digits(n, k) + [d, c, b, a]
  {
    hide Digits;
    DigitsMore(n, k, d);
    var n1 := 2 * n + if d then 1 else 0;
    DigitsMore(n1, k + 1, c);
    var n2 := 2 * n1 + if c then 1 else 0;
    DigitsMore(n2, k + 2, b);
    var n3 := 2 * n2 + if b then 1 else 0;
    DigitsMore(n3, k + 3, a);
    assert 2 * n3 + (if a then 1 else 0) == 16 * n + Nibble(d, c, b, a);
  }

  lemma ByteDigits(x: nat, h: bool, g: bool, f: bool, e: bool, d: bool, c: bool, b: bool, a: bool)
    requires x == 16 * Nibble(h, g, f, e) + Nibble(d, c, b, a)
    ensures Digits(x, 8) == [h, g, f, e] + [d, c, b, a]
  {
    hide Digits, Nibble;
    FourDigits(Nibble(h, g, f, e), 4, d, c, b, a);
    FourDigits(0, 0, h, g, f, e);
    DigitsMore(0, 0, false);
    assert [] + [h, g, f, e] == [h, g, f, e];
  }

  lemma MessageMore(reflected: bool, x: byte, rest: bytes)
    ensures MessageBits(reflected, []) == []
    ensures MessageBits(reflected, [x] + rest)
            == (if reflected then Backwards(Digits(x, 8)) else Digits(x, 8))
               + MessageBits(reflected, rest)
  {
    hide Digits, Backwards;
    assert ([x] + rest)[1..] == rest;
  }

  lemma EightBackwards(h: bool, g: bool, f: bool, e: bool, d: bool, c: bool, b: bool, a: bool)
    ensures Backwards([h, g, f, e] + [d, c, b, a]) == [a, b, c, d] + [e, f, g, h]
  {
    hide Backwards;
    BackwardsSum([h, g, f, e], [d, c, b, a]);
    FourBackwards(h, g, f, e);
    FourBackwards(d, c, b, a);
  }

  lemma FourBackwards(d: bool, c: bool, b: bool, a: bool)
    ensures Backwards([d, c, b, a]) == [a, b, c, d]
  {
  }

  lemma BackwardsSum(s: seq<bool>, t: seq<bool>)
    ensures Backwards(s + t) == Backwards(t) + Backwards(s)
  {
  }

  /** A byte's bits, in both orders, and those of the bytes behind it. */
  lemma MessageMeans(h: bool, g: bool, f: bool, e: bool, d: bool, c: bool, b: bool, a: bool,
                     rest: bytes)
    ensures MessageBits(true, []) == [] && MessageBits(false, []) == []
    ensures var x := 16 * Nibble(h, g, f, e) + Nibble(d, c, b, a);
            && x < 256
            && MessageBits(false, [x] + rest)
               == ([h, g, f, e] + [d, c, b, a]) + MessageBits(false, rest)
            && MessageBits(true, [x] + rest)
               == ([a, b, c, d] + [e, f, g, h]) + MessageBits(true, rest)
  {
    hide Digits, Nibble, MessageBits, Backwards;
    NibbleBound(h, g, f, e);
    NibbleBound(d, c, b, a);
    var x: byte := 16 * Nibble(h, g, f, e) + Nibble(d, c, b, a);
    ByteDigits(x, h, g, f, e, d, c, b, a);
    EightBackwards(h, g, f, e, d, c, b, a);
    MessageMore(true, x, rest);
    MessageMore(false, x, rest);
  }

  lemma NibbleBound(d: bool, c: bool, b: bool, a: bool)
    ensures Nibble(d, c, b, a) < 16
    ensures Nibble(d, c, b, a)
            == (if d then 8 else 0) + (if c then 4 else 0) + (if b then 2 else 0)
               + if a then 1 else 0
  {
  }

  lemma BitsMean(v: bv32, n: nat)
    ensures Bits(v, 0) == [] && Bits(v, n + 1) == Bits(v >> 1, n) + [v & 1 != 0]
    ensures Zeros(n) + [false] == Zeros(n + 1)
  {
  }

  /** All the bits of a word are the word. */
  lemma BitsDetermine(u: bv32, v: bv32)
    requires Bits(u, 32) == Bits(v, 32)
    ensures u == v
  {
    hide Bits;
    NothingAbove(u);
    NothingAbove(v);
    SameBits(u, v, 32);
  }

  lemma {:induction false} SameBits(u: bv32, v: bv32, n: nat)
    requires Back(u, n) == Back(v, n) && Bits(u, n) == Bits(v, n)
    ensures u == v
    decreases n
  {
    hide Bits, Shr1, Odd;
    if n == 0 {
      BackZero(u);
      BackZero(v);
    } else {
      BitsMore(u, n - 1);
      BitsMore(v, n - 1);
      assert Bits(Shr1(u), n - 1) == Bits(u, n)[..n - 1];
      assert Bits(Shr1(v), n - 1) == Bits(v, n)[..n - 1];
      assert Odd(u) == Bits(u, n)[n - 1] && Odd(v) == Bits(v, n)[n - 1];
      SameBits(Shr1(u), Shr1(v), n - 1);
      SameHalves(u, v);
    }
  }

  lemma SameHalves(u: bv32, v: bv32)
    requires Shr1(u) == Shr1(v) && Odd(u) == Odd(v)
    ensures u == v
  {
  }

  lemma NothingAbove(v: bv32)
    ensures Back(v, 32) == 0
  {
    hide Back, Shr8;
    BackSum(v, 8, 24);
    BackByte(v);
    BackSum(Shr8(v), 8, 16);
    BackByte(Shr8(v));
    BackSum(Shr8(Shr8(v)), 8, 8);
    BackByte(Shr8(Shr8(v)));
    BackByte(Shr8(Shr8(Shr8(v))));
    FourBytesDown(v);
  }

  lemma FourBytesDown(v: bv32)
    ensures Shr8(Shr8(Shr8(Shr8(v)))) == 0
  {
  }

  // ---------------------------------------------------------------- bits of words

  predicate Odd(v: bv32) {
    v & 1 != 0
  }

  lemma BitsMore(v: bv32, n: nat)
    ensures Bits(v, 0) == [] && Bits(v, n + 1) == Bits(Shr1(v), n) + [Odd(v)]
  {
  }

  lemma XorHalves(x: bv32, y: bv32)
    ensures Shr1(Xor(x, y)) == Xor(Shr1(x), Shr1(y))
  {
  }

  lemma XorOdd(x: bv32, y: bv32)
    ensures Odd(Xor(x, y)) <==> Odd(x) != Odd(y)
  {
  }

  lemma {:induction false} BitsXor(x: bv32, y: bv32, n: nat)
    ensures Bits(Xor(x, y), n) == Added(Bits(x, n), Bits(y, n))
    decreases n
  {
    hide Bits, Xor, Shr1, Odd;
    if n == 0 {
      BitsMore(x, 0);
    } else {
      BitsXor(Shr1(x), Shr1(y), n - 1);
      XorHalves(x, y);
      XorOdd(x, y);
      BitsMore(x, n - 1);
      BitsMore(y, n - 1);
      BitsMore(Xor(x, y), n - 1);
    }
  }

  /** The low `n` bits of `m` are all set. */
  predicate Ones(m: bv32, n: nat) {
    n == 0 || (Odd(m) && Ones(Shr1(m), n - 1))
  }

  lemma AndHalves(v: bv32, m: bv32)
    ensures Shr1(And(v, m)) == And(Shr1(v), Shr1(m))
    ensures Odd(m) ==> Odd(And(v, m)) == Odd(v)
  {
  }

  lemma {:induction false} BitsMasked(v: bv32, m: bv32, n: nat)
    requires Ones(m, n)
    ensures Bits(And(v, m), n) == Bits(v, n)
    decreases n
  {
    hide Bits, And, Shr1, Odd;
    if n == 0 {
      BitsMore(v, 0);
      BitsMore(And(v, m), 0);
    } else {
      AndHalves(v, m);
      BitsMasked(Shr1(v), Shr1(m), n - 1);
      BitsMore(v, n - 1);
      BitsMore(And(v, m), n - 1);
    }
  }

  lemma {:induction false} OnesFewer(m: bv32, n: nat, k: nat)
    requires Ones(m, n) && k <= n
    ensures Ones(m, k)
    decreases n
  {
    hide Odd, Shr1;
    if k > 0 {
      OnesFewer(Shr1(m), n - 1, k - 1);
    }
  }

  lemma OneMore(m: bv32, n: nat, more: bv32)
    requires Ones(m, n) && Odd(more) && Shr1(more) == m
    ensures Ones(more, n + 1)
  {
  }

  lemma ConstantHalves()
    ensures Odd(0x1) && Shr1(0x1) == 0x0 && Odd(0x3) && Shr1(0x3) == 0x1
    ensures Odd(0x7) && Shr1(0x7) == 0x3 && Odd(0xF) && Shr1(0xF) == 0x7
    ensures Odd(0x1F) && Shr1(0x1F) == 0xF && Odd(0x3F) && Shr1(0x3F) == 0x1F
    ensures Odd(0x7F) && Shr1(0x7F) == 0x3F && Odd(0xFF) && Shr1(0xFF) == 0x7F
  {
  }

  /** All eight low bits set, and `rest` above them. */
  function Filled(rest: bv32): bv32 {
    (rest << 8) | 0xFF
  }

  lemma FilledHalves(rest: bv32)
    requires rest & 0xFF_FFFF == rest
    ensures var v4 := Shr1(Shr1(Shr1(Shr1(Filled(rest)))));
            && Odd(Filled(rest)) && Odd(Shr1(Filled(rest))) && Odd(Shr1(Shr1(Filled(rest))))
            && Odd(Shr1(Shr1(Shr1(Filled(rest)))))
            && Odd(v4) && Odd(Shr1(v4)) && Odd(Shr1(Shr1(v4))) && Odd(Shr1(Shr1(Shr1(v4))))
            && Shr1(Shr1(Shr1(Shr1(v4)))) == rest
  {
  }

  lemma OneByteMore(rest: bv32, n: nat)
    requires rest & 0xFF_FFFF == rest && Ones(rest, n)
    ensures Ones(Filled(rest), n + 8)
  {
    hide Ones, Odd, Filled, Shr1;
    FilledHalves(rest);
    var v := Filled(rest);
    var v4 := Shr1(Shr1(Shr1(Shr1(v))));
    OneMore(Shr1(Shr1(Shr1(Shr1(v4)))), n, Shr1(Shr1(Shr1(v4))));
    OneMore(Shr1(Shr1(Shr1(v4))), n + 1, Shr1(Shr1(v4)));
    OneMore(Shr1(Shr1(v4)), n + 2, Shr1(v4));
    OneMore(Shr1(v4), n + 3, v4);
    OneMore(v4, n + 4, Shr1(Shr1(Shr1(v))));
    OneMore(Shr1(Shr1(Shr1(v))), n + 5, Shr1(Shr1(v)));
    OneMore(Shr1(Shr1(v)), n + 6, Shr1(v));
    OneMore(Shr1(v), n + 7, v);
  }

  lemma Masks()
    ensures Ones(0xFF, 8) && Ones(0x7FFF, 15) && Ones(0xFFFF, 16) && Ones(0xFF_FFFF, 24)
    ensures Ones(0x7FFF_FFFF, 31) && Ones(0xFFFF_FFFF, 32)
  {
    hide Odd, Shr1;
    ConstantHalves();
    assert Ones(0x0, 0);
    OneMore(0x0, 0, 0x1);
    OneMore(0x1, 1, 0x3);
    OneMore(0x3, 2, 0x7);
    OneMore(0x7, 3, 0xF);
    OneMore(0xF, 4, 0x1F);
    OneMore(0x1F, 5, 0x3F);
    OneMore(0x3F, 6, 0x7F);
    OneMore(0x7F, 7, 0xFF);
    hide Ones;
    OneByteMore(0x7F, 7);
    OneByteMore(0xFF, 8);
    OneByteMore(0x7FFF, 15);
    OneByteMore(0xFFFF, 16);
    OneByteMore(0x7F_FFFF, 23);
    OneByteMore(0xFF_FFFF, 24);
  }

  /** The low bits, and those above them. */
  lemma {:induction false} BitsSplit(v: bv32, n: nat, k: nat)
    ensures Bits(v, n + k) == Bits(Back(v, k), n) + Bits(v, k)
    decreases k
  {
    hide Bits, Shr1, Odd;
    if k == 0 {
      BitsMore(v, 0);
      BackZero(v);
    } else {
      BitsSplit(Shr1(v), n, k - 1);
      BitsMore(v, n + k - 1);
      BitsMore(v, k - 1);
    }
  }

  lemma {:induction false} BackSum(v: bv32, j: nat, k: nat)
    ensures Back(v, j + k) == Back(Back(v, j), k)
    decreases j
  {
    hide Shr1;
    if j > 0 {
      BackSum(Shr1(v), j - 1, k);
    }
  }

  lemma {:induction false} ZeroBits(n: nat)
    ensures Bits(0, n) == Zeros(n)
  {
    hide Bits;
    BitsMore(0, if n > 0 then n - 1 else 0);
    if n > 0 {
      ZeroHalves();
      ZeroBits(n - 1);
    }
  }

  lemma ZeroHalves()
    ensures Shr1(0) == 0 && !Odd(0)
  {
  }

  /** The top bit comes first. */
  lemma TopFirst(p: CrcParameters, v: bv32)
    requires p.width == 16 || p.width == 32
    ensures Bits(v, p.width)[0] == FallsOut(p, v)
  {
    hide Bits, Back, Shr1, Odd, And;
    var n := p.width - 1;
    BitsSplit(v, 1, n);
    BitsMore(Back(v, n), 0);
    BitsMore(Shr1(Back(v, n)), 0);
    BackSum(v, 8, 7);
    BackByte(v);
    if p.width == 16 {
      BackSeven(Shr8(v));
      TopOf16(v);
    } else {
      BackSum(v, 8, 23);
      BackSum(Shr8(v), 8, 15);
      BackByte(Shr8(v));
      BackSum(Shr8(Shr8(v)), 8, 7);
      BackByte(Shr8(Shr8(v)));
      BackSeven(Shr8(Shr8(Shr8(v))));
      TopOf32(v);
    }
  }

  lemma BackSeven(v: bv32)
    ensures Back(v, 7) == v >> 7
  {
    hide Back;
    var v1 := BackOnce(v, 7);
    var v2 := BackOnce(v1, 6);
    var v3 := BackOnce(v2, 5);
    var v4 := BackOnce(v3, 4);
    var v5 := BackOnce(v4, 3);
    var v6 := BackOnce(v5, 2);
    var v7 := BackOnce(v6, 1);
    BackZero(v7);
  }

  lemma TopOf16(v: bv32)
    ensures Odd(Shr8(v) >> 7) <==> And(v, 0x8000) != 0
  {
  }

  lemma TopOf32(v: bv32)
    ensures Odd(Shr8(Shr8(Shr8(v))) >> 7) <==> And(v, 0x8000_0000) != 0
  {
  }

  lemma ShiftedHalves(v: bv32)
    ensures Shr1(And(Shl(v), 0xFFFF)) == And(v, 0x7FFF) && !Odd(And(Shl(v), 0xFFFF))
    ensures Shr1(And(Shl(v), 0xFFFF_FFFF)) == And(v, 0x7FFF_FFFF)
    ensures !Odd(And(Shl(v), 0xFFFF_FFFF))
  {
  }

  /** Shifting drops the top bit and brings in a zero. */
  lemma ShiftedBits(p: CrcParameters, v: bv32)
    requires p.width == 16 || p.width == 32
    ensures Bits(Shifted(p, v), p.width) == Bits(v, p.width)[1..] + [false]
  {
    hide Bits, Back, Shr1, Shl, Odd, And, Ones;
    var n := p.width - 1;
    BitsSplit(v, 1, n);
    assert Bits(v, p.width)[1..] == Bits(v, n);
    Masks();
    ShiftedHalves(v);
    BitsMore(Shifted(p, v), n);
    BitsMasked(v, if p.width == 16 then 0x7FFF else 0x7FFF_FFFF, n);
  }

  // ---------------------------------------------------------------- the register divides

  /** One step of the division, where the dividend is kept as a sum. */
  lemma DivisionStep(t: seq<bool>, x: seq<bool>, y: seq<bool>, g: seq<bool>)
    requires |t| > |x| == |y| == |g| >= 1 && !t[0] && y == x[1..] + [false]
    ensures Remainder(Added(t, x), g)
            == Remainder(Added(t[1..], if x[0] then Added(y, g) else y), g)
  {
    var s := Added(t, x);
    ShiftedSum(t, x, y);
    if x[0] {
      AddedTwice(t[1..], y, g);
    }
  }

  lemma ShiftedSum(t: seq<bool>, x: seq<bool>, y: seq<bool>)
    requires |t| > |x| == |y| >= 1 && !t[0] && y == x[1..] + [false]
    ensures Added(t, x)[0] == x[0] && Added(t, x)[1..] == Added(t[1..], y)
  {
  }

  lemma AddedTwice(t: seq<bool>, y: seq<bool>, g: seq<bool>)
    requires |t| >= |y| == |g|
    ensures Added(Added(t, y), g) == Added(t, Added(y, g))
  {
  }

  /** One step of the register is one step of the division. */
  lemma StepDivides(p: CrcParameters, v: bv32, t: seq<bool>)
    requires p.width == 16 || p.width == 32
    requires |t| > p.width && !t[0]
    ensures Remainder(Added(t, Bits(v, p.width)), Bits(p.polynomial, p.width))
            == Remainder(Added(t[1..], Bits(Step(p, v), p.width)), Bits(p.polynomial, p.width))
  {
    hide Bits, Shifted, FallsOut, Xor, Added, Remainder;
    TopFirst(p, v);
    ShiftedBits(p, v);
    BitsXor(Shifted(p, v), p.polynomial, p.width);
    DivisionStep(t, Bits(v, p.width), Bits(Shifted(p, v), p.width), Bits(p.polynomial, p.width));
  }

  lemma {:induction false} StepsDivide(p: CrcParameters, v: bv32, k: nat, t: seq<bool>)
    requires (p.width == 16 || p.width == 32) && |t| >= p.width
    ensures Remainder(Added(Zeros(k) + t, Bits(v, p.width)), Bits(p.polynomial, p.width))
            == Remainder(Added(t, Bits(Steps(p, v, k), p.width)), Bits(p.polynomial, p.width))
    decreases k
  {
    hide Bits, Step, Remainder;
    if k == 0 {
      assert Zeros(0) + t == t;
    } else {
      StepDivides(p, v, Zeros(k) + t);
      assert (Zeros(k) + t)[1..] == Zeros(k - 1) + t;
      StepsDivide(p, Step(p, v), k - 1, t);
    }
  }

  // ---------------------------------------------------------------- reversal

  lemma TurnedHalves(r: bv32, v: bv32)
    ensures Shr1(Turned(r, v)) == And(r, 0x7FFF_FFFF) && Odd(Turned(r, v)) == Odd(v)
  {
  }

  lemma {:induction false} ReversedBits(r: bv32, v: bv32, k: nat, n: nat)
    requires k <= n <= 32
    ensures Bits(Reversed(r, v, k), n) == Bits(r, n - k) + Backwards(Bits(v, k))
    decreases k
  {
    hide Bits, Reversed, Turned, Shr1, Odd, Backwards;
    if k == 0 {
      BitsMore(v, 0);
      NothingReversed(r, v);
    } else {
      var r', v' := ReversedOnce(r, v, k);
      ReversedBits(r', v', k - 1, n);
      TurnedBits(r, v, n - k);
      BitsMore(v, k - 1);
      BackwardsMore(Bits(Shr1(v), k - 1), Odd(v));
    }
  }

  lemma TurnedBits(r: bv32, v: bv32, n: nat)
    requires n < 32
    ensures Bits(Turned(r, v), n + 1) == Bits(r, n) + [Odd(v)]
  {
    hide Bits, Turned, Shr1, Odd, And, Ones;
    BitsMore(Turned(r, v), n);
    TurnedHalves(r, v);
    Masks();
    OnesFewer(0x7FFF_FFFF, 31, n);
    BitsMasked(r, 0x7FFF_FFFF, n);
  }

  lemma BackwardsMore(s: seq<bool>, last: bool)
    ensures Backwards(s + [last]) == [last] + Backwards(s)
  {
  }

  lemma NothingReversed(r: bv32, v: bv32)
    ensures Reversed(r, v, 0) == r
  {
  }

  /** Reversing: of all 32 bits, the low `width` come back in the opposite order, the rest are 0. */
  lemma ReversalMeans(v: bv32, width: nat)
    requires width <= 32
    ensures Bits(Reversed(0, v, width), 32) == Zeros(32 - width) + Backwards(Bits(v, width))
    ensures Bits(Reversed(0, v, width), width) == Backwards(Bits(v, width))
  {
    hide Bits, Reversed;
    ReversedBits(0, v, width, 32);
    ReversedBits(0, v, width, width);
    ZeroBits(32 - width);
    ZeroBits(0);
  }

  /** The reversal loop in these terms. */
  method ReverseBits(value: bv32, width: nat) returns (reversed: bv32)
    requires width <= 32
    ensures forall i | 0 <= i < width ::
              Bits(reversed, width)[i] == Bits(value, width)[width - 1 - i]
    ensures forall i | 0 <= i < 32 - width :: !Bits(reversed, 32)[i]
  {
    reversed := ReverseLowBits(value, width);
    ReversalMeans(value, width);
  }

  // ---------------------------------------------------------------- bytes

  lemma ByteHalf(w: bv8)
    ensures (w >> 1) as int == (w as int) / 2
    ensures w & 1 != 0 <==> (w as int) % 2 == 1
  {
  }

  lemma WideHalf(w: bv8)
    ensures Shr1(w as bv32) == (w >> 1) as bv32 && Odd(w as bv32) == (w & 1 != 0)
  {
  }

  lemma {:induction false} WordBits(w: bv8, n: nat)
    ensures Bits(w as bv32, n) == Digits(w as int, n)
  {
    hide Bits, Shr1, Odd;
    BitsMore(w as bv32, if n == 0 then 0 else n - 1);
    if n > 0 {
      ByteHalf(w);
      WideHalf(w);
      WordBits(w >> 1, n - 1);
    }
  }

  /** What goes into the register for a byte is that byte's part of the message. */
  lemma InputBits(p: CrcParameters, b: byte)
    ensures Bits(InputByte(p, b), 8)
            == if p.reflectInput then Backwards(Digits(b, 8)) else Digits(b, 8)
  {
    hide Bits, Reversed, Digits;
    WordBits(b as bv8, 8);
    NarrowByte(b);
    ReversalMeans(Word(b), 8);
  }

  lemma PlacedParts(x: bv32)
    requires And(x, 0xFF) == x
    ensures Shr8(x << 8) == x && And(x << 8, 0xFF) == 0
    ensures Shr8(Shr8(Shr8(x << 24))) == x && And(x << 24, 0xFF_FFFF) == 0
  {
  }

  lemma PlacedBits(p: CrcParameters, x: bv32)
    requires (p.width == 16 || p.width == 32) && And(x, 0xFF) == x
    ensures Bits(Placed(p, x), p.width) == Bits(x, 8) + Zeros(p.width - 8)
  {
    hide Bits, Back, Shr8, And, Ones;
    var n, v := p.width - 8, Placed(p, x);
    PlacedParts(x);
    BitsSplit(v, 8, n);
    BackByte(v);
    Masks();
    ZeroBits(n);
    if p.width == 16 {
      BitsMasked(v, 0xFF, 8);
    } else {
      BackSum(v, 8, 16);
      BackByte(Shr8(v));
      BackSum(Shr8(v), 8, 8);
      BackByte(Shr8(Shr8(v)));
      BitsMasked(v, 0xFF_FFFF, 24);
    }
  }

  lemma ByteDivides(p: CrcParameters, v: bv32, b: byte, t: seq<bool>)
    requires (p.width == 16 || p.width == 32) && |t| >= p.width
    ensures var front := if p.reflectInput then Backwards(Digits(b, 8)) else Digits(b, 8);
            Remainder(Added(front + t, Bits(v, p.width)), Bits(p.polynomial, p.width))
            == Remainder(Added(t, Bits(AddByte(p, v, b), p.width)), Bits(p.polynomial, p.width))
  {
    hide Bits, Digits, Remainder, Steps, Placed, InputByte, Xor, And;
    var x := InputByte(p, b);
    var front := Bits(x, 8);
    InputBits(p, b);
    InputByteSmall(p, b);
    PlacedBits(p, x);
    BitsXor(v, Placed(p, x), p.width);
    assert Added(front + t, Bits(v, p.width))
           == Added(Zeros(8) + t, Bits(Xor(v, Placed(p, x)), p.width));
    StepsDivide(p, Xor(v, Placed(p, x)), 8, t);
  }

  lemma {:induction false} RegisterDivides(p: CrcParameters, v: bv32, data: bytes)
    requires p.width == 16 || p.width == 32
    ensures Bits(Register(p, v, data), p.width)
            == Remainder(Added(MessageBits(p.reflectInput, data) + Zeros(p.width),
                               Bits(v, p.width)),
                         Bits(p.polynomial, p.width))
    decreases |data|
  {
    hide Bits, Digits, Remainder, AddByte;
    var w := p.width;
    if data == [] {
      assert Added(Zeros(w), Bits(v, w)) == Bits(v, w);
      assert [] + Zeros(w) == Zeros(w);
      RemainderMeans(Bits(v, w), Bits(p.polynomial, w));
    } else {
      var rest := MessageBits(p.reflectInput, data[1..]) + Zeros(w);
      var front :=
        if p.reflectInput then Backwards(Digits(data[0], 8)) else Digits(data[0], 8);
      ByteDivides(p, v, data[0], rest);
      RegisterDivides(p, AddByte(p, v, data[0]), data[1..]);
      assert MessageBits(p.reflectInput, data) + Zeros(w) == front + rest;
    }
  }

  /**
   * The checksum: the message's bits with `width` zeros behind them, the initial value added to
   * the front, are divided by the generator; the remainder, in reverse if the output is reflected,
   * and with the final value added, is the result. It has no bits above the width.
   */
  lemma CrcIsRemainder(p: CrcParameters, data: bytes)
    requires ValidCrc(p)
    ensures var dividend := Added(MessageBits(p.reflectInput, data) + Zeros(p.width),
                                  Bits(p.initialValue, p.width));
            var remainder := Remainder(dividend, Bits(p.polynomial, p.width));
            && |remainder| == p.width
            && Bits(CrcOf(p, data), 32)
               == Zeros(32 - p.width)
                  + Added(if p.reflectOutput then Backwards(remainder) else remainder,
                          Bits(p.xorOutput, p.width))
  {
    hide Bits, Digits, Remainder, Register, ValidCrc, And, Xor, Reversed;
    ValidPolynomial(p);
    var v := Register(p, p.initialValue, data);
    RegisterDivides(p, p.initialValue, data);
    ReversalMeans(v, p.width);
    FinishBits(p, if p.reflectOutput then Reversed(0, v, p.width) else v);
  }

  lemma FinishBits(p: CrcParameters, v: bv32)
    requires p.width == 16 || p.width == 32
    ensures Bits(And(Xor(v, p.xorOutput), p.Mask()), 32)
            == Zeros(32 - p.width) + Added(Bits(v, p.width), Bits(p.xorOutput, p.width))
  {
    hide Bits, Back, And, Xor, Ones, Shr8;
    var x := Xor(v, p.xorOutput);
    Masks();
    BitsXor(v, p.xorOutput, p.width);
    BitsMasked(x, p.Mask(), p.width);
    if p.width == 16 {
      var y := And(x, 0xFFFF);
      BitsSplit(y, 16, 16);
      BackSum(y, 8, 8);
      BackByte(y);
      BackByte(Shr8(y));
      HighHalf(x);
      ZeroBits(16);
    }
  }

  lemma HighHalf(x: bv32)
    ensures Shr8(Shr8(And(x, 0xFFFF))) == 0
  {
  }
}
