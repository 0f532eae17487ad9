/**
 * Integers on the wire: loading and storing in either byte order, and members of bit containers.
 */
module WireIntegers {
  import opened Bytes
  import opened FramingSpec
  import opened Arithmetic
  import opened WideIntegers
  import opened DecimalConversion

  // ---------------------------------------------------------------- bytes of a number

  /** The value that bytes in wire order stand for. */
  function LoadValue(s: bytes, order: ByteOrder): nat {
    BigEndian(if order == Little then Reverse(s) else s)
  }

  /** The low `width` bytes of a number, most significant first. */
  function Digits(value: nat, width: nat): (d: bytes)
    ensures |d| == width
  {
    if width == 0 then [] else Digits(value / 256, width - 1) + [value % 256]
  }

  function StoreBytes(value: nat, width: nat, order: ByteOrder): (d: bytes)
    ensures |d| == width
  {
    if order == Little then Reverse(Digits(value, width)) else Digits(value, width)
  }

  lemma LimitNext(k: nat)
    ensures WidthLimit(k + 1) == 256 * WidthLimit(k) && WidthLimit(0) == 1
  {
    assert Pow2(8) == 256 by {
      assert Pow2(4) == 16;
      Pow2Sum(4, 4);
    }
    Pow2Sum(8, 8 * k);
    assert Pow2(0) == 1;
  }

  lemma {:induction false} BigEndianBound(s: bytes)
    ensures BigEndian(s) < WidthLimit(|s|)
  {
    hide WidthLimit;
    if s != [] {
      BigEndianBound(s[..|s| - 1]);
      LimitNext(|s| - 1);
    } else {
      LimitNext(0);
    }
  }

  /** Storing what was loaded gives the bytes back. */
  lemma {:induction false} DigitsOfLoad(s: bytes)
    ensures Digits(BigEndian(s), |s|) == s
  {
    if s != [] {
      DigitsOfLoad(s[..|s| - 1]);
      assert s == s[..|s| - 1] + [s[|s| - 1]];
    }
  }

  /** Loading what was stored gives the number back, if it fits. */
  lemma {:induction false} LoadOfDigits(value: nat, width: nat)
    requires value < WidthLimit(width)
    ensures BigEndian(Digits(value, width)) == value
  {
    hide WidthLimit;
    if width > 0 {
      LimitNext(width - 1);
      LoadOfDigits(value / 256, width - 1);
      var d := Digits(value, width);
      assert d[..|d| - 1] == Digits(value / 256, width - 1);
    } else {
      LimitNext(0);
    }
  }

  lemma ReverseTwice(s: bytes)
    ensures Reverse(Reverse(s)) == s
  {
    assert forall i | 0 <= i < |s| :: Reverse(Reverse(s))[i] == s[i];
  }

  /** Every integer field survives the wire, in both byte orders. */
  lemma WireRoundTrip(value: nat, width: nat, order: ByteOrder)
    requires value < WidthLimit(width)
    ensures LoadValue(StoreBytes(value, width, order), order) == value
  {
    hide WidthLimit;
    LoadOfDigits(value, width);
    ReverseTwice(Digits(value, width));
  }

  lemma LoadBound(s: bytes, order: ByteOrder)
    ensures LoadValue(s, order) < WidthLimit(|s|)
  {
    hide WidthLimit;
    BigEndianBound(if order == Little then Reverse(s) else s);
  }

  /** And every run of bytes is what its number is stored as. */
  lemma StoreOfLoad(s: bytes, order: ByteOrder)
    ensures StoreBytes(LoadValue(s, order), |s|, order) == s
  {
    DigitsOfLoad(if order == Little then Reverse(s) else s);
    ReverseTwice(s);
  }

  /** Byte by byte: the last byte is the least significant, or the first in little-endian order. */
  lemma LoadByByte(s: bytes, b: byte)
    ensures LoadValue([], Big) == 0 && LoadValue([], Little) == 0
    ensures LoadValue(s + [b], Big) == 256 * LoadValue(s, Big) + b
    ensures LoadValue([b] + s, Little) == 256 * LoadValue(s, Little) + b
    ensures LoadValue([b], NotApplicable) == b
  {
    hide Reverse;
    assert (s + [b])[..|s|] == s && [b][..0] == [] && Reverse([]) == [];
    ReversedPrepend(s, b);
    assert (Reverse(s) + [b])[..|s|] == Reverse(s);
    assert BigEndian([b]) == 256 * BigEndian([]) + b;
  }

  lemma ReversedPrepend(s: bytes, b: byte)
    ensures Reverse([b] + s) == Reverse(s) + [b]
  {
    assert ([b] + s)[1..] == s;
  }

  predicate IsIntegerByteOrderValid(order: ByteOrder, byteWidth: nat) {
    byteWidth == 1 || order == Big || order == Little
  }

  predicate FitsUnsignedWidth(value: nat, byteWidth: nat) {
    1 <= byteWidth <= 8 && value < WidthLimit(byteWidth)
  }

  /** Which orders and which values fit a width. */
  lemma WidthsMean(order: ByteOrder, byteWidth: nat, value: nat)
    ensures IsIntegerByteOrderValid(order, byteWidth)
            <==> byteWidth == 1 || order == Big || order == Little
    ensures FitsUnsignedWidth(value, 1) <==> value <= 0xFF
    ensures FitsUnsignedWidth(value, 2) <==> value <= 0xFFFF
    ensures FitsUnsignedWidth(value, 4) <==> value <= 0xFFFF_FFFF
    ensures FitsUnsignedWidth(value, 8) <==> value <= 0xFFFF_FFFF_FFFF_FFFF
    ensures FitsUnsignedWidth(value, byteWidth)
            <==> 1 <= byteWidth <= 8 && value < WidthLimit(byteWidth)
    ensures WidthLimit(0) == 1 && WidthLimit(byteWidth + 1) == 256 * WidthLimit(byteWidth)
  {
    hide WidthLimit;
    LimitNext(byteWidth);
    LimitNext(0);
    LimitNext(1);
    LimitNext(2);
    LimitNext(3);
    LimitNext(4);
    LimitNext(5);
    LimitNext(6);
    LimitNext(7);
  }

  lemma {:induction false} BigEndianPrepend(b: byte, s: bytes)
    ensures BigEndian([b] + s) == b * WidthLimit(|s|) + BigEndian(s)
  {
    hide WidthLimit;
    if s == [] {
      LimitNext(0);
      assert [b] + s == [b] && [b][..0] == [];
    } else {
      var t := [b] + s;
      assert t[..|t| - 1] == [b] + s[..|s| - 1];
      BigEndianPrepend(b, s[..|s| - 1]);
      LimitNext(|s| - 1);
      Associate(256, b, WidthLimit(|s| - 1));
      assert 256 * (b * WidthLimit(|s| - 1)) == b * WidthLimit(|s|);
    }
  }

  method LoadUnsigned(data: bytes, offset: nat, byteWidth: nat, order: ByteOrder)
    returns (ok: bool, value: nat)
    requires offset + byteWidth <= |data|
    ensures ok <==> 1 <= byteWidth <= 8 && IsIntegerByteOrderValid(order, byteWidth)
    ensures ok ==> value == LoadValue(data[offset..offset + byteWidth], order)
  {
    hide WidthLimit, Reverse;
    value := 0;
    if byteWidth == 0 || byteWidth > 8 || !IsIntegerByteOrderValid(order, byteWidth) {
      return false, value;
    }
    ghost var s := data[offset..offset + byteWidth];
    assert s[..byteWidth] == s;
    if byteWidth == 1 || order == Big {
      for index := 0 to byteWidth
        invariant value == BigEndian(s[..index])
      {
        assert s[..index + 1][..index] == s[..index];
        value := value * 256 + data[offset + index];
      }
      if order == Little {
        assert Reverse(s) == s;
      }
    } else {
      for index := 0 to byteWidth
        invariant value == BigEndian(Reverse(s[..index]))
      {
        LittleStep(s[..index], data[offset + index]);
        assert s[..index] + [data[offset + index]] == s[..index + 1];
        NonNegative(data[offset + index], WidthLimit(index));
        value := value + data[offset + index] * WidthLimit(index);
      }
    }
    ok := true;
  }

  lemma ReversedAppend(s: bytes, b: byte)
    ensures Reverse(s + [b]) == [b] + Reverse(s)
  {
    hide Reverse;
    var back, front := Reverse(s + [b]), [b] + Reverse(s);
    forall i | 0 <= i < |front|
      ensures back[i] == front[i]
    {
      assert back[i] == (s + [b])[|s| - i];
    }
  }

  lemma LittleStep(s: bytes, b: byte)
    ensures BigEndian(Reverse(s + [b])) == BigEndian(Reverse(s)) + b * WidthLimit(|s|)
  {
    hide WidthLimit, Reverse, BigEndian;
    var back, front := Reverse(s + [b]), [b] + Reverse(s);
    ReversedAppend(s, b);
    BigEndianPrepend(b, Reverse(s));
  }

  /** The digit of weight 256^(width - 1 - i). */
  lemma {:induction false} DigitAt(value: nat, width: nat, i: nat)
    requires i < width
    ensures Digits(value, width)[i] == (value / WidthLimit(width - 1 - i)) % 256
  {
    hide WidthLimit;
    if i == width - 1 {
      LimitNext(0);
    } else {
      DigitAt(value / 256, width - 1, i);
      LimitNext(width - 2 - i);
      DivideTwice(value, 256, WidthLimit(width - 2 - i));
    }
  }

  lemma DivideTwice(n: nat, a: nat, b: nat)
    requires a > 0 && b > 0
    ensures a * b > 0 && (n / a) / b == n / (a * b)
  {
    var q, r := n / a, n % a;
    var q2, r2 := q / b, q % b;
    DivMod(n, a);
    DivMod(q, b);
    Associate(q2, b, a);
    Distribute(q2 * b, r2, a);
    MulMono(r2 + 1, b, a);
    Distribute(r2, 1, a);
    NonNegative(r2, a);
    NonZeroProduct(a, b);
    NonNegative(a, b);
    assert n == q2 * (a * b) + (r2 * a + r) by {
      assert q2 * (b * a) == q2 * (a * b);
    }
    DivIs(n, a * b, q2, r2 * a + r);
  }

  method StoreUnsigned(value: nat, output: array<byte>, offset: nat, byteWidth: nat,
                       order: ByteOrder)
    returns (ok: bool)
    requires offset + byteWidth <= output.Length
    modifies output
    ensures ok <==> IsIntegerByteOrderValid(order, byteWidth) && FitsUnsignedWidth(value, byteWidth)
    ensures ok ==> output[offset..offset + byteWidth] == StoreBytes(value, byteWidth, order)
    ensures output[..offset] == old(output[..offset])
    ensures output[offset + byteWidth..] == old(output[offset + byteWidth..])
    ensures !ok ==> output[..] == old(output[..])
  {
    hide WidthLimit;
    if !IsIntegerByteOrderValid(order, byteWidth) || !FitsUnsignedWidth(value, byteWidth) {
      return false;
    }
    ghost var stored := StoreBytes(value, byteWidth, order);
    for index := 0 to byteWidth
      invariant output[offset..offset + index] == stored[..index]
      invariant output[..offset] == old(output[..offset])
      invariant output[offset + byteWidth..] == old(output[offset + byteWidth..])
    {
      var sourceIndex := if order == Big then byteWidth - 1 - index else index;
      StoredByte(value, byteWidth, order, index);
      output[offset + index] := (value / WidthLimit(sourceIndex)) % 256;
    }
    ok := true;
  }

  lemma StoredByte(value: nat, byteWidth: nat, order: ByteOrder, index: nat)
    requires index < byteWidth && IsIntegerByteOrderValid(order, byteWidth)
    ensures var sourceIndex := if order == Big then byteWidth - 1 - index else index;
            StoreBytes(value, byteWidth, order)[index] == (value / WidthLimit(sourceIndex)) % 256
  {
    hide WidthLimit, Reverse, Digits;
    DigitAt(value, byteWidth, index);
    DigitAt(value, byteWidth, byteWidth - 1 - index);
  }

  // ---------------------------------------------------------------- bit containers

  /** `(container & mask) >> shift` for the mask of `bits` ones at `shift`. */
  function ExtractBitfield(container: nat, shift: nat, bits: nat): nat {
    (container / Pow2(shift)) % Pow2(bits)
  }

  /** `(container & ~mask) | ((raw << shift) & mask)`. */
  function ReplaceBitfield(container: nat, shift: nat, bits: nat, raw: nat): (c: nat) {
    Assemble(Quotient(container, Pow2(shift + bits)), Pow2(shift + bits),
             Rest(raw, Pow2(bits)), Pow2(shift), Rest(container, Pow2(shift)))
  }

  function Quotient(n: nat, d: nat): nat
    requires d > 0
  {
    DivMod(n, d);
    n / d
  }

  function Rest(n: nat, d: nat): nat
    requires d > 0
  {
    DivMod(n, d);
    n % d
  }

  function Assemble(high: nat, p: nat, mid: nat, q: nat, low: nat): nat {
    NonNegative(high, p);
    NonNegative(mid, q);
    high * p + mid * q + low
  }

  /** A number cut at two places. */
  lemma Cut3(n: nat, shift: nat, bits: nat)
    ensures var high, mid, low := n / Pow2(shift + bits), ExtractBitfield(n, shift, bits),
                                  n % Pow2(shift);
            n == high * Pow2(shift + bits) + mid * Pow2(shift) + low
  {
    hide Pow2;
    var q := n / Pow2(shift);
    DivMod(n, Pow2(shift));
    DivMod(q, Pow2(bits));
    DivideTwice(n, Pow2(shift), Pow2(bits));
    Pow2Sum(shift, bits);
    Distribute((q / Pow2(bits)) * Pow2(bits), q % Pow2(bits), Pow2(shift));
    Associate(q / Pow2(bits), Pow2(bits), Pow2(shift));
  }

  /** Three parts put together can be taken apart again. */
  lemma Parts(high: nat, mid: nat, low: nat, shift: nat, bits: nat)
    requires mid < Pow2(bits) && low < Pow2(shift)
    ensures var n := high * Pow2(shift + bits) + mid * Pow2(shift) + low;
            && n >= 0 && n / Pow2(shift + bits) == high && n % Pow2(shift) == low
            && ExtractBitfield(n, shift, bits) == mid
  {
    hide Pow2;
    var a, b := Pow2(shift), Pow2(bits);
    Pow2Sum(shift, bits);
    NonNegative(high, a * b);
    NonNegative(mid, a);
    var n: nat := high * (a * b) + mid * a + low;
    NonNegative(high, b);
    Associate(high, b, a);
    assert a * b == b * a;
    Distribute(high * b, mid, a);
    DivIs(n, a, high * b + mid, low);
    DivIs(high * b + mid, b, high, mid);
    DivideTwice(n, a, b);
  }

  /** A member reads back what was written to it. */
  lemma ExtractReplaced(container: nat, shift: nat, bits: nat, raw: nat)
    ensures ExtractBitfield(ReplaceBitfield(container, shift, bits, raw), shift, bits)
            == raw % Pow2(bits)
  {
    hide Pow2;
    DivMod(raw, Pow2(bits));
    DivMod(container, Pow2(shift));
    DivMod(container, Pow2(shift + bits));
    Parts(container / Pow2(shift + bits), raw % Pow2(bits), container % Pow2(shift), shift, bits);
  }

  predicate BitsApart(shift: nat, bits: nat, shift2: nat, bits2: nat) {
    shift + bits <= shift2 || shift2 + bits2 <= shift
  }

  /** Reading depends on the bits above or below a cut only. */
  lemma ExtractAbove(n: nat, at: nat, shift: nat, bits: nat)
    requires at <= shift
    ensures ExtractBitfield(n, shift, bits)
            == ExtractBitfield(Quotient(n, Pow2(at)), shift - at, bits)
  {
    hide Pow2;
    Pow2Sum(at, shift - at);
    DivideTwice(n, Pow2(at), Pow2(shift - at));
  }

  lemma ExtractBelow(n: nat, at: nat, shift: nat, bits: nat)
    requires shift + bits <= at
    ensures ExtractBitfield(n, shift, bits) == ExtractBitfield(n % Pow2(at), shift, bits)
  {
    hide Pow2, ExtractBitfield;
    DivMod(n, Pow2(at));
    var q, m := n / Pow2(at), n % Pow2(at);
    var k := at - shift - bits;
    Pow2Sum(k, shift + bits);
    var high, mid, low := m / Pow2(shift + bits), ExtractBitfield(m, shift, bits), m % Pow2(shift);
    Cut3(m, shift, bits);
    ExtractSmall(m, shift, bits);
    NonNegative(q, Pow2(k));
    Associate(q, Pow2(k), Pow2(shift + bits));
    Distribute(q * Pow2(k), high, Pow2(shift + bits));
    DivMod(m, Pow2(shift));
    DivMod(m, Pow2(shift + bits));
    Parts(q * Pow2(k) + high, mid, low, shift, bits);
  }

  lemma ExtractSmall(n: nat, shift: nat, bits: nat)
    ensures 0 <= ExtractBitfield(n, shift, bits) < Pow2(bits)
  {
  }

  /** Writing one member leaves every member apart from it alone. */
  lemma ExtractOther(container: nat, shift: nat, bits: nat, raw: nat, shift2: nat, bits2: nat)
    requires BitsApart(shift, bits, shift2, bits2)
    ensures ExtractBitfield(ReplaceBitfield(container, shift, bits, raw), shift2, bits2)
            == ExtractBitfield(container, shift2, bits2)
  {
    hide Pow2, ExtractBitfield;
    var replaced := ReplaceBitfield(container, shift, bits, raw);
    DivMod(raw, Pow2(bits));
    DivMod(container, Pow2(shift));
    DivMod(container, Pow2(shift + bits));
    Parts(container / Pow2(shift + bits), raw % Pow2(bits), container % Pow2(shift), shift, bits);
    if shift + bits <= shift2 {
      ExtractAbove(replaced, shift + bits, shift2, bits2);
      ExtractAbove(container, shift + bits, shift2, bits2);
    } else {
      ExtractBelow(replaced, shift, shift2, bits2);
      ExtractBelow(container, shift, shift2, bits2);
    }
  }

  /** A member inside a container of `total` bits never makes it overflow. */
  lemma ReplacedFits(container: nat, shift: nat, bits: nat, raw: nat, total: nat)
    requires container < Pow2(total) && shift + bits <= total
    ensures ReplaceBitfield(container, shift, bits, raw) < Pow2(total)
  {
    hide Pow2;
    DivMod(raw, Pow2(bits));
    DivMod(container, Pow2(shift));
    DivMod(container, Pow2(shift + bits));
    var high, mid, low := container / Pow2(shift + bits), raw % Pow2(bits), container % Pow2(shift);
    var k := total - shift - bits;
    Pow2Sum(k, shift + bits);
    Pow2Sum(bits, shift);
    HighBelow(high, Pow2(k), Pow2(shift + bits), container);
    Distribute(1, mid, Pow2(shift));
    MulMono(1 + mid, Pow2(bits), Pow2(shift));
    Distribute(1, high, Pow2(shift + bits));
    MulMono(1 + high, Pow2(k), Pow2(shift + bits));
  }

  lemma HighBelow(high: nat, k: nat, p: nat, n: nat)
    requires p > 0 && n < k * p && high * p <= n
    ensures high < k
  {
    if high >= k {
      MulMono(k, high, p);
    }
  }
}
