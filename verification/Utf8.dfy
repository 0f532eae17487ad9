/**
 * The two UTF-8 checks of the compiler and of its YAML front end, written differently, against the
 * syntax of section 4 of RFC 3629 and against encoding itself.
 */
module Utf8 {
  import opened Bytes

  // ---------------------------------------------------------------- the syntax

  predicate Tail(b: byte) {
    0x80 <= b <= 0xBF
  }

  /** The length of the well-formed character that `s` begins with, by the octet ranges. */
  function FrontLength(s: bytes): (n: Option<nat>)
    ensures n.Some? ==> 1 <= n.value <= |s| && n.value <= 4
  {
    if s == [] then None
    else if s[0] <= 0x7F then Some(1)
    else if |s| >= 2 && 0xC2 <= s[0] <= 0xDF && Tail(s[1]) then Some(2)
    else if |s| >= 3 && Tail(s[2])
            && ((s[0] == 0xE0 && 0xA0 <= s[1] <= 0xBF)
                || (0xE1 <= s[0] <= 0xEC && Tail(s[1]))
                || (s[0] == 0xED && 0x80 <= s[1] <= 0x9F)
                || (0xEE <= s[0] <= 0xEF && Tail(s[1]))) then Some(3)
    else if |s| >= 4 && Tail(s[2]) && Tail(s[3])
            && ((s[0] == 0xF0 && 0x90 <= s[1] <= 0xBF)
                || (0xF1 <= s[0] <= 0xF3 && Tail(s[1]))
                || (s[0] == 0xF4 && 0x80 <= s[1] <= 0x8F)) then Some(4)
    else None
  }

  /** A sequence of well-formed characters. */
  predicate WellFormed(s: bytes) {
    s == [] || (FrontLength(s).Some? && WellFormed(s[FrontLength(s).value..]))
  }

  // ---------------------------------------------------------------- scalar values

  predicate IsScalar(c: nat) {
    c < 0xD800 || 0xE000 <= c <= 0x10FFFF
  }

  function EncodeScalar(c: nat): bytes
    requires IsScalar(c)
  {
    if c < 0x80 then [c]
    else if c < 0x800 then [0xC0 + c / 64, 0x80 + c % 64]
    else if c < 0x1_0000 then [0xE0 + c / 4096, 0x80 + c / 64 % 64, 0x80 + c % 64]
    else [0xF0 + c / 262144, 0x80 + c / 4096 % 64, 0x80 + c / 64 % 64, 0x80 + c % 64]
  }

  /** The scalar values. */
  lemma ScalarMeans(c: nat)
    ensures IsScalar(c) <==> c <= 0x10FFFF && !(0xD800 <= c <= 0xDFFF)
  {
  }

  /** The encodings in one and two octets, by their groups of bits. */
  lemma ShortEncodings(a: nat, b: nat)
    requires a < 32 && b < 64
    ensures a < 2 ==> EncodeScalar(64 * a + b) == [64 * a + b]
    ensures a >= 2 ==> EncodeScalar(64 * a + b) == [0xC0 + a, 0x80 + b]
  {
    assert (64 * a + b) / 64 == a && (64 * a + b) % 64 == b;
  }

  /** Those in three. */
  lemma ThreeOctetEncodings(a: nat, b: nat, d: nat)
    requires a < 16 && b < 64 && d < 64 && IsScalar(0x1000 * a + 0x40 * b + d)
    requires 0x1000 * a + 0x40 * b >= 0x800
    ensures EncodeScalar(0x1000 * a + 0x40 * b + d) == [0xE0 + a, 0x80 + b, 0x80 + d]
  {
    var c := 0x1000 * a + 0x40 * b + d;
    assert c / 64 == 64 * a + b && c % 64 == d;
    assert c / 4096 == a && (64 * a + b) % 64 == b;
  }

  /** And those in four. */
  lemma FourOctetEncodings(a: nat, b: nat, d: nat, e: nat)
    requires b < 64 && d < 64 && e < 64
    requires 0x1_0000 <= 0x4_0000 * a + 0x1000 * b + 0x40 * d + e <= 0x10FFFF
    ensures a <= 4
    ensures EncodeScalar(0x4_0000 * a + 0x1000 * b + 0x40 * d + e)
            == [0xF0 + a, 0x80 + b, 0x80 + d, 0x80 + e]
  {
    var c := 0x4_0000 * a + 0x1000 * b + 0x40 * d + e;
    assert c / 64 == 0x1000 * a + 64 * b + d && c % 64 == e;
    assert c / 4096 == 64 * a + b && c / 262144 == a;
    assert (0x1000 * a + 64 * b + d) % 64 == d && (64 * a + b) % 64 == b;
  }

  /** Six more bits. */
  function Push(high: int, continuation: int): int {
    high * 64 + continuation % 64
  }

  lemma PushParts(high: int, continuation: int)
    requires high >= 0
    ensures Push(high, continuation) / 64 == high
    ensures Push(high, continuation) % 64 == continuation % 64
  {
  }

  function FrontScalar(s: bytes): int
    requires FrontLength(s).Some?
  {
    var first: int := s[0];
    match FrontLength(s).value
    case 1 => first
    case 2 => Push(first % 32, s[1])
    case 3 => Push(Push(first % 16, s[1]), s[2])
    case _ => Push(Push(Push(first % 8, s[1]), s[2]), s[3])
  }

  lemma TwoBytes(a: int, b: int)
    requires 0xC2 <= a <= 0xDF && 0x80 <= b <= 0xBF
    ensures var c := Push(a % 32, b);
            0x80 <= c < 0x800 && 0xC0 + c / 64 == a && 0x80 + c % 64 == b
  {
  }

  lemma ThreeBytes(a: int, b: int, d: int)
    requires 0xE0 <= a <= 0xEF && 0x80 <= b <= 0xBF && 0x80 <= d <= 0xBF
    ensures var c := Push(Push(a % 16, b), d);
            && 0xE0 + c / 4096 == a && 0x80 + c / 64 % 64 == b && 0x80 + c % 64 == d
            && (c < 0x800 <==> a == 0xE0 && b < 0xA0)
            && (0xD800 <= c <= 0xDFFF <==> a == 0xED && b >= 0xA0) && c < 0x1_0000
  {
    hide Push;
    PushParts(a % 16, b);
    PushParts(Push(a % 16, b), d);
    PushIs(a % 16, b - 0x80);
    PushIs(Push(a % 16, b), d - 0x80);
    assert Push(Push(a % 16, b), d) / 4096 == a % 16;
  }

  lemma FourBytes(a: int, b: int, d: int, e: int)
    requires 0xF0 <= a <= 0xF4 && 0x80 <= b <= 0xBF && 0x80 <= d <= 0xBF && 0x80 <= e <= 0xBF
    ensures var c := Push(Push(Push(a % 8, b), d), e);
            && 0xF0 + c / 262144 == a && 0x80 + c / 4096 % 64 == b
            && 0x80 + c / 64 % 64 == d && 0x80 + c % 64 == e
            && (c < 0x1_0000 <==> a == 0xF0 && b < 0x90)
            && (c > 0x10FFFF <==> a == 0xF4 && b >= 0x90)
  {
    var x, y := Push(a % 8, b), Push(Push(a % 8, b), d);
    PushParts(a % 8, b);
    PushParts(x, d);
    PushParts(y, e);
    var c := Push(y, e);
    assert c / 4096 == x && c / 262144 == a % 8;
  }

  /** A well-formed character is the encoding of its scalar value. */
  lemma FrontEncodes(s: bytes)
    requires FrontLength(s).Some?
    ensures FrontScalar(s) >= 0 && IsScalar(FrontScalar(s))
    ensures EncodeScalar(FrontScalar(s)) == s[..FrontLength(s).value]
  {
    hide Push;
    match FrontLength(s).value
    case 1 =>
    case 2 => TwoBytes(s[0], s[1]);
    case 3 => ThreeBytes(s[0], s[1], s[2]);
    case _ => FourBytes(s[0], s[1], s[2], s[3]);
  }

  /** And every scalar value's encoding is a well-formed character, of that value. */
  lemma EncodedFront(c: nat, rest: bytes)
    requires IsScalar(c)
    ensures FrontLength(EncodeScalar(c) + rest) == Some(|EncodeScalar(c)|)
    ensures FrontScalar(EncodeScalar(c) + rest) == c
  {
    hide FrontScalar;
    var s := EncodeScalar(c) + rest;
    if c < 0x80 {
      OneByteFront(s);
    } else if c < 0x800 {
      TwoByteFront(c, s);
    } else if c < 0x1_0000 {
      ThreeByteFront(c, s);
    } else {
      FourByteFront(c, s);
    }
  }

  lemma OneByteFront(s: bytes)
    requires s != [] && s[0] < 0x80
    ensures FrontLength(s) == Some(1) && FrontScalar(s) == s[0]
  {
  }

  lemma TwoByteFront(c: nat, s: bytes)
    requires 0x80 <= c < 0x800 && |s| >= 2
    requires s[0] == 0xC0 + c / 64 && s[1] == 0x80 + c % 64
    ensures FrontLength(s) == Some(2) && FrontScalar(s) == c
  {
  }

  lemma ThreeByteFront(c: nat, s: bytes)
    requires 0x800 <= c < 0x1_0000 && IsScalar(c) && |s| >= 3
    requires s[0] == 0xE0 + c / 4096 && s[1] == 0x80 + c / 64 % 64 && s[2] == 0x80 + c % 64
    ensures FrontLength(s) == Some(3) && FrontScalar(s) == c
  {
    hide Push;
    var high: int, middle: int, low: int := c / 4096, c / 64 % 64, c % 64;
    Digits(c);
    assert c == (high * 64 + middle) * 64 + low;
    assert (0xE0 + high) % 16 == high;
    PushIs(high, middle);
    PushIs(high * 64 + middle, low);
  }

  lemma FourByteFront(c: nat, s: bytes)
    requires 0x1_0000 <= c <= 0x10FFFF && |s| >= 4
    requires s[0] == 0xF0 + c / 262144 && s[1] == 0x80 + c / 4096 % 64
    requires s[2] == 0x80 + c / 64 % 64 && s[3] == 0x80 + c % 64
    ensures FrontLength(s) == Some(4) && FrontScalar(s) == c
  {
    hide Push;
    var top: int, high: int, middle: int, low: int :=
      c / 262144, c / 4096 % 64, c / 64 % 64, c % 64;
    Digits(c);
    assert c == ((top * 64 + high) * 64 + middle) * 64 + low;
    assert (0xF0 + top) % 8 == top;
    PushIs(top, high);
    PushIs(top * 64 + high, middle);
    PushIs((top * 64 + high) * 64 + middle, low);
  }

  lemma Digits(c: nat)
    ensures c == (c / 4096 * 64 + c / 64 % 64) * 64 + c % 64
    ensures c / 4096 == c / 262144 * 64 + c / 4096 % 64
  {
    var n := c / 64;
    assert c == n * 64 + c % 64;
    assert n == n / 64 * 64 + n % 64;
    assert n / 64 == c / 4096;
    var t := c / 4096;
    assert t == t / 64 * 64 + t % 64;
    assert t / 64 == c / 262144;
  }

  lemma PushIs(high: int, rest: int)
    requires 0 <= rest < 64
    ensures Push(high, 0x80 + rest) == high * 64 + rest
  {
  }

  function Scalars(s: bytes): seq<nat>
    requires WellFormed(s)
  {
    if s == [] then []
    else
      FrontEncodes(s);
      [FrontScalar(s)] + Scalars(s[FrontLength(s).value..])
  }

  predicate AllScalars(cs: seq<nat>) {
    forall i | 0 <= i < |cs| :: IsScalar(cs[i])
  }

  function EncodeAll(cs: seq<nat>): bytes
    requires AllScalars(cs)
  {
    if cs == [] then [] else EncodeScalar(cs[0]) + EncodeAll(cs[1..])
  }

  /** The syntax is exactly what encoding produces: decoding and encoding undo each other. */
  lemma {:induction false} WellFormedEncodes(s: bytes)
    requires WellFormed(s)
    ensures AllScalars(Scalars(s)) && EncodeAll(Scalars(s)) == s
    decreases |s|
  {
    hide FrontLength, FrontScalar, EncodeScalar, IsScalar;
    if s != [] {
      var rest := s[FrontLength(s).value..];
      FrontEncodes(s);
      WellFormedEncodes(rest);
      assert Scalars(s)[1..] == Scalars(rest);
      assert s == s[..FrontLength(s).value] + rest;
    }
  }

  lemma {:induction false} EncodedWellFormed(cs: seq<nat>)
    requires AllScalars(cs)
    ensures WellFormed(EncodeAll(cs)) && Scalars(EncodeAll(cs)) == cs
  {
    hide FrontLength, FrontScalar, EncodeScalar, IsScalar;
    if cs != [] {
      var first, rest := EncodeScalar(cs[0]), EncodeAll(cs[1..]);
      EncodedFront(cs[0], rest);
      EncodedWellFormed(cs[1..]);
      assert (first + rest)[|first|..] == rest;
      assert first + rest != [];
    }
  }

  // ---------------------------------------------------------------- the compiler's check

  predicate IsContinuationByte(b: byte) {
    b / 64 == 2
  }

  /** Code-point arithmetic; a failure is reported at the character or at the byte that breaks it. */
  method ValidateUtf8(input: bytes) returns (valid: bool, errorOffset: nat, ghost start: nat)
    ensures valid <==> WellFormed(input)
    ensures !valid ==>
              && start <= errorOffset < |input| && errorOffset < start + 4
              && WellFormed(input[..start]) && FrontLength(input[start..]) == None
  {
    hide FrontLength;
    var index: nat := 0;
    errorOffset, start := 0, 0;
    assert input[0..] == input;
    while index < |input|
      invariant index <= |input| && WellFormed(input[..index])
      invariant WellFormed(input) <==> WellFormed(input[index..])
      decreases |input| - index
    {
      start := index;
      ghost var rest := input[index..];
      var ok, size, error := CheckSequence(input, index);
      if !ok {
        return false, error, start;
      }
      assert rest[size..] == input[index + size..];
      Extended(input[..index], rest[..size]);
      FrontOfPrefix(rest, size);
      assert input[..index + size] == input[..index] + rest[..size];
      index := index + size;
    }
    valid := true;
  }

  /** One character, by arithmetic. */
  method CheckSequence(input: bytes, index: nat) returns (ok: bool, size: nat, error: nat)
    requires index < |input|
    ensures ok ==> FrontLength(input[index..]) == Some(size)
    ensures !ok ==> FrontLength(input[index..]) == None && index <= error < |input| && error < index + 4
  {
    hide Push;
    size, error := 1, index;
    var first := input[index];
    if first <= 0x7F {
      return true, 1, index;
    }
    var codePoint: int, minimum := 0, 0;
    if 0xC2 <= first <= 0xDF {
      size, codePoint, minimum := 2, first % 32, 0x80;
    } else if 0xE0 <= first <= 0xEF {
      size, codePoint, minimum := 3, first % 16, 0x800;
    } else if 0xF0 <= first <= 0xF4 {
      size, codePoint, minimum := 4, first % 8, 0x1_0000;
    } else {
      return false, size, error;
    }
    if size > |input| - index {
      return false, size, error;
    }
    ghost var s := input[index..];
    var k := 1;
    while k < size
      invariant 1 <= k <= size
      invariant forall j | 1 <= j < k :: Tail(s[j])
      invariant codePoint == Accumulated(s, size, k)
    {
      var continuation := input[index + k];
      if !IsContinuationByte(continuation) {
        BrokenCharacter(s, size, k);
        return false, size, index + k;
      }
      codePoint := Push(codePoint, continuation);
      k := k + 1;
    }
    CodePointDecides(s, size, codePoint);
    if codePoint < minimum || codePoint > 0x10FFFF || 0xD800 <= codePoint <= 0xDFFF {
      return false, size, error;
    }
    ok := true;
  }

  /** How many bytes the first one announces. */
  predicate Announces(first: byte, size: nat) {
    (0xC2 <= first <= 0xDF && size == 2) || (0xE0 <= first <= 0xEF && size == 3)
    || (0xF0 <= first <= 0xF4 && size == 4)
  }

  lemma BrokenCharacter(s: bytes, size: nat, k: nat)
    requires s != [] && Announces(s[0], size) && 1 <= k < size <= |s| && !Tail(s[k])
    ensures FrontLength(s) == None
  {
  }

  /** The range checks on the code point are the second-byte ranges of the syntax. */
  lemma CodePointDecides(s: bytes, size: nat, codePoint: int)
    requires s != [] && Announces(s[0], size) && size <= |s|
    requires forall j | 1 <= j < size :: Tail(s[j])
    requires codePoint == Accumulated(s, size, size)
    ensures var minimum := if size == 2 then 0x80 else if size == 3 then 0x800 else 0x1_0000;
            FrontLength(s) == if codePoint < minimum || codePoint > 0x10FFFF
                                 || 0xD800 <= codePoint <= 0xDFFF then None else Some(size)
  {
    hide Push;
    AccumulatedIs(s, size);
    if size == 2 {
      TwoBytes(s[0], s[1]);
    } else if size == 3 {
      ThreeBytes(s[0], s[1], s[2]);
    } else {
      FourBytes(s[0], s[1], s[2], s[3]);
    }
  }

  lemma AccumulatedIs(s: bytes, size: nat)
    requires 2 <= size <= 4 && size <= |s|
    ensures size == 2 ==> Accumulated(s, size, size) == Push(s[0] % 32, s[1])
    ensures size == 3 ==> Accumulated(s, size, size) == Push(Push(s[0] % 16, s[1]), s[2])
    ensures size == 4 ==> Accumulated(s, size, size) == Push(Push(Push(s[0] % 8, s[1]), s[2]), s[3])
  {
    hide Push;
    if size >= 3 {
      assert Accumulated(s, size, 2) == Push(Accumulated(s, size, 1), s[1]);
    }
    if size == 4 {
      assert Accumulated(s, size, 3) == Push(Accumulated(s, size, 2), s[2]);
    }
  }

  /** The code point after `k` bytes of a character of `size` bytes. */
  function Accumulated(s: bytes, size: nat, k: nat): int
    requires 2 <= size <= 4 && 1 <= k <= size <= |s|
  {
    if k == 1 then
      var first: int := s[0];
      if size == 2 then first % 32 else if size == 3 then first % 16 else first % 8
    else Push(Accumulated(s, size, k - 1), s[k - 1])
  }

  lemma FrontOfPrefix(s: bytes, n: nat)
    requires FrontLength(s) == Some(n)
    ensures FrontLength(s[..n]) == Some(n)
  {
  }

  /** One more well-formed character. */
  lemma {:induction false} Extended(s: bytes, c: bytes)
    requires WellFormed(s)
    ensures FrontLength(c) == Some(|c|) ==> WellFormed(s + c)
    decreases |s|
  {
    hide FrontLength;
    if s == [] {
      assert s + c == c && c[|c|..] == [];
    } else {
      var n := FrontLength(s).value;
      Extended(s[n..], c);
      FrontStable(s, c);
      assert (s + c)[n..] == s[n..] + c;
    }
  }

  lemma FrontStable(s: bytes, rest: bytes)
    requires FrontLength(s).Some?
    ensures FrontLength(s + rest) == FrontLength(s)
  {
  }

  // ---------------------------------------------------------------- the front end's check

  /** Second-byte ranges. */
  method IsUtf8(input: bytes) returns (valid: bool)
    ensures valid <==> WellFormed(input)
  {
    hide FrontLength;
    var i: nat := 0;
    assert input[0..] == input;
    while i < |input|
      invariant i <= |input|
      invariant WellFormed(input) <==> WellFormed(input[i..])
      decreases |input| - i
    {
      var ok, count := CheckCharacter(input, i);
      if !ok {
        return false;
      }
      assert input[i..][count..] == input[i + count..];
      i := i + count;
    }
    valid := true;
  }

  method CheckCharacter(input: bytes, i: nat) returns (ok: bool, count: nat)
    requires i < |input|
    ensures ok <==> FrontLength(input[i..]).Some?
    ensures ok ==> FrontLength(input[i..]) == Some(count)
  {
    ghost var s := input[i..];
    var first := input[i];
    if first < 0x80 {
      return true, 1;
    }
    count := if 0xC2 <= first <= 0xDF then 2
             else if 0xE0 <= first <= 0xEF then 3
             else if 0xF0 <= first <= 0xF4 then 4 else 0;
    if count == 0 || count > |input| - i {
      return false, count;
    }
    for n := 1 to count
      invariant forall j | 1 <= j < n :: Tail(s[j])
    {
      if input[i + n] / 64 != 2 {
        return false, count;
      }
    }
    var second := input[i + 1];
    if count == 3 && ((first == 0xE0 && second < 0xA0) || (first == 0xED && second >= 0xA0)) {
      return false, count;
    }
    if count == 4 && ((first == 0xF0 && second < 0x90) || (first == 0xF4 && second >= 0x90)) {
      return false, count;
    }
    ok := true;
  }

  // ---------------------------------------------------------------- counting

  /** The bytes that are not continuations. */
  function Leading(s: bytes): nat {
    if s == [] then 0
    else Leading(s[..|s| - 1]) + if IsContinuationByte(s[|s| - 1]) then 0 else 1
  }

  lemma {:induction false} LeadingSum(a: bytes, b: bytes)
    ensures Leading(a + b) == Leading(a) + Leading(b)
    decreases |b|
  {
    if b == [] {
      assert a + b == a;
    } else {
      assert (a + b)[..|a + b| - 1] == a + b[..|b| - 1];
      LeadingSum(a, b[..|b| - 1]);
    }
  }

  lemma OneLeads(s: bytes)
    requires FrontLength(s).Some?
    ensures Leading(s[..FrontLength(s).value]) == 1
  {
    var c := s[..FrontLength(s).value];
    FrontBytes(s);
    OneThenTails(c);
  }

  lemma FrontBytes(s: bytes)
    requires FrontLength(s).Some?
    ensures !IsContinuationByte(s[0])
    ensures forall i | 1 <= i < FrontLength(s).value :: IsContinuationByte(s[i])
  {
  }

  lemma {:induction false} OneThenTails(c: bytes)
    requires c != [] && !IsContinuationByte(c[0])
    requires forall i | 1 <= i < |c| :: IsContinuationByte(c[i])
    ensures Leading(c) == 1
  {
    hide IsContinuationByte;
    if |c| > 1 {
      OneThenTails(c[..|c| - 1]);
    }
  }

  lemma {:induction false} LeadingCounts(s: bytes)
    requires WellFormed(s)
    ensures Leading(s) == |Scalars(s)|
    decreases |s|
  {
    hide FrontLength, FrontScalar, IsContinuationByte;
    if s != [] {
      var n := FrontLength(s).value;
      OneLeads(s);
      LeadingSum(s[..n], s[n..]);
      assert s == s[..n] + s[n..];
      LeadingCounts(s[n..]);
    }
  }

  /** For an accepted string this is the number of its scalar values. */
  method CountUtf8ScalarValues(input: bytes) returns (count: nat)
    ensures WellFormed(input) ==> count == |Scalars(input)|
  {
    hide FrontLength, FrontScalar, IsContinuationByte;
    count := 0;
    for i := 0 to |input|
      invariant count == Leading(input[..i])
    {
      assert input[..i + 1][..i] == input[..i];
      if !IsContinuationByte(input[i]) {
        count := count + 1;
      }
    }
    assert input[..|input|] == input;
    if WellFormed(input) {
      LeadingCounts(input);
    }
  }
}
