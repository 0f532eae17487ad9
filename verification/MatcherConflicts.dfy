/**
 * Whose fault a failed final review is. The compiler compares matchers with everything that Encode
 * writes without asking the caller; what is left to contradict a matcher is a caller's value.
 */
module MatcherConflicts {
  import opened Bytes
  import opened FramingSpec
  import opened WideIntegers
  import opened DecimalConversion
  import opened WireIntegers
  import opened PipelineMatch
  import opened BinaryPlan
  import opened BinaryImage
  import opened BinaryDecode
  import opened BinaryEncode
  import opened BinaryCodec

  // ---------------------------------------------------------------- bits

  function Bit(n: nat, i: nat): nat {
    ExtractBitfield(n, i, 1)
  }

  /** Numbers that agree in all bits are equal. */
  lemma {:induction false} SameBits(a: nat, b: nat, bits: nat)
    requires a < Pow2(bits) && b < Pow2(bits)
    requires forall i: nat | i < bits :: Bit(a, i) == Bit(b, i)
    ensures a == b
  {
    hide ExtractBitfield;
    if bits > 0 {
      forall i: nat | i < bits - 1
        ensures Bit(a / 2, i) == Bit(b / 2, i)
      {
        ShiftedBit(a, i);
        ShiftedBit(b, i);
        assert Bit(a, i + 1) == Bit(b, i + 1);
      }
      Pow2Next(bits - 1);
      SameBits(a / 2, b / 2, bits - 1);
      LowestBit(a);
      LowestBit(b);
      assert Bit(a, 0) == Bit(b, 0);
    } else {
      assert Pow2(0) == 1;
    }
  }

  lemma LowestBit(n: nat)
    ensures Bit(n, 0) == n % 2
  {
    assert Pow2(0) == 1 && Pow2(1) == 2 * Pow2(0);
  }

  lemma ShiftedBit(n: nat, i: nat)
    ensures Bit(n / 2, i) == Bit(n, i + 1)
  {
    hide ExtractBitfield;
    assert Pow2(1) == 2 * Pow2(0) && Pow2(0) == 1;
    ExtractAbove(n, 1, i + 1, 1);
  }

  lemma DifferentBit(a: byte, b: byte) returns (j: nat)
    requires a != b
    ensures j < 8 && Bit(a, j) != Bit(b, j)
  {
    hide ExtractBitfield, Pow2;
    EightBits();
    j := 0;
    if forall i: nat | i < 8 :: Bit(a, i) == Bit(b, i) {
      SameBits(a, b, 8);
    } else {
      j :| j < 8 && Bit(a, j) != Bit(b, j);
    }
  }

  lemma EightBits()
    ensures Pow2(8) == 256
  {
    assert Pow2(4) == 16;
    Pow2Sum(4, 4);
  }

  /** Bit `j` of a number's byte of weight 256^at. */
  lemma ByteBit(n: nat, at: nat, j: nat)
    requires j < 8
    ensures Bit((n / WidthLimit(at)) % 256, j) == Bit(n, 8 * at + j)
  {
    hide ExtractBitfield, Pow2;
    EightBits();
    ExtractAbove(n, 8 * at, 8 * at + j, 1);
    ExtractBelow(n / Pow2(8 * at), 8, j, 1);
  }

  /** A bit inside a member is the member's. */
  lemma MemberBit(n: nat, shift: nat, bits: nat, i: nat)
    requires shift <= i < shift + bits
    ensures Bit(n, i) == Bit(ExtractBitfield(n, shift, bits), i - shift)
  {
    hide Pow2;
    ExtractAbove(n, shift, i, 1);
    ExtractBelow(n / Pow2(shift), bits, i - shift, 1);
  }

  // ---------------------------------------------------------------- what Encode determines

  /** A member whose value the caller supplies has this bit of the container. */
  predicate SuppliedBit(m: MessagePlan, c: nat, k: nat, i: nat) {
    k < |m.fields| && InContainer(m.fields[k], c) && m.fields[k].source == Input
    && m.fields[k].wire.shift <= i < m.fields[k].wire.shift + m.fields[k].wire.bits
  }

  predicate Determined(m: MessagePlan, c: nat, i: nat) {
    forall k: nat | k < |m.fields| :: !SuppliedBit(m, c, k, i)
  }

  /** The container with its base value and its constants only. */
  ghost function DeterminedValue(m: MessagePlan, c: nat, n: nat): nat
    requires c < |m.containers| && n <= |m.fields|
  {
    if n == 0 then m.containers[c].baseValue
    else
      var f := m.fields[n - 1];
      var before := DeterminedValue(m, c, n - 1);
      if InContainer(f, c) && f.source.Constant?
      then ReplaceBitfield(before, f.wire.shift, f.wire.bits, RawOf(f, UintValue(0)))
      else before
  }

  /** A bit that no supplied member has is the same for all values. */
  lemma {:induction false} DeterminedBits(m: MessagePlan, values: Values, c: nat, n: nat, i: nat)
    requires ValidMessage(m) && c < |m.containers| && n <= |m.fields| && Determined(m, c, i)
    ensures Bit(ContainerValue(m, values, c, n), i) == Bit(DeterminedValue(m, c, n), i)
    decreases n
  {
    hide ValidMessage, RawOf, ReplaceBitfield, Pow2, ExtractBitfield;
    if n > 0 {
      DeterminedBits(m, values, c, n - 1, i);
      var f := m.fields[n - 1];
      if InContainer(f, c) {
        LegalFieldOf(m, n - 1);
        var before, plain := ContainerValue(m, values, c, n - 1), DeterminedValue(m, c, n - 1);
        var raw := RawOf(f, values(n - 1));
        assert !SuppliedBit(m, c, n - 1, i);
        if f.wire.shift <= i < f.wire.shift + f.wire.bits {
          ConstantRawFixed(f, values(n - 1));
          ReplacedBit(before, plain, f.wire.shift, f.wire.bits, raw, i);
        } else {
          ExtractOther(before, f.wire.shift, f.wire.bits, raw, i, 1);
          ExtractOther(plain, f.wire.shift, f.wire.bits, RawOf(f, UintValue(0)), i, 1);
        }
      }
    }
  }

  lemma ConstantRawFixed(f: FieldPlan, v: LogicalValue)
    requires f.source.Constant?
    ensures RawOf(f, v) == RawOf(f, UintValue(0))
  {
    hide Pow2;
  }

  lemma ReplacedBit(a: nat, b: nat, shift: nat, bits: nat, raw: nat, i: nat)
    requires shift <= i < shift + bits
    ensures Bit(ReplaceBitfield(a, shift, bits, raw), i)
            == Bit(ReplaceBitfield(b, shift, bits, raw), i)
  {
    hide Pow2, ReplaceBitfield, ExtractBitfield;
    MemberBit(ReplaceBitfield(a, shift, bits, raw), shift, bits, i);
    MemberBit(ReplaceBitfield(b, shift, bits, raw), shift, bits, i);
    ExtractReplaced(a, shift, bits, raw);
    ExtractReplaced(b, shift, bits, raw);
  }

  /** The weight, in bytes, of a container's byte at `offset`. */
  function LogicalByte(w: ContainerPlan, offset: nat): nat
    requires w.offset <= offset < w.offset + w.width
  {
    if w.order == Big then w.width - 1 - (offset - w.offset) else offset - w.offset
  }

  /** A matcher byte on a field that Encode fills by itself has the byte that Encode writes. */
  ghost predicate FieldDecides(m: MessagePlan, f: FixedByte, k: nat)
    requires k < |m.fields|
  {
    m.fields[k].source != Input && ByteSpan(m.fields[k]).Some?
    && Covers(ByteSpan(m.fields[k]).value, f.offset) ==>
      && m.fields[k].source.Constant? && m.fields[k].wire.Unsigned?
      && var w := m.fields[k].wire;
         StoreBytes(RawOf(m.fields[k], UintValue(0)), w.width, w.order)[f.offset - w.offset]
         == f.value
  }

  /** A matcher byte on a container has the bits that no caller supplies. */
  ghost predicate ContainerDecides(m: MessagePlan, f: FixedByte, c: nat)
    requires c < |m.containers|
  {
    Covers(ContainerSpan(m.containers[c]), f.offset) ==>
      var at := 8 * LogicalByte(m.containers[c], f.offset);
      forall j: nat | j < 8 && Determined(m, c, at + j) ::
        Bit(DeterminedValue(m, c, |m.fields|), at + j) == Bit(f.value, j)
  }

  /** Matchers ask for nothing that Encode, left to itself, writes differently. */
  ghost predicate MatchersAgree(m: MessagePlan) {
    && (forall f, k: nat | f in m.structure.fixedBytes && k < |m.fields| :: FieldDecides(m, f, k))
    && forall f, c: nat | f in m.structure.fixedBytes && c < |m.containers| ::
         ContainerDecides(m, f, c)
  }

  // ---------------------------------------------------------------- the compiler's check

  /** The union of the matchers, by offset, as the frozen bytes list it. */
  ghost predicate MapOf(fixed: map<nat, byte>, fixedBytes: seq<FixedByte>) {
    forall f :: f in fixedBytes <==> f.offset in fixed && fixed[f.offset] == f.value
  }

  lemma ListedByte(fixed: map<nat, byte>, fixedBytes: seq<FixedByte>, offset: nat)
    returns (f: FixedByte)
    requires MapOf(fixed, fixedBytes) && offset in fixed
    ensures f in fixedBytes && f == FixedByte(offset, fixed[offset])
    ensures forall g | g in fixedBytes && g.offset == offset :: g == f
  {
    f := FixedByte(offset, fixed[offset]);
  }

  lemma UnlistedByte(fixed: map<nat, byte>, fixedBytes: seq<FixedByte>, offset: nat)
    requires MapOf(fixed, fixedBytes) && offset !in fixed
    ensures forall g | g in fixedBytes :: g.offset != offset
  {
  }

  /** What the compiler has checked of fields and containers before it looks at conflicts. */
  ghost predicate LegalPieces(m: MessagePlan) {
    && (forall c | c in m.containers :: LegalContainer(m, c))
    && forall k: nat | k < |m.fields| :: LegalField(m, k)
  }

  lemma LegalPiece(m: MessagePlan, k: nat)
    requires LegalPieces(m) && k < |m.fields|
    ensures LegalField(m, k)
  {
    hide LegalField, LegalContainer;
  }

  /** The byte of a constant that goes to index `i` of its field. */
  method ConstantByte(field: FieldPlan, i: nat) returns (b: byte)
    requires field.source.Constant? && LegalSource(field) && LegalType(field)
    requires field.wire.Unsigned? && 1 <= field.wire.width <= 8 && i < field.wire.width
    requires IsIntegerByteOrderValid(field.wire.order, field.wire.width)
    ensures b == StoreBytes(RawOf(field, UintValue(0)), field.wire.width, field.wire.order)[i]
  {
    hide StoreBytes, Pow2, RawOf;
    var w, value := field.wire, field.source.value;
    ConstantRaw(field, value, UintValue(0));
    var raw := if value < 0 then value + WidthLimit(w.width) else value;
    StoredByte(raw, w.width, w.order, i);
    var encodedIndex := if w.order == Big then w.width - 1 - i else i;
    b := (raw / WidthLimit(encodedIndex)) % 256;
  }

  /** The bytes of one constant or computed field against the matchers. */
  method CheckField(m: MessagePlan, fixed: map<nat, byte>, k: nat) returns (agrees: bool)
    requires LegalPieces(m) && MapOf(fixed, m.structure.fixedBytes) && k < |m.fields|
    ensures agrees <==> forall f | f in m.structure.fixedBytes :: FieldDecides(m, f, k)
  {
    hide LegalPieces, StoreBytes, WidthLimit, Pow2, InRange, MapOf, RawOf;
    LegalPiece(m, k);
    var field := m.fields[k];
    if field.source == Input || !field.wire.Unsigned? {
      return true;
    }
    var w := field.wire;
    for i := 0 to w.width
      invariant forall f | f in m.structure.fixedBytes && f.offset < w.offset + i ::
                  FieldDecides(m, f, k)
    {
      var at := w.offset + i;
      if at in fixed {
        ghost var f := ListedByte(fixed, m.structure.fixedBytes, at);
        if field.source == Computed {
          assert !FieldDecides(m, f, k);
          return false;
        }
        var encoded := ConstantByte(field, i);
        if fixed[at] != encoded {
          assert !FieldDecides(m, f, k);
          return false;
        }
      } else {
        UnlistedByte(fixed, m.structure.fixedBytes, at);
      }
    }
    agrees := true;
  }

  function Positions(from: nat, n: nat): (s: set<nat>)
    ensures forall i: nat :: i in s <==> from <= i < from + n
  {
    if n == 0 then {} else Positions(from, n - 1) + {from + n - 1}
  }

  /** The bits of container `c` that some of the first `n` fields take from the caller. */
  ghost predicate SuppliedSoFar(m: MessagePlan, c: nat, n: nat, supplied: set<nat>) {
    forall i: nat :: i in supplied <==> exists k: nat :: k < n && SuppliedBit(m, c, k, i)
  }

  /** What Encode determines of every container: the values, and the bits that are not its own. */
  method DetermineContainers(m: MessagePlan) returns (values: seq<nat>, supplied: seq<set<nat>>)
    requires LegalPieces(m)
    ensures |values| == |supplied| == |m.containers|
    ensures forall c: nat | c < |m.containers| ::
              values[c] == DeterminedValue(m, c, |m.fields|)
              && SuppliedSoFar(m, c, |m.fields|, supplied[c])
  {
    hide LegalPieces, ReplaceBitfield, RawOf, Pow2;
    values := seq(|m.containers|, c requires 0 <= c < |m.containers| => m.containers[c].baseValue);
    supplied := seq(|m.containers|, _ => {});
    for n := 0 to |m.fields|
      invariant |values| == |supplied| == |m.containers|
      invariant forall c: nat | c < |m.containers| ::
                  values[c] == DeterminedValue(m, c, n) && SuppliedSoFar(m, c, n, supplied[c])
    {
      LegalPiece(m, n);
      var f := m.fields[n];
      if f.wire.Bitfield? {
        var c := f.wire.container;
        if f.source == Input {
          MoreSupplied(m, c, n, supplied[c]);
          supplied := supplied[c := supplied[c] + Positions(f.wire.shift, f.wire.bits)];
        } else {
          ConstantRaw(f, f.source.value, UintValue(0));
          values := values[c := ReplaceBitfield(values[c], f.wire.shift, f.wire.bits,
                                                f.source.value)];
        }
      }
      forall d: nat | d < |m.containers|
        ensures values[d] == DeterminedValue(m, d, n + 1)
                && SuppliedSoFar(m, d, n + 1, supplied[d])
      {
      }
    }
  }

  lemma MoreSupplied(m: MessagePlan, c: nat, n: nat, supplied: set<nat>)
    requires n < |m.fields| && InContainer(m.fields[n], c) && m.fields[n].source == Input
    requires SuppliedSoFar(m, c, n, supplied)
    ensures var w := m.fields[n].wire;
            SuppliedSoFar(m, c, n + 1, supplied + Positions(w.shift, w.bits))
  {
    var w := m.fields[n].wire;
    var more := supplied + Positions(w.shift, w.bits);
    forall i: nat
      ensures i in more <==> exists k: nat :: k < n + 1 && SuppliedBit(m, c, k, i)
    {
      if i in supplied {
        var k: nat :| k < n && SuppliedBit(m, c, k, i);
        assert k < n + 1;
      } else {
        assert i in more <==> SuppliedBit(m, c, n, i);
      }
    }
  }

  /** The bytes of one container against the matchers, in the bits that Encode determines. */
  method CheckContainer(m: MessagePlan, fixed: map<nat, byte>, c: nat, value: nat,
                        supplied: set<nat>)
    returns (agrees: bool)
    requires MapOf(fixed, m.structure.fixedBytes) && c < |m.containers|
    requires value == DeterminedValue(m, c, |m.fields|)
    requires SuppliedSoFar(m, c, |m.fields|, supplied)
    ensures agrees <==> forall f | f in m.structure.fixedBytes :: ContainerDecides(m, f, c)
  {
    hide Bit, MapOf, DeterminedValue;
    var w := m.containers[c];
    for i := 0 to w.width
      invariant forall f | f in m.structure.fixedBytes && f.offset < w.offset + i ::
                  ContainerDecides(m, f, c)
    {
      var offset := w.offset + i;
      if offset in fixed {
        ghost var f := ListedByte(fixed, m.structure.fixedBytes, offset);
        var at := 8 * LogicalByte(w, offset);
        for j := 0 to 8
          invariant forall b: nat | b < j && Determined(m, c, at + b) ::
                      Bit(value, at + b) == Bit(fixed[offset], b)
        {
          assert Determined(m, c, at + j) <==> at + j !in supplied;
          if at + j !in supplied && Bit(value, at + j) != Bit(fixed[offset], j) {
            assert !ContainerDecides(m, f, c);
            return false;
          }
        }
      } else {
        UnlistedByte(fixed, m.structure.fixedBytes, offset);
      }
    }
    agrees := true;
  }

  /** The compiler's comparison of matchers with what Encode writes on its own. */
  method CheckMatchers(m: MessagePlan, fixed: map<nat, byte>) returns (accepted: bool)
    requires LegalPieces(m) && MapOf(fixed, m.structure.fixedBytes)
    ensures accepted <==> MatchersAgree(m)
  {
    hide LegalPieces, MapOf, FieldDecides, ContainerDecides, DeterminedValue, SuppliedSoFar;
    for k := 0 to |m.fields|
      invariant forall f, n: nat | f in m.structure.fixedBytes && n < k :: FieldDecides(m, f, n)
    {
      var agrees := CheckField(m, fixed, k);
      if !agrees {
        return false;
      }
    }
    var values, supplied := DetermineContainers(m);
    for c := 0 to |m.containers|
      invariant forall f, n: nat | f in m.structure.fixedBytes && n < c :: ContainerDecides(m, f, n)
    {
      var agrees := CheckContainer(m, fixed, c, values[c], supplied[c]);
      if !agrees {
        return false;
      }
    }
    accepted := true;
  }

  // ---------------------------------------------------------------- the blame

  /** Field `k` is the caller's, and what it puts at the matcher's byte is not what is asked. */
  ghost predicate Contradicts(m: MessagePlan, out: bytes, f: FixedByte, k: nat) {
    k < |m.fields| && m.fields[k].source == Input && f.offset < |out| &&
    match m.fields[k].wire
    case Bitfield(c, shift, bits) =>
      c < |m.containers| && Covers(ContainerSpan(m.containers[c]), f.offset)
      && exists j: nat :: j < 8 && Bit(out[f.offset], j) != Bit(f.value, j)
                          && SuppliedBit(m, c, k, 8 * LogicalByte(m.containers[c], f.offset) + j)
    case _ => Covers(ByteSpan(m.fields[k]).value, f.offset) && out[f.offset] != f.value
  }

  lemma ContainerConflict(m: MessagePlan, values: Values, out: bytes, f: FixedByte, c: nat)
    returns (k: nat)
    requires ValidMessage(m) && AllAdmitted(m, values) && Image(m, values, out) && MatchersAgree(m)
    requires f in m.structure.fixedBytes && f.offset < |out| && out[f.offset] != f.value
    requires c < |m.containers| && Covers(ContainerSpan(m.containers[c]), f.offset)
    ensures Contradicts(m, out, f, k)
  {
    hide ValidMessage, AllAdmitted, FieldsPlaced, ContainersPlaced, MatchersPlaced, ChecksumPlaced,
         ContainerValue, DeterminedValue, ExtractBitfield, StoreBytes, WidthLimit, FrameSize, Bit;
    var w := m.containers[c];
    var at := LogicalByte(w, f.offset);
    var whole := ContainerValue(m, values, c, |m.fields|);
    var j := DifferentBit(out[f.offset], f.value);
    assert ContainerDecides(m, f, c);
    ContainerByte(m, values, out, c, f.offset);
    ByteBit(whole, at, j);
    k := 0;
    if Determined(m, c, 8 * at + j) {
      DeterminedBits(m, values, c, |m.fields|, 8 * at + j);
    } else {
      k :| k < |m.fields| && SuppliedBit(m, c, k, 8 * at + j);
    }
  }

  lemma ContainerByte(m: MessagePlan, values: Values, out: bytes, c: nat, offset: nat)
    requires ValidMessage(m) && AllAdmitted(m, values) && Image(m, values, out)
    requires c < |m.containers| && Covers(ContainerSpan(m.containers[c]), offset)
    ensures offset < |out|
    ensures out[offset] == (ContainerValue(m, values, c, |m.fields|)
                            / WidthLimit(LogicalByte(m.containers[c], offset))) % 256
  {
    hide ValidMessage, AllAdmitted, FieldsPlaced, ContainersPlaced, MatchersPlaced, ChecksumPlaced,
         ContainerValue, StoreBytes, WidthLimit, FrameSize;
    var w := m.containers[c];
    SizeInBounds(m, values);
    ContainerInside(m, |out|, c);
    ContainerPlacedAt(m, values, out, c);
    var part := StoreBytes(ContainerValue(m, values, c, |m.fields|), w.width, w.order);
    SameByte(out, out, w.offset, part, offset);
    StoredByte(ContainerValue(m, values, c, |m.fields|), w.width, w.order, offset - w.offset);
  }

  lemma FieldConflict(m: MessagePlan, values: Values, out: bytes, f: FixedByte, k: nat)
    requires ValidMessage(m) && AllAdmitted(m, values) && Image(m, values, out) && MatchersAgree(m)
    requires f in m.structure.fixedBytes && f.offset < |out| && out[f.offset] != f.value
    requires k < |m.fields| && ByteSpan(m.fields[k]).Some?
    requires Covers(ByteSpan(m.fields[k]).value, f.offset)
    ensures Contradicts(m, out, f, k)
  {
    hide ValidMessage, AllAdmitted, FieldsPlaced, ContainersPlaced, MatchersPlaced, ChecksumPlaced,
         RawOf, StoreBytes, FrameSize, Determined;
    assert FieldDecides(m, f, k);
    if m.fields[k].source != Input {
      FieldPlacedAt(m, values, out, k);
      var w := m.fields[k].wire;
      ConstantRawFixed(m.fields[k], values(k));
      SameByte(out, out, w.offset, Content(m, values, |out|, k), f.offset);
    }
  }

  /**
   * When the image of admitted values lacks a matcher byte, which is the only way Encode's review
   * can fail, a field that the caller supplied contradicts that byte.
   */
  lemma ConflictIsTheCallers(m: MessagePlan, values: Values, out: bytes) returns (f: FixedByte, k: nat)
    requires ValidMessage(m) && AllAdmitted(m, values) && Image(m, values, out) && MatchersAgree(m)
    requires !Matches(m.structure, out)
    ensures f in m.structure.fixedBytes && f.offset < |out| && out[f.offset] != f.value
    ensures Contradicts(m, out, f, k)
  {
    hide ValidMessage, AllAdmitted, FieldsPlaced, ContainersPlaced, MatchersPlaced, ChecksumPlaced,
         FrameSize, MatchersAgree, Contradicts, Spans;
    f := MissingMatcher(m, values, out);
    MatchersPlacedAt(m, out, f);
    var s :| s in Spans(m) && Covers(s, f.offset);
    var c, isContainer, i := SpanOwner(m, s);
    if isContainer {
      k := ContainerConflict(m, values, out, f, c);
    } else {
      FieldConflict(m, values, out, f, i);
      k := i;
    }
  }

  /** And conversely: a supplied field that contradicts a matcher makes the review fail. */
  lemma CallersConflictFails(m: MessagePlan, out: bytes, f: FixedByte, k: nat)
    requires f in m.structure.fixedBytes && Contradicts(m, out, f, k)
    ensures !Matches(m.structure, out)
  {
    hide Bit, ByteSpan, ContainerSpan, SuppliedBit, LogicalByte;
    var j :| 0 <= j < |m.structure.fixedBytes| && m.structure.fixedBytes[j] == f;
  }

  lemma MatchersPlacedAt(m: MessagePlan, out: bytes, f: FixedByte)
    requires MatchersPlaced(m, out) && f in m.structure.fixedBytes
    requires f.offset < |out| && out[f.offset] != f.value
    ensures exists s :: s in Spans(m) && Covers(s, f.offset)
  {
    hide Spans;
  }

  lemma SpanOwner(m: MessagePlan, s: Span) returns (c: nat, isContainer: bool, k: nat)
    requires s in Spans(m)
    ensures isContainer ==> c < |m.containers| && ContainerSpan(m.containers[c]) == s
    ensures !isContainer ==> k < |m.fields| && ByteSpan(m.fields[k]) == Some(s)
  {
    c, k, isContainer := 0, 0, s in ContainerSpans(m.containers);
    if isContainer {
      c :| c < |m.containers| && ContainerSpan(m.containers[c]) == s;
    } else {
      k := CollectFrom(m.fields, ByteSpan, s);
    }
  }

  lemma MissingMatcher(m: MessagePlan, values: Values, out: bytes) returns (f: FixedByte)
    requires ValidMessage(m) && AllAdmitted(m, values) && Image(m, values, out)
    requires !Matches(m.structure, out)
    ensures f in m.structure.fixedBytes && f.offset < |out| && out[f.offset] != f.value
  {
    hide AllAdmitted, FieldsPlaced, ContainersPlaced, MatchersPlaced, ChecksumPlaced,
         LegalComputed, LegalIntegrity, FullyDefined, AllApart, MembersApart, LegalContainer,
         LegalField, FrameSize;
    SizeInBounds(m, values);
    FixedBytesLegal(m);
    var j :| 0 <= j < |m.structure.fixedBytes|
             && !(m.structure.fixedBytes[j].offset < |out|
                  && out[m.structure.fixedBytes[j].offset] == m.structure.fixedBytes[j].value);
    f := m.structure.fixedBytes[j];
    assert f in m.structure.fixedBytes;
  }

  /**
   * Encode of a message that the compiler accepts. The final review fails exactly when a field
   * that the caller supplied contradicts one of the message's own matcher bytes.
   */
  method EncodeOrBlame(p: Pipeline, structures: seq<MessageExecution>, m: MessagePlan, index: nat,
                       inputs: seq<FieldInput>, output: array<byte>)
    returns (status: EncodeStatus, bytesWritten: nat, ghost values: Values, ghost f: FixedByte,
             ghost k: nat)
    requires ValidMessage(m) && MatchersAgree(m) && FrozenPipeline(p, structures)
    requires NativeInputs(inputs) && index < |structures| && structures[index] == m.structure
    modifies output
    ensures status == FinalReviewFailed ==>
              && Given(m, inputs, values) && FrameSize(m, values) <= output.Length
              && f in m.structure.fixedBytes
              && Contradicts(m, output[..FrameSize(m, values)], f, k)
    ensures status == EncodeOk ==>
              && Given(m, inputs, values) && bytesWritten == FrameSize(m, values) <= output.Length
              && Image(m, values, output[..bytesWritten])
              && forall g, i: nat | g in m.structure.fixedBytes ::
                   !Contradicts(m, output[..bytesWritten], g, i)
  {
    hide ValidMessage, MatchersAgree, FrozenPipeline, Given, AllAdmitted, Acceptable, Image,
         FrameSize, Matches, Contradicts, RefusedFor;
    var requiredSize;
    status, bytesWritten, requiredSize, values :=
      EncodeCompleteRecord(p, structures, m, index, inputs, output);
    f, k := FixedByte(0, 0), 0;
    if status == FinalReviewFailed {
      f, k := ConflictIsTheCallers(m, values, output[..requiredSize]);
    } else if status == EncodeOk {
      forall g, i: nat | g in m.structure.fixedBytes
        ensures !Contradicts(m, output[..bytesWritten], g, i)
      {
        if Contradicts(m, output[..bytesWritten], g, i) {
          CallersConflictFails(m, output[..bytesWritten], g, i);
        }
      }
    }
  }
}
