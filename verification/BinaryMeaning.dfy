/**
 * The Binary codec in terms of bytes, numbers and the plan's own entries: what every field of a
 * frame reads as, when Decode refuses a frame and for what, what Encode accepts and why it refuses,
 * and what comes back of what was encoded.
 */
module BinaryMeaning {
  import opened Bytes
  import opened FramingSpec
  import opened WideIntegers
  import opened DecimalConversion
  import opened DecimalLaws
  import opened WireIntegers
  import Integrity
  import opened PipelineMatch
  import opened BinaryPlan
  import opened BinaryImage
  import opened BinaryDecode
  import opened BinaryEncode
  import opened BinaryCodec

  // ---------------------------------------------------------------- fields of a frame

  /** A field lies inside every frame of its message. */
  lemma FieldInside(m: MessagePlan, frame: bytes, k: nat)
    requires Readable(m, frame) && k < |m.fields|
    ensures match m.fields[k].wire
            case Unsigned(offset, width, _) => 1 <= width <= 8 && offset + width <= |frame|
            case Bitfield(c, shift, bits) =>
              && c < |m.containers| && 1 <= m.containers[c].width <= 8
              && m.containers[c].offset + m.containers[c].width <= |frame|
            case WholeBytes(offset, width) =>
              if m.bounded.Some? && k == m.bounded.value.payloadField
              then offset + m.bounded.value.trailerLength <= |frame|
                   && offset == m.bounded.value.headerLength
              else offset + width <= |frame|
    ensures m.fields[k].fieldType == Bytes <==> m.fields[k].wire.WholeBytes?
    ensures m.fields[k].fieldType == Int || m.fields[k].fieldType.Decimal? ==>
              m.fields[k].wire.Unsigned?
  {
    hide ValidMessage;
    LegalFieldOf(m, k);
    match m.fields[k].wire
    case Unsigned(offset, width, order) => UnsignedInside(m, |frame|, k);
    case Bitfield(c, shift, bits) =>
      LegalBitfield(m, k);
      ContainerInside(m, |frame|, c);
    case WholeBytes(offset, width) => BytesInside(m, frame, k);
  }

  /**
   * What each field of a frame reads as: the number its bytes or bits stand for, interpreted by
   * its type.
   */
  lemma FieldReads(m: MessagePlan, frame: bytes, k: nat)
    requires Readable(m, frame) && k < |m.fields|
    ensures m.fields[k].wire.Unsigned? ==>
              1 <= m.fields[k].wire.width <= 8
              && m.fields[k].wire.offset + m.fields[k].wire.width <= |frame|
    ensures m.fields[k].wire.Bitfield? ==>
              var c := m.fields[k].wire.container;
              c < |m.containers| && m.containers[c].offset + m.containers[c].width <= |frame|
    ensures m.fields[k].wire.WholeBytes? ==>
              var w := m.fields[k].wire;
              if m.bounded.Some? && k == m.bounded.value.payloadField
              then w.offset + m.bounded.value.trailerLength <= |frame|
              else w.offset + w.width <= |frame|
    ensures var f, value := m.fields[k], FieldValue(m, frame, k);
            var raw: nat :=
              match f.wire
              case Unsigned(offset, width, order) =>
                LoadValue(frame[offset..offset + width], order)
              case Bitfield(c, shift, bits) =>
                var w := m.containers[c];
                ExtractBitfield(LoadValue(frame[w.offset..w.offset + w.width], w.order), shift, bits)
              case WholeBytes(_, _) => 0;
            match f.fieldType
            case Uint => value == Read(UintValue(raw))
            case Int =>
              f.wire.Unsigned?
              && value == Read(IntValue(if 2 * raw < WidthLimit(f.wire.width) then raw
                                        else raw - WidthLimit(f.wire.width)))
            case Bool => value == Read(BoolValue(raw != 0))
            case Bytes =>
              f.wire.WholeBytes?
              && value == Read(BytesValue(
                   if m.bounded.Some? && k == m.bounded.value.payloadField
                   then frame[f.wire.offset..|frame| - m.bounded.value.trailerLength]
                   else frame[f.wire.offset..f.wire.offset + f.wire.width]))
            case Enum(raws, preserve) =>
              && (forall e: nat | e < |raws| && raws[e] == raw :: value == Read(EnumValue(e)))
              && (raw !in raws ==>
                    value == if preserve then Read(UnknownEnum(raw)) else Refused(UnknownEnumValue))
            case Decimal(c) =>
              f.wire.Unsigned?
              && value == match Decode(c, raw, f.wire.width)
                          case Decoded(d) => Read(DecimalValue(d))
                          case DecodeFailed(_) => Refused(ValueNotRepresentable)
  {
    hide ValidMessage, LoadValue, ExtractBitfield, WidthLimit, RawValue, Decode;
    FieldInside(m, frame, k);
    LegalFieldOf(m, k);
    RawBelow(m, frame, k);
    var f, raw := m.fields[k], FieldRaw(m, frame, k);
    match f.fieldType
    case Int => PatternValue(raw, ValueType.Int64, f.wire.width);
    case Enum(raws, preserve) =>
      EntryFound(raws, raw);
      forall e: nat | e < |raws| && raws[e] == raw
        ensures EntryOf(raws, raw) == Some(e)
      {
        EntryIs(raws, e);
      }
    case _ =>
  }

  // ---------------------------------------------------------------- length and checksum

  /** The computed field holds the right length: the frame's, the region's or the payload's. */
  lemma LengthReads(m: MessagePlan, frame: bytes)
    requires Readable(m, frame) && m.computed.Some?
    ensures var c := m.computed.value;
            && c.fieldIndex < |m.fields| && m.fields[c.fieldIndex].wire.Unsigned?
            && m.fields[c.fieldIndex].fieldType == Uint
            && m.fields[c.fieldIndex].wire.offset + m.fields[c.fieldIndex].wire.width <= |frame|
            && (c.scope == PayloadScope ==>
                  && m.bounded.Some?
                  && m.bounded.value.headerLength + m.bounded.value.trailerLength <= |frame|)
    ensures var c := m.computed.value;
            var w := m.fields[c.fieldIndex].wire;
            LengthHolds(m, frame)
            <==> LoadValue(frame[w.offset..w.offset + w.width], w.order)
                 == match c.scope
                    case FrameScope => |frame|
                    case RegionScope => c.regionLength
                    case PayloadScope =>
                      |frame[m.bounded.value.headerLength..|frame| - m.bounded.value.trailerLength]|
  {
    hide ValidMessage, LoadValue, WidthLimit;
    LengthFits(m, |frame|);
    UnsignedInside(m, |frame|, m.computed.value.fieldIndex);
    ScopeLegal(m);
  }

  lemma ScopeLegal(m: MessagePlan)
    requires ValidMessage(m)
    ensures m.bounded.Some? ==>
              var b := m.bounded.value;
              b.headerLength + b.trailerLength <= m.structure.minFrame <= m.structure.maxFrame
              && b.payloadField < |m.fields|
    ensures m.computed.Some? && m.computed.value.scope == PayloadScope ==> m.bounded.Some?
  {
    hide LegalIntegrity, LegalMatcherBytes, FullyDefined, AllApart, MembersApart, LegalContainer,
         LegalField, Spans;
  }

  /** The stored checksum is that of the covered bytes. */
  lemma ChecksumReads(m: MessagePlan, frame: bytes)
    requires Readable(m, frame) && m.integrity.Some?
    ensures m.bounded.Some? ==> m.bounded.value.trailerLength <= |frame|
    ensures var i := m.integrity.value;
            var width := if i.algorithm.Sum8? then 1 else i.algorithm.parameters.width / 8;
            var storage := if m.bounded.Some? then |frame| - m.bounded.value.trailerLength
                           else i.storageOffset;
            var end := if i.rangeEndsAtPayload then storage else i.rangeOffset + i.rangeLength;
            && i.rangeOffset <= end <= |frame| && storage + width <= |frame|
            && (ChecksumHolds(m, frame)
                <==> match i.algorithm
                     case Sum8 =>
                       frame[storage] == Integrity.SumOf(frame[i.rangeOffset..end])
                     case Crc(p) =>
                       LoadValue(frame[storage..storage + width], i.order)
                       == Integrity.CrcOf(p, frame[i.rangeOffset..end]) as nat)
  {
    hide ValidMessage, LoadValue, Integrity.CrcOf, Integrity.SumOf;
    RangeApart(m, |frame|);
    ScopeLegal(m);
  }

  // ---------------------------------------------------------------- Decode

  /** Decode's verdicts, in order: room, length, checksum, and the first field that is refused. */
  lemma DecodeVerdicts(m: MessagePlan, frame: bytes, slotCapacity: nat, status: DecodeStatus,
                       slots: seq<LogicalValue>)
    requires Readable(m, frame) && Decodes(m, frame, slotCapacity, status, slots)
    ensures status == OutputSlotsTooSmall <==> |m.fields| > slotCapacity
    ensures status == LengthMismatch <==> |m.fields| <= slotCapacity && !LengthHolds(m, frame)
    ensures status == IntegrityFailed
            <==> |m.fields| <= slotCapacity && LengthHolds(m, frame) && !ChecksumHolds(m, frame)
    ensures status == DecodeStatus.Ok
            <==> && |m.fields| <= slotCapacity && LengthHolds(m, frame) && ChecksumHolds(m, frame)
                 && forall k: nat | k < |m.fields| :: FieldValue(m, frame, k).Read?
    ensures status == DecodeStatus.Ok ==>
              |slots| == |m.fields|
              && forall k: nat | k < |slots| :: FieldValue(m, frame, k) == Read(slots[k])
    ensures status in {UnknownEnumValue, ValueNotRepresentable, InvalidPlan} ==>
              exists k: nat :: k < |m.fields| && FieldValue(m, frame, k) == Refused(status)
                               && forall j: nat | j < k :: FieldValue(m, frame, j).Read?
    ensures status in {DecodeStatus.Ok, OutputSlotsTooSmall, LengthMismatch, IntegrityFailed,
                       UnknownEnumValue, ValueNotRepresentable, InvalidPlan}
  {
    hide ValidMessage, LengthHolds, ChecksumHolds, FieldRaw, FieldBytes, EntryOf, Decode;
  }

  /** A frame that decodes is tainted exactly if some slot has an enum value that is no entry's. */
  lemma TaintMeans(m: MessagePlan, frame: bytes, slots: seq<LogicalValue>)
    requires |slots| == |m.fields|
    requires forall k: nat | k < |slots| :: FieldValue(m, frame, k) == Read(slots[k])
    ensures Tainted(m, frame) <==> exists k :: 0 <= k < |slots| && slots[k].UnknownEnum?
  {
    hide FieldValue, StrangeEnum;
    forall k: nat | k < |slots|
      ensures StrangeEnum(m, frame, k) <==> slots[k].UnknownEnum?
    {
      StrangeReads(m, frame, k);
    }
  }

  // ---------------------------------------------------------------- Encode

  /** The values a field admits. */
  lemma AdmittedValues(m: MessagePlan, k: nat, v: LogicalValue)
    requires ValidMessage(m) && k < |m.fields| && m.fields[k].source == Input
    requires v.DecimalValue? ==> InInt64(v.decimal.coefficient)
    ensures var f := m.fields[k];
            Admits(m, k, v)
            <==>
            match f.fieldType
            case Uint =>
              v.UintValue?
              && (match f.wire
                  case Unsigned(_, width, _) => v.number < WidthLimit(width)
                  case Bitfield(_, _, bits) => v.number < Pow2(bits)
                  case WholeBytes(_, _) => false)
            case Int =>
              v.IntValue? && f.wire.Unsigned?
              && 0 <= 2 * v.integer + WidthLimit(f.wire.width)
              && 2 * v.integer < WidthLimit(f.wire.width)
            case Bytes =>
              v.BytesValue? && f.wire.WholeBytes?
              && if m.bounded.Some? && k == m.bounded.value.payloadField
                 then m.bounded.value.minPayload <= |v.content| <= m.bounded.value.maxPayload
                 else |v.content| == f.wire.width
            case Enum(raws, _) => v.EnumValue? && v.entry < |raws|
            case Bool => v.BoolValue?
            case Decimal(c) =>
              v.DecimalValue? && f.wire.Unsigned? && 0 <= v.decimal.scale <= 18
              && exists bits: nat :: Carries(c, v.decimal, f.wire.width, bits)
  {
    hide ValidMessage, Pow2, Encode, InRange, Moderate, Equation, WidthLimit;
    LegalFieldOf(m, k);
    var f := m.fields[k];
    match f.fieldType
    case Int =>
      WireWidth(m, k);
      if v.IntValue? {
        RangeOfWidth(v.integer, ValueType.Int64, f.wire.width);
      }
    case Uint =>
      UintFits(m, k);
    case Decimal(c) =>
      WireWidth(m, k);
      if v.DecimalValue? {
        DecimalAdmitted(m, k, v.decimal);
      }
    case _ =>
  }

  lemma WireWidth(m: MessagePlan, k: nat)
    requires ValidMessage(m) && k < |m.fields| && m.fields[k].wire.Unsigned?
    ensures 1 <= m.fields[k].wire.width <= 8
  {
    hide LegalComputed, LegalIntegrity, LegalMatcherBytes, FullyDefined, AllApart, MembersApart,
         LegalContainer, LegalType, LegalSource;
    LegalFieldOf(m, k);
  }

  lemma UintFits(m: MessagePlan, k: nat)
    requires k < |m.fields|
    ensures m.fields[k].wire.Unsigned? ==>
              Pow2(RawBits(m.fields[k])) == WidthLimit(m.fields[k].wire.width)
    ensures m.fields[k].wire.Bitfield? ==>
              Pow2(RawBits(m.fields[k])) == Pow2(m.fields[k].wire.bits)
  {
    hide Pow2;
  }

  /** The pattern's value, in the type's reading, solves the conversion equation. */
  ghost predicate Carries(c: LinearConversion, d: Decimal64, width: nat, bits: nat)
    requires d.scale >= 0
  {
    bits < WidthLimit(width)
    && Equation(c, d, if c.rawValueType == Uint64 || 2 * bits < WidthLimit(width)
                      then bits else bits - WidthLimit(width))
  }

  lemma CarriesMeans(c: LinearConversion, d: Decimal64, width: nat, bits: nat)
    requires d.scale >= 0
    ensures var raw := if c.rawValueType == Uint64 || 2 * bits < WidthLimit(width) then bits
                       else bits - WidthLimit(width);
            Carries(c, d, width, bits)
            <==> bits < WidthLimit(width)
                 && (raw * c.Scale() + c.Bias()) * Pow10(d.scale)
                    == d.coefficient * Pow10(c.decimalPlaces)
    ensures WidthLimit(width) == Pow2(8 * width)
  {
    hide Pow10, Pow2;
  }

  lemma DecimalAdmitted(m: MessagePlan, k: nat, d: Decimal64)
    requires ValidMessage(m) && k < |m.fields| && m.fields[k].fieldType.Decimal?
    requires m.fields[k].wire.Unsigned? && 1 <= m.fields[k].wire.width <= 8 && InInt64(d.coefficient)
    ensures var c, width := m.fields[k].fieldType.conversion, m.fields[k].wire.width;
            Admits(m, k, DecimalValue(d))
            <==> 0 <= d.scale <= 18 && exists bits: nat :: Carries(c, d, width, bits)
  {
    hide ValidMessage, Pow2, Encode, InRange, Moderate, Carries, WidthLimit, Numerator, Denominator;
    LegalFieldOf(m, k);
    var c, width := m.fields[k].fieldType.conversion, m.fields[k].wire.width;
    NonZeroDenominator(c, d);
    if 0 <= d.scale <= 18 {
      forall bits: nat
        ensures Carries(c, d, width, bits) <==> Encode(c, d, width) == Encoded(bits)
      {
        CarriesPattern(c, d, width, bits);
      }
      if Admits(m, k, DecimalValue(d)) {
        var bits := Encode(c, d, width).rawBits;
        assert Carries(c, d, width, bits);
      }
    }
  }

  lemma CarriesPattern(c: LinearConversion, d: Decimal64, width: nat, bits: nat)
    requires Moderate(c) && InInt64(d.coefficient) && 0 <= d.scale <= 18 && 1 <= width <= 8
    requires Denominator(c, d) != 0
    ensures Carries(c, d, width, bits) <==> Encode(c, d, width) == Encoded(bits)
  {
    hide Encode, Moderate, Equation, WidthLimit, Numerator, Denominator;
    EncodesPattern(c, d, width, bits);
  }

  lemma NonZeroDenominator(c: LinearConversion, d: Decimal64)
    requires Moderate(c) && InInt64(d.coefficient)
    ensures 0 <= d.scale <= MAX_SCALE ==> Denominator(c, d) != 0
  {
    hide Pow10;
    if 0 <= d.scale <= MAX_SCALE {
      EncodeFits(c, d, Larger(d.scale, c.decimalPlaces) - d.scale,
                 Larger(d.scale, c.decimalPlaces) - c.decimalPlaces);
    }
  }

  /** The inputs that Encode accepts: each Input field once, with a value that it admits. */
  lemma AcceptedInputs(m: MessagePlan, inputs: seq<FieldInput>)
    ensures Acceptable(m, inputs)
            <==>
            && (forall i | 0 <= i < |inputs| ::
                  && inputs[i].fieldIndex < |m.fields|
                  && m.fields[inputs[i].fieldIndex].source == Input
                  && Admits(m, inputs[i].fieldIndex, inputs[i].value))
            && (forall i, j | 0 <= i < j < |inputs| :: inputs[i].fieldIndex != inputs[j].fieldIndex)
            && forall k: nat | k < |m.fields| && m.fields[k].source == Input ::
                 exists i :: 0 <= i < |inputs| && inputs[i].fieldIndex == k
  {
    hide Admits, Acceptable;
    if Acceptable(m, inputs) {
      AcceptableGives(m, inputs);
    } else if && (forall i | 0 <= i < |inputs| ::
                    inputs[i].fieldIndex < |m.fields|
                    && m.fields[inputs[i].fieldIndex].source == Input)
              && (forall i, j | 0 <= i < j < |inputs| ::
                    inputs[i].fieldIndex != inputs[j].fieldIndex)
              && forall k: nat | k < |m.fields| && m.fields[k].source == Input ::
                   exists i :: 0 <= i < |inputs| && inputs[i].fieldIndex == k
    {
      InputsUnacceptable(m, inputs);
    }
  }

  lemma AcceptableGives(m: MessagePlan, inputs: seq<FieldInput>)
    requires Acceptable(m, inputs)
    ensures forall i | 0 <= i < |inputs| ::
              && inputs[i].fieldIndex < |m.fields|
              && m.fields[inputs[i].fieldIndex].source == Input
              && Admits(m, inputs[i].fieldIndex, inputs[i].value)
    ensures forall i, j | 0 <= i < j < |inputs| :: inputs[i].fieldIndex != inputs[j].fieldIndex
    ensures forall k: nat | k < |m.fields| && m.fields[k].source == Input ::
              exists i :: 0 <= i < |inputs| && inputs[i].fieldIndex == k
  {
    hide Admits;
    var values: Values :| Given(m, inputs, values) && AllAdmitted(m, values);
    forall i | 0 <= i < |inputs|
      ensures Admits(m, inputs[i].fieldIndex, inputs[i].value)
    {
      AdmittedAt(m, values, inputs[i].fieldIndex);
    }
  }

  lemma InputsUnacceptable(m: MessagePlan, inputs: seq<FieldInput>)
    requires !Acceptable(m, inputs)
    requires forall i | 0 <= i < |inputs| ::
               inputs[i].fieldIndex < |m.fields| && m.fields[inputs[i].fieldIndex].source == Input
    requires forall i, j | 0 <= i < j < |inputs| :: inputs[i].fieldIndex != inputs[j].fieldIndex
    requires forall k: nat | k < |m.fields| && m.fields[k].source == Input ::
               exists i :: 0 <= i < |inputs| && inputs[i].fieldIndex == k
    ensures exists i :: 0 <= i < |inputs| && !Admits(m, inputs[i].fieldIndex, inputs[i].value)
  {
    hide Admits, ByField;
    var values := ByField(inputs);
    ByFieldIs(inputs);
    assert Given(m, inputs, values);
    var k: nat :| k < |m.fields| && m.fields[k].source == Input && !Admits(m, k, values(k));
    var i :| 0 <= i < |inputs| && inputs[i].fieldIndex == k;
    assert !Admits(m, inputs[i].fieldIndex, inputs[i].value);
  }

  ghost function ByField(inputs: seq<FieldInput>): Values {
    (k: nat) => if exists i :: 0 <= i < |inputs| && inputs[i].fieldIndex == k
                then var i :| 0 <= i < |inputs| && inputs[i].fieldIndex == k; inputs[i].value
                else UintValue(0)
  }

  lemma ByFieldIs(inputs: seq<FieldInput>)
    requires forall i, j | 0 <= i < j < |inputs| :: inputs[i].fieldIndex != inputs[j].fieldIndex
    ensures forall i | 0 <= i < |inputs| :: ByField(inputs)(inputs[i].fieldIndex) == inputs[i].value
  {
  }

  /** A reference is refused for what it is, and the references before it are in order. */
  lemma ReferenceRefusals(m: MessagePlan, inputs: seq<FieldInput>, status: EncodeStatus)
    returns (i: nat)
    requires RefusedFor(m, inputs, status)
    requires status in {FieldReferenceMismatch, ConstantFieldOverride, ComputedFieldOverride,
                        DuplicateField}
    ensures i < |inputs|
    ensures forall j | 0 <= j < i ::
              inputs[j].fieldIndex < |m.fields|
              && m.fields[inputs[j].fieldIndex].source == Input
    ensures status == FieldReferenceMismatch <==> inputs[i].fieldIndex >= |m.fields|
    ensures inputs[i].fieldIndex < |m.fields| ==>
              var source := m.fields[inputs[i].fieldIndex].source;
              && (status == ConstantFieldOverride <==> source.Constant?)
              && (status == ComputedFieldOverride <==> source == Computed)
              && (status == DuplicateField ==>
                    exists j :: 0 <= j < i && inputs[j].fieldIndex == inputs[i].fieldIndex)
  {
    hide Admits;
    i :| i < |inputs| && ReferenceReason(m, inputs, i) == status && Referenced(m, inputs, i);
    forall j | 0 <= j < i
      ensures inputs[j].fieldIndex < |m.fields| && m.fields[inputs[j].fieldIndex].source == Input
    {
      assert ReferenceReason(m, inputs, j) == EncodeOk;
    }
  }

  lemma MissingRefusal(m: MessagePlan, inputs: seq<FieldInput>)
    requires RefusedFor(m, inputs, MissingField)
    ensures forall i | 0 <= i < |inputs| ::
              inputs[i].fieldIndex < |m.fields|
              && m.fields[inputs[i].fieldIndex].source == Input
    ensures exists k: nat :: k < |m.fields| && m.fields[k].source == Input
                             && forall i | 0 <= i < |inputs| :: inputs[i].fieldIndex != k
  {
    hide Admits;
    forall i | 0 <= i < |inputs|
      ensures inputs[i].fieldIndex < |m.fields| && m.fields[inputs[i].fieldIndex].source == Input
    {
      assert ReferenceReason(m, inputs, i) == EncodeOk;
    }
  }

  /** A value is refused for its kind first, then for what its type demands, in field order. */
  lemma ValueRefusals(m: MessagePlan, inputs: seq<FieldInput>, status: EncodeStatus)
    returns (i: nat)
    requires RefusedFor(m, inputs, status)
    requires status in {TypeMismatch, NotRepresentable, InvalidArgument, BytesLengthMismatch,
                        EnumReferenceMismatch}
    ensures i < |inputs| && inputs[i].fieldIndex < |m.fields|
    ensures !Admits(m, inputs[i].fieldIndex, inputs[i].value)
    ensures forall j | 0 <= j < |inputs| && inputs[j].fieldIndex < inputs[i].fieldIndex ::
              Admits(m, inputs[j].fieldIndex, inputs[j].value)
    ensures var t, v := m.fields[inputs[i].fieldIndex].fieldType, inputs[i].value;
            var kind :=
              (t == Uint && v.UintValue?) || (t == Int && v.IntValue?)
              || (t == Bytes && v.BytesValue?) || (t.Enum? && v.EnumValue?)
              || (t == Bool && v.BoolValue?) || (t.Decimal? && v.DecimalValue?);
            && (status == TypeMismatch <==> !kind)
            && (status == BytesLengthMismatch <==> kind && t == Bytes)
            && (status == EnumReferenceMismatch <==> kind && t.Enum?)
            && (status == InvalidArgument <==> kind && t.Decimal? && !(0 <= v.decimal.scale <= 18))
  {
    hide Admits, ValueReason, ReferenceReason;
    NotForReferences(m, inputs, status);
    var values: Values, k: nat :| BadValue(m, inputs, values, k, status);
    i :| i < |inputs| && inputs[i].fieldIndex == k;
    ValueReasonIs(m, k, inputs[i].value);
    forall j | 0 <= j < |inputs| && inputs[j].fieldIndex < inputs[i].fieldIndex
      ensures Admits(m, inputs[j].fieldIndex, inputs[j].value)
    {
      assert values(inputs[j].fieldIndex) == inputs[j].value;
    }
  }

  lemma NotForReferences(m: MessagePlan, inputs: seq<FieldInput>, status: EncodeStatus)
    requires status in {TypeMismatch, NotRepresentable, InvalidArgument, BytesLengthMismatch,
                        EnumReferenceMismatch}
    ensures !BadReference(m, inputs, status)
  {
  }

  lemma ValueReasonIs(m: MessagePlan, k: nat, v: LogicalValue)
    requires k < |m.fields| && ValueReason(m, k, v) != EncodeOk
    ensures !Admits(m, k, v)
    ensures var t, status := m.fields[k].fieldType, ValueReason(m, k, v);
            var kind :=
              (t == Uint && v.UintValue?) || (t == Int && v.IntValue?)
              || (t == Bytes && v.BytesValue?) || (t.Enum? && v.EnumValue?)
              || (t == Bool && v.BoolValue?) || (t.Decimal? && v.DecimalValue?);
            && (status == TypeMismatch <==> !kind)
            && (status == BytesLengthMismatch <==> kind && t == Bytes)
            && (status == EnumReferenceMismatch <==> kind && t.Enum?)
            && (status == InvalidArgument
                <==> kind && t.Decimal? && !(0 <= v.decimal.scale <= 18))
  {
    hide Admits;
  }

  /** A container bit that no member has is the plan's base value's. */
  lemma ReservedBits(m: MessagePlan, values: Values, out: bytes, c: nat, i: nat)
    requires ValidMessage(m) && AllAdmitted(m, values) && Image(m, values, out)
    requires c < |m.containers|
    requires forall k: nat | k < |m.fields| && m.fields[k].wire.Bitfield?
                             && m.fields[k].wire.container == c ::
               !(m.fields[k].wire.shift <= i < m.fields[k].wire.shift + m.fields[k].wire.bits)
    ensures m.containers[c].offset + m.containers[c].width <= |out|
    ensures var w := m.containers[c];
            ExtractBitfield(LoadValue(out[w.offset..w.offset + w.width], w.order), i, 1)
            == ExtractBitfield(w.baseValue, i, 1)
  {
    hide ValidMessage, AllAdmitted, FieldsPlaced, ContainersPlaced, MatchersPlaced, ChecksumPlaced,
         ContainerValue, StoreBytes, LoadValue, ExtractBitfield, FrameSize;
    var w := m.containers[c];
    SizeInBounds(m, values);
    ContainerInside(m, |out|, c);
    ContainerPlacedAt(m, values, out, c);
    ContainerFits(m, values, c, |m.fields|);
    var whole := ContainerValue(m, values, c, |m.fields|);
    SliceAt(out, w.offset, StoreBytes(whole, w.width, w.order));
    WireRoundTrip(whole, w.width, w.order);
    ReservedBit(m, values, c, |m.fields|, i);
  }

  lemma {:induction false} ReservedBit(m: MessagePlan, values: Values, c: nat, n: nat, i: nat)
    requires c < |m.containers| && n <= |m.fields|
    requires forall k: nat | k < n && m.fields[k].wire.Bitfield?
                             && m.fields[k].wire.container == c ::
               !(m.fields[k].wire.shift <= i < m.fields[k].wire.shift + m.fields[k].wire.bits)
    ensures ExtractBitfield(ContainerValue(m, values, c, n), i, 1)
            == ExtractBitfield(m.containers[c].baseValue, i, 1)
  {
    hide ExtractBitfield, ReplaceBitfield, RawOf;
    if n > 0 {
      ReservedBit(m, values, c, n - 1, i);
      var f := m.fields[n - 1];
      if InContainer(f, c) {
        ExtractOther(ContainerValue(m, values, c, n - 1), f.wire.shift, f.wire.bits,
                     RawOf(f, values(n - 1)), i, 1);
      }
    }
  }

  // ---------------------------------------------------------------- Encode and Decode

  /** The size of a frame: header, what the caller gave as payload, and trailer. */
  lemma SizeOfFrame(m: MessagePlan, inputs: seq<FieldInput>, values: Values)
    requires ValidMessage(m) && Given(m, inputs, values) && AllAdmitted(m, values)
    ensures m.bounded == None ==> FrameSize(m, values) == m.structure.maxFrame
    ensures m.bounded.Some? ==>
              var b := m.bounded.value;
              exists i :: 0 <= i < |inputs| && inputs[i].fieldIndex == b.payloadField
                          && inputs[i].value.BytesValue?
                          && FrameSize(m, values)
                             == b.headerLength + |inputs[i].value.content| + b.trailerLength
  {
    hide ValidMessage, AllAdmitted;
    SizeInBounds(m, values);
    if m.bounded.Some? {
      PayloadIsInput(m);
      var k := m.bounded.value.payloadField;
      var i :| 0 <= i < |inputs| && inputs[i].fieldIndex == k;
      assert values(k) == inputs[i].value;
    }
  }

  lemma PayloadIsInput(m: MessagePlan)
    requires ValidMessage(m) && m.bounded.Some?
    ensures m.bounded.value.payloadField < |m.fields|
    ensures m.fields[m.bounded.value.payloadField].source == Input
    ensures m.fields[m.bounded.value.payloadField].fieldType == Bytes
    ensures m.fields[m.bounded.value.payloadField].wire.WholeBytes?
  {
    hide LegalComputed, LegalIntegrity, LegalMatcherBytes, FullyDefined, AllApart, MembersApart,
         LegalContainer, LegalWire;
    LegalFieldOf(m, m.bounded.value.payloadField);
  }

  /** Every slot of a written frame, whether it was supplied, is constant, or was computed. */
  lemma SlotsOfImage(m: MessagePlan, inputs: seq<FieldInput>, values: Values, out: bytes,
                     slotCapacity: nat, status: DecodeStatus, slots: seq<LogicalValue>)
    requires ValidMessage(m) && Given(m, inputs, values) && AllAdmitted(m, values)
    requires Image(m, values, out) && |m.fields| <= slotCapacity
    requires Decodes(m, out, slotCapacity, status, slots)
    ensures status == DecodeStatus.Ok && |slots| == |m.fields|
    ensures forall i | 0 <= i < |inputs| ::
              inputs[i].fieldIndex < |slots|
              && var slot, value := slots[inputs[i].fieldIndex], inputs[i].value;
                 if value.DecimalValue? && value.decimal.scale >= 0 then
                   slot.DecimalValue? && slot.decimal.scale >= 0
                   && slot.decimal.coefficient * Pow10(value.decimal.scale)
                      == value.decimal.coefficient * Pow10(slot.decimal.scale)
                 else slot == value
    ensures forall k | 0 <= k < |slots| && m.fields[k].source.Constant? ::
              slots[k] == if m.fields[k].fieldType == Int then IntValue(m.fields[k].source.value)
                          else UintValue(if m.fields[k].source.value >= 0
                                         then m.fields[k].source.value else 0)
    ensures m.computed.Some? ==>
              var c := m.computed.value;
              && c.fieldIndex < |slots|
              && match c.scope
                 case FrameScope => slots[c.fieldIndex] == UintValue(|out|)
                 case RegionScope => slots[c.fieldIndex] == UintValue(c.regionLength)
                 case PayloadScope =>
                   && m.bounded.Some? && m.bounded.value.payloadField < |slots|
                   && slots[m.bounded.value.payloadField].BytesValue?
                   && slots[c.fieldIndex]
                      == UintValue(|slots[m.bounded.value.payloadField].content|)
  {
    hide ValidMessage, AllAdmitted, Image, FrameSize, Decodes, Given;
    ImageDecodes(m, values, out, slotCapacity, status, slots);
    forall i | 0 <= i < |inputs|
      ensures inputs[i].fieldIndex < |slots|
              && m.fields[inputs[i].fieldIndex].source == Input
              && values(inputs[i].fieldIndex) == inputs[i].value
    {
      GivenInput(m, inputs, values, i);
    }
    forall i | 0 <= i < |inputs| && inputs[i].value.DecimalValue?
      ensures inputs[i].value.decimal.scale >= 0
    {
      AdmittedAt(m, values, inputs[i].fieldIndex);
      DecimalScale(m, inputs[i].fieldIndex, inputs[i].value);
    }
    if m.computed.Some? {
      ComputedSlot(m, values, out);
    }
  }

  lemma GivenInput(m: MessagePlan, inputs: seq<FieldInput>, values: Values, i: nat)
    requires Given(m, inputs, values) && i < |inputs|
    ensures inputs[i].fieldIndex < |m.fields| && m.fields[inputs[i].fieldIndex].source == Input
    ensures values(inputs[i].fieldIndex) == inputs[i].value
  {
  }

  lemma DecimalScale(m: MessagePlan, k: nat, v: LogicalValue)
    requires k < |m.fields| && Admits(m, k, v) && v.DecimalValue?
    ensures v.decimal.scale >= 0
  {
    hide Pow2, Encode, InRange;
  }

  lemma ComputedSlot(m: MessagePlan, values: Values, out: bytes)
    requires ValidMessage(m) && AllAdmitted(m, values) && Image(m, values, out) && m.computed.Some?
    ensures m.computed.value.fieldIndex < |m.fields|
            && m.fields[m.computed.value.fieldIndex].source == Computed
    ensures var c := m.computed.value;
            match c.scope
            case FrameScope => LengthValue(m, c, |out|) == |out|
            case RegionScope => LengthValue(m, c, |out|) == c.regionLength
            case PayloadScope =>
              && m.bounded.Some?
              && var k := m.bounded.value.payloadField;
                 k < |m.fields| && m.fields[k].source == Input && values(k).BytesValue?
                 && LengthValue(m, c, |out|) == |values(k).content|
  {
    hide ValidMessage, AllAdmitted, FieldsPlaced, ContainersPlaced, MatchersPlaced, ChecksumPlaced;
    SizeInBounds(m, values);
    LengthFits(m, |out|);
    ScopeLegal(m);
    if m.bounded.Some? {
      PayloadIsInput(m);
    }
  }

  /**
   * Encode and Decode of a compiled message, told by inputs and slots alone: what was supplied comes
   * back, constants are what the plan says, computed lengths count frame, region or payload, and
   * the frame has the size that the payload calls for.
   */
  method Exchange(p: Pipeline, structures: seq<MessageExecution>, plans: seq<MessagePlan>,
                  lookups: seq<seq<seq<EnumEntry>>>, index: nat, inputs: seq<FieldInput>,
                  output: array<byte>, slotCapacity: nat)
    returns (encoded: EncodeStatus, size: nat, decoded: DecodeStatus, messageIndex: nat,
             slots: seq<LogicalValue>)
    requires FrozenPipeline(p, structures) && FrozenPlans(structures, plans, lookups)
    requires NativeInputs(inputs) && index < |plans| && |plans[index].fields| <= slotCapacity
    modifies output
    ensures encoded == EncodeOk ==>
              && decoded == DecodeStatus.Ok && messageIndex == index
              && |slots| == |plans[index].fields| && size <= output.Length
    ensures encoded == EncodeOk ==>
              var m := plans[index];
              if m.bounded == None then size == m.structure.maxFrame
              else
                var b := m.bounded.value;
                b.payloadField < |slots| && slots[b.payloadField].BytesValue?
                && size == b.headerLength + |slots[b.payloadField].content| + b.trailerLength
    ensures encoded == EncodeOk ==>
              forall i | 0 <= i < |inputs| ::
                inputs[i].fieldIndex < |slots|
                && var slot, value := slots[inputs[i].fieldIndex], inputs[i].value;
                   if value.DecimalValue? && value.decimal.scale >= 0 then
                     slot.DecimalValue? && slot.decimal.scale >= 0
                     && slot.decimal.coefficient * Pow10(value.decimal.scale)
                        == value.decimal.coefficient * Pow10(slot.decimal.scale)
                   else slot == value
    ensures encoded == EncodeOk ==>
              forall k | 0 <= k < |slots| && plans[index].fields[k].source.Constant? ::
                var f := plans[index].fields[k];
                slots[k] == if f.fieldType == Int then IntValue(f.source.value)
                            else UintValue(if f.source.value >= 0 then f.source.value else 0)
    ensures encoded == EncodeOk && plans[index].computed.Some? ==>
              var m, c := plans[index], plans[index].computed.value;
              && c.fieldIndex < |slots|
              && match c.scope
                 case FrameScope => slots[c.fieldIndex] == UintValue(size)
                 case RegionScope => slots[c.fieldIndex] == UintValue(c.regionLength)
                 case PayloadScope =>
                   && m.bounded.Some? && m.bounded.value.payloadField < |slots|
                   && slots[m.bounded.value.payloadField].BytesValue?
                   && slots[c.fieldIndex]
                      == UintValue(|slots[m.bounded.value.payloadField].content|)
  {
    hide Matches, FrozenPipeline, FrozenPlans, ValidMessage, LookupsOf, Decodes, Acceptable, Given,
         AllAdmitted, Image, FrameSize, Tainted, RefusedFor;
    FrozenPlan(structures, plans, lookups, index);
    PlansCount(structures, plans, lookups);
    var required, tainted;
    ghost var values;
    encoded, size, required, values :=
      EncodeCompleteRecord(p, structures, plans[index], index, inputs, output);
    decoded, messageIndex, slots, tainted :=
      DecodeCompleteRecord(p, structures, plans, lookups, output[..size], slotCapacity);
    if encoded == EncodeOk {
      var m, out := plans[index], output[..size];
      ImageSize(m, values, out);
      SlotsOfImage(m, inputs, values, out, slotCapacity, decoded, slots);
      SizeOfFrame(m, inputs, values);
    }
  }
}
