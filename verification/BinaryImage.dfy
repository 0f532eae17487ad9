/**
 * What the frame of a Binary message must contain for given values, byte by byte, and that
 * nothing else about the frame is left open.
 */
module BinaryImage {
  import opened Bytes
  import opened WideIntegers
  import opened DecimalConversion
  import opened WireIntegers
  import Integrity
  import opened BinaryPlan

  datatype LogicalValue =
    | UintValue(number: nat)
    | IntValue(integer: int)
    | BytesValue(content: bytes)
    | EnumValue(entry: nat)
    | UnknownEnum(raw: nat)
    | BoolValue(truth: bool)
    | DecimalValue(decimal: Decimal64)

  // ---------------------------------------------------------------- values and raw bits

  /** The value may be encoded into field `k`. */
  ghost predicate Admits(m: MessagePlan, k: nat, v: LogicalValue)
    requires k < |m.fields|
  {
    var f := m.fields[k];
    match f.fieldType
    case Uint => v.UintValue? && v.number < Pow2(RawBits(f))
    case Int => v.IntValue? && f.wire.Unsigned? && InRange(v.integer, ValueType.Int64, f.wire.width)
    case Bytes =>
      v.BytesValue? && f.wire.WholeBytes?
      && if m.IsPayload(k)
         then m.bounded.value.minPayload <= |v.content| <= m.bounded.value.maxPayload
         else |v.content| == f.wire.width
    case Enum(raws, _) => v.EnumValue? && v.entry < |raws|
    case Bool => v.BoolValue?
    case Decimal(c) =>
      v.DecimalValue? && f.wire.Unsigned? && InInt64(v.decimal.coefficient)
      && 0 <= v.decimal.scale <= MAX_SCALE && Denominator(c, v.decimal) != 0
      && Encode(c, v.decimal, f.wire.width).Encoded?
  }

  /** The unsigned number that goes on the wire for a value. */
  ghost function RawOf(f: FieldPlan, v: LogicalValue): nat {
    match f.source
    case Constant(value) =>
      if f.wire.Unsigned? && InRange(value, ValueType.Int64, f.wire.width) then
        RangeBounds(value, ValueType.Int64, f.wire.width);
        ToBits(value, f.wire.width)
      else if value >= 0 then value else 0
    case Computed => 0
    case Input =>
      match v
      case UintValue(n) => n
      case IntValue(i) =>
        if f.wire.Unsigned? && InRange(i, ValueType.Int64, f.wire.width) then
          RangeBounds(i, ValueType.Int64, f.wire.width);
          ToBits(i, f.wire.width)
        else 0
      case EnumValue(e) =>
        if f.fieldType.Enum? && e < |f.fieldType.rawValues| then f.fieldType.rawValues[e] else 0
      case BoolValue(b) => if b then 1 else 0
      case DecimalValue(d) =>
        if f.fieldType.Decimal? && f.wire.Unsigned?
           && (0 <= d.scale <= MAX_SCALE ==> Denominator(f.fieldType.conversion, d) != 0)
           && Encode(f.fieldType.conversion, d, f.wire.width).Encoded?
        then Encode(f.fieldType.conversion, d, f.wire.width).rawBits
        else 0
      case _ => 0
  }

  /** A supplied value for every Input field; other fields' entries are not looked at. */
  type Values = nat -> LogicalValue

  ghost predicate AllAdmitted(m: MessagePlan, values: Values) {
    forall k: nat | k < |m.fields| && m.fields[k].source == Input :: Admits(m, k, values(k))
  }

  /** The size of the frame that the values need. */
  function FrameSize(m: MessagePlan, values: Values): nat {
    if m.bounded.None? then m.structure.maxFrame
    else
      var b := m.bounded.value;
      b.headerLength + b.trailerLength
      + match values(b.payloadField)
        case BytesValue(content) => |content|
        case _ => 0
  }

  function LengthValue(m: MessagePlan, c: ComputedLength, size: nat): nat {
    match c.scope
    case FrameScope => size
    case RegionScope => c.regionLength
    case PayloadScope =>
      if m.bounded.Some? && size >= m.bounded.value.headerLength + m.bounded.value.trailerLength
      then size - m.bounded.value.headerLength - m.bounded.value.trailerLength else 0
  }

  /** The bytes of a field that has bytes of its own. */
  ghost function Content(m: MessagePlan, values: Values, size: nat, k: nat): bytes
    requires k < |m.fields|
  {
    var f := m.fields[k];
    match f.wire
    case WholeBytes(_, _) =>
      (match values(k)
       case BytesValue(content) => content
       case _ => [])
    case Unsigned(_, width, order) =>
      var raw := if f.source == Computed && m.computed.Some?
                 then LengthValue(m, m.computed.value, size) else RawOf(f, values(k));
      StoreBytes(raw, width, order)
    case Bitfield(_, _, _) => []
  }

  /** A container after the first `n` fields have been put into it. */
  ghost function ContainerValue(m: MessagePlan, values: Values, c: nat, n: nat): nat
    requires c < |m.containers| && n <= |m.fields|
  {
    if n == 0 then m.containers[c].baseValue
    else
      var f := m.fields[n - 1];
      var before := ContainerValue(m, values, c, n - 1);
      if InContainer(f, c)
      then ReplaceBitfield(before, f.wire.shift, f.wire.bits, RawOf(f, values(n - 1)))
      else before
  }

  // ---------------------------------------------------------------- the image

  /** `part` stands in `s` from `begin` on. */
  predicate At(s: bytes, begin: nat, part: bytes) {
    begin + |part| <= |s| && s[begin..begin + |part|] == part
  }

  ghost predicate FieldsPlaced(m: MessagePlan, values: Values, out: bytes) {
    forall k: nat | k < |m.fields| && ByteSpan(m.fields[k]).Some? ::
      At(out, ByteSpan(m.fields[k]).value.begin, Content(m, values, |out|, k))
  }

  ghost predicate ContainersPlaced(m: MessagePlan, values: Values, out: bytes) {
    forall c: nat | c < |m.containers| ::
      At(out, m.containers[c].offset,
         StoreBytes(ContainerValue(m, values, c, |m.fields|), m.containers[c].width,
                    m.containers[c].order))
  }

  /** A byte that no field, container or checksum owns has its matcher's value. */
  ghost predicate MatchersPlaced(m: MessagePlan, out: bytes) {
    forall f | f in m.structure.fixedBytes ::
      f.offset < |out| && (Covered(Spans(m), f.offset) || out[f.offset] == f.value)
  }

  /** The checksum bytes of a frame, whatever its storage bytes are. */
  function ChecksumBytes(m: MessagePlan, out: bytes): bytes
    requires m.integrity.Some?
    requires Proper(RangeSpan(m, |out|)) && RangeSpan(m, |out|).end <= |out|
  {
    var i := m.integrity.value;
    var covered := out[RangeSpan(m, |out|).begin..RangeSpan(m, |out|).end];
    match i.algorithm
    case Sum8 => [Integrity.SumOf(covered)]
    case Crc(p) => StoreBytes(Integrity.CrcOf(p, covered) as nat, StorageWidth(i), i.order)
  }

  ghost predicate ChecksumPlaced(m: MessagePlan, out: bytes) {
    m.integrity.Some? ==>
      && Proper(RangeSpan(m, |out|)) && RangeSpan(m, |out|).end <= |out|
      && At(out, StorageOffset(m, |out|), ChecksumBytes(m, out))
  }

  /** `out` is a frame for these values. */
  ghost predicate Image(m: MessagePlan, values: Values, out: bytes) {
    && |out| == FrameSize(m, values)
    && FieldsPlaced(m, values, out) && ContainersPlaced(m, values, out)
    && MatchersPlaced(m, out) && ChecksumPlaced(m, out)
  }

  // ---------------------------------------------------------------- sizes

  lemma SizeInBounds(m: MessagePlan, values: Values)
    requires ValidMessage(m) && AllAdmitted(m, values)
    ensures m.structure.minFrame <= FrameSize(m, values) <= m.structure.maxFrame
    ensures m.bounded.Some? ==>
              var b := m.bounded.value;
              values(b.payloadField).BytesValue?
              && FrameSize(m, values)
                 == b.headerLength + |values(b.payloadField).content| + b.trailerLength
    ensures m.Reach() <= FrameSize(m, values)
  {
    hide LegalComputed, LegalIntegrity, LegalMatcherBytes, FullyDefined, AllApart, MembersApart,
         LegalContainer;
    if m.bounded.Some? {
      var k := m.bounded.value.payloadField;
      assert LegalField(m, k);
      assert Admits(m, k, values(k));
    }
  }

  /** How many bytes a field has in the frame. */
  lemma ContentSize(m: MessagePlan, values: Values, k: nat)
    requires ValidMessage(m) && AllAdmitted(m, values) && k < |m.fields|
    requires ByteSpan(m.fields[k]).Some?
    ensures var size := FrameSize(m, values);
            var span := ByteSpan(m.fields[k]).value;
            var n := |Content(m, values, size, k)|;
            && n <= span.end - span.begin && span.begin + n <= size
            && (m.IsPayload(k) ==>
                  span.begin == m.Reach() && span.begin + n + m.bounded.value.trailerLength == size)
            && (!m.IsPayload(k) ==> span.begin + n == span.end <= m.Reach())
  {
    hide LegalComputed, LegalIntegrity, LegalMatcherBytes, FullyDefined, AllApart, MembersApart,
         LegalContainer, StoreBytes;
    SizeInBounds(m, values);
    assert LegalField(m, k);
    if m.fields[k].wire.WholeBytes? {
      assert Admits(m, k, values(k));
    }
  }

  // ---------------------------------------------------------------- nothing is left open

  lemma {:induction false} CollectFrom(fields: seq<FieldPlan>, pick: FieldPlan -> Option<Span>,
                                       s: Span) returns (k: nat)
    requires s in Collect(fields, pick)
    ensures k < |fields| && pick(fields[k]) == Some(s)
  {
    var n := |fields| - 1;
    if s in Collect(fields[..n], pick) {
      k := CollectFrom(fields[..n], pick, s);
    } else {
      k := n;
    }
  }

  predicate InStorage(m: MessagePlan, size: nat, i: nat) {
    m.integrity.Some? && Covers(StorageSpan(m, size), i)
  }

  lemma SameByte(a: bytes, b: bytes, begin: nat, part: bytes, i: nat)
    requires At(a, begin, part) && At(b, begin, part) && begin <= i < begin + |part|
    ensures a[i] == b[i] == part[i - begin]
  {
    assert a[i] == a[begin..begin + |part|][i - begin];
    assert b[i] == b[begin..begin + |part|][i - begin];
  }

  lemma FieldPlacedAt(m: MessagePlan, values: Values, out: bytes, k: nat)
    requires FieldsPlaced(m, values, out) && k < |m.fields| && ByteSpan(m.fields[k]).Some?
    ensures At(out, ByteSpan(m.fields[k]).value.begin, Content(m, values, |out|, k))
  {
  }

  lemma ContainerPlacedAt(m: MessagePlan, values: Values, out: bytes, c: nat)
    requires ContainersPlaced(m, values, out) && c < |m.containers|
    ensures At(out, m.containers[c].offset,
               StoreBytes(ContainerValue(m, values, c, |m.fields|), m.containers[c].width,
                          m.containers[c].order))
  {
  }

  /** A byte below the reach that an owner covers is the owner's. */
  lemma CoveredByte(m: MessagePlan, values: Values, a: bytes, b: bytes, i: nat)
    requires ValidMessage(m) && AllAdmitted(m, values)
    requires |a| == |b| == FrameSize(m, values)
    requires FieldsPlaced(m, values, a) && FieldsPlaced(m, values, b)
    requires ContainersPlaced(m, values, a) && ContainersPlaced(m, values, b)
    requires i < m.Reach() && Covered(Spans(m), i)
    ensures i < |a| && a[i] == b[i]
  {
    hide ValidMessage, AllAdmitted, FieldsPlaced, ContainersPlaced, Content, ContainerValue,
         StoreBytes, FrameSize;
    SizeInBounds(m, values);
    var s :| s in Spans(m) && Covers(s, i);
    if s in ContainerSpans(m.containers) {
      var c :| 0 <= c < |m.containers| && ContainerSpan(m.containers[c]) == s;
      ContainerPlacedAt(m, values, a, c);
      ContainerPlacedAt(m, values, b, c);
      SameByte(a, b, s.begin,
               StoreBytes(ContainerValue(m, values, c, |m.fields|), m.containers[c].width,
                          m.containers[c].order), i);
    } else {
      var k := CollectFrom(m.fields, ByteSpan, s);
      ContentSize(m, values, k);
      FieldPlacedAt(m, values, a, k);
      FieldPlacedAt(m, values, b, k);
      SameByte(a, b, s.begin, Content(m, values, |a|, k), i);
    }
  }

  lemma MatchedByte(m: MessagePlan, a: bytes, b: bytes, i: nat)
    requires MatchersPlaced(m, a) && MatchersPlaced(m, b) && |a| == |b|
    requires MatcherAt(m, i) && !Covered(Spans(m), i)
    ensures i < |a| && a[i] == b[i]
  {
    var f :| f in m.structure.fixedBytes && f.offset == i;
  }

  lemma FullyDefinedAt(m: MessagePlan, i: nat)
    requires ValidMessage(m) && i < m.Reach()
    ensures Covered(Spans(m), i) || MatcherAt(m, i)
            || (m.bounded.None? && InStorage(m, m.structure.maxFrame, i))
  {
    hide Covered, MatcherAt, Spans;
  }

  /** Where the payload ends and the trailer begins. */
  lemma BeyondReach(m: MessagePlan, values: Values, i: nat)
    requires ValidMessage(m) && AllAdmitted(m, values)
    requires m.Reach() <= i < FrameSize(m, values)
    ensures m.bounded.Some?
    ensures var k := m.bounded.value.payloadField;
            && k < |m.fields| && ByteSpan(m.fields[k]).Some?
            && ByteSpan(m.fields[k]).value.begin == m.Reach()
            && (i < m.Reach() + |Content(m, values, FrameSize(m, values), k)|
                || InStorage(m, FrameSize(m, values), i))
  {
    hide LegalComputed, LegalIntegrity, LegalMatcherBytes, FullyDefined, AllApart, MembersApart,
         LegalContainer, StoreBytes;
    SizeInBounds(m, values);
    var k := m.bounded.value.payloadField;
    assert LegalField(m, k);
    ContentSize(m, values, k);
  }

  lemma ByteFixed(m: MessagePlan, values: Values, a: bytes, b: bytes, i: nat)
    requires ValidMessage(m) && AllAdmitted(m, values) && Image(m, values, a) && Image(m, values, b)
    requires i < |a| && !InStorage(m, |a|, i)
    ensures a[i] == b[i]
  {
    hide ValidMessage, AllAdmitted, FieldsPlaced, ContainersPlaced, Content, ContainerValue,
         MatchersPlaced, ChecksumPlaced, FrameSize, Covered, MatcherAt, Spans;
    SizeInBounds(m, values);
    if i < m.Reach() {
      FullyDefinedAt(m, i);
      if Covered(Spans(m), i) {
        CoveredByte(m, values, a, b, i);
      } else if MatcherAt(m, i) {
        MatchedByte(m, a, b, i);
      } else {
        UnboundedSize(m, values);
      }
    } else {
      BeyondReach(m, values, i);
      var k := m.bounded.value.payloadField;
      FieldPlacedAt(m, values, a, k);
      FieldPlacedAt(m, values, b, k);
      SameByte(a, b, m.Reach(), Content(m, values, |a|, k), i);
    }
  }

  lemma UnboundedSize(m: MessagePlan, values: Values)
    ensures m.bounded.None? ==> FrameSize(m, values) == m.structure.maxFrame
  {
  }

  /** The range and the storage of the checksum, in a frame of a legal size. */
  lemma RangeApart(m: MessagePlan, size: nat)
    requires ValidMessage(m) && m.integrity.Some?
    requires m.structure.minFrame <= size <= m.structure.maxFrame
    ensures Proper(RangeSpan(m, size)) && RangeSpan(m, size).end <= size
    ensures Apart(RangeSpan(m, size), StorageSpan(m, size)) && StorageSpan(m, size).end <= size
    ensures StorageWidth(m.integrity.value) <= 4
  {
    hide LegalComputed, LegalMatcherBytes, FullyDefined, AllApart, MembersApart, LegalContainer,
         LegalField, Spans;
  }

  /**
   * The values determine the frame: two images of the same values are equal. So nothing that was
   * in an output buffer before shows through.
   */
  lemma ImageUnique(m: MessagePlan, values: Values, a: bytes, b: bytes)
    requires ValidMessage(m) && AllAdmitted(m, values) && Image(m, values, a) && Image(m, values, b)
    ensures a == b
  {
    hide ValidMessage, AllAdmitted, FieldsPlaced, ContainersPlaced, MatchersPlaced, FrameSize;
    SizeInBounds(m, values);
    forall i: nat | i < |a| && !InStorage(m, |a|, i)
      ensures a[i] == b[i]
    {
      ByteFixed(m, values, a, b, i);
    }
    if m.integrity.Some? {
      RangeApart(m, |a|);
      var range := RangeSpan(m, |a|);
      assert a[range.begin..range.end] == b[range.begin..range.end];
      var storage := StorageSpan(m, |a|);
      forall i: nat | Covers(storage, i)
        ensures a[i] == b[i]
      {
        ChecksumSize(m, a);
        SameByte(a, b, storage.begin, ChecksumBytes(m, a), i);
      }
    }
    assert forall i: nat | i < |a| :: a[i] == b[i];
  }

  lemma ChecksumSize(m: MessagePlan, out: bytes)
    requires m.integrity.Some?
    requires Proper(RangeSpan(m, |out|)) && RangeSpan(m, |out|).end <= |out|
    ensures |ChecksumBytes(m, out)| == StorageWidth(m.integrity.value)
  {
  }
}
