/**
 * Reading a Binary frame: the length and checksum reviews shared by Encode and Decode, raw values,
 * and the logical values Decode delivers.
 */
module BinaryDecode {
  import opened Bytes
  import opened Words
  import opened FramingSpec
  import opened Arithmetic
  import opened WideIntegers
  import opened DecimalConversion
  import opened DecimalLaws
  import opened WireIntegers
  import Integrity
  import opened BinaryPlan
  import opened BinaryImage

  // ---------------------------------------------------------------- what a frame says

  /** A frame whose size the message admits; every read below then stays inside it. */
  ghost predicate Readable(m: MessagePlan, frame: bytes) {
    ValidMessage(m) && m.structure.minFrame <= |frame| <= m.structure.maxFrame
  }

  function Slice(frame: bytes, begin: nat, width: nat): bytes {
    if begin + width <= |frame| then frame[begin..begin + width] else []
  }

  predicate ChecksumHolds(m: MessagePlan, frame: bytes) {
    m.integrity.Some? ==>
      && Proper(RangeSpan(m, |frame|)) && RangeSpan(m, |frame|).end <= |frame|
      && var i := m.integrity.value;
         var covered := frame[RangeSpan(m, |frame|).begin..RangeSpan(m, |frame|).end];
         var stored := Slice(frame, StorageOffset(m, |frame|), StorageWidth(i));
         match i.algorithm
         case Sum8 => stored == [Integrity.SumOf(covered)]
         case Crc(p) => LoadValue(stored, i.order) == Integrity.CrcOf(p, covered) as nat
  }

  predicate LengthHolds(m: MessagePlan, frame: bytes) {
    m.computed.Some? ==>
      var c := m.computed.value;
      c.fieldIndex < |m.fields| && m.fields[c.fieldIndex].wire.Unsigned?
      && FieldRaw(m, frame, c.fieldIndex) == LengthValue(m, c, |frame|)
  }

  function ContainerRaw(m: MessagePlan, frame: bytes, c: nat): nat
    requires c < |m.containers|
  {
    LoadValue(Slice(frame, m.containers[c].offset, m.containers[c].width), m.containers[c].order)
  }

  /** The raw number a field has on the wire. */
  function FieldRaw(m: MessagePlan, frame: bytes, k: nat): nat
    requires k < |m.fields|
  {
    match m.fields[k].wire
    case WholeBytes(_, _) => 0
    case Unsigned(offset, width, order) => LoadValue(Slice(frame, offset, width), order)
    case Bitfield(container, shift, bits) =>
      if container < |m.containers|
      then ExtractBitfield(ContainerRaw(m, frame, container), shift, bits) else 0
  }

  /** The bytes of a BYTES field; a payload takes what the frame's size leaves it. */
  function FieldBytes(m: MessagePlan, frame: bytes, k: nat): bytes
    requires k < |m.fields| && m.fields[k].wire.WholeBytes?
  {
    var w := m.fields[k].wire;
    if m.IsPayload(k)
    then
      var b := m.bounded.value;
      if b.headerLength + b.trailerLength <= |frame|
      then Slice(frame, w.offset, |frame| - b.headerLength - b.trailerLength) else []
    else Slice(frame, w.offset, w.width)
  }

  /** The entry with a raw value. */
  function EntryOf(raws: seq<nat>, raw: nat): Option<nat> {
    if raws == [] then None
    else if raws[|raws| - 1] == raw then Some(|raws| - 1)
    else EntryOf(raws[..|raws| - 1], raw)
  }

  lemma {:induction false} EntryIs(raws: seq<nat>, e: nat)
    requires e < |raws| && forall i, j | 0 <= i < j < |raws| :: raws[i] != raws[j]
    ensures EntryOf(raws, raws[e]) == Some(e)
  {
    if e < |raws| - 1 {
      EntryIs(raws[..|raws| - 1], e);
    }
  }

  lemma {:induction false} EntryFound(raws: seq<nat>, raw: nat)
    ensures EntryOf(raws, raw).Some? ==>
              EntryOf(raws, raw).value < |raws| && raws[EntryOf(raws, raw).value] == raw
    ensures EntryOf(raws, raw).None? ==> raw !in raws
  {
    if raws != [] {
      EntryFound(raws[..|raws| - 1], raw);
    }
  }

  datatype FieldOutcome = Read(value: LogicalValue) | Refused(status: DecodeStatus)

  datatype DecodeStatus =
    | Ok
    | UnknownMessage
    | AmbiguousMessage
    | OutputSlotsTooSmall
    | LengthMismatch
    | IntegrityFailed
    | ValueNotRepresentable
    | UnknownEnumValue
    | InternalError
    | InvalidPlan

  /** The logical value of a field of the frame, or why Decode refuses the frame. */
  ghost function FieldValue(m: MessagePlan, frame: bytes, k: nat): FieldOutcome
    requires k < |m.fields|
  {
    var f := m.fields[k];
    var raw := FieldRaw(m, frame, k);
    match f.fieldType
    case Uint => Read(UintValue(raw))
    case Int =>
      if f.wire.Unsigned? && 1 <= f.wire.width <= 8
      then Read(IntValue(RawValue(raw, ValueType.Int64, f.wire.width))) else Refused(InvalidPlan)
    case Bytes =>
      if f.wire.WholeBytes? then Read(BytesValue(FieldBytes(m, frame, k))) else Refused(InvalidPlan)
    case Bool => Read(BoolValue(raw != 0))
    case Enum(raws, preserve) =>
      (match EntryOf(raws, raw)
       case Some(e) => Read(EnumValue(e))
       case None => if preserve then Read(UnknownEnum(raw)) else Refused(UnknownEnumValue))
    case Decimal(c) =>
      if f.wire.Unsigned? && 1 <= f.wire.width <= 8 then
        match Decode(c, raw, f.wire.width)
        case Decoded(d) => Read(DecimalValue(d))
        case DecodeFailed(_) => Refused(ValueNotRepresentable)
      else Refused(InvalidPlan)
  }

  // ---------------------------------------------------------------- an image reads back

  lemma SliceAt(frame: bytes, begin: nat, part: bytes)
    requires At(frame, begin, part)
    ensures Slice(frame, begin, |part|) == part
  {
  }

  lemma ContainerFits(m: MessagePlan, values: Values, c: nat, n: nat)
    requires ValidMessage(m) && c < |m.containers| && n <= |m.fields|
    ensures ContainerValue(m, values, c, n) < WidthLimit(m.containers[c].width)
  {
    hide LegalComputed, LegalIntegrity, LegalMatcherBytes, FullyDefined, AllApart, MembersApart,
         RawOf, ReplaceBitfield, Pow2, LegalType, LegalSource;
    assert LegalContainer(m, m.containers[c]);
    if n > 0 {
      ContainerFits(m, values, c, n - 1);
      assert LegalField(m, n - 1);
      var f := m.fields[n - 1];
      if InContainer(f, c) {
        ReplacedFits(ContainerValue(m, values, c, n - 1), f.wire.shift, f.wire.bits,
                     RawOf(f, values(n - 1)), 8 * m.containers[c].width);
      }
    }
  }

  /** A member of a container reads back what was put there, whatever came after. */
  lemma {:induction false} MemberKept(m: MessagePlan, values: Values, c: nat, k: nat, n: nat)
    requires ValidMessage(m) && c < |m.containers| && k < n <= |m.fields|
    requires InContainer(m.fields[k], c)
    ensures var w := m.fields[k].wire;
            ExtractBitfield(ContainerValue(m, values, c, n), w.shift, w.bits)
            == RawOf(m.fields[k], values(k)) % Pow2(w.bits)
    decreases n
  {
    hide ValidMessage, RawOf, ReplaceBitfield, Pow2, ExtractBitfield;
    var w, f := m.fields[k].wire, m.fields[n - 1];
    if n == k + 1 {
      ExtractReplaced(ContainerValue(m, values, c, k), w.shift, w.bits,
                      RawOf(m.fields[k], values(k)));
    } else {
      MemberKept(m, values, c, k, n - 1);
      if InContainer(f, c) {
        MembersOf(m, c);
        MembersBitsApart(m.fields, c, k, n - 1);
        ExtractOther(ContainerValue(m, values, c, n - 1), f.wire.shift, f.wire.bits,
                     RawOf(f, values(n - 1)), w.shift, w.bits);
      }
    }
  }

  lemma MembersOf(m: MessagePlan, c: nat)
    requires ValidMessage(m) && c < |m.containers|
    ensures MembersApart(m.fields, c)
  {
    hide MembersApart;
  }

  lemma Narrow(b: nat, p: nat)
    requires b < p
    ensures b % p == b
  {
  }

  /** Raw values fit the bits the wire gives them. */
  lemma RawFits(m: MessagePlan, values: Values, k: nat)
    requires ValidMessage(m) && AllAdmitted(m, values) && k < |m.fields|
    requires !m.fields[k].wire.WholeBytes? && m.fields[k].source != Computed
    ensures RawOf(m.fields[k], values(k)) < Pow2(RawBits(m.fields[k]))
  {
    hide LegalComputed, LegalIntegrity, LegalMatcherBytes, FullyDefined, AllApart, MembersApart,
         LegalContainer, Pow2, Encode;
    assert LegalField(m, k);
    var f := m.fields[k];
    match f.source
    case Constant(value) =>
      if f.wire.Unsigned? && InRange(value, ValueType.Int64, f.wire.width) {
        RangeBounds(value, ValueType.Int64, f.wire.width);
      }
    case Input =>
      assert Admits(m, k, values(k));
      match f.fieldType {
        case Bool =>
          Pow2One();
        case Int =>
          RangeBounds(values(k).integer, ValueType.Int64, f.wire.width);
        case Decimal(c) =>
          EncodeThenDecode(c, values(k).decimal, f.wire.width);
        case _ =>
      }
  }

  lemma Pow2One()
    ensures Pow2(1) == 2
  {
    assert Pow2(1) == 2 * Pow2(0);
  }

  /** In an image every field reads as the raw value of what was encoded. */
  lemma RawReadsBack(m: MessagePlan, values: Values, out: bytes, k: nat)
    requires ValidMessage(m) && AllAdmitted(m, values) && Image(m, values, out)
    requires k < |m.fields| && !m.fields[k].wire.WholeBytes? && m.fields[k].source != Computed
    ensures FieldRaw(m, out, k) == RawOf(m.fields[k], values(k))
  {
    hide ValidMessage, AllAdmitted, FieldsPlaced, ContainersPlaced, MatchersPlaced, ChecksumPlaced,
         ContainerValue, RawOf, StoreBytes, LoadValue, Pow2, ExtractBitfield, Slice;
    RawFits(m, values, k);
    var f := m.fields[k];
    var raw := RawOf(f, values(k));
    match f.wire
    case Unsigned(offset, width, order) =>
      FieldPlacedAt(m, values, out, k);
      SliceAt(out, offset, StoreBytes(raw, width, order));
      WireRoundTrip(raw, width, order);
    case Bitfield(c, shift, bits) =>
      LegalBitfield(m, k);
      ContainerPlacedAt(m, values, out, c);
      var whole := ContainerValue(m, values, c, |m.fields|);
      ContainerFits(m, values, c, |m.fields|);
      SliceAt(out, m.containers[c].offset,
              StoreBytes(whole, m.containers[c].width, m.containers[c].order));
      WireRoundTrip(whole, m.containers[c].width, m.containers[c].order);
      MemberKept(m, values, c, k, |m.fields|);
      Narrow(raw, Pow2(bits));
  }

  lemma LegalBitfield(m: MessagePlan, k: nat)
    requires ValidMessage(m) && k < |m.fields| && m.fields[k].wire.Bitfield?
    ensures m.fields[k].wire.container < |m.containers|
  {
    hide LegalComputed, LegalIntegrity, LegalMatcherBytes, FullyDefined, AllApart, MembersApart,
         LegalContainer, LegalType, LegalSource;
    assert LegalField(m, k);
  }

  lemma BytesReadBack(m: MessagePlan, values: Values, out: bytes, k: nat)
    requires ValidMessage(m) && AllAdmitted(m, values) && Image(m, values, out)
    requires k < |m.fields| && m.fields[k].wire.WholeBytes?
    ensures FieldBytes(m, out, k) == Content(m, values, |out|, k)
  {
    hide ValidMessage, AllAdmitted, FieldsPlaced, ContainersPlaced, MatchersPlaced, ChecksumPlaced,
         Slice, Content;
    ContentSize(m, values, k);
    FieldPlacedAt(m, values, out, k);
    SliceAt(out, m.fields[k].wire.offset, Content(m, values, |out|, k));
    if m.IsPayload(k) {
      PayloadReach(m, k);
    }
  }

  lemma PayloadReach(m: MessagePlan, k: nat)
    requires m.IsPayload(k)
    ensures m.Reach() == m.bounded.value.headerLength
  {
  }

  /** The value a decoded field should have: the caller's, the constant, or the length. */
  ghost function Expected(m: MessagePlan, values: Values, size: nat, k: nat): LogicalValue
    requires k < |m.fields|
  {
    match m.fields[k].source
    case Input => values(k)
    case Constant(value) =>
      if m.fields[k].fieldType == Int then IntValue(value)
      else UintValue(if value >= 0 then value else 0)
    case Computed =>
      UintValue(if m.computed.Some? then LengthValue(m, m.computed.value, size) else 0)
  }

  /** Equal, or decimals of equal value. */
  ghost predicate SameLogical(a: LogicalValue, b: LogicalValue) {
    || a == b
    || (a.DecimalValue? && b.DecimalValue? && a.decimal.scale >= 0 && b.decimal.scale >= 0
        && SameValue(a.decimal, b.decimal))
  }

  lemma LegalFieldOf(m: MessagePlan, k: nat)
    requires ValidMessage(m) && k < |m.fields|
    ensures LegalField(m, k)
  {
    hide LegalField;
  }

  lemma AdmittedAt(m: MessagePlan, values: Values, k: nat)
    requires AllAdmitted(m, values) && k < |m.fields| && m.fields[k].source == Input
    ensures Admits(m, k, values(k))
  {
    hide Admits;
  }

  lemma LengthFits(m: MessagePlan, size: nat)
    requires ValidMessage(m) && m.computed.Some?
    requires m.structure.minFrame <= size <= m.structure.maxFrame
    ensures m.computed.value.fieldIndex < |m.fields|
    ensures var f := m.fields[m.computed.value.fieldIndex];
            f.source == Computed && f.wire.Unsigned? && f.fieldType == Uint
            && LengthValue(m, m.computed.value, size) < WidthLimit(f.wire.width)
  {
    hide LegalIntegrity, LegalMatcherBytes, FullyDefined, AllApart, MembersApart, LegalContainer,
         WidthLimit;
    LegalFieldOf(m, m.computed.value.fieldIndex);
  }

  lemma ComputedOnly(m: MessagePlan, k: nat)
    requires ValidMessage(m) && k < |m.fields| && m.fields[k].source == Computed
    ensures m.computed.Some? && m.computed.value.fieldIndex == k
  {
    hide LegalIntegrity, LegalMatcherBytes, FullyDefined, AllApart, MembersApart, LegalContainer,
         LegalField;
  }

  lemma LengthReadsBack(m: MessagePlan, values: Values, out: bytes)
    requires ValidMessage(m) && AllAdmitted(m, values) && Image(m, values, out)
    ensures LengthHolds(m, out)
  {
    hide ValidMessage, AllAdmitted, FieldsPlaced, ContainersPlaced, MatchersPlaced, ChecksumPlaced,
         StoreBytes, LoadValue, Slice, WidthLimit, LengthValue;
    SizeInBounds(m, values);
    if m.computed.Some? {
      LengthFits(m, |out|);
      var k := m.computed.value.fieldIndex;
      var w := m.fields[k].wire;
      var length := LengthValue(m, m.computed.value, |out|);
      FieldPlacedAt(m, values, out, k);
      SliceAt(out, w.offset, StoreBytes(length, w.width, w.order));
      WireRoundTrip(length, w.width, w.order);
    }
  }

  /** Every field of an image decodes to what was meant. */
  lemma FieldReadsBack(m: MessagePlan, values: Values, out: bytes, k: nat)
    requires ValidMessage(m) && AllAdmitted(m, values) && Image(m, values, out) && k < |m.fields|
    ensures FieldValue(m, out, k).Read?
    ensures SameLogical(FieldValue(m, out, k).value, Expected(m, values, |out|, k))
  {
    hide ValidMessage, AllAdmitted, Image, FieldRaw, FieldBytes, Encode, Decode, Pow2, LegalWire;
    LegalFieldOf(m, k);
    var f := m.fields[k];
    match f.source
    case Computed =>
      ComputedOnly(m, k);
      LengthReadsBack(m, values, out);
    case Constant(value) =>
      RawReadsBack(m, values, out, k);
      ConstantReadsBack(f, value, values(k));
    case Input =>
      AdmittedAt(m, values, k);
      if f.fieldType == Bytes {
        BytesReadBack(m, values, out, k);
      } else {
        RawReadsBack(m, values, out, k);
        InputReadsBack(m, out, k, values(k));
      }
  }

  lemma ConstantReadsBack(f: FieldPlan, value: int, v: LogicalValue)
    requires f.source == Constant(value) && LegalType(f) && LegalSource(f)
    ensures f.fieldType == Uint ==> RawOf(f, v) == value
    ensures f.fieldType == Int ==>
              1 <= f.wire.width <= 8 && RawValue(RawOf(f, v), ValueType.Int64, f.wire.width) == value
  {
    hide Pow2, RawValue;
    if f.fieldType == Int {
      BitsRead(value, ValueType.Int64, f.wire.width);
    }
  }

  lemma InputReadsBack(m: MessagePlan, out: bytes, k: nat, v: LogicalValue)
    requires k < |m.fields| && m.fields[k].source == Input && m.fields[k].fieldType != Bytes
    requires LegalType(m.fields[k]) && Admits(m, k, v)
    requires FieldRaw(m, out, k) == RawOf(m.fields[k], v)
    ensures FieldValue(m, out, k).Read? && SameLogical(FieldValue(m, out, k).value, v)
  {
    hide FieldRaw, Encode, Decode, Pow2, RawValue, InRange;
    var f := m.fields[k];
    match f.fieldType
    case Int =>
      BitsRead(v.integer, ValueType.Int64, f.wire.width);
      RangeBounds(v.integer, ValueType.Int64, f.wire.width);
    case Enum(raws, _) =>
      EntryIs(raws, v.entry);
    case Decimal(c) =>
      EncodeThenDecode(c, v.decimal, f.wire.width);
    case _ =>
  }

  lemma CrcFits(p: Integrity.CrcParameters, data: bytes)
    requires Integrity.ValidCrc(p)
    ensures (Integrity.CrcOf(p, data) as nat) < WidthLimit(p.width / 8)
  {
    hide Integrity.Register, Integrity.Xor, Integrity.And, Integrity.Reversed, Pow2,
         Integrity.ValidCrc;
    Integrity.ValidPolynomial(p);
    WidthLimits();
    if p.width == 16 {
      Integrity.FinishWithin(p, Integrity.Register(p, p.initialValue, data));
      MaskedSmall(Integrity.CrcOf(p, data));
    }
  }

  lemma WidthLimits()
    ensures WidthLimit(2) == 0x1_0000 && WidthLimit(4) == 0x1_0000_0000 && WidthLimit(1) == 256
  {
    hide WidthLimit;
    LimitNext(0);
    LimitNext(1);
    LimitNext(2);
    LimitNext(3);
  }

  lemma MaskedSmall(v: bv32)
    requires Integrity.And(v, 0xFFFF) == v
    ensures v as int < 0x1_0000
  {
    hide Integrity.And;
    Below16(v);
    SmallWord(v);
  }

  lemma Below16(v: bv32)
    requires Integrity.And(v, 0xFFFF) == v
    ensures v < 0x1_0000
  {
  }

  /** An image passes the checksum review. */
  lemma ChecksumReadsBack(m: MessagePlan, values: Values, out: bytes)
    requires ValidMessage(m) && AllAdmitted(m, values) && Image(m, values, out)
    ensures ChecksumHolds(m, out)
  {
    hide ValidMessage, AllAdmitted, FieldsPlaced, ContainersPlaced, MatchersPlaced,
         StoreBytes, LoadValue, Slice, WidthLimit;
    SizeInBounds(m, values);
    if m.integrity.Some? {
      var i := m.integrity.value;
      ChecksumSize(m, out);
      SliceAt(out, StorageOffset(m, |out|), ChecksumBytes(m, out));
      if i.algorithm.Crc? {
        LegalChecksum(m);
        var range := RangeSpan(m, |out|);
        var covered := out[range.begin..range.end];
        CrcFits(i.algorithm.parameters, covered);
        WireRoundTrip(Integrity.CrcOf(i.algorithm.parameters, covered) as nat, StorageWidth(i),
                      i.order);
      }
    }
  }

  lemma LegalChecksum(m: MessagePlan)
    requires ValidMessage(m) && m.integrity.Some? && m.integrity.value.algorithm.Crc?
    ensures Integrity.ValidCrc(m.integrity.value.algorithm.parameters)
    ensures m.integrity.value.order == Big || m.integrity.value.order == Little
  {
    hide LegalMatcherBytes, FullyDefined, AllApart, MembersApart, LegalContainer, LegalField,
         LegalComputed, Integrity.ValidCrc;
  }

  // ---------------------------------------------------------------- the reviews

  lemma SliceInside(frame: bytes, begin: nat, width: nat)
    requires begin + width <= |frame|
    ensures Slice(frame, begin, width) == frame[begin..begin + width]
  {
  }

  method IntegrityMatches(m: MessagePlan, frame: bytes) returns (matches: bool)
    requires Readable(m, frame)
    ensures matches == ChecksumHolds(m, frame)
  {
    hide ValidMessage, LoadValue, Slice, WidthLimit, Integrity.CrcOf, Integrity.SumOf,
         Integrity.ValidCrc;
    if m.integrity.None? {
      return true;
    }
    var i := m.integrity.value;
    RangeApart(m, |frame|);
    var range := RangeSpan(m, |frame|);
    var storage := StorageOffset(m, |frame|);
    SliceInside(frame, storage, StorageWidth(i));
    match i.algorithm
    case Sum8 =>
      var sum := Integrity.Sum8(frame, range.begin, range.end - range.begin);
      assert frame[storage..storage + 1] == [frame[storage]];
      matches := frame[storage] == sum;
    case Crc(p) =>
      LegalChecksum(m);
      LegalCrcWidth(p);
      var loaded, stored := LoadUnsigned(frame, storage, StorageWidth(i), i.order);
      var crc := Integrity.Crc(p, frame, range.begin, range.end - range.begin);
      matches := loaded && stored == crc as nat;
  }

  /** As many consecutive bytes as the checksum is wide; SUM8 has one. */
  function BurstWidth(i: IntegrityPlan): nat {
    if i.algorithm.Sum8? then 1 else i.algorithm.parameters.width / 8
  }

  /**
   * Two frames of the same size that differ only inside one burst of covered bytes cannot both
   * pass the integrity check.
   */
  lemma IntegritySeesBursts(m: MessagePlan, a: bytes, b: bytes, at: nat, n: nat)
    requires Readable(m, a) && Readable(m, b) && m.integrity.Some?
    requires Integrity.DifferWithin(a, b, at, n) && n <= BurstWidth(m.integrity.value)
    requires RangeSpan(m, |a|).begin <= at && at + n <= RangeSpan(m, |a|).end
    requires ChecksumHolds(m, a) && ChecksumHolds(m, b)
    ensures a == b
  {
    hide ValidMessage, ChecksumHolds, Integrity.CrcOf, Integrity.SumOf, Integrity.ValidCrc;
    RangeApart(m, |a|);
    var range := RangeSpan(m, |a|);
    var i := m.integrity.value;
    var x, y := a[range.begin..range.end], b[range.begin..range.end];
    SameChecksum(m, a, b, at, n);
    CheckValueSame(i, x, y);
    InnerBurst(a, b, at, n, range.begin, range.end);
    match i.algorithm {
      case Sum8 =>
        if n == 0 {
          NoBurst(x, y, at - range.begin);
        } else {
          Integrity.SumSeesBytes(x, y, at - range.begin);
        }
      case Crc(p) =>
        LegalChecksum(m);
        Integrity.CrcSeesBursts(p, x, y, at - range.begin, n);
    }
    Whole(a, b, at, n, range.begin, range.end);
  }

  lemma NoBurst(x: bytes, y: bytes, at: nat)
    requires Integrity.DifferWithin(x, y, at, 0)
    ensures x == y
  {
    assert x == x[..at] + x[at + 0..] && y == y[..at] + y[at + 0..];
  }

  /** The checksum that a stored value must equal, and the value some stored bytes stand for. */
  function CheckValue(i: IntegrityPlan, covered: bytes): nat {
    match i.algorithm
    case Sum8 => Integrity.SumOf(covered)
    case Crc(p) => Integrity.CrcOf(p, covered) as nat
  }

  function StoredValue(i: IntegrityPlan, stored: bytes): nat {
    if i.algorithm.Crc? then LoadValue(stored, i.order)
    else if |stored| == 1 then stored[0] else 0
  }

  lemma StoredChecksum(m: MessagePlan, frame: bytes)
    requires m.integrity.Some? && ChecksumHolds(m, frame)
    ensures var i, range := m.integrity.value, RangeSpan(m, |frame|);
            && Proper(range) && range.end <= |frame|
            && CheckValue(i, frame[range.begin..range.end])
               == StoredValue(i, Slice(frame, StorageOffset(m, |frame|), StorageWidth(i)))
  {
    hide LoadValue, Integrity.CrcOf, Integrity.SumOf, Slice, RangeSpan, StorageOffset;
  }

  lemma CheckValueSame(i: IntegrityPlan, x: bytes, y: bytes)
    requires CheckValue(i, x) == CheckValue(i, y)
    ensures match i.algorithm
            case Sum8 => Integrity.SumOf(x) == Integrity.SumOf(y)
            case Crc(p) => Integrity.CrcOf(p, x) == Integrity.CrcOf(p, y)
  {
    hide Integrity.CrcOf, Integrity.SumOf;
    match i.algorithm
    case Sum8 =>
    case Crc(p) => WordsEqual(Integrity.CrcOf(p, x), Integrity.CrcOf(p, y));
  }

  /** The stored checksums are the same bytes, so the computed ones are equal. */
  lemma SameChecksum(m: MessagePlan, a: bytes, b: bytes, at: nat, n: nat)
    requires Readable(m, a) && Readable(m, b) && m.integrity.Some?
    requires Integrity.DifferWithin(a, b, at, n)
    requires RangeSpan(m, |a|).begin <= at && at + n <= RangeSpan(m, |a|).end <= |a|
    requires ChecksumHolds(m, a) && ChecksumHolds(m, b)
    ensures var range := RangeSpan(m, |a|);
            CheckValue(m.integrity.value, a[range.begin..range.end])
            == CheckValue(m.integrity.value, b[range.begin..range.end])
  {
    hide CheckValue, StoredValue, ChecksumHolds, RangeSpan;
    hide ValidMessage, LoadValue, Integrity.CrcOf, Integrity.SumOf, Slice;
    var size := |a|;
    RangeApart(m, size);
    var i := m.integrity.value;
    OutsideSame(a, b, at, n, StorageOffset(m, size), StorageWidth(i));
    SameStorage(a, b, StorageOffset(m, size), StorageWidth(i));
    StoredChecksum(m, a);
    StoredChecksum(m, b);
  }

  lemma OutsideSame(a: bytes, b: bytes, at: nat, n: nat, begin: nat, width: nat)
    requires Integrity.DifferWithin(a, b, at, n) && begin + width <= |a|
    requires begin + width <= at || at + n <= begin
    ensures a[begin..begin + width] == b[begin..begin + width]
  {
    if begin + width <= at {
      SliceOfFront(a, at, begin, width);
      SliceOfFront(b, at, begin, width);
    } else {
      SliceOfRest(a, at + n, begin, width);
      SliceOfRest(b, at + n, begin, width);
    }
  }

  lemma SliceOfFront(s: bytes, cut: nat, begin: nat, width: nat)
    requires begin + width <= cut <= |s|
    ensures s[begin..begin + width] == s[..cut][begin..begin + width]
  {
  }

  lemma SliceOfRest(s: bytes, cut: nat, begin: nat, width: nat)
    requires cut <= begin && begin + width <= |s|
    ensures s[begin..begin + width] == s[cut..][begin - cut..begin - cut + width]
  {
    var x, y := s[begin..begin + width], s[cut..][begin - cut..begin - cut + width];
    assert forall k | 0 <= k < width :: x[k] == y[k];
  }

  lemma SameStorage(a: bytes, b: bytes, begin: nat, width: nat)
    requires |a| == |b| && begin + width <= |a|
    requires a[begin..begin + width] == b[begin..begin + width]
    ensures Slice(a, begin, width) == Slice(b, begin, width)
  {
  }

  lemma InnerBurst(a: bytes, b: bytes, at: nat, n: nat, begin: nat, end: nat)
    requires Integrity.DifferWithin(a, b, at, n) && begin <= at && at + n <= end <= |a|
    ensures Integrity.DifferWithin(a[begin..end], b[begin..end], at - begin, n)
  {
    HeadOfSlice(a, begin, at, end);
    HeadOfSlice(b, begin, at, end);
    TailOfSlice(a, begin, at + n, end);
    TailOfSlice(b, begin, at + n, end);
  }

  lemma HeadOfSlice(a: bytes, begin: nat, at: nat, end: nat)
    requires begin <= at <= end <= |a|
    ensures a[begin..end][..at - begin] == a[..at][begin..]
  {
  }

  lemma TailOfSlice(a: bytes, begin: nat, at: nat, end: nat)
    requires begin <= at <= end <= |a|
    ensures a[begin..end][at - begin..] == a[at..][..end - at]
  {
  }

  lemma Whole(a: bytes, b: bytes, at: nat, n: nat, begin: nat, end: nat)
    requires Integrity.DifferWithin(a, b, at, n) && begin <= at && at + n <= end <= |a|
    requires a[begin..end] == b[begin..end]
    ensures a == b
  {
    MiddleOfSlice(a, begin, at, n, end);
    MiddleOfSlice(b, begin, at, n, end);
    Integrity.CutBurst(a, at, n);
    Integrity.CutBurst(b, at, n);
  }

  lemma MiddleOfSlice(a: bytes, begin: nat, at: nat, n: nat, end: nat)
    requires begin <= at && at + n <= end <= |a|
    ensures a[begin..end][at - begin..at - begin + n] == a[at..at + n]
  {
    var slice := a[begin..end];
    var x, y := slice[at - begin..at - begin + n], a[at..at + n];
    assert forall k | 0 <= k < n :: x[k] == y[k];
  }

  lemma LegalCrcWidth(p: Integrity.CrcParameters)
    requires Integrity.ValidCrc(p)
    ensures p.width == 16 || p.width == 32
  {
  }

  method ComputedLengthMatches(m: MessagePlan, frame: bytes) returns (matches: bool)
    requires Readable(m, frame)
    ensures matches == LengthHolds(m, frame)
  {
    hide ValidMessage, LoadValue, WidthLimit;
    if m.computed.None? {
      return true;
    }
    LengthFits(m, |frame|);
    var k := m.computed.value.fieldIndex;
    var w := m.fields[k].wire;
    UnsignedInside(m, |frame|, k);
    var loaded, actual := LoadUnsigned(frame, w.offset, w.width, w.order);
    matches := loaded && actual == LengthValue(m, m.computed.value, |frame|);
  }

  lemma UnsignedInside(m: MessagePlan, size: nat, k: nat)
    requires ValidMessage(m) && m.structure.minFrame <= size <= m.structure.maxFrame
    requires k < |m.fields| && m.fields[k].wire.Unsigned?
    ensures var w := m.fields[k].wire;
            && w.offset + w.width <= size && 1 <= w.width <= 8
            && IsIntegerByteOrderValid(w.order, w.width)
  {
    hide LegalComputed, LegalIntegrity, LegalMatcherBytes, FullyDefined, AllApart, MembersApart,
         LegalContainer, LegalType, LegalSource;
    LegalFieldOf(m, k);
  }

  lemma ContainerInside(m: MessagePlan, size: nat, c: nat)
    requires ValidMessage(m) && m.structure.minFrame <= size <= m.structure.maxFrame
    requires c < |m.containers|
    ensures var w := m.containers[c];
            && w.offset + w.width <= size && 1 <= w.width <= 8
            && IsIntegerByteOrderValid(w.order, w.width)
  {
    hide LegalComputed, LegalIntegrity, LegalMatcherBytes, FullyDefined, AllApart, MembersApart,
         LegalField;
    assert LegalContainer(m, m.containers[c]);
  }

  /** Container values, loaded once into the workspace. */
  method LoadContainers(m: MessagePlan, frame: bytes) returns (ok: bool, containers: seq<nat>)
    requires Readable(m, frame)
    ensures ok && |containers| == |m.containers|
    ensures forall c: nat | c < |m.containers| :: containers[c] == ContainerRaw(m, frame, c)
  {
    hide ValidMessage, LoadValue;
    containers := [];
    for c := 0 to |m.containers|
      invariant |containers| == c
      invariant forall d: nat | d < c :: containers[d] == ContainerRaw(m, frame, d)
    {
      ContainerInside(m, |frame|, c);
      var w := m.containers[c];
      var loaded, value := LoadUnsigned(frame, w.offset, w.width, w.order);
      if !loaded {
        return false, containers;
      }
      containers := containers + [value];
    }
    ok := true;
  }

  /** A field's raw number, from its own bytes or out of its container. */
  method ReadRaw(m: MessagePlan, frame: bytes, containers: seq<nat>, k: nat)
    returns (ok: bool, raw: nat)
    requires Readable(m, frame) && k < |m.fields| && !m.fields[k].wire.WholeBytes?
    requires |containers| == |m.containers|
    requires forall c: nat | c < |m.containers| :: containers[c] == ContainerRaw(m, frame, c)
    ensures ok && raw == FieldRaw(m, frame, k)
  {
    hide ValidMessage, LoadValue, ExtractBitfield, ContainerRaw;
    match m.fields[k].wire
    case Unsigned(offset, width, order) =>
      UnsignedInside(m, |frame|, k);
      ok, raw := LoadUnsigned(frame, offset, width, order);
    case Bitfield(c, shift, bits) =>
      LegalBitfield(m, k);
      ok, raw := true, ExtractBitfield(containers[c], shift, bits);
  }

  // ---------------------------------------------------------------- enum lookup

  datatype EnumEntry = EnumEntry(rawValue: nat, entryIndex: nat)

  /** The entries by ascending raw value. */
  ghost predicate LookupOf(raws: seq<nat>, lookup: seq<EnumEntry>) {
    && (forall i, j | 0 <= i < j < |lookup| :: lookup[i].rawValue < lookup[j].rawValue)
    && forall e: nat, raw: nat ::
         EnumEntry(raw, e) in lookup <==> e < |raws| && raws[e] == raw
  }

  method FindEnumEntry(raws: seq<nat>, lookup: seq<EnumEntry>, raw: nat)
    returns (entry: Option<nat>)
    requires LookupOf(raws, lookup)
    ensures entry == EntryOf(raws, raw)
  {
    var first, last := 0, |lookup|;
    while first < last
      invariant 0 <= first <= last <= |lookup|
      invariant forall k | 0 <= k < first :: lookup[k].rawValue < raw
      invariant forall k | last <= k < |lookup| :: lookup[k].rawValue >= raw
    {
      var middle := first + (last - first) / 2;
      if lookup[middle].rawValue < raw {
        first := middle + 1;
      } else {
        last := middle;
      }
    }
    if first == |lookup| || lookup[first].rawValue != raw {
      MissingEntry(raws, lookup, raw, first);
      return None;
    }
    PresentEntry(raws, lookup, first);
    entry := Some(lookup[first].entryIndex);
  }

  lemma MissingEntry(raws: seq<nat>, lookup: seq<EnumEntry>, raw: nat, first: nat)
    requires LookupOf(raws, lookup) && first <= |lookup|
    requires forall k | 0 <= k < first :: lookup[k].rawValue < raw
    requires forall k | first <= k < |lookup| :: lookup[k].rawValue >= raw
    requires first < |lookup| ==> lookup[first].rawValue != raw
    ensures EntryOf(raws, raw) == None
  {
    EntryFound(raws, raw);
    forall k | 0 <= k < |lookup|
      ensures lookup[k].rawValue != raw
    {
      if first < k {
        assert lookup[first].rawValue < lookup[k].rawValue;
      }
    }
    forall e: nat
      ensures !(e < |raws| && raws[e] == raw)
    {
      assert EnumEntry(raw, e) !in lookup;
    }
  }

  lemma PresentEntry(raws: seq<nat>, lookup: seq<EnumEntry>, at: nat)
    requires LookupOf(raws, lookup) && at < |lookup|
    ensures EntryOf(raws, lookup[at].rawValue) == Some(lookup[at].entryIndex)
  {
    var raw := lookup[at].rawValue;
    EntryFound(raws, raw);
    assert EnumEntry(raw, lookup[at].entryIndex) in lookup;
    var e := EnumEntry(raw, EntryOf(raws, raw).value);
    assert e in lookup;
    var k :| 0 <= k < |lookup| && lookup[k] == e;
    assert !(k < at) && !(at < k);
  }

  // ---------------------------------------------------------------- Decode

  ghost predicate LookupsOf(m: MessagePlan, lookups: seq<seq<EnumEntry>>) {
    |lookups| == |m.fields| &&
    forall k: nat | k < |m.fields| && m.fields[k].fieldType.Enum? ::
      LookupOf(m.fields[k].fieldType.rawValues, lookups[k])
  }

  /** What Decode owes for a frame of this message. */
  ghost predicate Decodes(m: MessagePlan, frame: bytes, slotCapacity: nat, status: DecodeStatus,
                          slots: seq<LogicalValue>)
  {
    if |m.fields| > slotCapacity then status == OutputSlotsTooSmall
    else if !LengthHolds(m, frame) then status == LengthMismatch
    else if !ChecksumHolds(m, frame) then status == IntegrityFailed
    else if forall k: nat | k < |m.fields| :: FieldValue(m, frame, k).Read? then
      status == DecodeStatus.Ok && |slots| == |m.fields|
      && forall k: nat | k < |slots| :: slots[k] == FieldValue(m, frame, k).value
    else
      exists k: nat :: k < |m.fields| && FieldValue(m, frame, k) == Refused(status)
                       && forall j: nat | j < k :: FieldValue(m, frame, j).Read?
  }

  /** Some enum field has a raw value that is no entry's. */
  predicate Tainted(m: MessagePlan, frame: bytes) {
    exists k: nat :: k < |m.fields| && StrangeEnum(m, frame, k)
  }

  predicate StrangeEnum(m: MessagePlan, frame: bytes, k: nat)
    requires k < |m.fields|
  {
    m.fields[k].fieldType.Enum?
    && EntryOf(m.fields[k].fieldType.rawValues, FieldRaw(m, frame, k)) == None
  }

  lemma StrangeReads(m: MessagePlan, frame: bytes, k: nat)
    requires k < |m.fields| && FieldValue(m, frame, k).Read?
    ensures StrangeEnum(m, frame, k) <==> FieldValue(m, frame, k).value.UnknownEnum?
  {
    hide FieldRaw, FieldBytes, Decode, EntryOf;
  }

  method DecodeField(m: MessagePlan, lookups: seq<seq<EnumEntry>>, frame: bytes,
                     containers: seq<nat>, k: nat)
    returns (outcome: FieldOutcome)
    requires Readable(m, frame) && k < |m.fields| && LookupsOf(m, lookups)
    requires |containers| == |m.containers|
    requires forall c: nat | c < |m.containers| :: containers[c] == ContainerRaw(m, frame, c)
    ensures outcome == FieldValue(m, frame, k)
  {
    hide ValidMessage, FieldRaw, LookupOf, ContainerRaw, Decode, RawValue, Pow2;
    LegalFieldOf(m, k);
    var f := m.fields[k];
    if f.fieldType == Bytes {
      var w := f.wire;
      var width := if m.IsPayload(k) then |frame| - m.bounded.value.headerLength
                                          - m.bounded.value.trailerLength else w.width;
      BytesInside(m, frame, k);
      return Read(BytesValue(frame[w.offset..w.offset + width]));
    }
    var ok, raw := ReadRaw(m, frame, containers, k);
    RawBelow(m, frame, k);
    match f.fieldType
    case Uint =>
      outcome := Read(UintValue(raw));
    case Int =>
      var signed := RawSigned(raw, ValueType.Int64, f.wire.width);
      var narrow, value := ToSigned(signed);
      InterpretedFits(raw, f.wire.width);
      outcome := if narrow then Read(IntValue(value)) else Refused(InvalidPlan);
    case Bool =>
      outcome := Read(BoolValue(raw != 0));
    case Enum(raws, preserve) =>
      var entry := FindEnumEntry(raws, lookups[k], raw);
      match entry {
        case Some(e) => outcome := Read(EnumValue(e));
        case None => outcome := if preserve then Read(UnknownEnum(raw)) else Refused(UnknownEnumValue);
      }
    case Decimal(c) =>
      var status, value := DecodeDecimal(c, raw, f.wire.width);
      outcome := if status == DecimalArithmeticStatus.Ok then Read(DecimalValue(value))
                 else if status == DecimalArithmeticStatus.InternalError then Refused(DecodeStatus.InternalError)
                 else Refused(ValueNotRepresentable);
      DecodeReasons(c, raw, f.wire.width);
  }

  lemma DecodeReasons(c: LinearConversion, raw: nat, width: nat)
    requires 1 <= width <= 8
    ensures Decode(c, raw, width).DecodeFailed? ==>
              Decode(c, raw, width).status != DecimalArithmeticStatus.InternalError
              && Decode(c, raw, width).status != DecimalArithmeticStatus.Ok
  {
  }

  lemma BytesInside(m: MessagePlan, frame: bytes, k: nat)
    requires Readable(m, frame) && k < |m.fields| && m.fields[k].wire.WholeBytes?
    ensures var w := m.fields[k].wire;
            if m.IsPayload(k)
            then
              var b := m.bounded.value;
              b.headerLength + b.trailerLength <= |frame|
              && w.offset + (|frame| - b.headerLength - b.trailerLength) <= |frame|
            else w.offset + w.width <= |frame|
  {
    hide LegalComputed, LegalIntegrity, LegalMatcherBytes, FullyDefined, AllApart, MembersApart,
         LegalContainer, LegalType, LegalSource;
    LegalFieldOf(m, k);
  }

  lemma RawBelow(m: MessagePlan, frame: bytes, k: nat)
    requires Readable(m, frame) && k < |m.fields|
    ensures m.fields[k].wire.Unsigned? ==>
              FieldRaw(m, frame, k) < WidthLimit(m.fields[k].wire.width) <= TWO_64
  {
    hide ValidMessage, LoadValue, WidthLimit;
    if m.fields[k].wire.Unsigned? {
      var w := m.fields[k].wire;
      UnsignedInside(m, |frame|, k);
      LoadBound(frame[w.offset..w.offset + w.width], w.order);
      WidthFacts(w.width);
    }
  }

  lemma InterpretedFits(raw: nat, width: nat)
    requires 1 <= width <= 8 && raw < WidthLimit(width)
    ensures InInt64(RawValue(raw, ValueType.Int64, width))
  {
    hide Pow2;
    WidthFacts(width);
    var half := Pow2(8 * width - 1);
    SignBit(raw, half);
    DivIs(raw, 2 * half, 0, raw);
  }

  /** Decode of a frame that was matched to this message. */
  method DecodeBinaryRecord(m: MessagePlan, lookups: seq<seq<EnumEntry>>, frame: bytes,
                            slotCapacity: nat)
    returns (status: DecodeStatus, slots: seq<LogicalValue>, tainted: bool)
    requires Readable(m, frame) && LookupsOf(m, lookups)
    ensures Decodes(m, frame, slotCapacity, status, slots)
    ensures tainted <==> status == DecodeStatus.Ok && Tainted(m, frame)
  {
    hide ValidMessage, LengthHolds, ChecksumHolds, FieldValue, LookupsOf, ContainerRaw, StrangeEnum;
    slots, tainted := [], false;
    if |m.fields| > slotCapacity {
      return OutputSlotsTooSmall, slots, tainted;
    }
    var lengthMatches := ComputedLengthMatches(m, frame);
    if !lengthMatches {
      return LengthMismatch, slots, tainted;
    }
    var integrityMatches := IntegrityMatches(m, frame);
    if !integrityMatches {
      return IntegrityFailed, slots, tainted;
    }
    var loaded, containers := LoadContainers(m, frame);
    if !loaded {
      return InvalidPlan, slots, tainted;
    }
    for k := 0 to |m.fields|
      invariant |slots| == k
      invariant forall j: nat | j < k :: FieldValue(m, frame, j) == Read(slots[j])
      invariant tainted <==> exists j: nat :: j < k && StrangeEnum(m, frame, j)
    {
      var outcome := DecodeField(m, lookups, frame, containers, k);
      if outcome.Refused? {
        RefusedAt(m, frame, slotCapacity, k);
        return outcome.status, [], false;
      }
      StrangeReads(m, frame, k);
      slots := slots + [outcome.value];
      if outcome.value.UnknownEnum? {
        tainted := true;
      }
    }
    status := DecodeStatus.Ok;
  }

  /** A frame whose field `k` is the first to be refused is refused for that field's reason. */
  lemma RefusedAt(m: MessagePlan, frame: bytes, slotCapacity: nat, k: nat)
    requires k < |m.fields| <= slotCapacity && LengthHolds(m, frame) && ChecksumHolds(m, frame)
    requires FieldValue(m, frame, k).Refused?
    requires forall j: nat | j < k :: FieldValue(m, frame, j).Read?
    ensures Decodes(m, frame, slotCapacity, FieldValue(m, frame, k).status, [])
    ensures FieldValue(m, frame, k).status != DecodeStatus.Ok
  {
    hide FieldRaw, FieldBytes, Decode, EntryOf, LengthHolds, ChecksumHolds;
    assert !FieldValue(m, frame, k).Read?;
  }

  /** What was encoded is never tainted. */
  lemma ImageNotTainted(m: MessagePlan, values: Values, out: bytes)
    requires ValidMessage(m) && AllAdmitted(m, values) && Image(m, values, out)
    ensures !Tainted(m, out)
  {
    hide ValidMessage, AllAdmitted, Image, FieldValue, StrangeEnum;
    forall k: nat | k < |m.fields|
      ensures !StrangeEnum(m, out, k)
    {
      FieldReadsBack(m, values, out, k);
      StrangeReads(m, out, k);
      NeverStrange(m, values, |out|, k);
    }
  }

  lemma NeverStrange(m: MessagePlan, values: Values, size: nat, k: nat)
    requires AllAdmitted(m, values) && k < |m.fields|
    ensures !Expected(m, values, size, k).UnknownEnum?
  {
    hide AllAdmitted;
    if m.fields[k].source == Input {
      AdmittedAt(m, values, k);
    }
  }

  /** Whatever is encoded is decoded: every image decodes, field by field, to what was meant. */
  lemma ImageDecodes(m: MessagePlan, values: Values, out: bytes, slotCapacity: nat,
                     status: DecodeStatus, slots: seq<LogicalValue>)
    requires ValidMessage(m) && AllAdmitted(m, values) && Image(m, values, out)
    requires |m.fields| <= slotCapacity && Decodes(m, out, slotCapacity, status, slots)
    ensures status == DecodeStatus.Ok && |slots| == |m.fields|
    ensures forall k: nat | k < |slots| ::
              SameLogical(slots[k], Expected(m, values, |out|, k))
  {
    hide ValidMessage, AllAdmitted, Image, LengthHolds, ChecksumHolds, FieldValue, SameLogical,
         Expected;
    LengthReadsBack(m, values, out);
    ChecksumReadsBack(m, values, out);
    forall k: nat | k < |m.fields|
      ensures FieldValue(m, out, k).Read?
      ensures SameLogical(FieldValue(m, out, k).value, Expected(m, values, |out|, k))
    {
      FieldReadsBack(m, values, out, k);
    }
  }
}
