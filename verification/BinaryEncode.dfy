/**
 * Writing a Binary frame into the caller's buffer and reviewing it: what Encode accepts, what it
 * leaves in the buffer, and when its own review can fail.
 */
module BinaryEncode {
  import opened Bytes
  import opened FramingSpec
  import opened WideIntegers
  import opened DecimalConversion
  import opened WireIntegers
  import Integrity
  import opened PipelineMatch
  import opened BinaryPlan
  import opened BinaryImage
  import opened BinaryDecode

  datatype EncodeStatus =
    | EncodeOk
    | MessageNotAllowed
    | FieldReferenceMismatch
    | ConstantFieldOverride
    | ComputedFieldOverride
    | DuplicateField
    | MissingField
    | TypeMismatch
    | NotRepresentable
    | InvalidArgument
    | BytesLengthMismatch
    | EnumReferenceMismatch
    | BufferTooSmall
    | FinalReviewFailed
    | EncodeInternalError

  datatype FieldInput = FieldInput(fieldIndex: nat, value: LogicalValue)

  // ---------------------------------------------------------------- admitting the caller's values

  /** From field to its position among the inputs: the workspace's index table. */
  type Indices = map<nat, nat>

  function ValueAt(inputs: seq<FieldInput>, indices: Indices): Values {
    (k: nat) => if k in indices && indices[k] < |inputs| then inputs[indices[k]].value
                else UintValue(0)
  }

  /** `values` are the inputs, whatever the order they were given in. */
  ghost predicate Given(m: MessagePlan, inputs: seq<FieldInput>, values: Values) {
    && (forall i | 0 <= i < |inputs| ::
          && inputs[i].fieldIndex < |m.fields| && m.fields[inputs[i].fieldIndex].source == Input
          && values(inputs[i].fieldIndex) == inputs[i].value)
    && (forall i, j | 0 <= i < j < |inputs| :: inputs[i].fieldIndex != inputs[j].fieldIndex)
    && forall k: nat | k < |m.fields| && m.fields[k].source == Input ::
         exists i :: 0 <= i < |inputs| && inputs[i].fieldIndex == k
  }

  ghost predicate Indexed(m: MessagePlan, inputs: seq<FieldInput>, n: nat, indices: Indices) {
    && n <= |inputs|
    && (forall i: nat | i < n ::
          && inputs[i].fieldIndex < |m.fields| && m.fields[inputs[i].fieldIndex].source == Input
          && inputs[i].fieldIndex in indices && indices[inputs[i].fieldIndex] == i)
    && forall k | k in indices :: indices[k] < n && inputs[indices[k]].fieldIndex == k
  }

  /** Why input `i` is refused after the inputs before it, if it is. */
  ghost function ReferenceReason(m: MessagePlan, inputs: seq<FieldInput>, i: nat): EncodeStatus
    requires i < |inputs|
  {
    var k := inputs[i].fieldIndex;
    if k >= |m.fields| then FieldReferenceMismatch
    else if m.fields[k].source == Computed then ComputedFieldOverride
    else if m.fields[k].source != Input then ConstantFieldOverride
    else if exists j :: 0 <= j < i && inputs[j].fieldIndex == k then DuplicateField
    else EncodeOk
  }

  ghost predicate Referenced(m: MessagePlan, inputs: seq<FieldInput>, n: nat) {
    forall j: nat | j < n && j < |inputs| :: ReferenceReason(m, inputs, j) == EncodeOk
  }

  /** A reference is refused for the first input with a reason, or for a field that is missing. */
  ghost predicate BadReference(m: MessagePlan, inputs: seq<FieldInput>, status: EncodeStatus) {
    || (exists i: nat :: i < |inputs| && ReferenceReason(m, inputs, i) == status != EncodeOk
                         && Referenced(m, inputs, i))
    || (status == MissingField && Referenced(m, inputs, |inputs|)
        && exists k: nat :: k < |m.fields| && m.fields[k].source == Input
                            && forall i | 0 <= i < |inputs| :: inputs[i].fieldIndex != k)
  }

  /** References first: every input names an Input field, none twice, and none is missing. */
  method ResolveInputs(m: MessagePlan, inputs: seq<FieldInput>)
    returns (status: EncodeStatus, indices: Indices)
    ensures status in {EncodeOk, FieldReferenceMismatch, ConstantFieldOverride,
                       ComputedFieldOverride, DuplicateField, MissingField}
    ensures status == EncodeOk ==> Given(m, inputs, ValueAt(inputs, indices))
    ensures status != EncodeOk ==> BadReference(m, inputs, status)
  {
    hide ReferenceReason, Given;
    indices := map[];
    for i := 0 to |inputs|
      invariant Indexed(m, inputs, i, indices) && Referenced(m, inputs, i)
    {
      status := ResolveInput(m, inputs, i, indices);
      if status != EncodeOk {
        return;
      }
      indices := indices[inputs[i].fieldIndex := i];
    }
    for k := 0 to |m.fields|
      invariant forall j: nat | j < k && m.fields[j].source == Input :: j in indices
    {
      if m.fields[k].source == Input && k !in indices {
        assert forall i | 0 <= i < |inputs| :: inputs[i].fieldIndex != k;
        return MissingField, indices;
      }
    }
    status := EncodeOk;
    AllGiven(m, inputs, indices);
  }

  lemma AllGiven(m: MessagePlan, inputs: seq<FieldInput>, indices: Indices)
    requires Indexed(m, inputs, |inputs|, indices) && Referenced(m, inputs, |inputs|)
    requires forall k: nat | k < |m.fields| && m.fields[k].source == Input :: k in indices
    ensures Given(m, inputs, ValueAt(inputs, indices))
  {
    hide ReferenceReason;
    forall k: nat | k < |m.fields| && m.fields[k].source == Input
      ensures exists i :: 0 <= i < |inputs| && inputs[i].fieldIndex == k
    {
      assert inputs[indices[k]].fieldIndex == k;
    }
  }

  method ResolveInput(m: MessagePlan, inputs: seq<FieldInput>, i: nat, indices: Indices)
    returns (status: EncodeStatus)
    requires i < |inputs| && Indexed(m, inputs, i, indices)
    ensures status == ReferenceReason(m, inputs, i)
    ensures status == EncodeOk ==> Indexed(m, inputs, i + 1, indices[inputs[i].fieldIndex := i])
    ensures status in {EncodeOk, FieldReferenceMismatch, ConstantFieldOverride,
                       ComputedFieldOverride, DuplicateField}
  {
    var k := inputs[i].fieldIndex;
    if k >= |m.fields| {
      return FieldReferenceMismatch;
    }
    if m.fields[k].source != Input {
      return if m.fields[k].source == Computed then ComputedFieldOverride
             else ConstantFieldOverride;
    }
    if k in indices {
      assert inputs[indices[k]].fieldIndex == k;
      return DuplicateField;
    }
    status := EncodeOk;
  }

  /** With a bad reference no values can be given. */
  lemma BadReferenceFails(m: MessagePlan, inputs: seq<FieldInput>, status: EncodeStatus)
    requires BadReference(m, inputs, status)
    ensures forall values :: !Given(m, inputs, values)
  {
  }

  /** Raw values of the converted fields, as the workspace keeps them. */
  ghost predicate ConvertedSoFar(m: MessagePlan, values: Values, n: nat, raws: map<nat, nat>) {
    forall k: nat | k < n && k < |m.fields| && m.fields[k].fieldType.Decimal? ::
      k in raws && raws[k] == RawOf(m.fields[k], values(k))
  }

  predicate KindMatches(t: FieldType, v: LogicalValue) {
    match t
    case Uint => v.UintValue?
    case Int => v.IntValue?
    case Bytes => v.BytesValue?
    case Enum(_, _) => v.EnumValue?
    case Bool => v.BoolValue?
    case Decimal(_) => v.DecimalValue?
  }

  /** Why a value is not admitted, if it is not. */
  ghost function ValueReason(m: MessagePlan, k: nat, v: LogicalValue): EncodeStatus
    requires k < |m.fields|
  {
    if Admits(m, k, v) then EncodeOk
    else if !KindMatches(m.fields[k].fieldType, v) then TypeMismatch
    else
      match v
      case BytesValue(_) => BytesLengthMismatch
      case EnumValue(_) => EnumReferenceMismatch
      case DecimalValue(d) => if 0 <= d.scale <= MAX_SCALE then NotRepresentable else InvalidArgument
      case _ => NotRepresentable
  }

  /** One field's value against its type. */
  method AdmitValue(m: MessagePlan, k: nat, v: LogicalValue) returns (status: EncodeStatus, raw: nat)
    requires ValidMessage(m) && k < |m.fields| && m.fields[k].source == Input
    requires v.DecimalValue? ==> InInt64(v.decimal.coefficient)
    ensures status in {EncodeOk, TypeMismatch, NotRepresentable, InvalidArgument,
                       BytesLengthMismatch, EnumReferenceMismatch}
    ensures status == ValueReason(m, k, v)
    ensures status == EncodeOk && m.fields[k].fieldType.Decimal? ==> raw == RawOf(m.fields[k], v)
  {
    hide ValidMessage, Pow2, Encode, InRange, Moderate;
    LegalFieldOf(m, k);
    var f := m.fields[k];
    raw := 0;
    match f.fieldType
    case Uint =>
      if !v.UintValue? {
        return TypeMismatch, raw;
      }
      return if v.number < Pow2(RawBits(f)) then EncodeOk else NotRepresentable, raw;
    case Int =>
      if !v.IntValue? {
        return TypeMismatch, raw;
      }
      var fits := FitsSignedWidth(v.integer, f.wire.width);
      return if fits then EncodeOk else NotRepresentable, raw;
    case Bytes =>
      if !v.BytesValue? {
        return TypeMismatch, raw;
      }
      var fits := if m.IsPayload(k)
                  then m.bounded.value.minPayload <= |v.content| <= m.bounded.value.maxPayload
                  else |v.content| == f.wire.width;
      return if fits then EncodeOk else BytesLengthMismatch, raw;
    case Enum(raws, _) =>
      if !v.EnumValue? {
        return TypeMismatch, raw;
      }
      return if v.entry < |raws| then EncodeOk else EnumReferenceMismatch, raw;
    case Bool =>
      return if v.BoolValue? then EncodeOk else TypeMismatch, raw;
    case Decimal(c) =>
      if !v.DecimalValue? {
        return TypeMismatch, raw;
      }
      var converted;
      converted, raw := EncodeDecimal(c, v.decimal, f.wire.width);
      EncodeReasons(c, v.decimal, f.wire.width);
      status := if converted == DecimalArithmeticStatus.Ok then EncodeOk
                else if converted == DecimalScaleOutOfRange then InvalidArgument
                else if converted == DecimalArithmeticStatus.InternalError then EncodeInternalError
                else NotRepresentable;
  }

  lemma EncodeReasons(c: LinearConversion, d: Decimal64, width: nat)
    requires 0 <= d.scale <= MAX_SCALE ==> Denominator(c, d) != 0
    ensures !(0 <= d.scale <= MAX_SCALE) <==>
              Encode(c, d, width) == EncodeFailed(DecimalScaleOutOfRange)
    ensures Encode(c, d, width).EncodeFailed? ==>
              Encode(c, d, width).status != DecimalArithmeticStatus.Ok
              && Encode(c, d, width).status != DecimalArithmeticStatus.InternalError
  {
  }

  method FitsSignedWidth(value: int, byteWidth: nat) returns (fits: bool)
    ensures fits == InRange(value, ValueType.Int64, byteWidth)
  {
    if byteWidth == 0 || byteWidth > 8 {
      return false;
    }
    var half: int := Pow2(8 * byteWidth - 1);
    fits := -half <= value <= half - 1;
  }

  /** The value types the interface has: 64-bit coefficients. */
  predicate NativeInputs(inputs: seq<FieldInput>) {
    forall i | 0 <= i < |inputs| && inputs[i].value.DecimalValue? ::
      InInt64(inputs[i].value.decimal.coefficient)
  }

  const INPUT_REFUSALS: set<EncodeStatus> :=
    {FieldReferenceMismatch, ConstantFieldOverride, ComputedFieldOverride, DuplicateField,
     MissingField, TypeMismatch, NotRepresentable, InvalidArgument, BytesLengthMismatch,
     EnumReferenceMismatch}

  /** The inputs are complete, and every value is admitted. */
  ghost predicate Acceptable(m: MessagePlan, inputs: seq<FieldInput>) {
    exists values: Values :: Given(m, inputs, values) && AllAdmitted(m, values)
  }

  /** The first field, in field order, whose value is not admitted. */
  ghost predicate BadValue(m: MessagePlan, inputs: seq<FieldInput>, values: Values, k: nat,
                           status: EncodeStatus)
  {
    && Given(m, inputs, values)
    && k < |m.fields| && m.fields[k].source == Input && ValueReason(m, k, values(k)) == status
    && forall j: nat | j < k && m.fields[j].source == Input :: Admits(m, j, values(j))
  }

  /** References are judged in the order of the inputs, then values in the order of the fields. */
  ghost predicate RefusedFor(m: MessagePlan, inputs: seq<FieldInput>, status: EncodeStatus) {
    || BadReference(m, inputs, status)
    || exists values: Values, k: nat :: BadValue(m, inputs, values, k, status)
  }

  method PrepareEncodeInputs(m: MessagePlan, inputs: seq<FieldInput>)
    returns (status: EncodeStatus, indices: Indices, raws: map<nat, nat>)
    requires ValidMessage(m) && NativeInputs(inputs)
    ensures status == EncodeOk || status in INPUT_REFUSALS
    ensures status == EncodeOk <==> Acceptable(m, inputs)
    ensures status != EncodeOk ==> RefusedFor(m, inputs, status)
    ensures status == EncodeOk ==>
              var values := ValueAt(inputs, indices);
              && Given(m, inputs, values) && AllAdmitted(m, values)
              && ConvertedSoFar(m, values, |m.fields|, raws)
  {
    hide ValidMessage, Admits, RawOf, BadReference, KindMatches, Given;
    raws := map[];
    status, indices := ResolveInputs(m, inputs);
    if status != EncodeOk {
      BadReferenceFails(m, inputs, status);
      return;
    }
    var values := ValueAt(inputs, indices);
    for k := 0 to |m.fields|
      invariant forall j: nat | j < k && m.fields[j].source == Input :: Admits(m, j, values(j))
      invariant ConvertedSoFar(m, values, k, raws)
    {
      DecimalsAreInputs(m, k);
      if m.fields[k].source == Input {
        var raw;
        GivenNative(m, inputs, values, k);
        status, raw := AdmitValue(m, k, values(k));
        if status != EncodeOk {
          NotAdmitted(m, inputs, values, k);
          assert BadValue(m, inputs, values, k, status);
          return;
        }
        if m.fields[k].fieldType.Decimal? {
          raws := raws[k := raw];
        }
      }
    }
    status := EncodeOk;
  }

  lemma DecimalsAreInputs(m: MessagePlan, k: nat)
    requires ValidMessage(m) && k < |m.fields|
    ensures m.fields[k].fieldType.Decimal? ==> m.fields[k].source == Input
  {
    hide ValidMessage;
    LegalFieldOf(m, k);
  }

  lemma GivenNative(m: MessagePlan, inputs: seq<FieldInput>, values: Values, k: nat)
    requires Given(m, inputs, values) && NativeInputs(inputs)
    requires k < |m.fields| && m.fields[k].source == Input
    ensures values(k).DecimalValue? ==> InInt64(values(k).decimal.coefficient)
  {
    var i :| 0 <= i < |inputs| && inputs[i].fieldIndex == k;
    assert values(inputs[i].fieldIndex) == inputs[i].value;
  }

  /** Given the same inputs, two value tables agree on every Input field. */
  lemma SameGiven(m: MessagePlan, inputs: seq<FieldInput>, a: Values, b: Values, k: nat)
    requires Given(m, inputs, a) && Given(m, inputs, b)
    requires k < |m.fields| && m.fields[k].source == Input
    ensures a(k) == b(k)
  {
    var i :| 0 <= i < |inputs| && inputs[i].fieldIndex == k;
    assert a(inputs[i].fieldIndex) == inputs[i].value;
    assert b(inputs[i].fieldIndex) == inputs[i].value;
  }

  lemma NotAdmitted(m: MessagePlan, inputs: seq<FieldInput>, values: Values, k: nat)
    requires Given(m, inputs, values)
    requires k < |m.fields| && m.fields[k].source == Input && !Admits(m, k, values(k))
    ensures !Acceptable(m, inputs)
  {
    hide Given, Admits;
    forall other: Values | Given(m, inputs, other)
      ensures !AllAdmitted(m, other)
    {
      SameGiven(m, inputs, values, other, k);
    }
  }

  // ---------------------------------------------------------------- writing

  /** `after` is `before` with `part` written at `begin`. */
  ghost predicate Wrote(before: bytes, after: bytes, begin: nat, part: bytes) {
    && |after| == |before| && At(after, begin, part)
    && forall i | 0 <= i < |before| && !(begin <= i < begin + |part|) :: after[i] == before[i]
  }

  lemma AtKept(before: bytes, after: bytes, begin: nat, part: bytes, begin2: nat, part2: bytes)
    requires Wrote(before, after, begin, part) && At(before, begin2, part2)
    requires begin + |part| <= begin2 || begin2 + |part2| <= begin
    ensures At(after, begin2, part2)
  {
    assert forall i | begin2 <= i < begin2 + |part2| ::
        after[i] == before[i] == before[begin2..begin2 + |part2|][i - begin2];
    assert after[begin2..begin2 + |part2|] == part2;
  }

  method PutBytes(output: array<byte>, begin: nat, part: bytes)
    requires begin + |part| <= output.Length
    modifies output
    ensures Wrote(old(output[..]), output[..], begin, part)
  {
    CopyBytes(part, output, begin);
    Rejoined(old(output[..]), output[..], begin, part);
  }

  lemma Rejoined(before: bytes, after: bytes, begin: nat, part: bytes)
    requires |after| == |before| && begin + |part| <= |before|
    requires after[..begin] == before[..begin]
    requires after[begin..begin + |part|] == part
    requires after[begin + |part|..] == before[begin + |part|..]
    ensures Wrote(before, after, begin, part)
  {
    forall i | 0 <= i < |before| && !(begin <= i < begin + |part|)
      ensures after[i] == before[i]
    {
      if i < begin {
        assert after[i] == after[..begin][i];
      } else {
        assert after[i] == after[begin + |part|..][i - begin - |part|];
        assert before[i] == before[begin + |part|..][i - begin - |part|];
      }
    }
  }

  method PutUnsigned(value: nat, output: array<byte>, offset: nat, width: nat, order: ByteOrder)
    returns (ok: bool)
    requires offset + width <= output.Length
    modifies output
    ensures ok <==> IsIntegerByteOrderValid(order, width) && FitsUnsignedWidth(value, width)
    ensures ok ==> Wrote(old(output[..]), output[..], offset, StoreBytes(value, width, order))
    ensures !ok ==> output[..] == old(output[..])
  {
    hide StoreBytes, WidthLimit;
    ok := StoreUnsigned(value, output, offset, width, order);
    if ok {
      Rejoined(old(output[..]), output[..], offset, StoreBytes(value, width, order));
    }
  }

  /** Where nobody owns bytes, and beyond the frame, `s` is as `s0` was. */
  ghost predicate Kept(m: MessagePlan, size: nat, s0: bytes, s: bytes) {
    |s| == |s0| &&
    forall i: nat {:trigger s[i]} | i < |s| && (i >= size || !Covered(Spans(m), i)) :: s[i] == s0[i]
  }

  lemma KeptMore(m: MessagePlan, size: nat, s0: bytes, s: bytes, s': bytes, span: Span, part: bytes)
    requires Kept(m, size, s0, s) && Wrote(s, s', span.begin, part)
    requires span in Spans(m) && span.begin + |part| <= span.end && span.begin + |part| <= size
    ensures Kept(m, size, s0, s')
  {
    hide Spans;
    forall i: nat | i < |s'| && (i >= size || !Covered(Spans(m), i))
      ensures s'[i] == s0[i]
    {
      assert span.begin <= i < span.begin + |part| ==> Covers(span, i);
    }
  }

  /** The first `n` fields are in place, the computed length only if `lengthToo`. */
  ghost predicate FieldsDone(m: MessagePlan, values: Values, size: nat, s: bytes, n: nat,
                             lengthToo: bool)
  {
    forall k: nat {:trigger m.fields[k]} |
      k < n && k < |m.fields| && ByteSpan(m.fields[k]).Some?
      && (lengthToo || m.fields[k].source != Computed) ::
      At(s, ByteSpan(m.fields[k]).value.begin, Content(m, values, size, k))
  }

  ghost predicate ContainersDone(m: MessagePlan, values: Values, s: bytes, n: nat) {
    forall c: nat | c < n && c < |m.containers| ::
      At(s, m.containers[c].offset,
         StoreBytes(ContainerValue(m, values, c, |m.fields|), m.containers[c].width,
                    m.containers[c].order))
  }

  lemma AllSpansApart(m: MessagePlan)
    requires ValidMessage(m)
    ensures AllApart(Spans(m))
  {
    hide AllApart, Spans;
  }

  /** Writing field `k` leaves the other fields alone. */
  lemma FieldKept(m: MessagePlan, values: Values, s: bytes, s': bytes, k: nat, j: nat)
    requires ValidMessage(m) && AllAdmitted(m, values) && k < |m.fields| && j < |m.fields| && j != k
    requires ByteSpan(m.fields[k]).Some? && ByteSpan(m.fields[j]).Some?
    requires var size := FrameSize(m, values);
             && Wrote(s, s', ByteSpan(m.fields[k]).value.begin, Content(m, values, size, k))
             && At(s, ByteSpan(m.fields[j]).value.begin, Content(m, values, size, j))
    ensures At(s', ByteSpan(m.fields[j]).value.begin, Content(m, values, FrameSize(m, values), j))
  {
    hide ValidMessage, AllAdmitted, Content, At, Wrote, FrameSize, Spans;
    var size := FrameSize(m, values);
    AllSpansApart(m);
    FieldsApart(m, k, j);
    ContentSize(m, values, k);
    ContentSize(m, values, j);
    AtKept(s, s', ByteSpan(m.fields[k]).value.begin, Content(m, values, size, k),
           ByteSpan(m.fields[j]).value.begin, Content(m, values, size, j));
  }

  lemma FieldStep(m: MessagePlan, values: Values, s: bytes, s': bytes, k: nat)
    requires ValidMessage(m) && AllAdmitted(m, values) && k < |m.fields|
    requires ByteSpan(m.fields[k]).Some? && m.fields[k].source != Computed
    requires FieldsDone(m, values, FrameSize(m, values), s, k, false)
    requires Wrote(s, s', ByteSpan(m.fields[k]).value.begin,
                   Content(m, values, FrameSize(m, values), k))
    ensures FieldsDone(m, values, FrameSize(m, values), s', k + 1, false)
  {
    hide ValidMessage, AllAdmitted, Content, FrameSize;
    forall j: nat | j < k && ByteSpan(m.fields[j]).Some? && m.fields[j].source != Computed
      ensures At(s', ByteSpan(m.fields[j]).value.begin, Content(m, values, FrameSize(m, values), j))
    {
      FieldKept(m, values, s, s', k, j);
    }
  }

  lemma WroteAt(before: bytes, after: bytes, begin: nat, part: bytes)
    requires Wrote(before, after, begin, part)
    ensures At(after, begin, part)
  {
  }

  /** Writing container `c` leaves all fields and the other containers alone. */
  lemma ContainerStep(m: MessagePlan, values: Values, s: bytes, s': bytes, c: nat)
    requires ValidMessage(m) && AllAdmitted(m, values) && c < |m.containers|
    requires FieldsDone(m, values, FrameSize(m, values), s, |m.fields|, false)
    requires ContainersDone(m, values, s, c)
    requires Wrote(s, s', m.containers[c].offset,
                   StoreBytes(ContainerValue(m, values, c, |m.fields|), m.containers[c].width,
                              m.containers[c].order))
    ensures FieldsDone(m, values, FrameSize(m, values), s', |m.fields|, false)
    ensures ContainersDone(m, values, s', c + 1)
  {
    hide ValidMessage, AllAdmitted, Content, FrameSize, ContainerValue, StoreBytes, At, Wrote, Spans;
    AllSpansApart(m);
    var part := StoreBytes(ContainerValue(m, values, c, |m.fields|), m.containers[c].width,
                           m.containers[c].order);
    WroteAt(s, s', m.containers[c].offset, part);
    forall j: nat | j < |m.fields| && ByteSpan(m.fields[j]).Some? && m.fields[j].source != Computed
      ensures At(s', ByteSpan(m.fields[j]).value.begin, Content(m, values, FrameSize(m, values), j))
    {
      FieldContainerApart(m, j, c);
      ContentSize(m, values, j);
      AtKept(s, s', m.containers[c].offset, part, ByteSpan(m.fields[j]).value.begin,
             Content(m, values, FrameSize(m, values), j));
    }
    forall d: nat | d < c
      ensures At(s', m.containers[d].offset,
                 StoreBytes(ContainerValue(m, values, d, |m.fields|), m.containers[d].width,
                            m.containers[d].order))
    {
      ContainersApart(m, c, d);
      AtKept(s, s', m.containers[c].offset, part, m.containers[d].offset,
             StoreBytes(ContainerValue(m, values, d, |m.fields|), m.containers[d].width,
                        m.containers[d].order));
    }
  }

  /** Writing the computed length completes the fields. */
  lemma LengthStep(m: MessagePlan, values: Values, s: bytes, s': bytes, k: nat)
    requires ValidMessage(m) && AllAdmitted(m, values) && k < |m.fields|
    requires m.fields[k].source == Computed && ByteSpan(m.fields[k]).Some?
    requires FieldsDone(m, values, FrameSize(m, values), s, |m.fields|, false)
    requires ContainersDone(m, values, s, |m.containers|)
    requires Wrote(s, s', ByteSpan(m.fields[k]).value.begin,
                   Content(m, values, FrameSize(m, values), k))
    ensures FieldsDone(m, values, FrameSize(m, values), s', |m.fields|, true)
    ensures ContainersDone(m, values, s', |m.containers|)
  {
    hide ValidMessage, AllAdmitted, Content, FrameSize, ContainerValue, StoreBytes, At, Spans;
    AllSpansApart(m);
    forall j: nat | j < |m.fields| && ByteSpan(m.fields[j]).Some? && j != k
      ensures At(s', ByteSpan(m.fields[j]).value.begin, Content(m, values, FrameSize(m, values), j))
    {
      if m.fields[j].source == Computed {
        ComputedOnly(m, j);
        ComputedOnly(m, k);
      } else {
        FieldKept(m, values, s, s', k, j);
      }
    }
    forall d: nat | d < |m.containers|
      ensures At(s', m.containers[d].offset,
                 StoreBytes(ContainerValue(m, values, d, |m.fields|), m.containers[d].width,
                            m.containers[d].order))
    {
      FieldContainerApart(m, k, d);
      ContentSize(m, values, k);
      AtKept(s, s', ByteSpan(m.fields[k]).value.begin, Content(m, values, FrameSize(m, values), k),
             m.containers[d].offset,
             StoreBytes(ContainerValue(m, values, d, |m.fields|), m.containers[d].width,
                        m.containers[d].order));
    }
  }

  method GetEncodeRawValue(m: MessagePlan, values: Values, raws: map<nat, nat>, k: nat)
    returns (raw: nat)
    requires ValidMessage(m) && AllAdmitted(m, values) && k < |m.fields|
    requires ConvertedSoFar(m, values, |m.fields|, raws)
    requires !m.fields[k].wire.WholeBytes? && m.fields[k].source != Computed
    ensures raw == RawOf(m.fields[k], values(k))
  {
    hide ValidMessage, AllAdmitted, Encode, Pow2;
    LegalFieldOf(m, k);
    var f := m.fields[k];
    if f.fieldType.Decimal? {
      return raws[k];
    }
    match f.source
    case Constant(value) =>
      ConstantRaw(f, value, values(k));
      raw := if f.fieldType == Int && value < 0 then value + WidthLimit(f.wire.width) else value;
    case Input =>
      AdmittedAt(m, values, k);
      match f.fieldType {
        case Uint => raw := values(k).number;
        case Int =>
          RangeBounds(values(k).integer, ValueType.Int64, f.wire.width);
          raw := ToBits(values(k).integer, f.wire.width);
        case Enum(rawValues, _) => raw := rawValues[values(k).entry];
        case Bool => raw := if values(k).truth then 1 else 0;
      }
  }

  lemma ConstantRaw(f: FieldPlan, value: int, v: LogicalValue)
    requires f.source == Constant(value) && LegalType(f) && LegalSource(f)
    ensures f.fieldType == Int ==>
              RawOf(f, v) == ToBits(value, f.wire.width) && ToBits(value, f.wire.width) >= 0
    ensures f.fieldType == Uint ==> RawOf(f, v) == value
  {
    hide Pow2;
    if f.fieldType == Int {
      RangeBounds(value, ValueType.Int64, f.wire.width);
    }
  }

  method WriteFixedBytes(m: MessagePlan, output: array<byte>, ghost size: nat)
    requires ValidMessage(m) && m.Reach() <= size <= output.Length
    modifies output
    ensures forall f | f in m.structure.fixedBytes :: output[..][f.offset] == f.value
    ensures forall i | size <= i < output.Length :: output[i] == old(output[i])
  {
    hide ValidMessage;
    FixedBytesLegal(m);
    var fixedBytes := m.structure.fixedBytes;
    for k := 0 to |fixedBytes|
      invariant forall j | 0 <= j < k :: output[..][fixedBytes[j].offset] == fixedBytes[j].value
      invariant forall i | size <= i < output.Length :: output[i] == old(output[i])
    {
      forall j | 0 <= j < k && fixedBytes[j].offset == fixedBytes[k].offset
        ensures fixedBytes[j] == fixedBytes[k]
      {
        assert fixedBytes[j] in fixedBytes && fixedBytes[k] in fixedBytes;
      }
      output[fixedBytes[k].offset] := fixedBytes[k].value;
    }
  }

  lemma FixedBytesLegal(m: MessagePlan)
    requires ValidMessage(m)
    ensures forall f | f in m.structure.fixedBytes :: f.offset < m.Reach()
    ensures forall f, g | f in m.structure.fixedBytes && g in m.structure.fixedBytes ::
              f.offset == g.offset ==> f == g
  {
    hide LegalComputed, LegalIntegrity, FullyDefined, AllApart, MembersApart, LegalContainer,
         LegalField;
  }

  lemma FieldSpanListed(m: MessagePlan, k: nat)
    requires k < |m.fields| && ByteSpan(m.fields[k]).Some?
    ensures ByteSpan(m.fields[k]).value in Spans(m)
  {
    var x := CollectListed(m.fields, ByteSpan, k);
    assert Spans(m)[|m.containers| + x] == ByteSpan(m.fields[k]).value;
  }

  lemma ContainerSpanListed(m: MessagePlan, c: nat)
    requires c < |m.containers|
    ensures ContainerSpan(m.containers[c]) in Spans(m)
  {
    assert Spans(m)[c] == ContainerSpan(m.containers[c]);
  }

  /** One field that has bytes of its own. */
  method WriteField(m: MessagePlan, values: Values, raws: map<nat, nat>, k: nat,
                    output: array<byte>)
    returns (ok: bool)
    requires ValidMessage(m) && AllAdmitted(m, values) && k < |m.fields|
    requires ConvertedSoFar(m, values, |m.fields|, raws)
    requires ByteSpan(m.fields[k]).Some? && m.fields[k].source != Computed
    requires FrameSize(m, values) <= output.Length
    modifies output
    ensures ok
    ensures Wrote(old(output[..]), output[..], ByteSpan(m.fields[k]).value.begin,
                  Content(m, values, FrameSize(m, values), k))
  {
    hide ValidMessage, AllAdmitted, FrameSize, Wrote, RawOf, Pow2, StoreBytes;
    ContentSize(m, values, k);
    SizeInBounds(m, values);
    LegalFieldOf(m, k);
    if m.fields[k].fieldType == Bytes {
      AdmittedBytes(m, values, k);
      PutBytes(output, m.fields[k].wire.offset, values(k).content);
      return true;
    }
    var raw := GetEncodeRawValue(m, values, raws, k);
    RawFits(m, values, k);
    var w := m.fields[k].wire;
    UnsignedInside(m, FrameSize(m, values), k);
    ok := PutUnsigned(raw, output, w.offset, w.width, w.order);
  }

  lemma AdmittedBytes(m: MessagePlan, values: Values, k: nat)
    requires AllAdmitted(m, values) && k < |m.fields| && m.fields[k].source == Input
    requires m.fields[k].fieldType == Bytes
    ensures m.fields[k].wire.WholeBytes? && values(k).BytesValue?
  {
    assert Admits(m, k, values(k));
  }

  /** Fields in order: whole bytes at once, members into their containers, containers last. */
  method WriteFields(m: MessagePlan, values: Values, raws: map<nat, nat>, output: array<byte>)
    returns (ok: bool)
    requires ValidMessage(m) && AllAdmitted(m, values)
    requires ConvertedSoFar(m, values, |m.fields|, raws)
    requires FrameSize(m, values) <= output.Length
    modifies output
    ensures ok
    ensures FieldsDone(m, values, FrameSize(m, values), output[..], |m.fields|, false)
    ensures ContainersDone(m, values, output[..], |m.containers|)
    ensures Kept(m, FrameSize(m, values), old(output[..]), output[..])
  {
    hide ValidMessage, AllAdmitted, FrameSize, Wrote, RawOf, Pow2, Content, ContainerValue, At,
         Kept, FieldsDone, ContainersDone, StoreBytes, Spans, ConvertedSoFar;
    ghost var s0 := output[..];
    ghost var size := FrameSize(m, values);
    var containers: seq<nat>;
    containers := StartContainers(m, values);
    NothingWritten(m, values, size, s0);
    for k := 0 to |m.fields|
      invariant FieldsDone(m, values, size, output[..], k, false) && Kept(m, size, s0, output[..])
      invariant |containers| == |m.containers|
      invariant forall c: nat | c < |containers| :: containers[c] == ContainerValue(m, values, c, k)
    {
      ghost var s := output[..];
      if m.fields[k].source == Computed {
        ComputedOnly(m, k);
        FieldsSkip(m, values, size, s, k);
        ContainersSkip(m, values, k);
      } else if m.fields[k].wire.Bitfield? {
        var raw := GetEncodeRawValue(m, values, raws, k);
        var w := m.fields[k].wire;
        LegalBitfield(m, k);
        ContainersTake(m, values, k);
        containers := containers[w.container :=
                                 ReplaceBitfield(containers[w.container], w.shift, w.bits, raw)];
        FieldsSkip(m, values, size, s, k);
      } else {
        ok := WriteField(m, values, raws, k, output);
        FieldStep(m, values, s, output[..], k);
        ContentSize(m, values, k);
        FieldSpanListed(m, k);
        KeptMore(m, size, s0, s, output[..], ByteSpan(m.fields[k]).value,
                 Content(m, values, size, k));
        ContainersSkip(m, values, k);
      }
    }
    ok := WriteContainers(m, values, containers, output, s0);
  }

  method StartContainers(m: MessagePlan, ghost values: Values) returns (containers: seq<nat>)
    ensures |containers| == |m.containers|
    ensures forall c: nat | c < |containers| :: containers[c] == ContainerValue(m, values, c, 0)
  {
    containers := seq(|m.containers|, c requires 0 <= c < |m.containers| =>
                                        m.containers[c].baseValue);
  }

  lemma NothingWritten(m: MessagePlan, values: Values, size: nat, s: bytes)
    ensures FieldsDone(m, values, size, s, 0, false) && Kept(m, size, s, s)
    ensures ContainersDone(m, values, s, 0)
  {
  }

  lemma FieldsSkip(m: MessagePlan, values: Values, size: nat, s: bytes, k: nat)
    requires FieldsDone(m, values, size, s, k, false) && k < |m.fields|
    requires m.fields[k].source == Computed || m.fields[k].wire.Bitfield?
    ensures FieldsDone(m, values, size, s, k + 1, false)
  {
    hide Content, At;
  }

  lemma ContainersSkip(m: MessagePlan, values: Values, k: nat)
    requires ValidMessage(m) && k < |m.fields|
    requires m.fields[k].source == Computed || !m.fields[k].wire.Bitfield?
    ensures forall c: nat | c < |m.containers| ::
              ContainerValue(m, values, c, k + 1) == ContainerValue(m, values, c, k)
  {
    hide ValidMessage, RawOf, ReplaceBitfield;
    LegalFieldOf(m, k);
  }

  lemma ContainersTake(m: MessagePlan, values: Values, k: nat)
    requires k < |m.fields| && m.fields[k].wire.Bitfield?
    ensures var w := m.fields[k].wire;
            forall c: nat | c < |m.containers| ::
              ContainerValue(m, values, c, k + 1)
              == if c == w.container
                 then ReplaceBitfield(ContainerValue(m, values, c, k), w.shift, w.bits,
                                      RawOf(m.fields[k], values(k)))
                 else ContainerValue(m, values, c, k)
  {
    hide RawOf, ReplaceBitfield;
  }

  method WriteContainers(m: MessagePlan, ghost values: Values, containers: seq<nat>,
                         output: array<byte>, ghost s0: bytes)
    returns (ok: bool)
    requires ValidMessage(m) && AllAdmitted(m, values)
    requires FrameSize(m, values) <= output.Length && |containers| == |m.containers|
    requires forall c: nat | c < |containers| ::
               containers[c] == ContainerValue(m, values, c, |m.fields|)
    requires FieldsDone(m, values, FrameSize(m, values), output[..], |m.fields|, false)
    requires Kept(m, FrameSize(m, values), s0, output[..])
    modifies output
    ensures ok
    ensures FieldsDone(m, values, FrameSize(m, values), output[..], |m.fields|, false)
    ensures ContainersDone(m, values, output[..], |m.containers|)
    ensures Kept(m, FrameSize(m, values), s0, output[..])
  {
    hide ValidMessage, AllAdmitted, FrameSize, Wrote, RawOf, Pow2, Content, ContainerValue, At,
         Kept, FieldsDone, ContainersDone, StoreBytes, Spans;
    ghost var size := FrameSize(m, values);
    SizeInBounds(m, values);
    NothingWritten(m, values, size, output[..]);
    for c := 0 to |m.containers|
      invariant FieldsDone(m, values, size, output[..], |m.fields|, false)
      invariant ContainersDone(m, values, output[..], c) && Kept(m, size, s0, output[..])
    {
      ghost var s := output[..];
      var w := m.containers[c];
      ContainerInside(m, size, c);
      ContainerFits(m, values, c, |m.fields|);
      ok := PutUnsigned(containers[c], output, w.offset, w.width, w.order);
      if !ok {
        return;
      }
      ContainerStep(m, values, s, output[..], c);
      ContainerSpanListed(m, c);
      KeptMore(m, size, s0, s, output[..], ContainerSpan(w),
               StoreBytes(containers[c], w.width, w.order));
    }
    ok := true;
  }

  /** The computed length, after everything it may describe is in place. */
  method WriteLength(m: MessagePlan, values: Values, output: array<byte>, ghost s0: bytes)
    returns (ok: bool)
    requires ValidMessage(m) && AllAdmitted(m, values)
    requires FrameSize(m, values) <= output.Length
    requires FieldsDone(m, values, FrameSize(m, values), output[..], |m.fields|, false)
    requires ContainersDone(m, values, output[..], |m.containers|)
    requires Kept(m, FrameSize(m, values), s0, output[..])
    modifies output
    ensures ok
    ensures FieldsDone(m, values, FrameSize(m, values), output[..], |m.fields|, true)
    ensures ContainersDone(m, values, output[..], |m.containers|)
    ensures Kept(m, FrameSize(m, values), s0, output[..])
  {
    hide ValidMessage, AllAdmitted, FrameSize, Wrote, RawOf, Pow2, ContainerValue, At, WidthLimit,
         Kept, FieldsDone, ContainersDone, StoreBytes, Spans, LengthValue;
    var size := FrameSize(m, values);
    SizeInBounds(m, values);
    if m.computed.None? {
      NoLength(m, values, size, output[..]);
      return true;
    }
    ghost var s := output[..];
    LengthFits(m, size);
    var k := m.computed.value.fieldIndex;
    var w := m.fields[k].wire;
    UnsignedInside(m, size, k);
    ok := PutUnsigned(LengthValue(m, m.computed.value, size), output, w.offset, w.width, w.order);
    if !ok {
      return;
    }
    LengthStep(m, values, s, output[..], k);
    FieldSpanListed(m, k);
    ContentSize(m, values, k);
    KeptMore(m, size, s0, s, output[..], ByteSpan(m.fields[k]).value, Content(m, values, size, k));
  }

  lemma NoLength(m: MessagePlan, values: Values, size: nat, s: bytes)
    requires ValidMessage(m) && m.computed.None?
    requires FieldsDone(m, values, size, s, |m.fields|, false)
    ensures FieldsDone(m, values, size, s, |m.fields|, true)
  {
    hide ValidMessage, Content, At;
    forall k: nat | k < |m.fields|
      ensures m.fields[k].source != Computed
    {
      if m.fields[k].source == Computed {
        ComputedOnly(m, k);
      }
    }
  }

  /** Everything but the checksum is in place. */
  ghost predicate Unsealed(m: MessagePlan, values: Values, s: bytes) {
    && FrameSize(m, values) <= |s|
    && FieldsDone(m, values, FrameSize(m, values), s, |m.fields|, true)
    && ContainersDone(m, values, s, |m.containers|)
    && forall f | f in m.structure.fixedBytes ::
         f.offset < m.Reach() && f.offset < |s|
         && (Covered(Spans(m), f.offset) || s[f.offset] == f.value)
  }

  lemma UnsealedNow(m: MessagePlan, values: Values, s0: bytes, s: bytes)
    requires ValidMessage(m) && AllAdmitted(m, values) && FrameSize(m, values) <= |s|
    requires FieldsDone(m, values, FrameSize(m, values), s, |m.fields|, true)
    requires ContainersDone(m, values, s, |m.containers|)
    requires Kept(m, FrameSize(m, values), s0, s)
    requires forall f | f in m.structure.fixedBytes ::
               f.offset < |s0| && s0[f.offset] == f.value
    ensures Unsealed(m, values, s)
  {
    hide ValidMessage, AllAdmitted, FrameSize, FieldsDone, ContainersDone, Spans, Covered;
    FixedBytesLegal(m);
    SizeInBounds(m, values);
  }

  /** The checksum's storage is nobody else's. */
  lemma StorageApart(m: MessagePlan, values: Values, k: nat)
    requires ValidMessage(m) && AllAdmitted(m, values) && m.integrity.Some?
    requires k < |m.fields| && ByteSpan(m.fields[k]).Some?
    ensures var size := FrameSize(m, values);
            var storage := StorageSpan(m, size);
            var begin := ByteSpan(m.fields[k]).value.begin;
            storage.end <= begin
            || begin + |Content(m, values, size, k)| <= storage.begin
  {
    hide LegalComputed, LegalMatcherBytes, FullyDefined, AllApart, MembersApart, LegalContainer,
         LegalField, Content, Spans, AllAdmitted;
    SizeInBounds(m, values);
    ContentSize(m, values, k);
    FieldSpanListed(m, k);
    assert m.bounded.None? ==> Apart(StorageSpan(m, m.structure.maxFrame),
                                     ByteSpan(m.fields[k]).value);
  }

  lemma StorageApartContainer(m: MessagePlan, values: Values, c: nat)
    requires ValidMessage(m) && AllAdmitted(m, values) && m.integrity.Some?
    requires c < |m.containers|
    ensures Apart(StorageSpan(m, FrameSize(m, values)), ContainerSpan(m.containers[c]))
  {
    hide LegalComputed, LegalMatcherBytes, FullyDefined, AllApart, MembersApart,
         LegalField, Spans, AllAdmitted;
    SizeInBounds(m, values);
    ContainerSpanListed(m, c);
    assert LegalContainer(m, m.containers[c]);
    assert m.bounded.None? ==> Apart(StorageSpan(m, m.structure.maxFrame),
                                     ContainerSpan(m.containers[c]));
  }

  lemma StorageApartMatcher(m: MessagePlan, values: Values, f: FixedByte)
    requires ValidMessage(m) && AllAdmitted(m, values) && m.integrity.Some?
    requires f in m.structure.fixedBytes
    ensures !Covers(StorageSpan(m, FrameSize(m, values)), f.offset)
  {
    hide LegalComputed, LegalIntegrity, FullyDefined, AllApart, MembersApart, LegalContainer,
         LegalField, Spans, AllAdmitted;
    SizeInBounds(m, values);
    FixedBytesLegal(m);
  }

  /** Sealing: the checksum over the finished bytes leaves all of them in place. */
  lemma SealKeeps(m: MessagePlan, values: Values, s: bytes, s': bytes, part: bytes)
    requires ValidMessage(m) && AllAdmitted(m, values) && m.integrity.Some?
    requires Unsealed(m, values, s) && |part| == StorageWidth(m.integrity.value)
    requires Wrote(s, s', StorageOffset(m, FrameSize(m, values)), part)
    ensures Unsealed(m, values, s')
  {
    hide ValidMessage, AllAdmitted, FrameSize, Content, ContainerValue, StoreBytes, At, Spans,
         Covered;
    var size := FrameSize(m, values);
    var storage := StorageOffset(m, size);
    forall k: nat | k < |m.fields| && ByteSpan(m.fields[k]).Some?
      ensures At(s', ByteSpan(m.fields[k]).value.begin, Content(m, values, size, k))
    {
      StorageApart(m, values, k);
      AtKept(s, s', storage, part, ByteSpan(m.fields[k]).value.begin, Content(m, values, size, k));
    }
    forall c: nat | c < |m.containers|
      ensures At(s', m.containers[c].offset,
                 StoreBytes(ContainerValue(m, values, c, |m.fields|), m.containers[c].width,
                            m.containers[c].order))
    {
      StorageApartContainer(m, values, c);
      AtKept(s, s', storage, part, m.containers[c].offset,
             StoreBytes(ContainerValue(m, values, c, |m.fields|), m.containers[c].width,
                        m.containers[c].order));
    }
    forall f | f in m.structure.fixedBytes
      ensures Covered(Spans(m), f.offset) || s'[f.offset] == f.value
    {
      StorageApartMatcher(m, values, f);
    }
  }

  lemma AtPrefix(s: bytes, size: nat, begin: nat, part: bytes)
    requires At(s, begin, part) && begin + |part| <= size <= |s|
    ensures At(s[..size], begin, part)
  {
    assert s[..size][begin..begin + |part|] == s[begin..begin + |part|];
  }

  /** The finished prefix of the buffer is the image. */
  lemma SealedImage(m: MessagePlan, values: Values, s: bytes)
    requires ValidMessage(m) && AllAdmitted(m, values) && Unsealed(m, values, s)
    requires ChecksumPlaced(m, s[..FrameSize(m, values)])
    ensures Image(m, values, s[..FrameSize(m, values)])
  {
    hide ValidMessage, AllAdmitted, FrameSize, Content, ContainerValue, StoreBytes, At, Spans,
         Covered, ChecksumPlaced;
    var size := FrameSize(m, values);
    var out := s[..size];
    SizeInBounds(m, values);
    forall k: nat | k < |m.fields| && ByteSpan(m.fields[k]).Some?
      ensures At(out, ByteSpan(m.fields[k]).value.begin, Content(m, values, size, k))
    {
      ContentSize(m, values, k);
      AtPrefix(s, size, ByteSpan(m.fields[k]).value.begin, Content(m, values, size, k));
    }
    forall c: nat | c < |m.containers|
      ensures At(out, m.containers[c].offset,
                 StoreBytes(ContainerValue(m, values, c, |m.fields|), m.containers[c].width,
                            m.containers[c].order))
    {
      ContainerInside(m, size, c);
      AtPrefix(s, size, m.containers[c].offset,
               StoreBytes(ContainerValue(m, values, c, |m.fields|), m.containers[c].width,
                          m.containers[c].order));
    }
  }

  lemma ChecksumNow(m: MessagePlan, values: Values, s: bytes, s': bytes)
    requires ValidMessage(m) && AllAdmitted(m, values) && m.integrity.Some?
    requires FrameSize(m, values) <= |s|
    requires var out := s[..FrameSize(m, values)];
             && Proper(RangeSpan(m, |out|)) && RangeSpan(m, |out|).end <= |out|
             && Wrote(s, s', StorageOffset(m, |out|), ChecksumBytes(m, out))
    ensures ChecksumPlaced(m, s'[..FrameSize(m, values)])
  {
    hide ValidMessage, AllAdmitted, FrameSize, StoreBytes, Integrity.CrcOf, Integrity.SumOf;
    var size := FrameSize(m, values);
    var out, out' := s[..size], s'[..size];
    SizeInBounds(m, values);
    RangeApart(m, size);
    ChecksumSize(m, out);
    var range := RangeSpan(m, size);
    assert forall i | range.begin <= i < range.end :: out'[i] == out[i];
    assert out'[range.begin..range.end] == out[range.begin..range.end];
    AtPrefix(s', size, StorageOffset(m, size), ChecksumBytes(m, out));
  }

  method CrcOfRange(p: Integrity.CrcParameters, data: bytes, begin: nat, end: nat)
    returns (value: nat)
    requires Integrity.ValidCrc(p) && begin <= end <= |data|
    ensures value == Integrity.CrcOf(p, data[begin..end]) as nat
    ensures FitsUnsignedWidth(value, p.width / 8)
  {
    hide Integrity.CrcOf, Integrity.ValidCrc, WidthLimit;
    LegalCrcWidth(p);
    ghost var covered := data[begin..end];
    assert covered == data[begin..begin + (end - begin)];
    CrcFits(p, covered);
    var crc := Integrity.Crc(p, data, begin, end - begin);
    value := crc as nat;
  }

  method PutCrc(p: Integrity.CrcParameters, output: array<byte>, begin: nat, end: nat, storage: nat,
                order: ByteOrder)
    returns (ok: bool)
    requires Integrity.ValidCrc(p) && begin <= end <= output.Length
    requires storage + p.width / 8 <= output.Length && IsIntegerByteOrderValid(order, p.width / 8)
    modifies output
    ensures ok
    ensures Wrote(old(output[..]), output[..], storage,
                  StoreBytes(Integrity.CrcOf(p, old(output[..])[begin..end]) as nat, p.width / 8,
                             order))
  {
    hide StoreBytes, Wrote, Integrity.CrcOf, Integrity.ValidCrc;
    LegalCrcWidth(p);
    var value := CrcOfRange(p, output[..], begin, end);
    ok := PutUnsigned(value, output, storage, p.width / 8, order);
  }

  method PutSum8(output: array<byte>, begin: nat, end: nat, storage: nat)
    requires begin <= end <= output.Length && storage < output.Length
    modifies output
    ensures Wrote(old(output[..]), output[..], storage,
                  [Integrity.SumOf(old(output[..])[begin..end])])
  {
    hide Integrity.SumOf, Wrote;
    ghost var covered := output[..][begin..end];
    assert covered == output[..][begin..begin + (end - begin)];
    var sum := Integrity.Sum8(output[..], begin, end - begin);
    PutBytes(output, storage, [sum]);
  }

  lemma ChecksumPart(m: MessagePlan, s: bytes, size: nat)
    requires ValidMessage(m) && m.integrity.Some? && size <= |s|
    requires m.structure.minFrame <= size <= m.structure.maxFrame
    ensures Proper(RangeSpan(m, size)) && RangeSpan(m, size).end <= size
    ensures var i, covered := m.integrity.value, s[RangeSpan(m, size).begin..RangeSpan(m, size).end];
            ChecksumBytes(m, s[..size])
            == match i.algorithm
               case Sum8 => [Integrity.SumOf(covered)]
               case Crc(p) =>
                 StoreBytes(Integrity.CrcOf(p, covered) as nat, StorageWidth(i), i.order)
  {
    hide ValidMessage, StoreBytes, Integrity.CrcOf, Integrity.SumOf;
    RangeApart(m, size);
    var range := RangeSpan(m, size);
    assert s[..size][range.begin..range.end] == s[range.begin..range.end];
  }

  /** The checksum of the finished bytes into its storage. */
  method PutChecksum(m: MessagePlan, size: nat, output: array<byte>) returns (ok: bool)
    requires ValidMessage(m) && m.integrity.Some? && size <= output.Length
    requires m.structure.minFrame <= size <= m.structure.maxFrame
    modifies output
    ensures ok && Proper(RangeSpan(m, size)) && RangeSpan(m, size).end <= size
    ensures Wrote(old(output[..]), output[..], StorageOffset(m, size),
                  ChecksumBytes(m, old(output[..])[..size]))
  {
    hide ValidMessage, StoreBytes, Wrote, Integrity.CrcOf, Integrity.SumOf, Integrity.ValidCrc;
    hide RangeSpan, ChecksumBytes;
    var i := m.integrity.value;
    RangeApart(m, size);
    ChecksumPart(m, output[..], size);
    match i.algorithm {
      case Sum8 =>
        PutSum8(output, RangeSpan(m, size).begin, RangeSpan(m, size).end, StorageOffset(m, size));
        ok := true;
      case Crc(p) =>
        LegalChecksum(m);
        ok := PutCrc(p, output, RangeSpan(m, size).begin, RangeSpan(m, size).end,
                     StorageOffset(m, size), i.order);
    }
  }

  method WriteIntegrity(m: MessagePlan, ghost values: Values, size: nat, output: array<byte>)
    returns (ok: bool)
    requires ValidMessage(m) && AllAdmitted(m, values) && size == FrameSize(m, values)
    requires Unsealed(m, values, output[..])
    modifies output
    ensures ok && Image(m, values, output[..size])
    ensures forall i | size <= i < output.Length :: output[i] == old(output[i])
  {
    hide ValidMessage, AllAdmitted, FrameSize, Unsealed, Image, ChecksumBytes, RangeSpan,
         StorageOffset, Wrote;
    ok := true;
    ghost var s := output[..];
    SizeInBounds(m, values);
    UnsealedSize(m, values, s);
    if m.integrity.Some? {
      RangeApart(m, size);
      ChecksumSize(m, s[..size]);
      ghost var part := ChecksumBytes(m, s[..size]);
      ok := PutChecksum(m, size, output);
      SealKeeps(m, values, s, output[..], part);
      ChecksumNow(m, values, s, output[..]);
      Untouched(s, output[..], StorageOffset(m, size), part, size);
    }
    SealedImage(m, values, output[..]);
  }

  lemma UnsealedSize(m: MessagePlan, values: Values, s: bytes)
    requires Unsealed(m, values, s)
    ensures FrameSize(m, values) <= |s|
  {
  }

  lemma Untouched(s: bytes, s': bytes, begin: nat, part: bytes, size: nat)
    requires Wrote(s, s', begin, part) && begin + |part| <= size
    ensures |s'| == |s| && forall i | size <= i < |s| :: s'[i] == s[i]
  {
  }
}
