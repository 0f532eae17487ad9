/**
 * The Binary codec as a whole: Encode with its final review, Decode through the pipeline, and what
 * they promise each other.
 */
module BinaryCodec {
  import opened Bytes
  import opened WideIntegers
  import opened DecimalConversion
  import DecimalLaws
  import opened WireIntegers
  import opened PipelineMatch
  import opened BinaryPlan
  import opened BinaryImage
  import opened BinaryDecode
  import opened BinaryEncode

  // ---------------------------------------------------------------- the final review

  datatype FieldVerification = FieldsMatch | FieldsMismatch | FieldsInternalError

  /** Field `k` of the frame decodes to what was meant. */
  ghost predicate FieldAgrees(m: MessagePlan, values: Values, frame: bytes, k: nat)
    requires k < |m.fields|
  {
    && FieldValue(m, frame, k).Read?
    && SameLogical(FieldValue(m, frame, k).value, Expected(m, values, |frame|, k))
  }

  /** A frame of the right size for the values, whatever its bytes are. */
  ghost predicate Reviewable(m: MessagePlan, values: Values, frame: bytes) {
    Readable(m, frame) && AllAdmitted(m, values) && |frame| == FrameSize(m, values)
  }

  /**
   * Every field read again from the bytes and compared with what was asked for. The comparisons
   * are made on raw numbers, yet they find exactly the frames whose fields Decode would read as
   * something else.
   */
  method VerifyFields(m: MessagePlan, values: Values, raws: map<nat, nat>, frame: bytes)
    returns (status: FieldVerification)
    requires Reviewable(m, values, frame) && ConvertedSoFar(m, values, |m.fields|, raws)
    ensures status == if forall k: nat | k < |m.fields| :: FieldAgrees(m, values, frame, k)
                      then FieldsMatch else FieldsMismatch
  {
    hide Reviewable, ConvertedSoFar, FieldAgrees;
    for k := 0 to |m.fields|
      invariant forall j: nat | j < k :: FieldAgrees(m, values, frame, j)
    {
      status := VerifyField(m, values, raws, frame, k);
      if status != FieldsMatch {
        return;
      }
    }
    status := FieldsMatch;
  }

  method VerifyField(m: MessagePlan, values: Values, raws: map<nat, nat>, frame: bytes, k: nat)
    returns (status: FieldVerification)
    requires Reviewable(m, values, frame) && k < |m.fields|
    requires ConvertedSoFar(m, values, |m.fields|, raws)
    ensures status == if FieldAgrees(m, values, frame, k) then FieldsMatch else FieldsMismatch
  {
    hide ValidMessage, AllAdmitted, ConvertedSoFar, FieldAgrees, FieldRaw, FieldBytes, FrameSize,
         ContainerRaw, ExtractBitfield, LoadValue, RawOf, LengthHolds, Pow2;
    var f := m.fields[k];
    LegalFieldOf(m, k);
    if f.source == Computed {
      var matches := ComputedLengthMatches(m, frame);
      LengthAgrees(m, values, frame, k);
      return if matches then FieldsMatch else FieldsMismatch;
    }
    if f.fieldType == Bytes {
      BytesAgree(m, values, frame, k);
      var width := |values(k).content|;
      var written := frame[f.wire.offset..f.wire.offset + width];
      return if written == values(k).content then FieldsMatch else FieldsMismatch;
    }
    var loaded, actual := ReadRawAgain(m, frame, k);
    var expected := GetEncodeRawValue(m, values, raws, k);
    if f.fieldType.Decimal? {
      status := VerifyDecimal(m, values, frame, k, actual);
    } else if f.fieldType == Int {
      status := VerifySigned(m, values, frame, k, actual);
    } else {
      RawAgrees(m, values, frame, k);
      status := if actual == expected then FieldsMatch else FieldsMismatch;
    }
  }

  lemma LengthAgrees(m: MessagePlan, values: Values, frame: bytes, k: nat)
    requires Readable(m, frame) && k < |m.fields| && m.fields[k].source == Computed
    ensures LengthHolds(m, frame) <==> FieldAgrees(m, values, frame, k)
  {
    hide ValidMessage, FieldRaw, LengthValue, FieldBytes;
    ComputedOnly(m, k);
    LegalFieldOf(m, k);
  }

  lemma BytesAgree(m: MessagePlan, values: Values, frame: bytes, k: nat)
    requires Reviewable(m, values, frame) && k < |m.fields| && m.fields[k].fieldType == Bytes
    ensures m.fields[k].wire.WholeBytes? && values(k).BytesValue?
    ensures var w, content := m.fields[k].wire, values(k).content;
            && w.offset + |content| <= |frame|
            && (frame[w.offset..w.offset + |content|] == content
                <==> FieldAgrees(m, values, frame, k))
  {
    hide ValidMessage, AllAdmitted;
    LegalFieldOf(m, k);
    AdmittedAt(m, values, k);
    BytesInside(m, frame, k);
  }

  /** Numbers, entries and bits mean the same exactly if they are the same. */
  lemma RawAgrees(m: MessagePlan, values: Values, frame: bytes, k: nat)
    requires Reviewable(m, values, frame) && k < |m.fields| && m.fields[k].source != Computed
    requires m.fields[k].fieldType in {Uint, Bool} || m.fields[k].fieldType.Enum?
    ensures FieldRaw(m, frame, k) == RawOf(m.fields[k], values(k))
            <==> FieldAgrees(m, values, frame, k)
  {
    hide ValidMessage, AllAdmitted, FieldRaw, Pow2, FrameSize, InRange, Encode, Decode, FieldBytes;
    LegalFieldOf(m, k);
    var f, raw := m.fields[k], FieldRaw(m, frame, k);
    match f.source
    case Constant(value) =>
      ConstantReadsBack(f, value, values(k));
    case Input =>
      AdmittedAt(m, values, k);
      match f.fieldType {
        case Bool =>
          BitIsSmall(m, frame, k);
        case Enum(raws, _) =>
          EntryFound(raws, raw);
          EntryIs(raws, values(k).entry);
        case _ =>
      }
  }

  lemma BitIsSmall(m: MessagePlan, frame: bytes, k: nat)
    requires k < |m.fields| && m.fields[k].wire.Bitfield? && m.fields[k].wire.bits == 1
    ensures FieldRaw(m, frame, k) < 2
  {
    assert Pow2(1) == 2 * Pow2(0);
  }

  lemma ImageReadable(m: MessagePlan, values: Values, frame: bytes)
    requires ValidMessage(m) && AllAdmitted(m, values) && Image(m, values, frame)
    ensures Readable(m, frame)
  {
    hide ValidMessage, AllAdmitted, FieldsPlaced, ContainersPlaced, MatchersPlaced, ChecksumPlaced;
    SizeInBounds(m, values);
  }

  method ReadRawAgain(m: MessagePlan, frame: bytes, k: nat) returns (ok: bool, raw: nat)
    requires Readable(m, frame) && k < |m.fields| && !m.fields[k].wire.WholeBytes?
    ensures ok && raw == FieldRaw(m, frame, k)
  {
    hide ValidMessage, LoadValue, ExtractBitfield;
    match m.fields[k].wire
    case Unsigned(offset, width, order) =>
      UnsignedInside(m, |frame|, k);
      ok, raw := LoadUnsigned(frame, offset, width, order);
    case Bitfield(c, shift, bits) =>
      LegalBitfield(m, k);
      ContainerInside(m, |frame|, c);
      var w := m.containers[c];
      ok, raw := LoadUnsigned(frame, w.offset, w.width, w.order);
      raw := ExtractBitfield(raw, shift, bits);
  }

  method VerifyDecimal(m: MessagePlan, values: Values, frame: bytes, k: nat, actual: nat)
    returns (status: FieldVerification)
    requires Reviewable(m, values, frame) && k < |m.fields|
    requires m.fields[k].fieldType.Decimal? && actual == FieldRaw(m, frame, k)
    ensures status == if FieldAgrees(m, values, frame, k) then FieldsMatch else FieldsMismatch
  {
    hide ValidMessage, AllAdmitted, Encode, Decode, Pow2, Strip, Moderate, FieldAgrees,
         FieldRaw, DecimalLaws.SameValue, InRange, FrameSize;
    LegalFieldOf(m, k);
    AdmittedAt(m, values, k);
    var f := m.fields[k];
    var c := f.fieldType.conversion;
    var logical := values(k).decimal;
    RawBelow(m, frame, k);
    DecodedLegal(c, actual, f.wire.width);
    DecodeReasons(c, actual, f.wire.width);
    DecimalAgrees(m, values, frame, k);
    var converted, value := DecodeDecimal(c, actual, f.wire.width);
    if converted == DecimalArithmeticStatus.InternalError {
      return FieldsInternalError;
    }
    if converted != DecimalArithmeticStatus.Ok {
      return FieldsMismatch;
    }
    var equal := DecimalLaws.DecimalEqual(value, logical);
    status := if equal then FieldsMatch else FieldsMismatch;
  }

  lemma DecimalAgrees(m: MessagePlan, values: Values, frame: bytes, k: nat)
    requires Reviewable(m, values, frame) && k < |m.fields| && m.fields[k].fieldType.Decimal?
    ensures var f := m.fields[k];
            && f.wire.Unsigned? && 1 <= f.wire.width <= 8 && values(k).DecimalValue?
            && FieldAgrees(m, values, frame, k)
               == match Decode(f.fieldType.conversion, FieldRaw(m, frame, k), f.wire.width)
                  case Decoded(d) => d.scale >= 0 && values(k).decimal.scale >= 0
                                     && DecimalLaws.SameValue(d, values(k).decimal)
                  case DecodeFailed(_) => false
  {
    hide ValidMessage, AllAdmitted, Encode, Decode, Pow2, Moderate, FieldRaw, InRange, FrameSize;
    LegalFieldOf(m, k);
    AdmittedAt(m, values, k);
  }

  lemma DecodedLegal(c: LinearConversion, raw: nat, width: nat)
    requires 1 <= width <= 8 && Moderate(c)
    ensures match Decode(c, raw, width)
            case Decoded(d) => InInt64(d.coefficient) && 0 <= d.scale <= MAX_SCALE
            case DecodeFailed(_) => true
  {
    hide RawValue, InRange;
    DecimalLaws.StripFacts(RawValue(raw, c.rawValueType, width) * c.Scale() + c.Bias(),
                           c.decimalPlaces);
  }

  method VerifySigned(m: MessagePlan, values: Values, frame: bytes, k: nat, actual: nat)
    returns (status: FieldVerification)
    requires Reviewable(m, values, frame) && k < |m.fields|
    requires m.fields[k].fieldType == Int && m.fields[k].source != Computed
    requires actual == FieldRaw(m, frame, k)
    ensures status == if FieldAgrees(m, values, frame, k) then FieldsMatch else FieldsMismatch
  {
    hide ValidMessage, AllAdmitted, Pow2, RawValue, InRange, FieldRaw, FrameSize;
    LegalFieldOf(m, k);
    var f := m.fields[k];
    RawBelow(m, frame, k);
    var signed := RawSigned(actual, ValueType.Int64, f.wire.width);
    InterpretedFits(actual, f.wire.width);
    var narrow, value := ToSigned(signed);
    var expected;
    match f.source {
      case Constant(c) =>
        expected := c;
      case Input =>
        AdmittedAt(m, values, k);
        expected := values(k).integer;
    }
    status := if narrow && value == expected then FieldsMatch else FieldsMismatch;
  }

  // ---------------------------------------------------------------- Encode

  /** The review's look-up finds this message exactly when the frame has its matcher bytes. */
  method ReviewMatch(p: Pipeline, structures: seq<MessageExecution>, index: nat, frame: bytes)
    returns (unique: bool)
    requires FrozenPipeline(p, structures) && index in p.messageIndices
    ensures unique == Matches(structures[index], frame)
  {
    hide Matches, Grouped, Reaching, Select, FrozenPipeline;
    FrozenIsUnambiguous(p, structures);
    var f := MatchedBy(structures, frame);
    var matchCount, messageIndex := FindPipelineMatch(p, structures, frame);
    SelectedFrom(p.messageIndices, f, index);
    if messageIndex.Some? {
      SelectedFrom(p.messageIndices, f, messageIndex.value);
    }
    OnlyOne(Select(p.messageIndices, f), index, messageIndex);
    unique := matchCount == 1 && messageIndex == Some(index);
  }

  lemma OnlyOne(selected: seq<nat>, index: nat, first: Option<nat>)
    requires |selected| <= 1 && (first.Some? ==> first.value in selected)
    ensures index in selected ==> |selected| == 1 && (first.Some? ==> first.value == index)
  {
  }

  /**
   * Encode. It refuses bad inputs and a short buffer before it writes anything; otherwise the
   * image of the values is in the buffer and nothing beyond it is touched, and the only thing the
   * final review can object to is that the image lacks one of the message's own matcher bytes.
   */
  method EncodeCompleteRecord(p: Pipeline, structures: seq<MessageExecution>, m: MessagePlan,
                              index: nat, inputs: seq<FieldInput>, output: array<byte>)
    returns (status: EncodeStatus, bytesWritten: nat, requiredSize: nat, ghost values: Values)
    requires ValidMessage(m) && FrozenPipeline(p, structures) && NativeInputs(inputs)
    requires index < |structures| && structures[index] == m.structure
    modifies output
    ensures status == MessageNotAllowed <==> index !in p.messageIndices
    ensures status in INPUT_REFUSALS <==> index in p.messageIndices && !Acceptable(m, inputs)
    ensures status in INPUT_REFUSALS ==> RefusedFor(m, inputs, status)
    ensures index in p.messageIndices && Acceptable(m, inputs) ==>
              && Given(m, inputs, values) && AllAdmitted(m, values)
              && requiredSize == FrameSize(m, values)
              && if output.Length < requiredSize then status == BufferTooSmall
                 else
                   && Image(m, values, output[..requiredSize])
                   && output[requiredSize..] == old(output[requiredSize..])
                   && status == if Matches(m.structure, output[..requiredSize]) then EncodeOk
                                else FinalReviewFailed
    ensures status != EncodeOk && status != FinalReviewFailed ==>
              output[..] == old(output[..])
    ensures bytesWritten == if status == EncodeOk then requiredSize else 0
    ensures index !in p.messageIndices || !Acceptable(m, inputs) ==> requiredSize == 0
  {
    hide ValidMessage, AllAdmitted, Given, Acceptable, Image, FrameSize, FrozenPipeline,
         ConvertedSoFar, Matches, Passes, Reviewable, RefusedFor;
    bytesWritten, requiredSize := 0, 0;
    values := k => UintValue(0);
    if index !in p.messageIndices {
      return MessageNotAllowed, bytesWritten, requiredSize, values;
    }
    var indices, raws;
    status, indices, raws := PrepareEncodeInputs(m, inputs);
    if status != EncodeOk {
      return;
    }
    var supplied := ValueAt(inputs, indices);
    values := supplied;
    requiredSize := FrameSize(m, supplied);
    SizeInBounds(m, supplied);
    if requiredSize < m.structure.minFrame || requiredSize > m.structure.maxFrame {
      status := FinalReviewFailed;
      return;
    }
    if output.Length < requiredSize {
      status := BufferTooSmall;
      return;
    }
    var written := WriteFrame(m, supplied, raws, output);
    if !written {
      status := FinalReviewFailed;
      return;
    }
    var encoded := output[..requiredSize];
    ImagePasses(m, supplied, encoded);
    status := ReviewFrame(p, structures, m, index, supplied, raws, encoded);
    if status == EncodeOk {
      bytesWritten := requiredSize;
    }
  }

  method WriteFrame(m: MessagePlan, values: Values, raws: map<nat, nat>, output: array<byte>)
    returns (ok: bool)
    requires ValidMessage(m) && AllAdmitted(m, values)
    requires ConvertedSoFar(m, values, |m.fields|, raws)
    requires FrameSize(m, values) <= output.Length
    modifies output
    ensures ok && Image(m, values, output[..FrameSize(m, values)])
    ensures output[FrameSize(m, values)..] == old(output[FrameSize(m, values)..])
  {
    hide ValidMessage, AllAdmitted, Image, FrameSize, ConvertedSoFar, FieldsDone, ContainersDone,
         Kept, Unsealed;
    ghost var before := output[..];
    var size := FrameSize(m, values);
    SizeInBounds(m, values);
    WriteFixedBytes(m, output, size);
    ghost var s0 := output[..];
    FixedBytesLegal(m);
    ok := WriteFields(m, values, raws, output);
    if !ok {
      return;
    }
    ok := WriteLength(m, values, output, s0);
    if !ok {
      return;
    }
    ghost var s1 := output[..];
    UnsealedNow(m, values, s0, s1);
    KeptBeyond(m, size, s0, s1);
    ok := WriteIntegrity(m, values, size, output);
    assert forall i | size <= i < output.Length :: output[i] == before[i];
  }

  lemma KeptBeyond(m: MessagePlan, size: nat, s0: bytes, s: bytes)
    requires Kept(m, size, s0, s)
    ensures |s| == |s0| && forall i | size <= i < |s| :: s[i] == s0[i]
  {
    hide Spans, Covered;
  }

  /** What a frame must be for the final review to pass it. */
  ghost predicate Passes(m: MessagePlan, values: Values, frame: bytes) {
    && ChecksumHolds(m, frame) && LengthHolds(m, frame) && Matches(m.structure, frame)
    && forall k: nat | k < |m.fields| :: FieldAgrees(m, values, frame, k)
  }

  /** The reviews in the source's order: together they pass exactly the sound frames. */
  method ReviewFrame(p: Pipeline, structures: seq<MessageExecution>, m: MessagePlan, index: nat,
                     values: Values, raws: map<nat, nat>, encoded: bytes)
    returns (status: EncodeStatus)
    requires Reviewable(m, values, encoded) && ConvertedSoFar(m, values, |m.fields|, raws)
    requires FrozenPipeline(p, structures) && index in p.messageIndices
    requires index < |structures| && structures[index] == m.structure
    ensures status == if Passes(m, values, encoded) then EncodeOk else FinalReviewFailed
  {
    hide ValidMessage, AllAdmitted, ConvertedSoFar, FrozenPipeline, Matches, LengthHolds,
         ChecksumHolds, FieldAgrees, FrameSize;
    var integrityMatches := IntegrityMatches(m, encoded);
    if !integrityMatches {
      return FinalReviewFailed;
    }
    var lengthMatches := ComputedLengthMatches(m, encoded);
    if !lengthMatches {
      return FinalReviewFailed;
    }
    var unique := ReviewMatch(p, structures, index, encoded);
    if !unique {
      return FinalReviewFailed;
    }
    var verified := VerifyFields(m, values, raws, encoded);
    if verified == FieldsInternalError {
      return EncodeInternalError;
    }
    status := if verified == FieldsMatch then EncodeOk else FinalReviewFailed;
  }

  /** What Encode writes passes every part of its review but perhaps the structural one. */
  lemma ImagePasses(m: MessagePlan, values: Values, frame: bytes)
    requires ValidMessage(m) && AllAdmitted(m, values) && Image(m, values, frame)
    ensures Reviewable(m, values, frame)
    ensures Passes(m, values, frame) <==> Matches(m.structure, frame)
  {
    hide ValidMessage, AllAdmitted, Image, Matches, LengthHolds, ChecksumHolds, FrameSize,
         FieldValue, SameLogical, Expected;
    ImageReadable(m, values, frame);
    ImageSize(m, values, frame);
    ChecksumReadsBack(m, values, frame);
    LengthReadsBack(m, values, frame);
    forall k: nat | k < |m.fields|
      ensures FieldAgrees(m, values, frame, k)
    {
      FieldReadsBack(m, values, frame, k);
    }
  }

  // ---------------------------------------------------------------- Decode

  /** What a pipeline knows of each of its messages. */
  ghost predicate FrozenPlans(structures: seq<MessageExecution>, plans: seq<MessagePlan>,
                              lookups: seq<seq<seq<EnumEntry>>>)
  {
    && |plans| == |structures| == |lookups|
    && forall i: nat | i < |plans| ::
         ValidMessage(plans[i]) && plans[i].structure == structures[i]
         && LookupsOf(plans[i], lookups[i])
  }

  lemma FrozenPlan(structures: seq<MessageExecution>, plans: seq<MessagePlan>,
                   lookups: seq<seq<seq<EnumEntry>>>, i: nat)
    requires FrozenPlans(structures, plans, lookups) && i < |plans|
    ensures ValidMessage(plans[i]) && plans[i].structure == structures[i]
    ensures LookupsOf(plans[i], lookups[i])
  {
    hide ValidMessage, LookupsOf;
  }

  lemma MatchedReadable(m: MessagePlan, frame: bytes)
    requires ValidMessage(m) && Matches(m.structure, frame)
    ensures Readable(m, frame)
  {
    hide LegalComputed, LegalIntegrity, LegalMatcherBytes, FullyDefined, AllApart, MembersApart,
         LegalContainer, LegalField;
  }

  /**
   * Decode: the one message of the pipeline whose structure the frame has, and its values. No
   * frame is ever ambiguous.
   */
  method DecodeCompleteRecord(p: Pipeline, structures: seq<MessageExecution>,
                              plans: seq<MessagePlan>, lookups: seq<seq<seq<EnumEntry>>>,
                              input: bytes, slotCapacity: nat)
    returns (status: DecodeStatus, messageIndex: nat, slots: seq<LogicalValue>, tainted: bool)
    requires FrozenPipeline(p, structures) && FrozenPlans(structures, plans, lookups)
    ensures status != AmbiguousMessage
    ensures (forall i | i in p.messageIndices :: i < |structures| && !Matches(structures[i], input))
            ==> status == UnknownMessage && !tainted
    ensures forall i | i in p.messageIndices && i < |plans| && Matches(structures[i], input) ::
              && messageIndex == i && Decodes(plans[i], input, slotCapacity, status, slots)
              && (tainted <==> status == DecodeStatus.Ok && Tainted(plans[i], input))
  {
    hide Matches, Grouped, Reaching, Select, ValidMessage, LookupsOf, FrozenPlans, Decodes,
         FrozenPipeline, Tainted;
    FrozenIsUnambiguous(p, structures);
    messageIndex, slots, tainted := 0, [], false;
    var f := MatchedBy(structures, input);
    var matchCount, first := FindPipelineMatch(p, structures, input);
    forall i | i in p.messageIndices && i < |structures| && Matches(structures[i], input)
      ensures matchCount == 1 && first == Some(i)
    {
      SelectedFrom(p.messageIndices, f, i);
      if first.Some? {
        SelectedFrom(p.messageIndices, f, first.value);
      }
      OnlyOne(Select(p.messageIndices, f), i, first);
    }
    PlansCount(structures, plans, lookups);
    if matchCount == 0 {
      status := UnknownMessage;
      return;
    }
    if matchCount != 1 {
      status := AmbiguousMessage;
      return;
    }
    messageIndex := first.value;
    FrozenPlan(structures, plans, lookups, messageIndex);
    MatchedReadable(plans[messageIndex], input);
    status, slots, tainted := DecodeBinaryRecord(plans[messageIndex], lookups[messageIndex], input,
                                                 slotCapacity);
    NotAmbiguous(plans[messageIndex], input, slotCapacity, status, slots);
  }

  lemma PlansCount(structures: seq<MessageExecution>, plans: seq<MessagePlan>,
                   lookups: seq<seq<seq<EnumEntry>>>)
    requires FrozenPlans(structures, plans, lookups)
    ensures |plans| == |structures| == |lookups|
  {
    hide ValidMessage, LookupsOf;
  }

  lemma NotAmbiguous(m: MessagePlan, frame: bytes, slotCapacity: nat, status: DecodeStatus,
                     slots: seq<LogicalValue>)
    requires Decodes(m, frame, slotCapacity, status, slots)
    ensures status != AmbiguousMessage
  {
    hide FieldRaw, FieldBytes, LengthHolds, ChecksumHolds, Decode;
  }

  /**
   * Whatever Encode returns OK for, Decode of the same pipeline returns OK for, as the same
   * message, with the values that were encoded and none of them unknown.
   */
  method EncodeThenDecode(p: Pipeline, structures: seq<MessageExecution>, plans: seq<MessagePlan>,
                          lookups: seq<seq<seq<EnumEntry>>>, index: nat, inputs: seq<FieldInput>,
                          output: array<byte>, slotCapacity: nat)
    returns (encoded: EncodeStatus, decoded: DecodeStatus, messageIndex: nat,
             slots: seq<LogicalValue>, tainted: bool, ghost values: Values)
    requires FrozenPipeline(p, structures) && FrozenPlans(structures, plans, lookups)
    requires NativeInputs(inputs) && index < |plans| && |plans[index].fields| <= slotCapacity
    modifies output
    ensures encoded == EncodeOk ==>
              && Given(plans[index], inputs, values) && AllAdmitted(plans[index], values)
              && decoded == DecodeStatus.Ok && messageIndex == index && !tainted
              && |slots| == |plans[index].fields|
              && forall k: nat | k < |slots| ::
                   SameLogical(slots[k], Expected(plans[index], values,
                                                  FrameSize(plans[index], values), k))
    ensures var m := plans[index];
            encoded == EncodeOk <==>
              && index in p.messageIndices && Acceptable(m, inputs)
              && FrameSize(m, values) <= output.Length
              && Matches(m.structure, output[..FrameSize(m, values)])
  {
    hide Matches, FrozenPipeline, FrozenPlans, ValidMessage, LookupsOf, Decodes, Acceptable, Given,
         AllAdmitted, Image, FrameSize, SameLogical, Expected, Tainted;
    FrozenPlan(structures, plans, lookups, index);
    PlansCount(structures, plans, lookups);
    var written, required;
    encoded, written, required, values :=
      EncodeCompleteRecord(p, structures, plans[index], index, inputs, output);
    decoded, messageIndex, slots, tainted :=
      DecodeCompleteRecord(p, structures, plans, lookups, output[..written], slotCapacity);
    if encoded == EncodeOk {
      var m, out := plans[index], output[..written];
      ImageSize(m, values, out);
      ImageDecodes(m, values, out, slotCapacity, decoded, slots);
      ImageNotTainted(m, values, out);
    }
  }

  lemma ImageSize(m: MessagePlan, values: Values, out: bytes)
    requires Image(m, values, out)
    ensures |out| == FrameSize(m, values)
  {
    hide FieldsPlaced, ContainersPlaced, MatchersPlaced, ChecksumPlaced, FrameSize;
  }
}
