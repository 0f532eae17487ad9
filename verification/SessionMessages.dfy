/**
 * A session whose codec is the codec of this model: what was encoded on one side is delivered on
 * the other, message by message.
 */
module SessionMessages {
  import opened Bytes
  import opened FramingSpec
  import FramerRuns
  import Session
  import SessionRuns
  import opened PipelineMatch
  import opened Matchers
  import opened BinaryPlan
  import opened BinaryDecode
  import opened BinaryCodec
  import BinaryImage
  import BinaryStream
  import TextCodec
  import TextRecords
  import TextPipeline
  import AsciiStream

  /** With every frame accepted, nothing is lost between framer and sink. */
  lemma {:induction false} AllDecoded(decode: bytes -> Session.CodecStatus, frames: seq<bytes>)
    requires forall f | f in frames :: decode(f) == Session.CodecOk
    ensures Session.Decoded(decode, frames) == frames
  {
    if frames != [] {
      var n := |frames| - 1;
      AllDecoded(decode, frames[..n]);
      assert frames[n] in frames && frames == frames[..n] + [frames[n]];
    }
  }

  // ---------------------------------------------------------------- Binary pipelines

  /** Decode of a frame of this message succeeds. */
  ghost predicate Accepts(m: MessagePlan, frame: bytes, slotCapacity: nat) {
    && |m.fields| <= slotCapacity && LengthHolds(m, frame) && ChecksumHolds(m, frame)
    && forall k: nat | k < |m.fields| :: FieldValue(m, frame, k).Read?
  }

  /** Decode in the pipeline succeeds. */
  ghost predicate BinaryAccepts(p: Pipeline, structures: seq<MessageExecution>,
                                plans: seq<MessagePlan>, slotCapacity: nat, frame: bytes)
  {
    exists i :: i in p.messageIndices && i < |plans| && i < |structures|
                && Matches(structures[i], frame) && Accepts(plans[i], frame, slotCapacity)
  }

  lemma DecodesVerdict(m: MessagePlan, frame: bytes, slotCapacity: nat, status: DecodeStatus,
                       slots: seq<BinaryImage.LogicalValue>)
    requires Decodes(m, frame, slotCapacity, status, slots)
    ensures status == DecodeStatus.Ok <==> Accepts(m, frame, slotCapacity)
  {
    hide FieldRaw, FieldBytes, LengthHolds, ChecksumHolds, EntryOf;
  }

  /** The verdict that a session takes from the Binary codec. */
  method BinaryVerdict(p: Pipeline, structures: seq<MessageExecution>, plans: seq<MessagePlan>,
                       lookups: seq<seq<seq<EnumEntry>>>, slotCapacity: nat, frame: bytes)
    returns (verdict: Session.CodecStatus)
    requires FrozenPipeline(p, structures) && FrozenPlans(structures, plans, lookups)
    ensures verdict == Session.CodecOk <==> BinaryAccepts(p, structures, plans, slotCapacity, frame)
  {
    hide FrozenPipeline, FrozenPlans, Matches, Decodes, Accepts, Select, Grouped, Reaching, Tainted;
    FrozenIsUnambiguous(p, structures);
    PlansCount(structures, plans, lookups);
    var status, messageIndex, slots, tainted :=
      DecodeCompleteRecord(p, structures, plans, lookups, frame, slotCapacity);
    forall i | i in p.messageIndices && Matches(structures[i], frame)
      ensures status == DecodeStatus.Ok <==> Accepts(plans[i], frame, slotCapacity)
    {
      DecodesVerdict(plans[i], frame, slotCapacity, status, slots);
    }
    verdict := if status == DecodeStatus.Ok then Session.CodecOk else Session.CodecError(0);
  }

  lemma EncodedIsAccepted(p: Pipeline, structures: seq<MessageExecution>, plans: seq<MessagePlan>,
                          lookups: seq<seq<seq<EnumEntry>>>, slotCapacity: nat, s: BinaryStream.Sent)
    requires FrozenPlans(structures, plans, lookups) && BinaryStream.Encoded(p, plans, s)
    requires forall plan | plan in plans :: |plan.fields| <= slotCapacity
    ensures BinaryAccepts(p, structures, plans, slotCapacity, s.frame)
  {
    hide ValidMessage, LookupsOf, BinaryImage.AllAdmitted, BinaryImage.Image, Matches, FieldValue,
         LengthHolds, ChecksumHolds;
    var m := plans[s.index];
    FrozenPlan(structures, plans, lookups, s.index);
    LengthReadsBack(m, s.values, s.frame);
    ChecksumReadsBack(m, s.values, s.frame);
    forall k: nat | k < |m.fields|
      ensures FieldValue(m, s.frame, k).Read?
    {
      FieldReadsBack(m, s.values, s.frame, k);
    }
    assert Accepts(m, s.frame, slotCapacity);
  }

  /**
   * Binary messages through a session: encoded on one side and pushed in any chunks, through any
   * framer limits and past callbacks that stop, each is delivered once, in order, and decodes to
   * the values it was encoded from.
   */
  method ReceiveBinary(s: Session.Session, h: Session.Handle, p: Pipeline,
                       ghost shapes: seq<MessageShape>, structures: seq<MessageExecution>,
                       plans: seq<MessagePlan>, lookups: seq<seq<seq<EnumEntry>>>,
                       ghost sent: seq<BinaryStream.Sent>, chunks: seq<bytes>,
                       hosts: (nat, nat) -> Session.Callbacks, slotCapacity: nat)
    returns (received: seq<BinaryStream.Received>, outputs: nat)
    requires SessionRuns.Fresh(s, h) && forall i, call :: SessionRuns.Returns(hosts(i, call))
    requires var profile := s.channels[h.channel].framer.profile;
             && ValidateStreamFramingLocal(profile) && profile.strategy != AsciiCrlf
             && BinaryStream.StreamPipeline(profile, p, shapes, structures, plans, lookups)
    requires s.channels[h.channel].binding < |s.bindings|
    requires forall frame: bytes ::
               s.Decoder(s.channels[h.channel])(frame) == Session.CodecOk
               <==> BinaryAccepts(p, structures, plans, slotCapacity, frame)
    requires forall plan | plan in plans :: |plan.fields| <= slotCapacity
    requires forall x | x in sent :: BinaryStream.Encoded(p, plans, x)
    requires Concat(chunks) == Concat(BinaryStream.Frames(sent))
    modifies s, s.repr
    ensures s.Valid() && !s.channels[h.channel].faulted
    ensures outputs == |sent| == |received|
    ensures forall i | 0 <= i < |sent| :: BinaryStream.Arrived(plans, sent[i], received[i])
  {
    hide BinaryStream.StreamPipeline, BinaryStream.Encoded, BinaryStream.Arrived, BinaryAccepts,
         ParseStream, Concat, Decide, SessionRuns.Returns, Session.Decoded, FrozenPlans;
    ghost var profile := s.channels[h.channel].framer.profile;
    ghost var decode := s.Decoder(s.channels[h.channel]);
    BinaryStream.IsFrozen(profile, p, shapes, structures, plans, lookups);
    forall f | f in BinaryStream.Frames(sent)
      ensures FramerRuns.ValidFrame(profile, f) && decode(f) == Session.CodecOk
    {
      var i :| 0 <= i < |sent| && BinaryStream.Frames(sent)[i] == f;
      BinaryStream.EncodedIsFrame(profile, p, shapes, structures, plans, lookups, sent[i]);
      EncodedIsAccepted(p, structures, plans, lookups, slotCapacity, sent[i]);
    }
    FramerRuns.FramesParseBack(profile, BinaryStream.Frames(sent));
    AllDecoded(decode, BinaryStream.Frames(sent));
    var frames;
    frames, outputs := SessionRuns.ReceiveStream(s, h, chunks, hosts);
    received := BinaryStream.DecodeFrames(profile, p, shapes, structures, plans, lookups, sent,
                                          frames, slotCapacity);
  }

  // ---------------------------------------------------------------- text pipelines

  /** Decode in the pipeline succeeds: one message reads the record, and its fields are in order. */
  ghost predicate TextAccepts(indices: seq<nat>, messages: seq<TextPipeline.TextMessage>,
                              slotCapacity: nat, frame: bytes)
  {
    && !TextPipeline.Ambiguous(indices, messages, frame)
    && exists i :: i in indices && i < |messages| && TextReads(messages[i], slotCapacity, frame)
  }

  ghost predicate TextReads(m: TextPipeline.TextMessage, slotCapacity: nat, frame: bytes) {
    m.decode.Some? &&
    exists q ::
      && TextCodec.Parse(m.decode.value.segments, m.fields, frame, q)
      && |TextCodec.Visits(m.decode.value.segments, q)| <= slotCapacity
      && TextCodec.Permitted(m.decode.value.segments, m.fields, q)
  }

  /** The verdict that a session takes from the text codec. */
  method TextVerdict(indices: seq<nat>, messages: seq<TextPipeline.TextMessage>, slotCapacity: nat,
                     frame: bytes)
    returns (verdict: Session.CodecStatus)
    requires forall i | i in indices :: i < |messages|
    requires forall m | m in messages :: TextPipeline.ValidTextMessage(m)
    ensures verdict == Session.CodecOk <==> TextAccepts(indices, messages, slotCapacity, frame)
  {
    hide TextPipeline.Ambiguous, TextCodec.ValidTextAction, TextCodec.Parse, TextCodec.Permitted,
         TextCodec.Visits, TextReads, TextRecords.Decodes;
    var status, messageIndex, slots :=
      TextPipeline.DecodeTextPipeline(indices, messages, frame, slotCapacity);
    if !TextPipeline.Ambiguous(indices, messages, frame) {
      forall i | i in indices && TextReads(messages[i], slotCapacity, frame)
        ensures status == TextRecords.CodecStatus.Ok
      {
        TextReadsRead(messages[i], slotCapacity, frame);
        assert TextPipeline.DecodableOf(messages)(i) && TextPipeline.ReadBy(messages, frame)(i);
        TextPipeline.OneReader(indices, messages, frame, i, messageIndex);
        TextDecoded(messages[i], slotCapacity, frame, status, slots);
      }
      if status == TextRecords.CodecStatus.Ok {
        TextDecoded(messages[messageIndex], slotCapacity, frame, status, slots);
      }
    }
    verdict := if status == TextRecords.CodecStatus.Ok then Session.CodecOk else Session.CodecError(0);
  }

  lemma TextReadsRead(m: TextPipeline.TextMessage, slotCapacity: nat, frame: bytes)
    requires TextReads(m, slotCapacity, frame)
    ensures TextPipeline.Reads(m, frame)
  {
    hide TextCodec.Parse, TextCodec.Permitted, TextCodec.Visits;
  }

  lemma TextDecoded(m: TextPipeline.TextMessage, slotCapacity: nat, frame: bytes,
                    status: TextRecords.CodecStatus, slots: seq<TextCodec.Visit>)
    requires TextPipeline.Reads(m, frame)
    requires TextRecords.Decodes(m.decode.value, m.fields, frame, slotCapacity, status, slots)
    ensures status == TextRecords.CodecStatus.Ok ==> TextReads(m, slotCapacity, frame)
    ensures TextReads(m, slotCapacity, frame) ==> status == TextRecords.CodecStatus.Ok
  {
    hide TextCodec.Permitted, TextCodec.Visits, TextCodec.Clear, TextCodec.Shapes, Concat;
  }

  lemma UnderstoodIsAccepted(indices: seq<nat>, messages: seq<TextPipeline.TextMessage>,
                             slotCapacity: nat, s: TextPipeline.Sent)
    requires forall m | m in messages :: TextPipeline.ValidTextMessage(m)
    requires forall m | m in messages && m.decode.Some? ::
               TextRecords.FieldCount(m.decode.value.segments) <= slotCapacity
    requires TextPipeline.Written(indices, messages, s) && TextPipeline.Understood(messages, s)
    requires !TextPipeline.Ambiguous(indices, messages, s.record)
    ensures TextAccepts(indices, messages, slotCapacity, s.record)
  {
    hide TextCodec.ValidTextAction, TextRecords.Complete, TextRecords.Unmistakable,
         TextRecords.Restorable, TextRecords.Record, TextRecords.Proper, TextCodec.Permitted,
         TextCodec.Visits, TextCodec.Parse, TextPipeline.Ambiguous;
    var m := messages[s.index];
    assert m in messages;
    TextRecords.CompleteRestores(m.encode.value.segments, m.fields, s.inputs);
    UnderstoodReading(m, slotCapacity, s);
  }

  lemma UnderstoodReading(m: TextPipeline.TextMessage, slotCapacity: nat, s: TextPipeline.Sent)
    requires m.decode.Some? && TextPipeline.ValidTextMessage(m)
    requires TextRecords.FieldCount(m.decode.value.segments) <= slotCapacity
    requires TextRecords.Proper(m.fields, s.inputs)
    requires TextRecords.Restorable(m.decode.value.segments, m.fields, s.inputs, s.record)
    ensures TextReads(m, slotCapacity, s.record)
  {
    hide TextRecords.Restorable, TextRecords.Proper, TextCodec.Permitted, TextCodec.Visits,
         TextCodec.Parse;
    var segments := m.decode.value.segments;
    TextRecords.RestorableFits(segments, m.fields, s.inputs, s.record);
    TextRecords.VisitsCount(segments, TextRecords.Pieces(segments, s.inputs));
  }

  /**
   * Text messages through a session: records that their messages understand and no others read
   * are each delivered once, in order, whatever the chunks.
   */
  method ReceiveText(s: Session.Session, h: Session.Handle, indices: seq<nat>,
                     messages: seq<TextPipeline.TextMessage>, ghost sent: seq<TextPipeline.Sent>,
                     chunks: seq<bytes>, hosts: (nat, nat) -> Session.Callbacks, slotCapacity: nat)
    returns (received: seq<TextPipeline.Received>, outputs: nat)
    requires SessionRuns.Fresh(s, h) && forall i, call :: SessionRuns.Returns(hosts(i, call))
    requires var profile := s.channels[h.channel].framer.profile;
             && ValidateStreamFramingLocal(profile) && profile.strategy == AsciiCrlf
             && forall m | m in messages :: AsciiStream.StreamSafe(m, profile.maximum)
    requires s.channels[h.channel].binding < |s.bindings|
    requires forall i | i in indices :: i < |messages|
    requires forall m | m in messages ::
               TextPipeline.ValidTextMessage(m)
               && (m.decode.Some? ==>
                     TextRecords.FieldCount(m.decode.value.segments) <= slotCapacity)
    requires forall frame: bytes ::
               s.Decoder(s.channels[h.channel])(frame) == Session.CodecOk
               <==> TextAccepts(indices, messages, slotCapacity, frame)
    requires forall x | x in sent ::
               TextPipeline.Written(indices, messages, x) && TextPipeline.Understood(messages, x)
               && !TextPipeline.Ambiguous(indices, messages, x.record)
    requires Concat(chunks) == Concat(AsciiStream.RecordsOf(sent))
    modifies s, s.repr
    ensures s.Valid() && !s.channels[h.channel].faulted
    ensures outputs == |sent| == |received|
    ensures forall i | 0 <= i < |sent| :: TextPipeline.Restores(sent[i], received[i])
  {
    hide AsciiStream.StreamSafe, AsciiStream.RecordOf, TextPipeline.Written, TextPipeline.Understood,
         TextPipeline.Ambiguous, TextPipeline.ValidTextMessage, TextPipeline.Restores, TextAccepts,
         ParseStream, Concat, Decide, SessionRuns.Returns, Session.Decoded;
    ghost var profile := s.channels[h.channel].framer.profile;
    ghost var decode := s.Decoder(s.channels[h.channel]);
    ghost var records := AsciiStream.RecordsOf(sent);
    forall r | r in records
      ensures AsciiStream.RecordOf(messages, r) && decode(r) == Session.CodecOk
    {
      var i :| 0 <= i < |sent| && records[i] == r;
      AsciiStream.UnderstoodIsRecord(indices, messages, sent[i]);
      UnderstoodIsAccepted(indices, messages, slotCapacity, sent[i]);
    }
    AsciiStream.RecordsArrive(profile, messages, records);
    AllDecoded(decode, records);
    var frames;
    frames, outputs := SessionRuns.ReceiveStream(s, h, chunks, hosts);
    received := DecodeRecords(indices, messages, sent, frames, slotCapacity);
  }

  method DecodeRecords(indices: seq<nat>, messages: seq<TextPipeline.TextMessage>,
                       ghost sent: seq<TextPipeline.Sent>, frames: seq<bytes>, slotCapacity: nat)
    returns (received: seq<TextPipeline.Received>)
    requires forall i | i in indices :: i < |messages|
    requires forall m | m in messages ::
               TextPipeline.ValidTextMessage(m)
               && (m.decode.Some? ==>
                     TextRecords.FieldCount(m.decode.value.segments) <= slotCapacity)
    requires forall x | x in sent ::
               TextPipeline.Written(indices, messages, x) && TextPipeline.Understood(messages, x)
               && !TextPipeline.Ambiguous(indices, messages, x.record)
    requires frames == AsciiStream.RecordsOf(sent)
    ensures |received| == |sent|
    ensures forall i | 0 <= i < |sent| :: TextPipeline.Restores(sent[i], received[i])
  {
    hide TextPipeline.Written, TextPipeline.Understood, TextPipeline.Ambiguous,
         TextPipeline.ValidTextMessage, TextPipeline.Restores;
    received := [];
    for n := 0 to |frames|
      invariant |received| == n
      invariant forall i | 0 <= i < n :: TextPipeline.Restores(sent[i], received[i])
    {
      assert sent[n] in sent;
      var r := TextPipeline.ReceiveRecord(indices, messages, sent[n], frames[n], slotCapacity);
      received := received + [r];
    }
  }
}
