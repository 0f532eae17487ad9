/**
 * Text records over a stream, end to end: a pipeline that the compiler accepts for ASCII_CRLF
 * framing delivers exactly the records that were sent.
 */
module AsciiStream {
  import opened Bytes
  import opened Kmp
  import opened FramingSpec
  import opened StreamFramer
  import opened FramerRuns
  import opened TextTemplates
  import TextCodec
  import TextRecords
  import opened TextPipeline
  import opened AsciiBoundary

  /** Every record of the message fits the profile and has its first CRLF at its end. */
  ghost predicate StreamSafe(message: TextMessage, maximum: nat) {
    message.decode.Some? ==>
      var action := message.decode.value;
      && action.maxRecordLength <= maximum
      && EndsWithCrlf(action.segments) && Resolved(action.segments, message.fields)
      && FirstCrlfEnds(action.segments, message.fields)
  }

  lemma StreamSafeMeans(message: TextMessage, maximum: nat)
    ensures message.decode == None ==> StreamSafe(message, maximum)
    ensures message.decode.Some? ==>
              var action := message.decode.value;
              (StreamSafe(message, maximum)
               <==> && action.maxRecordLength <= maximum && EndsWithCrlf(action.segments)
                    && Resolved(action.segments, message.fields)
                    && FirstCrlfEnds(action.segments, message.fields))
  {
    hide EndsWithCrlf, Resolved, FirstCrlfEnds;
  }

  predicate Decodes(message: TextMessage) {
    message.decode.Some?
  }

  /** The compiler's check of a text pipeline bound to an ASCII_CRLF profile. */
  method CheckAsciiPipeline(messages: seq<TextMessage>, maximumFrameLength: nat)
    returns (accepted: bool)
    requires forall m :: m in messages ==> ValidFields(m.fields)
    ensures accepted <==> (exists m :: m in messages && Decodes(m))
                          && forall m :: m in messages ==> StreamSafe(m, maximumFrameLength)
  {
    hide EndsWithCrlf, Resolved, FirstCrlfEnds, ValidFields;
    var asciiDecodeCandidates := 0;
    for k := 0 to |messages|
      invariant asciiDecodeCandidates > 0 <==> exists m :: m in messages[..k] && Decodes(m)
      invariant forall m :: m in messages[..k] ==> StreamSafe(m, maximumFrameLength)
    {
      var message := messages[k];
      assert messages[..k + 1] == messages[..k] + [message];
      assert message in messages && message in messages[..k + 1];
      if Decodes(message) {
        asciiDecodeCandidates := asciiDecodeCandidates + 1;
        var decode := message.decode.value;
        if decode.maxRecordLength > maximumFrameLength {
          assert !StreamSafe(message, maximumFrameLength);
          return false;
        }
        var proved := ProveAsciiCrLfBoundary(decode.segments, message.fields);
        if !proved {
          assert !StreamSafe(message, maximumFrameLength);
          return false;
        }
      }
    }
    assert messages[..|messages|] == messages;
    accepted := asciiDecodeCandidates != 0;
  }

  /** `record` is a record of one of the pipeline's Decode-capable messages. */
  ghost predicate RecordOf(messages: seq<TextMessage>, record: bytes) {
    exists m :: m in messages && m.decode.Some? && TextCodec.ValidTextAction(m.decode.value, m.fields)
                && record in Spelled(m.decode.value.segments, m.fields)
  }

  lemma RecordIsSafe(messages: seq<TextMessage>, maximum: nat, record: bytes)
    requires forall m :: m in messages ==> StreamSafe(m, maximum)
    requires RecordOf(messages, record)
    ensures 2 <= |record| <= maximum && Find(CRLF, record) == Some(|record| - 2)
  {
    hide Find, EndsWithCrlf, Resolved;
    var m :| m in messages && m.decode.Some?
             && TextCodec.ValidTextAction(m.decode.value, m.fields)
             && record in Spelled(m.decode.value.segments, m.fields);
    assert StreamSafe(m, maximum);
    SpelledLength(m.decode.value, m.fields, record);
  }

  lemma SpelledLength(action: TextCodec.TextAction, fields: seq<TextField>, record: bytes)
    requires TextCodec.ValidTextAction(action, fields)
    requires record in Spelled(action.segments, fields)
    ensures action.minRecordLength <= |record| <= action.maxRecordLength
  {
    hide Concat, AllAllowed;
    var segments := action.segments;
    var pieces :| FitsAll(segments, fields, pieces) && record == Concat(pieces);
    forall i: nat | i < |pieces|
      ensures TextCodec.Shapes(segments[i], fields, pieces[i])
    {
      assert Fits(segments[i], fields, pieces[i]);
    }
    TextCodec.ParseLength(segments, fields, pieces, |segments|);
    assert segments[..|segments|] == segments && pieces[..|pieces|] == pieces;
  }

  /** With an accepted pipeline the naive parser cuts a stream of records into those records. */
  lemma RecordsArrive(p: Profile, messages: seq<TextMessage>, records: seq<bytes>)
    requires ValidateStreamFramingLocal(p) && p.strategy == AsciiCrlf
    requires forall m :: m in messages ==> StreamSafe(m, p.maximum)
    requires forall r :: r in records ==> RecordOf(messages, r)
    ensures ParseStream(p, Concat(records)) == records
  {
    hide Find, ParseStream, RecordOf, StreamSafe, Concat;
    forall r | r in records
      ensures 2 <= |r| <= p.maximum && Find(CRLF, r) == Some(|r| - 2)
    {
      RecordIsSafe(messages, p.maximum, r);
    }
    RecordsParseBack(p, records);
    AllFit(p.maximum, records);
  }

  lemma {:induction false} AllFit(maximum: nat, records: seq<bytes>)
    requires forall r :: r in records ==> |r| <= maximum
    ensures Fitting(maximum, records) == records
  {
    if records != [] {
      assert records[0] in records;
      AllFit(maximum, records[1..]);
      assert records == [records[0]] + records[1..];
    }
  }

  /**
   * The records that were sent, through a workspace of any size and any limits, in any chunks,
   * past any interruptions, are the frames that arrive.
   */
  method TransmitRecords(ws: StreamFramingWorkspace, messages: seq<TextMessage>,
                         ghost records: seq<bytes>, chunks: seq<bytes>,
                         sinks: (nat, nat) -> FrameSink)
    returns (frames: seq<bytes>)
    requires ws.Valid() && !ws.inUse.taken && ws.Pending() == [] && ws.Held() == 0
    requires !ws.HasInternalWork() && ws.profile.strategy == AsciiCrlf
    requires forall m :: m in messages ==> StreamSafe(m, ws.profile.maximum)
    requires forall r :: r in records ==> RecordOf(messages, r)
    requires Concat(chunks) == Concat(records)
    modifies ws, ws.buffer, ws.inUse
    ensures ws.Valid() && frames == records
  {
    hide StreamSafe, RecordOf, ParseStream, Concat;
    RecordsArrive(ws.profile, messages, records);
    var work;
    frames, work := DriveStream(ws, chunks, sinks);
  }

  ghost function RecordsOf(sent: seq<TextPipeline.Sent>): (records: seq<bytes>)
    ensures |records| == |sent| && forall i | 0 <= i < |sent| :: records[i] == sent[i].record
  {
    seq(|sent|, i requires 0 <= i < |sent| => sent[i].record)
  }

  /** A record that is understood is one of those the CRLF proof speaks of. */
  lemma UnderstoodIsRecord(indices: seq<nat>, messages: seq<TextMessage>, s: TextPipeline.Sent)
    requires forall m | m in messages :: ValidTextMessage(m)
    requires Written(indices, messages, s) && Understood(messages, s)
    ensures RecordOf(messages, s.record)
  {
    hide TextCodec.ValidTextAction, TextRecords.Complete, TextRecords.Unmistakable, Spelled,
         TextRecords.Restorable, TextRecords.Record, TextRecords.Proper;
    var m := messages[s.index];
    assert m in messages;
    TextRecords.CompleteRestores(m.encode.value.segments, m.fields, s.inputs);
    RestorableIsSpelled(m.decode.value, m.fields, s.inputs, s.record);
  }

  lemma RestorableIsSpelled(action: TextCodec.TextAction, fields: seq<TextField>,
                            inputs: seq<TextRecords.TextInput>, record: bytes)
    requires TextCodec.ValidTextAction(action, fields) && TextRecords.Proper(fields, inputs)
    requires TextRecords.Restorable(action.segments, fields, inputs, record)
    ensures record in Spelled(action.segments, fields)
  {
    hide TextRecords.Restorable, TextRecords.Proper, TextCodec.Permitted, Concat, Fits;
    TextRecords.RestorableFits(action.segments, fields, inputs, record);
    assert FitsAll(action.segments, fields, TextRecords.Pieces(action.segments, inputs));
  }

  /**
   * Values that were encoded, as a stream through any workspace, chunks and interruptions: the
   * records are cut out in order, and the values of each arrive in their slots exactly if the
   * message's Decode template understands the record and no other message reads it.
   */
  method TransmitMessages(ws: StreamFramingWorkspace, indices: seq<nat>, messages: seq<TextMessage>,
                          ghost sent: seq<TextPipeline.Sent>, chunks: seq<bytes>,
                          sinks: (nat, nat) -> FrameSink, slotCapacity: nat)
    returns (received: seq<TextPipeline.Received>)
    requires ws.Valid() && !ws.inUse.taken && ws.Pending() == [] && ws.Held() == 0
    requires !ws.HasInternalWork() && ws.profile.strategy == AsciiCrlf
    requires forall i | i in indices :: i < |messages|
    requires forall m | m in messages ::
               ValidTextMessage(m) && StreamSafe(m, ws.profile.maximum)
               && (m.decode.Some? ==>
                     TextRecords.FieldCount(m.decode.value.segments) <= slotCapacity)
    requires forall s | s in sent :: Written(indices, messages, s) && RecordOf(messages, s.record)
    requires Concat(chunks) == Concat(RecordsOf(sent))
    modifies ws, ws.buffer, ws.inUse
    ensures ws.Valid() && |received| == |sent|
    ensures forall i | 0 <= i < |sent| :: Arrived(indices, messages, sent[i], received[i])
  {
    hide StreamSafe, RecordOf, Concat, Written, Arrived, ValidTextMessage;
    forall r | r in RecordsOf(sent)
      ensures RecordOf(messages, r)
    {
      var i :| 0 <= i < |sent| && RecordsOf(sent)[i] == r;
      assert sent[i] in sent;
    }
    var frames := TransmitRecords(ws, messages, RecordsOf(sent), chunks, sinks);
    received := [];
    for n := 0 to |frames|
      invariant ws.Valid() && |received| == n
      invariant forall i | 0 <= i < n :: Arrived(indices, messages, sent[i], received[i])
    {
      var r := ReceiveRecord(indices, messages, sent[n], frames[n], slotCapacity);
      received := received + [r];
    }
  }

  /** What Encode writes for a template is a record of the template. */
  lemma EncodedIsRecord(action: TextCodec.TextAction, fields: seq<TextField>,
                        inputs: seq<TextRecords.TextInput>)
    requires TextCodec.ValidTextAction(action, fields)
    requires TextRecords.Complete(action.segments, fields, inputs)
    ensures TextRecords.Record(action.segments, inputs) in Spelled(action.segments, fields)
  {
    hide TextRecords.Complete, Concat, Fits;
    var segments := action.segments;
    var pieces := TextRecords.Pieces(segments, inputs);
    forall i: nat | i < |segments|
      ensures Fits(segments[i], fields, pieces[i])
    {
      assert TextCodec.Bounded(segments, fields, i);
      TextRecords.PieceFits(segments, fields, inputs, i);
    }
    assert FitsAll(segments, fields, pieces);
  }
}
