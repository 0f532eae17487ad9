/**
 * Several text messages in one pipeline. The compiler does not compare them with each other, so
 * here, unlike among Binary messages, a record can be ambiguous; Decode says so exactly then.
 */
module TextPipeline {
  import opened Bytes
  import opened TextTemplates
  import opened TextCodec
  import opened TextRecords
  import opened Matchers
  import PipelineMatch

  /** A message has a template for each direction, or for one of them only. */
  datatype TextMessage = TextMessage(
    fields: seq<TextField>,
    decode: Option<TextAction>,
    encode: Option<TextAction>)

  ghost predicate ValidTextMessage(m: TextMessage) {
    && (m.decode.Some? ==> ValidTextAction(m.decode.value, m.fields))
    && (m.encode.Some? ==> ValidTextAction(m.encode.value, m.fields))
  }

  predicate Decodable(m: TextMessage) {
    m.decode.Some?
  }

  /** The input can be read as the message's template. */
  ghost predicate Reads(m: TextMessage, input: bytes) {
    m.decode.Some? && exists q :: Parse(m.decode.value.segments, m.fields, input, q)
  }

  function DecodableOf(messages: seq<TextMessage>): nat -> bool {
    (i: nat) => i < |messages| && Decodable(messages[i])
  }

  ghost function ReadBy(messages: seq<TextMessage>, input: bytes): nat -> bool {
    (i: nat) => i < |messages| && Reads(messages[i], input)
  }

  /** The text messages of a pipeline that can be decoded, in pipeline order. */
  method TextIndices(indices: seq<nat>, messages: seq<TextMessage>) returns (text: seq<nat>)
    requires forall i | i in indices :: i < |messages|
    ensures text == PipelineMatch.Select(indices, DecodableOf(messages))
  {
    text := [];
    assert indices[..0] == [];
    for n := 0 to |indices|
      invariant text == PipelineMatch.Select(indices[..n], DecodableOf(messages))
    {
      assert indices[n] in indices;
      PipelineMatch.SelectMore(indices, n, DecodableOf(messages));
      if Decodable(messages[indices[n]]) {
        text := text + [indices[n]];
      }
    }
    assert indices[..|indices|] == indices;
  }

  method TextMessageMatches(m: TextMessage, input: bytes) returns (matches: bool)
    requires ValidTextMessage(m)
    ensures matches <==> Reads(m, input)
  {
    hide ValidTextAction, Parse, Permitted, Visits;
    if m.decode == None {
      return false;
    }
    var status, visits, pieces := WalkTextAction(m.decode.value, m.fields, input, false);
    matches := status == Match;
  }

  /** How many of the pipeline's messages read the input, and the first of them. */
  method FindTextMatch(text: seq<nat>, messages: seq<TextMessage>, input: bytes)
    returns (matchCount: nat, first: nat)
    requires forall i | i in text :: i < |messages|
    requires forall m | m in messages :: ValidTextMessage(m)
    ensures matchCount == |PipelineMatch.Select(text, ReadBy(messages, input))|
    ensures matchCount > 0 ==> first in text && first < |messages| && Reads(messages[first], input)
  {
    hide ValidTextMessage, Reads;
    matchCount, first := 0, 0;
    var indices := text;
    assert indices[..0] == [];
    for n := 0 to |indices|
      invariant matchCount == |PipelineMatch.Select(indices[..n], ReadBy(messages, input))|
      invariant matchCount > 0 ==>
                  first in text && first < |messages| && Reads(messages[first], input)
    {
      assert indices[n] in indices && messages[indices[n]] in messages;
      PipelineMatch.SelectMore(indices, n, ReadBy(messages, input));
      var matches := TextMessageMatches(messages[indices[n]], input);
      if matches {
        matchCount := matchCount + 1;
        if matchCount == 1 {
          first := indices[n];
        }
      }
    }
    assert indices[..|indices|] == indices;
  }

  /** Two places of the pipeline hold messages that read the input. */
  ghost predicate Ambiguous(indices: seq<nat>, messages: seq<TextMessage>, input: bytes) {
    exists i, j :: 0 <= i < j < |indices| && ReadBy(messages, input)(indices[i])
                   && ReadBy(messages, input)(indices[j])
  }

  /** A pipeline's messages that decode, that read the input, and that make it ambiguous. */
  lemma ReadersMean(indices: seq<nat>, messages: seq<TextMessage>, input: bytes, i: nat)
    ensures DecodableOf(messages)(i) <==> i < |messages| && messages[i].decode.Some?
    ensures ReadBy(messages, input)(i)
            <==> i < |messages| && messages[i].decode.Some?
                 && exists q :: Parse(messages[i].decode.value.segments, messages[i].fields, input,
                                      q)
    ensures Ambiguous(indices, messages, input)
            <==> exists x, y :: 0 <= x < y < |indices| && ReadBy(messages, input)(indices[x])
                                && ReadBy(messages, input)(indices[y])
  {
    hide Parse;
  }

  /** What the compiler compares when two messages meet in a pipeline. */
  datatype Message = Binary(shape: MessageShape) | Text(text: TextMessage)

  /** Some frame satisfies the matchers of both; a text message has none. */
  ghost predicate CanIntersect(left: Message, right: Message) {
    left.Binary? && right.Binary? && PipelineMatch.Intersect(left.shape, right.shape)
  }

  method MessagesCanIntersect(left: Message, right: Message) returns (can: bool)
    requires left.Binary? ==> LegalLengths(left.shape) && LegalMatchers(left.shape)
    requires right.Binary? ==> LegalLengths(right.shape) && LegalMatchers(right.shape)
    ensures can <==> CanIntersect(left, right)
  {
    hide LegalLengths, LegalMatchers, Satisfies;
    if left.Text? || right.Text? {
      return false;
    }
    can := FixedMatchersCanIntersect(left.shape, right.shape);
  }

  /**
   * The compiler's comparison passes over text messages, so nothing keeps a pipeline from holding
   * two that read the same record; the plainest case is a message and its twin.
   */
  lemma TwinsAreAmbiguous(m: TextMessage, input: bytes)
    requires Reads(m, input)
    ensures !CanIntersect(Text(m), Text(m)) && Ambiguous([0, 1], [m, m], input)
  {
    hide Parse;
    var f := ReadBy([m, m], input);
    assert f([0, 1][0]) && f([0, 1][1]);
  }

  lemma {:induction false} ManySelected(indices: seq<nat>, f: nat -> bool, i: nat, j: nat)
    requires i < j < |indices| && f(indices[i]) && f(indices[j])
    ensures |PipelineMatch.Select(indices, f)| >= 2
  {
    var n := |indices| - 1;
    if j < n {
      ManySelected(indices[..n], f, i, j);
    } else {
      assert indices[..n][i] == indices[i];
      PipelineMatch.SelectedFrom(indices[..n], f, indices[i]);
    }
  }

  /** Looking only among the decodable messages counts all that read the input. */
  lemma CountsAll(indices: seq<nat>, messages: seq<TextMessage>, input: bytes)
    ensures var f := ReadBy(messages, input);
            var text := PipelineMatch.Select(indices, DecodableOf(messages));
            |PipelineMatch.Select(text, f)| == |PipelineMatch.Select(indices, f)|
  {
    var f, g := ReadBy(messages, input), DecodableOf(messages);
    var h := (i: nat) => false;
    PipelineMatch.SelectSplits(indices, f, g, h);
    NoneSelected(indices, h);
  }

  lemma {:induction false} NoneSelected(indices: seq<nat>, f: nat -> bool)
    requires forall i | i in indices :: !f(i)
    ensures PipelineMatch.Select(indices, f) == []
  {
    if indices != [] {
      NoneSelected(indices[..|indices| - 1], f);
    }
  }

  lemma CountMeans(indices: seq<nat>, messages: seq<TextMessage>, input: bytes)
    ensures var count := |PipelineMatch.Select(indices, ReadBy(messages, input))|;
            && (count == 0 <==> forall i | i in indices :: !ReadBy(messages, input)(i))
            && (count >= 2 <==> Ambiguous(indices, messages, input))
  {
    hide Reads;
    var f := ReadBy(messages, input);
    if forall i | i in indices :: !f(i) {
      NoneSelected(indices, f);
    } else {
      var i :| i in indices && f(i);
      PipelineMatch.SelectedFrom(indices, f, i);
    }
    if Ambiguous(indices, messages, input) {
      var i, j :| 0 <= i < j < |indices| && f(indices[i]) && f(indices[j]);
      ManySelected(indices, f, i, j);
    } else {
      PipelineMatch.AtMostOneSelected(indices, f);
    }
  }

  /** Decode of a text pipeline: the one message that reads the input, and its slices. */
  method DecodeTextPipeline(indices: seq<nat>, messages: seq<TextMessage>, input: bytes,
                            slotCapacity: nat)
    returns (status: CodecStatus, messageIndex: nat, slots: seq<Visit>)
    requires forall i | i in indices :: i < |messages|
    requires forall m | m in messages :: ValidTextMessage(m)
    ensures status == OperationNotSupported
            <==> forall i | i in indices :: !DecodableOf(messages)(i)
    ensures status == UnknownMessage
            <==> && (exists i :: i in indices && DecodableOf(messages)(i))
                 && forall i | i in indices :: !ReadBy(messages, input)(i)
    ensures status == AmbiguousMessage <==> Ambiguous(indices, messages, input)
    ensures status !in {OperationNotSupported, UnknownMessage, AmbiguousMessage} ==>
              && messageIndex in indices && Reads(messages[messageIndex], input)
              && Decodes(messages[messageIndex].decode.value, messages[messageIndex].fields, input,
                         slotCapacity, status, slots)
  {
    hide ValidTextAction, Parse, Decodes, Ambiguous;
    messageIndex, slots := 0, [];
    var text := TextIndices(indices, messages);
    forall i: nat
      ensures i in text <==> i in indices && DecodableOf(messages)(i)
    {
      PipelineMatch.SelectedFrom(indices, DecodableOf(messages), i);
    }
    CountMeans(indices, messages, input);
    CountsAll(indices, messages, input);
    if text == [] {
      return OperationNotSupported, messageIndex, slots;
    }
    assert text[0] in text;
    var matchCount, first := FindTextMatch(text, messages, input);
    if matchCount == 0 {
      return UnknownMessage, messageIndex, slots;
    }
    if matchCount != 1 {
      return AmbiguousMessage, messageIndex, slots;
    }
    messageIndex := first;
    var m := messages[messageIndex];
    assert m in messages && ValidTextMessage(m);
    status, slots := DecodeMatched(m.decode.value, m.fields, input, slotCapacity);
  }

  // ---------------------------------------------------------------- sent and received

  /** A record, the message it is of, and the values it was encoded from. */
  datatype Sent = Sent(index: nat, inputs: seq<TextInput>, record: bytes)

  /** The record is the one Encode writes for values that its message's template accepts. */
  ghost predicate Written(indices: seq<nat>, messages: seq<TextMessage>, s: Sent) {
    && s.index in indices && s.index < |messages| && messages[s.index].encode.Some?
    && var segments, fields := messages[s.index].encode.value.segments, messages[s.index].fields;
       && Complete(segments, fields, s.inputs) && Unmistakable(segments, fields, s.inputs)
       && s.record == Record(segments, s.inputs)
  }

  /** The message's Decode template spells the record of these values too. */
  predicate Understood(messages: seq<TextMessage>, s: Sent) {
    s.index < |messages| && messages[s.index].decode.Some?
    && Restorable(messages[s.index].decode.value.segments, messages[s.index].fields, s.inputs,
                  s.record)
  }

  datatype Received = Received(status: CodecStatus, messageIndex: nat, slots: seq<Visit>)

  /** The record was decoded as its message, into the values it was encoded from. */
  predicate Restores(s: Sent, r: Received) {
    && r.status == CodecStatus.Ok && r.messageIndex == s.index
    && Restored(s.record, r.slots, s.inputs)
  }

  /**
   * Of a written record the values arrive exactly if it is understood and no other message reads
   * it; in slots of their fields, as far as the Decode template has these fields.
   */
  ghost predicate Arrived(indices: seq<nat>, messages: seq<TextMessage>, s: Sent, r: Received) {
    && (r.status == AmbiguousMessage <==> Ambiguous(indices, messages, s.record))
    && (Restores(s, r) <==> Understood(messages, s) && !Ambiguous(indices, messages, s.record))
    && (Restores(s, r) ==>
          && SlicesAgree(s.record, r.slots, s.inputs)
          && forall i: nat | i < |s.inputs| && s.index < |messages|
                             && Decoded(messages[s.index], s.inputs[i].fieldIndex) ::
               Slotted(s.record, r.slots, s.inputs[i]))
  }

  predicate Decoded(m: TextMessage, field: nat) {
    m.decode.Some? && Encoded(m.decode.value.segments, field)
  }

  /** A written record arrives as far as it can. */
  method ReceiveRecord(indices: seq<nat>, messages: seq<TextMessage>, ghost s: Sent, input: bytes,
                       slotCapacity: nat)
    returns (r: Received)
    requires forall i | i in indices :: i < |messages|
    requires forall m | m in messages :: ValidTextMessage(m)
    requires forall m | m in messages && m.decode.Some? ::
               FieldCount(m.decode.value.segments) <= slotCapacity
    requires Written(indices, messages, s) && input == s.record
    ensures Arrived(indices, messages, s, r)
  {
    hide ValidTextAction, Parse, Decodes, Ambiguous, Complete, Unmistakable, SlicesAgree, Slotted,
         Restored, Restorable, Record, Proper, Encoded;
    var status, messageIndex, slots := DecodeTextPipeline(indices, messages, input, slotCapacity);
    r := Received(status, messageIndex, slots);
    var m := messages[s.index];
    assert m in messages && ValidTextMessage(m);
    CompleteRestores(m.encode.value.segments, m.fields, s.inputs);
    if Understood(messages, s) {
      assert DecodableOf(messages)(s.index);
      UnderstoodReads(m, s);
      assert ReadBy(messages, input)(s.index);
      if status != AmbiguousMessage {
        OneReader(indices, messages, input, s.index, messageIndex);
        RestorableDecodes(m.decode.value, m.fields, s.inputs, input, slotCapacity, status, slots);
      }
    } else if Restores(s, r) {
      RestoredExactly(m.decode.value, m.fields, s.inputs, input, slotCapacity, status, slots);
    }
  }

  lemma UnderstoodReads(m: TextMessage, s: Sent)
    requires ValidTextMessage(m) && m.decode.Some? && Proper(m.fields, s.inputs)
    requires Restorable(m.decode.value.segments, m.fields, s.inputs, s.record)
    ensures Reads(m, s.record)
  {
    hide Restorable, Proper, Permitted, FitsAll, Parse, ShortestRecord, LongestRecord;
    RestorableFits(m.decode.value.segments, m.fields, s.inputs, s.record);
  }

  lemma OneReader(indices: seq<nat>, messages: seq<TextMessage>, input: bytes, i: nat, j: nat)
    requires !Ambiguous(indices, messages, input) && i in indices && j in indices
    requires ReadBy(messages, input)(i) && ReadBy(messages, input)(j)
    ensures i == j
  {
    hide Reads;
    var x :| 0 <= x < |indices| && indices[x] == i;
    var y :| 0 <= y < |indices| && indices[y] == j;
    if x < y {
      assert ReadBy(messages, input)(indices[x]) && ReadBy(messages, input)(indices[y]);
    } else if y < x {
      assert ReadBy(messages, input)(indices[y]) && ReadBy(messages, input)(indices[x]);
    }
  }
}
