/**
 * Writing and reading whole text records: what Encode accepts it writes, its own final review
 * always agrees, and Decode gives back exactly the caller's values.
 */
module TextRecords {
  import opened Bytes
  import opened Kmp
  import opened TextTemplates
  import opened TextCodec

  datatype TextInput = TextInput(fieldIndex: nat, value: bytes)

  datatype CodecStatus =
    | Ok
    | FieldReferenceMismatch
    | DuplicateField
    | MissingField
    | BytesLengthMismatch
    | AsciiCharacterNotAllowed
    | AsciiTerminatorConflict
    | BufferTooSmall
    | OutputSlotsTooSmall
    | FinalReviewFailed
    | UnknownMessage
    | AmbiguousMessage
    | OperationNotSupported
    | InvalidPlan

  // ---------------------------------------------------------------- admitting the caller's values

  /** The fields a caller must supply: those the template refers to. */
  predicate Encoded(segments: seq<TextSegment>, field: nat) {
    Field(field) in segments
  }

  predicate Admitted(segments: seq<TextSegment>, fields: seq<TextField>, input: TextInput) {
    input.fieldIndex < |fields| && Encoded(segments, input.fieldIndex)
    && Admits(fields[input.fieldIndex], input.value)
  }

  predicate Distinct(inputs: seq<TextInput>) {
    forall i, j | 0 <= i < j < |inputs| :: inputs[i].fieldIndex != inputs[j].fieldIndex
  }

  /** Exactly the template's fields, each once, each with a value it admits. */
  predicate Complete(segments: seq<TextSegment>, fields: seq<TextField>, inputs: seq<TextInput>) {
    && Distinct(inputs)
    && (forall i | 0 <= i < |inputs| :: Admitted(segments, fields, inputs[i]))
    && forall f: nat | f < |fields| && Encoded(segments, f) ::
         exists i :: 0 <= i < |inputs| && inputs[i].fieldIndex == f
  }

  /** From field to its position among the inputs. */
  ghost predicate Indexed(inputs: seq<TextInput>, n: nat, indices: map<nat, nat>) {
    n <= |inputs|
    && (forall i: nat | i < n :: inputs[i].fieldIndex in indices)
    && forall f | f in indices :: indices[f] < n && inputs[indices[f]].fieldIndex == f
  }

  /** Why input `i` is refused after the inputs before it, if it is. */
  ghost function InputReason(segments: seq<TextSegment>, fields: seq<TextField>,
                             inputs: seq<TextInput>, i: nat): CodecStatus
    requires i < |inputs|
  {
    var input := inputs[i];
    if input.fieldIndex >= |fields| || !Encoded(segments, input.fieldIndex)
    then FieldReferenceMismatch
    else if exists j :: 0 <= j < i && inputs[j].fieldIndex == input.fieldIndex then DuplicateField
    else if !Sized(fields[input.fieldIndex], input.value) then BytesLengthMismatch
    else if !AllAllowed(fields[input.fieldIndex], input.value) then AsciiCharacterNotAllowed
    else Ok
  }

  /** The first input with a reason is reported, and a missing field only after all of them. */
  ghost predicate RefusedFor(segments: seq<TextSegment>, fields: seq<TextField>,
                             inputs: seq<TextInput>, status: CodecStatus)
  {
    || (exists i: nat ::
          && i < |inputs| && InputReason(segments, fields, inputs, i) == status
          && forall j: nat | j < i :: InputReason(segments, fields, inputs, j) == Ok)
    || (&& status == MissingField
        && (forall j: nat | j < |inputs| :: InputReason(segments, fields, inputs, j) == Ok)
        && exists f: nat :: f < |fields| && Encoded(segments, f)
                            && forall j: nat | j < |inputs| :: inputs[j].fieldIndex != f)
  }

  method PrepareEncodeInputs(segments: seq<TextSegment>, fields: seq<TextField>,
                             inputs: seq<TextInput>)
    returns (status: CodecStatus, valueIndices: map<nat, nat>)
    ensures status == Ok <==> Complete(segments, fields, inputs)
    ensures status == Ok ==> Indexed(inputs, |inputs|, valueIndices)
    ensures status in {Ok, FieldReferenceMismatch, DuplicateField, MissingField,
                       BytesLengthMismatch, AsciiCharacterNotAllowed}
    ensures status != Ok ==> RefusedFor(segments, fields, inputs, status)
  {
    hide AllAllowed, Complete, InputReason;
    valueIndices := map[];
    for i := 0 to |inputs|
      invariant Indexed(inputs, i, valueIndices)
      invariant forall j: nat | j < i :: InputReason(segments, fields, inputs, j) == Ok
    {
      status := AdmitInput(segments, fields, inputs, i, valueIndices);
      if status != Ok {
        ReasonsDecide(segments, fields, inputs);
        return;
      }
      valueIndices := valueIndices[inputs[i].fieldIndex := i];
    }
    ReasonsDecide(segments, fields, inputs);
    for f := 0 to |fields|
      invariant forall g: nat | g < f && Encoded(segments, g) :: g in valueIndices
    {
      if Encoded(segments, f) && f !in valueIndices {
        assert forall j: nat | j < |inputs| :: inputs[j].fieldIndex != f;
        return MissingField, valueIndices;
      }
    }
    forall f: nat | f < |fields| && Encoded(segments, f)
      ensures exists i :: 0 <= i < |inputs| && inputs[i].fieldIndex == f
    {
      assert inputs[valueIndices[f]].fieldIndex == f;
    }
    status := Ok;
  }

  method AdmitInput(segments: seq<TextSegment>, fields: seq<TextField>, inputs: seq<TextInput>,
                    i: nat, valueIndices: map<nat, nat>)
    returns (status: CodecStatus)
    requires i < |inputs| && Indexed(inputs, i, valueIndices)
    ensures status == InputReason(segments, fields, inputs, i)
    ensures status == Ok ==> Indexed(inputs, i + 1, valueIndices[inputs[i].fieldIndex := i])
    ensures status in {Ok, FieldReferenceMismatch, DuplicateField, BytesLengthMismatch,
                       AsciiCharacterNotAllowed}
  {
    hide AllAllowed;
    var input := inputs[i];
    if input.fieldIndex >= |fields| || !Encoded(segments, input.fieldIndex) {
      return FieldReferenceMismatch;
    }
    if input.fieldIndex in valueIndices {
      assert inputs[valueIndices[input.fieldIndex]].fieldIndex == input.fieldIndex;
      return DuplicateField;
    }
    var field := fields[input.fieldIndex];
    if |input.value| < field.minLength || |input.value| > field.maxLength {
      return BytesLengthMismatch;
    }
    var allowed := CheckCharacters(field, input.value);
    status := if allowed then Ok else AsciiCharacterNotAllowed;
  }

  /** Without a reason against any of them, the inputs are complete unless a field is missing. */
  lemma ReasonsDecide(segments: seq<TextSegment>, fields: seq<TextField>, inputs: seq<TextInput>)
    ensures Complete(segments, fields, inputs) <==>
            && (forall i: nat | i < |inputs| :: InputReason(segments, fields, inputs, i) == Ok)
            && forall f: nat | f < |fields| && Encoded(segments, f) ::
                 exists i :: 0 <= i < |inputs| && inputs[i].fieldIndex == f
  {
    hide AllAllowed;
    if forall i: nat | i < |inputs| :: InputReason(segments, fields, inputs, i) == Ok {
      forall i: nat, j: nat | i < j < |inputs|
        ensures inputs[i].fieldIndex != inputs[j].fieldIndex
      {
        assert InputReason(segments, fields, inputs, j) == Ok;
      }
      forall i: nat | i < |inputs|
        ensures Admitted(segments, fields, inputs[i])
      {
        assert InputReason(segments, fields, inputs, i) == Ok;
      }
    }
  }

  // ---------------------------------------------------------------- the record

  /** The value an input sequence gives a field. */
  function ValueOf(inputs: seq<TextInput>, field: nat): bytes {
    if inputs == [] then []
    else if inputs[0].fieldIndex == field then inputs[0].value
    else ValueOf(inputs[1..], field)
  }

  lemma {:induction false} ValueIs(inputs: seq<TextInput>, i: nat)
    requires Distinct(inputs) && i < |inputs|
    ensures ValueOf(inputs, inputs[i].fieldIndex) == inputs[i].value
  {
    if i > 0 {
      assert inputs[1..][i - 1] == inputs[i];
      ValueIs(inputs[1..], i - 1);
    }
  }

  function Piece(segment: TextSegment, inputs: seq<TextInput>): bytes {
    match segment
    case Literal(literal) => literal
    case Field(index) => ValueOf(inputs, index)
  }

  function Pieces(segments: seq<TextSegment>, inputs: seq<TextInput>): seq<bytes> {
    seq(|segments|, i requires 0 <= i < |segments| => Piece(segments[i], inputs))
  }

  /** The record the inputs describe. */
  function Record(segments: seq<TextSegment>, inputs: seq<TextInput>): bytes {
    Concat(Pieces(segments, inputs))
  }

  /** No value of a searched field can be mistaken for ending early. */
  predicate Unmistakable(segments: seq<TextSegment>, fields: seq<TextField>,
                         inputs: seq<TextInput>)
  {
    forall i: nat | i < |segments| :: Clear(segments, fields, i, Piece(segments[i], inputs))
  }

  lemma PieceFits(segments: seq<TextSegment>, fields: seq<TextField>, inputs: seq<TextInput>, i: nat)
    requires Complete(segments, fields, inputs) && i < |segments|
    requires segments[i].Field? ==> segments[i].fieldIndex < |fields|
    ensures Fits(segments[i], fields, Piece(segments[i], inputs))
  {
    hide AllAllowed;
    if segments[i].Field? {
      var f := segments[i].fieldIndex;
      assert segments[i] == Field(f) && Encoded(segments, f);
      var k :| 0 <= k < |inputs| && inputs[k].fieldIndex == f;
      ValueIs(inputs, k);
      assert Admitted(segments, fields, inputs[k]);
    }
  }

  /** What Encode writes is a reading of itself, with no forbidden character. */
  lemma RecordParses(segments: seq<TextSegment>, fields: seq<TextField>, inputs: seq<TextInput>)
    requires forall i: nat | i < |segments| :: Bounded(segments, fields, i)
    requires Complete(segments, fields, inputs) && Unmistakable(segments, fields, inputs)
    ensures FitsAll(segments, fields, Pieces(segments, inputs))
    ensures Parse(segments, fields, Record(segments, inputs), Pieces(segments, inputs))
    ensures Permitted(segments, fields, Pieces(segments, inputs))
  {
    hide Complete, Unmistakable, Parse, FitsAll, Permitted, Restorable, Record, Bounded;
    CompleteRestores(segments, fields, inputs);
    RestorableFits(segments, fields, inputs, Record(segments, inputs));
  }

  lemma RecordLength(segments: seq<TextSegment>, fields: seq<TextField>, inputs: seq<TextInput>,
                     k: nat)
    requires forall i: nat | i < |segments| :: Bounded(segments, fields, i)
    requires Complete(segments, fields, inputs) && k <= |segments|
    ensures ShortestRecord(segments[..k], fields) <= |Concat(Pieces(segments, inputs)[..k])|
            <= LongestRecord(segments[..k], fields)
  {
    hide AllAllowed, Complete, ShortestRecord, LongestRecord, Concat;
    forall i: nat | i < |segments|
      ensures Shapes(segments[i], fields, Pieces(segments, inputs)[i])
    {
      assert Bounded(segments, fields, i);
      PieceFits(segments, fields, inputs, i);
    }
    ParseLength(segments, fields, Pieces(segments, inputs), k);
  }

  /** The caller's slices, as the final review looks for them. */
  predicate SlicesAgree(record: bytes, visits: seq<Visit>, inputs: seq<TextInput>) {
    forall v | v in visits ::
      v.offset + v.length <= |record|
      && record[v.offset..v.offset + v.length] == ValueOf(inputs, v.fieldIndex)
  }

  lemma {:induction false} VisitsAgree(segments: seq<TextSegment>, inputs: seq<TextInput>, k: nat)
    requires k <= |segments|
    ensures SlicesAgree(Record(segments, inputs),
                        Visits(segments[..k], Pieces(segments, inputs)[..k]), inputs)
  {
    hide Concat;
    var pieces := Pieces(segments, inputs);
    if k > 0 {
      VisitsAgree(segments, inputs, k - 1);
      assert segments[..k][..k - 1] == segments[..k - 1] && pieces[..k][..k - 1] == pieces[..k - 1];
      ConcatSplit(pieces, k - 1);
      var before, piece := Concat(pieces[..k - 1]), pieces[k - 1];
      var record := Record(segments, inputs);
      assert record[|before|..|before| + |piece|] == piece;
    }
  }

  lemma IndexedValue(segments: seq<TextSegment>, fields: seq<TextField>, inputs: seq<TextInput>,
                     indices: map<nat, nat>, i: nat)
    requires Complete(segments, fields, inputs) && Indexed(inputs, |inputs|, indices)
    requires i < |segments| && Bounded(segments, fields, i) && segments[i].Field?
    ensures var f := segments[i].fieldIndex;
            f in indices && indices[f] < |inputs|
            && inputs[indices[f]].value == ValueOf(inputs, f) == Pieces(segments, inputs)[i]
  {
    hide Admits;
    var f := segments[i].fieldIndex;
    assert segments[i] == Field(f) && Encoded(segments, f);
    var k :| 0 <= k < |inputs| && inputs[k].fieldIndex == f;
    ValueIs(inputs, indices[f]);
  }

  /** The record's size, unless a value could be mistaken for ending early. */
  method MeasureRecord(action: TextAction, fields: seq<TextField>, inputs: seq<TextInput>,
                       indices: map<nat, nat>)
    returns (conflict: bool, actualSize: nat)
    requires ValidTextAction(action, fields)
    requires Complete(action.segments, fields, inputs) && Indexed(inputs, |inputs|, indices)
    ensures conflict <==> !Unmistakable(action.segments, fields, inputs)
    ensures !conflict ==> actualSize == |Record(action.segments, inputs)|
  {
    hide Complete, Indexed, Find, Concat, ValueOf, PrefixTable, ShortestRecord, LongestRecord;
    var segments := action.segments;
    ghost var pieces := Pieces(segments, inputs);
    actualSize := 0;
    NothingYet(pieces);
    for k := 0 to |segments|
      invariant actualSize == |Concat(pieces[..k])|
      invariant forall i: nat | i < k :: Clear(segments, fields, i, Piece(segments[i], inputs))
    {
      assert Bounded(segments, fields, k);
      assert pieces[..k + 1] == pieces[..k] + [pieces[k]];
      ConcatAppend(pieces[..k], pieces[k]);
      if segments[k].Literal? {
        actualSize := actualSize + |segments[k].literal|;
      } else {
        IndexedValue(segments, fields, inputs, indices, k);
        var field := fields[segments[k].fieldIndex];
        var value := inputs[indices[segments[k].fieldIndex]].value;
        if field.minLength != field.maxLength && k + 1 < |segments| {
          assert Bounded(segments, fields, k + 1);
          var found := FindFirstAcrossBoundary(value, segments[k + 1].literal,
                                               action.prefixTables[k + 1]);
          if found != Some(|value|) {
            assert !Clear(segments, fields, k, Piece(segments[k], inputs));
            return true, 0;
          }
        }
        actualSize := actualSize + |value|;
      }
    }
    assert pieces[..|segments|] == pieces;
    conflict := false;
  }

  lemma NothingYet(pieces: seq<bytes>)
    ensures Concat(pieces[..0]) == []
  {
  }

  method WriteRecord(action: TextAction, fields: seq<TextField>, inputs: seq<TextInput>,
                     indices: map<nat, nat>, output: array<byte>)
    requires ValidTextAction(action, fields)
    requires Complete(action.segments, fields, inputs) && Indexed(inputs, |inputs|, indices)
    requires |Record(action.segments, inputs)| <= output.Length
    modifies output
    ensures var n := |Record(action.segments, inputs)|;
            output[..n] == Record(action.segments, inputs) && output[n..] == old(output[n..])
  {
    hide Complete, Indexed, Concat, ValueOf, PrefixTable, ShortestRecord, LongestRecord;
    var segments := action.segments;
    ghost var pieces := Pieces(segments, inputs);
    ghost var n := |Record(segments, inputs)|;
    var cursor: nat := 0;
    NothingYet(pieces);
    for k := 0 to |segments|
      invariant cursor == |Concat(pieces[..k])| <= n
      invariant output[..cursor] == Concat(pieces[..k])
      invariant output[n..] == old(output[n..])
    {
      assert Bounded(segments, fields, k);
      ConcatSplit(pieces, k);
      assert pieces[..k + 1] == pieces[..k] + [pieces[k]];
      ConcatAppend(pieces[..k], pieces[k]);
      var piece;
      if segments[k].Literal? {
        piece := segments[k].literal;
      } else {
        IndexedValue(segments, fields, inputs, indices, k);
        piece := inputs[indices[segments[k].fieldIndex]].value;
      }
      WritePiece(piece, output, cursor, n);
      cursor := cursor + |piece|;
    }
    assert pieces[..|segments|] == pieces;
  }

  method WritePiece(piece: bytes, output: array<byte>, cursor: nat, ghost n: nat)
    requires cursor + |piece| <= n <= output.Length
    modifies output
    ensures output[..cursor + |piece|] == old(output[..cursor]) + piece
    ensures output[n..] == old(output[n..])
  {
    CopyBytes(piece, output, cursor);
    assert output[..cursor + |piece|] == output[..cursor] + output[cursor..cursor + |piece|];
    assert output[n..] == output[cursor + |piece|..][n - (cursor + |piece|)..];
    assert old(output[n..]) == old(output[cursor + |piece|..])[n - (cursor + |piece|)..];
  }

  method CheckSlices(record: bytes, visits: seq<Visit>, inputs: seq<TextInput>,
                     indices: map<nat, nat>)
    returns (agree: bool)
    requires Distinct(inputs) && Indexed(inputs, |inputs|, indices)
    requires forall v | v in visits :: v.fieldIndex in indices
    ensures agree == SlicesAgree(record, visits, inputs)
  {
    hide ValueOf;
    for i := 0 to |visits|
      invariant SlicesAgree(record, visits[..i], inputs)
    {
      var v := visits[i];
      var index := indices[v.fieldIndex];
      ValueIs(inputs, index);
      var expected := inputs[index].value;
      assert v in visits;
      if |expected| != v.length || v.offset + v.length > |record|
         || record[v.offset..v.offset + v.length] != expected {
        return false;
      }
      assert visits[..i + 1] == visits[..i] + [v];
    }
    assert visits[..|visits|] == visits;
    agree := true;
  }

  lemma {:induction false} VisitedFields(segments: seq<TextSegment>, pieces: seq<bytes>)
    requires |pieces| == |segments|
    ensures forall v | v in Visits(segments, pieces) :: Field(v.fieldIndex) in segments
  {
    if segments != [] {
      VisitedFields(segments[..|segments| - 1], pieces[..|segments| - 1]);
    }
  }

  // ---------------------------------------------------------------- encode and decode

  /**
   * Encode refuses for one of three reasons that a caller can see in advance, in this order: the
   * inputs, a value that ends early, the buffer. Otherwise it writes the record. Its review of
   * its own output never fails.
   */
  method EncodeTextRecord(action: TextAction, fields: seq<TextField>, frameSize: nat,
                          inputs: seq<TextInput>, output: array<byte>)
    returns (status: CodecStatus, bytesWritten: nat, requiredSize: nat)
    requires ValidTextAction(action, fields) && action.maxRecordLength <= frameSize
    modifies output
    ensures !Complete(action.segments, fields, inputs) <==>
              status in {FieldReferenceMismatch, DuplicateField, MissingField,
                         BytesLengthMismatch, AsciiCharacterNotAllowed}
    ensures !Complete(action.segments, fields, inputs) ==>
              RefusedFor(action.segments, fields, inputs, status)
    ensures Complete(action.segments, fields, inputs) ==>
              status == if !Unmistakable(action.segments, fields, inputs)
                        then AsciiTerminatorConflict
                        else if output.Length < |Record(action.segments, inputs)|
                        then BufferTooSmall else Ok
    ensures status == Ok ==>
              && bytesWritten == requiredSize == |Record(action.segments, inputs)| <= output.Length
              && output[..bytesWritten] == Record(action.segments, inputs)
              && output[bytesWritten..] == old(output[bytesWritten..])
    ensures status == BufferTooSmall ==> requiredSize == |Record(action.segments, inputs)|
    ensures status != Ok ==> bytesWritten == 0 && output[..] == old(output[..])
    ensures status != Ok && status != BufferTooSmall ==> requiredSize == 0
  {
    hide Complete, Concat, ValueOf, Unmistakable, Parse, Permitted, Visits, SlicesAgree, FitsAll,
         ShortestRecord, LongestRecord, Indexed, RefusedFor;
    var segments := action.segments;
    bytesWritten, requiredSize := 0, 0;
    var indices;
    status, indices := PrepareEncodeInputs(segments, fields, inputs);
    if status != Ok {
      return;
    }
    var conflict, actualSize := MeasureRecord(action, fields, inputs, indices);
    if conflict {
      status := AsciiTerminatorConflict;
      return;
    }
    RecordWithin(segments, fields, inputs);
    if actualSize < action.minRecordLength || actualSize > action.maxRecordLength
       || actualSize > frameSize {
      status := FinalReviewFailed;
      return;
    }
    requiredSize := actualSize;
    if output.Length < actualSize {
      status := BufferTooSmall;
      return;
    }
    WriteRecord(action, fields, inputs, indices, output);
    var encoded := output[..actualSize];
    var reviewed := Review(action, fields, inputs, indices, encoded);
    if !reviewed {
      status := FinalReviewFailed;
      return;
    }
    status, bytesWritten := Ok, actualSize;
  }

  lemma RecordWithin(segments: seq<TextSegment>, fields: seq<TextField>, inputs: seq<TextInput>)
    requires forall i: nat | i < |segments| :: Bounded(segments, fields, i)
    requires Complete(segments, fields, inputs)
    ensures ShortestRecord(segments, fields) <= |Record(segments, inputs)|
            <= LongestRecord(segments, fields)
  {
    hide Complete, Concat, ShortestRecord, LongestRecord;
    RecordLength(segments, fields, inputs, |segments|);
    assert segments[..|segments|] == segments;
    assert Pieces(segments, inputs)[..|segments|] == Pieces(segments, inputs);
  }

  /** The final review passes exactly the record of the inputs. */
  method Review(action: TextAction, fields: seq<TextField>, inputs: seq<TextInput>,
                indices: map<nat, nat>, encoded: bytes)
    returns (ok: bool)
    requires ValidTextAction(action, fields)
    requires Complete(action.segments, fields, inputs) && Indexed(inputs, |inputs|, indices)
    requires Unmistakable(action.segments, fields, inputs)
    ensures ok <==> encoded == Record(action.segments, inputs)
  {
    hide Concat, ValueOf, Parse, Permitted, Visits, SlicesAgree, FitsAll, ShortestRecord,
         LongestRecord, Unmistakable, Admits, PrefixTable, Record;
    var segments := action.segments;
    RecordParses(segments, fields, inputs);
    var status, visits, pieces := WalkTextAction(action, fields, encoded, true);
    if status != Match {
      return false;
    }
    PiecesPerSegment(segments, fields, encoded, pieces);
    VisitedFields(segments, pieces);
    forall v | v in visits
      ensures v.fieldIndex in indices
    {
      VisitedIndexed(segments, fields, inputs, indices, v.fieldIndex);
    }
    AgreeingSlices(segments, fields, inputs, encoded, pieces);
    ok := CheckSlices(encoded, visits, inputs, indices);
  }

  lemma PiecesPerSegment(segments: seq<TextSegment>, fields: seq<TextField>, input: bytes,
                         pieces: seq<bytes>)
    requires Parse(segments, fields, input, pieces)
    ensures |pieces| == |segments|
  {
  }

  /** The slices of a reading are the caller's exactly if the input is the caller's record. */
  lemma AgreeingSlices(segments: seq<TextSegment>, fields: seq<TextField>, inputs: seq<TextInput>,
                       input: bytes, pieces: seq<bytes>)
    requires forall i: nat | i < |segments| :: Bounded(segments, fields, i)
    requires Parse(segments, fields, input, pieces) && |pieces| == |segments|
    requires Parse(segments, fields, Record(segments, inputs), Pieces(segments, inputs))
    ensures SlicesAgree(input, Visits(segments, pieces), inputs)
            <==> input == Record(segments, inputs)
  {
    hide Concat, ValueOf, Visits, Clear, Shapes, SlicesAgree, Parse;
    var wanted := Pieces(segments, inputs);
    if SlicesAgree(input, Visits(segments, pieces), inputs) {
      AgreedPieces(segments, fields, inputs, input, pieces);
    }
    if input == Record(segments, inputs) {
      ReadingIs(segments, fields, input, pieces, wanted);
      VisitsAgree(segments, inputs, |segments|);
      assert segments[..|segments|] == segments && wanted[..|segments|] == wanted;
    }
  }

  lemma AgreedPieces(segments: seq<TextSegment>, fields: seq<TextField>, inputs: seq<TextInput>,
                     input: bytes, pieces: seq<bytes>)
    requires Parse(segments, fields, input, pieces) && |pieces| == |segments|
    requires SlicesAgree(input, Visits(segments, pieces), inputs)
    ensures pieces == Pieces(segments, inputs) && input == Record(segments, inputs)
  {
    hide Concat, ValueOf, Visits, Clear;
    forall i: nat | i < |segments|
      ensures pieces[i] == Piece(segments[i], inputs)
    {
      match segments[i]
      case Literal(literal) =>
        assert Shapes(segments[i], fields, pieces[i]);
      case Field(f) =>
        VisitListed(segments, pieces, i);
        ConcatSplit(pieces, i);
        var v := Visit(f, |Concat(pieces[..i])|, |pieces[i]|);
        assert v in Visits(segments, pieces);
        assert input[v.offset..v.offset + v.length] == pieces[i];
    }
    assert pieces == Pieces(segments, inputs);
  }

  lemma {:induction false} VisitListed(segments: seq<TextSegment>, pieces: seq<bytes>, i: nat)
    requires |pieces| == |segments| && i < |segments| && segments[i].Field?
    ensures Visit(segments[i].fieldIndex, |Concat(pieces[..i])|, |pieces[i]|)
            in Visits(segments, pieces)
  {
    hide Concat;
    var k := |segments| - 1;
    if i < k {
      assert pieces[..k][..i] == pieces[..i];
      VisitListed(segments[..k], pieces[..k], i);
    }
  }

  lemma VisitedIndexed(segments: seq<TextSegment>, fields: seq<TextField>, inputs: seq<TextInput>,
                       indices: map<nat, nat>, f: nat)
    requires forall i: nat | i < |segments| :: Bounded(segments, fields, i)
    requires Complete(segments, fields, inputs) && Indexed(inputs, |inputs|, indices)
    requires Field(f) in segments
    ensures f in indices
  {
    hide Complete, Indexed;
    var i :| 0 <= i < |segments| && segments[i] == Field(f);
    assert Bounded(segments, fields, i);
    IndexedValue(segments, fields, inputs, indices, i);
  }

  lemma ReadingIs(segments: seq<TextSegment>, fields: seq<TextField>, input: bytes,
                  p: seq<bytes>, q: seq<bytes>)
    requires forall i: nat | i < |segments| :: Bounded(segments, fields, i)
    requires Parse(segments, fields, input, p) && Parse(segments, fields, input, q)
    ensures p == q
  {
    ParseUnique(segments, fields, input, p, q, |segments|);
    assert p[..|segments|] == p && q[..|segments|] == q;
  }

  function FieldCount(segments: seq<TextSegment>): nat {
    if segments == [] then 0
    else FieldCount(segments[..|segments| - 1])
         + if segments[|segments| - 1].Field? then 1 else 0
  }

  lemma {:induction false} VisitsCount(segments: seq<TextSegment>, pieces: seq<bytes>)
    requires |pieces| == |segments|
    ensures |Visits(segments, pieces)| == FieldCount(segments)
  {
    if segments != [] {
      VisitsCount(segments[..|segments| - 1], pieces[..|segments| - 1]);
    }
  }

  /** What Decode owes for a record of this message. */
  ghost predicate Decodes(action: TextAction, fields: seq<TextField>, input: bytes,
                          slotCapacity: nat, status: CodecStatus, slots: seq<Visit>)
  {
    forall q :: Parse(action.segments, fields, input, q) ==>
      if |Visits(action.segments, q)| > slotCapacity then status == OutputSlotsTooSmall
      else if !Permitted(action.segments, fields, q) then status == AsciiCharacterNotAllowed
      else status == Ok && slots == Visits(action.segments, q)
  }

  /** Decode of a record whose message is known: the field slices, or why there are none. */
  method DecodeMatched(action: TextAction, fields: seq<TextField>, input: bytes, slotCapacity: nat)
    returns (status: CodecStatus, slots: seq<Visit>)
    requires ValidTextAction(action, fields)
    requires exists q :: Parse(action.segments, fields, input, q)
    ensures Decodes(action, fields, input, slotCapacity, status, slots)
    ensures status in {Ok, OutputSlotsTooSmall, AsciiCharacterNotAllowed}
  {
    hide Permitted, Visits, ShortestRecord, LongestRecord, Clear, Concat;
    ghost var pieces :| Parse(action.segments, fields, input, pieces);
    forall q | Parse(action.segments, fields, input, q)
      ensures q == pieces
    {
      ReadingIs(action.segments, fields, input, q, pieces);
    }
    VisitsCount(action.segments, pieces);
    if FieldCount(action.segments) > slotCapacity {
      return OutputSlotsTooSmall, [];
    }
    var walked, visits, again := WalkTextAction(action, fields, input, true);
    if walked != Match {
      return if walked == InvalidCharacter then AsciiCharacterNotAllowed else CodecStatus.InvalidPlan,
             [];
    }
    status, slots := Ok, visits;
  }

  /** Decode where this is the only text message there is. */
  method DecodeTextRecord(action: TextAction, fields: seq<TextField>, input: bytes,
                          slotCapacity: nat)
    returns (status: CodecStatus, slots: seq<Visit>)
    requires ValidTextAction(action, fields)
    ensures Decodes(action, fields, input, slotCapacity, status, slots)
    ensures (forall q :: !Parse(action.segments, fields, input, q)) <==> status == UnknownMessage
  {
    hide Parse, Permitted, Visits, ShortestRecord, LongestRecord;
    var structure, unused, pieces := WalkTextAction(action, fields, input, false);
    if structure != Match {
      return UnknownMessage, [];
    }
    status, slots := DecodeMatched(action, fields, input, slotCapacity);
  }

  lemma {:induction false} FieldVisited(segments: seq<TextSegment>, pieces: seq<bytes>, f: nat)
    returns (v: Visit)
    requires |pieces| == |segments| && Field(f) in segments
    ensures v in Visits(segments, pieces) && v.fieldIndex == f
  {
    var k := |segments| - 1;
    if segments[k] == Field(f) {
      v := Visit(f, |Concat(pieces[..k])|, |pieces[k]|);
    } else {
      v := FieldVisited(segments[..k], pieces[..k], f);
    }
  }

  /** Slot `v` holds what `input` supplied. */
  predicate Holds(record: bytes, v: Visit, input: TextInput) {
    && v.fieldIndex == input.fieldIndex && v.offset + v.length <= |record|
    && record[v.offset..v.offset + v.length] == input.value
  }

  predicate Slotted(record: bytes, slots: seq<Visit>, input: TextInput) {
    exists v :: v in slots && Holds(record, v, input)
  }

  lemma SlotHolds(segments: seq<TextSegment>, fields: seq<TextField>, inputs: seq<TextInput>,
                  record: bytes, slots: seq<Visit>, i: nat)
    requires Proper(fields, inputs) && i < |inputs|
    requires Encoded(segments, inputs[i].fieldIndex)
    requires slots == Visits(segments, Pieces(segments, inputs))
    requires SlicesAgree(record, slots, inputs)
    ensures Slotted(record, slots, inputs[i])
  {
    hide Concat, Admits, Visits;
    var v := FieldVisited(segments, Pieces(segments, inputs), inputs[i].fieldIndex);
    ValueIs(inputs, i);
    assert v in slots && Holds(record, v, inputs[i]);
  }

  /** Every slot holds what was supplied for its field. */
  predicate Restored(record: bytes, slots: seq<Visit>, inputs: seq<TextInput>) {
    forall v | v in slots :: exists i :: 0 <= i < |inputs| && Holds(record, v, inputs[i])
  }

  /**
   * The template, filled with the inputs, gives this record as well, and nothing in it ends early.
   * A message's Decode template may differ from its Encode template in segments and in fields.
   */
  predicate Restorable(segments: seq<TextSegment>, fields: seq<TextField>, inputs: seq<TextInput>,
                       record: bytes)
  {
    && (forall f: nat | f < |fields| && Encoded(segments, f) :: Supplied(inputs, f))
    && Unmistakable(segments, fields, inputs) && Record(segments, inputs) == record
  }

  predicate Supplied(inputs: seq<TextInput>, field: nat) {
    exists i :: 0 <= i < |inputs| && inputs[i].fieldIndex == field
  }

  /** Each input is for a field of its own that admits it. */
  predicate Proper(fields: seq<TextField>, inputs: seq<TextInput>) {
    Distinct(inputs) &&
    forall i | 0 <= i < |inputs| ::
      inputs[i].fieldIndex < |fields| && Admits(fields[inputs[i].fieldIndex], inputs[i].value)
  }

  lemma CompleteRestores(segments: seq<TextSegment>, fields: seq<TextField>, inputs: seq<TextInput>)
    requires Complete(segments, fields, inputs)
    ensures Proper(fields, inputs)
    ensures Restorable(segments, fields, inputs, Record(segments, inputs))
            <==> Unmistakable(segments, fields, inputs)
  {
    hide Admits, Unmistakable, Record;
    forall i | 0 <= i < |inputs|
      ensures inputs[i].fieldIndex < |fields|
              && Admits(fields[inputs[i].fieldIndex], inputs[i].value)
    {
      assert Admitted(segments, fields, inputs[i]);
    }
    forall f: nat | f < |fields| && Encoded(segments, f)
      ensures Supplied(inputs, f)
    {
    }
  }

  lemma RestorableFits(segments: seq<TextSegment>, fields: seq<TextField>, inputs: seq<TextInput>,
                       record: bytes)
    requires forall i: nat | i < |segments| :: Bounded(segments, fields, i)
    requires Proper(fields, inputs) && Restorable(segments, fields, inputs, record)
    ensures FitsAll(segments, fields, Pieces(segments, inputs))
    ensures Parse(segments, fields, record, Pieces(segments, inputs))
    ensures Permitted(segments, fields, Pieces(segments, inputs))
  {
    hide AllAllowed, Clear;
    forall i: nat | i < |segments|
      ensures Fits(segments[i], fields, Pieces(segments, inputs)[i])
      ensures Clear(segments, fields, i, Pieces(segments, inputs)[i])
    {
      assert Bounded(segments, fields, i);
      if segments[i].Field? {
        var f := segments[i].fieldIndex;
        assert segments[i] == Field(f) && Encoded(segments, f) && Supplied(inputs, f);
        var k :| 0 <= k < |inputs| && inputs[k].fieldIndex == f;
        ValueIs(inputs, k);
      }
    }
  }

  lemma SlotIsSupplied(segments: seq<TextSegment>, fields: seq<TextField>, inputs: seq<TextInput>,
                       record: bytes, slots: seq<Visit>, v: Visit)
    requires Proper(fields, inputs) && Restorable(segments, fields, inputs, record)
    requires SlicesAgree(record, slots, inputs) && v in slots
    requires v.fieldIndex < |fields| && Encoded(segments, v.fieldIndex)
    ensures exists i :: 0 <= i < |inputs| && Holds(record, v, inputs[i])
  {
    hide Admits, Unmistakable, Record;
    assert Supplied(inputs, v.fieldIndex);
    var k :| 0 <= k < |inputs| && inputs[k].fieldIndex == v.fieldIndex;
    ValueIs(inputs, k);
    assert Holds(record, v, inputs[k]);
  }

  lemma SuppliedAgrees(inputs: seq<TextInput>, record: bytes, slots: seq<Visit>)
    requires Distinct(inputs) && Restored(record, slots, inputs)
    ensures SlicesAgree(record, slots, inputs)
    ensures forall v | v in slots :: Supplied(inputs, v.fieldIndex)
  {
    hide ValueOf;
    forall v | v in slots
      ensures Supplied(inputs, v.fieldIndex) && v.offset + v.length <= |record|
      ensures record[v.offset..v.offset + v.length] == ValueOf(inputs, v.fieldIndex)
    {
      var i :| 0 <= i < |inputs| && Holds(record, v, inputs[i]);
      ValueIs(inputs, i);
    }
  }

  /** A restorable record decodes to the inputs. */
  lemma RestorableDecodes(action: TextAction, fields: seq<TextField>, inputs: seq<TextInput>,
                          record: bytes, slotCapacity: nat, status: CodecStatus, slots: seq<Visit>)
    requires ValidTextAction(action, fields) && Proper(fields, inputs)
    requires Restorable(action.segments, fields, inputs, record)
    requires FieldCount(action.segments) <= slotCapacity
    requires Decodes(action, fields, record, slotCapacity, status, slots)
    ensures status == Ok && Restored(record, slots, inputs) && SlicesAgree(record, slots, inputs)
    ensures forall i: nat | i < |inputs| && Encoded(action.segments, inputs[i].fieldIndex) ::
              Slotted(record, slots, inputs[i])
  {
    hide Proper, Concat, Unmistakable, Permitted, Visits, SlicesAgree, FitsAll, Holds, Parse,
         ShortestRecord, LongestRecord, Restorable, Record;
    var segments := action.segments;
    RestorableFits(segments, fields, inputs, record);
    RestoredRecord(segments, fields, inputs, record);
    VisitsCount(segments, Pieces(segments, inputs));
    VisitsAgree(segments, inputs, |segments|);
    assert segments[..|segments|] == segments;
    assert Pieces(segments, inputs)[..|segments|] == Pieces(segments, inputs);
    VisitedFields(segments, Pieces(segments, inputs));
    forall v | v in slots
      ensures exists i :: 0 <= i < |inputs| && Holds(record, v, inputs[i])
    {
      VisitedInRange(segments, fields, v.fieldIndex);
      SlotIsSupplied(segments, fields, inputs, record, slots, v);
    }
    forall i: nat | i < |inputs| && Encoded(segments, inputs[i].fieldIndex)
      ensures Slotted(record, slots, inputs[i])
    {
      SlotHolds(segments, fields, inputs, record, slots, i);
    }
  }

  lemma RestoredRecord(segments: seq<TextSegment>, fields: seq<TextField>, inputs: seq<TextInput>,
                       record: bytes)
    requires Restorable(segments, fields, inputs, record)
    ensures Record(segments, inputs) == record
  {
    hide Record, Unmistakable;
  }

  lemma VisitedInRange(segments: seq<TextSegment>, fields: seq<TextField>, f: nat)
    requires forall i: nat | i < |segments| :: Bounded(segments, fields, i)
    requires Field(f) in segments
    ensures f < |fields| && Encoded(segments, f)
  {
    var i :| 0 <= i < |segments| && segments[i] == Field(f);
    assert Bounded(segments, fields, i);
  }

  /**
   * When a record of one template is what another one reads as the same values: exactly if the
   * other template, filled with these values, spells the same record without an early end.
   */
  lemma RestoredExactly(action: TextAction, fields: seq<TextField>, inputs: seq<TextInput>,
                        record: bytes, slotCapacity: nat, status: CodecStatus, slots: seq<Visit>)
    requires ValidTextAction(action, fields) && Proper(fields, inputs)
    requires FieldCount(action.segments) <= slotCapacity
    requires Decodes(action, fields, record, slotCapacity, status, slots)
    requires (forall q :: !Parse(action.segments, fields, record, q)) ==> status == UnknownMessage
    ensures status == Ok && Restored(record, slots, inputs)
            <==> Restorable(action.segments, fields, inputs, record)
  {
    hide Proper, Concat, Unmistakable, Permitted, Visits, SlicesAgree, Parse, Record,
         ShortestRecord, LongestRecord, Restorable, Restored;
    var segments := action.segments;
    if Restorable(segments, fields, inputs, record) {
      RestorableDecodes(action, fields, inputs, record, slotCapacity, status, slots);
    }
    if status == Ok && Restored(record, slots, inputs) {
      var q :| Parse(segments, fields, record, q);
      PiecesPerSegment(segments, fields, record, q);
      ProperDistinct(fields, inputs);
      SuppliedAgrees(inputs, record, slots);
      AgreedPieces(segments, fields, inputs, record, q);
      ReadingRestores(segments, fields, inputs, record, q, slots);
    }
  }

  /** Templates that differ in a letter do not understand each other, values or not. */
  lemma TemplatesMayDisagree()
    ensures var encode, decode := [Literal([0x41])], [Literal([0x42])];
            && Complete(encode, [], []) && Unmistakable(encode, [], [])
            && !Restorable(decode, [], [], Record(encode, []))
  {
    assert Pieces([Literal([0x41])], [])[0] == [0x41] && Pieces([Literal([0x42])], [])[0] == [0x42];
    assert Record([Literal([0x41])], []) == [0x41] && Record([Literal([0x42])], []) == [0x42];
  }

  lemma ProperDistinct(fields: seq<TextField>, inputs: seq<TextInput>)
    requires Proper(fields, inputs)
    ensures Distinct(inputs)
  {
  }

  lemma ReadingRestores(segments: seq<TextSegment>, fields: seq<TextField>, inputs: seq<TextInput>,
                        record: bytes, q: seq<bytes>, slots: seq<Visit>)
    requires Parse(segments, fields, record, q) && q == Pieces(segments, inputs)
    requires |q| == |segments| && slots == Visits(segments, q)
    requires forall v | v in slots :: Supplied(inputs, v.fieldIndex)
    ensures Restorable(segments, fields, inputs, record)
  {
    hide Concat, Clear, Shapes, Visits;
    forall f: nat | f < |fields| && Encoded(segments, f)
      ensures Supplied(inputs, f)
    {
      var v := FieldVisited(segments, q, f);
    }
    forall i: nat | i < |segments|
      ensures Clear(segments, fields, i, Piece(segments[i], inputs))
    {
      assert q[i] == Piece(segments[i], inputs);
    }
  }

  /**
   * Encode and then Decode of one message. Exactly when Encode accepts; and exactly when Decode,
   * with a template of its own, then gives back the caller's values and nothing else. With the
   * same template it always does, every value in a slot of its field.
   */
  method EncodeThenDecode(encode: TextAction, decode: TextAction, fields: seq<TextField>,
                          frameSize: nat, inputs: seq<TextInput>, output: array<byte>,
                          slotCapacity: nat)
    returns (encoded: CodecStatus, decoded: CodecStatus, record: bytes, slots: seq<Visit>)
    requires ValidTextAction(encode, fields) && encode.maxRecordLength <= frameSize
    requires ValidTextAction(decode, fields) && FieldCount(decode.segments) <= slotCapacity
    modifies output
    ensures encoded == Ok <==>
              && Complete(encode.segments, fields, inputs)
              && Unmistakable(encode.segments, fields, inputs)
              && |Record(encode.segments, inputs)| <= output.Length
    ensures encoded == Ok ==> record == Record(encode.segments, inputs)
    ensures encoded == Ok ==>
              (decoded == Ok && Restored(record, slots, inputs)
               <==> Restorable(decode.segments, fields, inputs, record))
    ensures encoded == Ok && decode.segments == encode.segments ==>
              && decoded == Ok && SlicesAgree(record, slots, inputs)
              && forall i: nat | i < |inputs| :: Slotted(record, slots, inputs[i])
  {
    hide Complete, Concat, Unmistakable, Parse, Permitted, Visits, SlicesAgree, FitsAll, Slotted,
         ShortestRecord, LongestRecord, Decodes, Restored, Restorable, Record, Proper;
    var written, required;
    encoded, written, required := EncodeTextRecord(encode, fields, frameSize, inputs, output);
    record := output[..written];
    decoded, slots := DecodeTextRecord(decode, fields, record, slotCapacity);
    if encoded == Ok {
      CompleteRestores(encode.segments, fields, inputs);
      RestoredExactly(decode, fields, inputs, record, slotCapacity, decoded, slots);
      if decode.segments == encode.segments {
        RestorableDecodes(decode, fields, inputs, record, slotCapacity, decoded, slots);
        CompleteEncoded(encode.segments, fields, inputs);
      }
    }
  }

  lemma CompleteEncoded(segments: seq<TextSegment>, fields: seq<TextField>, inputs: seq<TextInput>)
    requires Complete(segments, fields, inputs)
    ensures forall i | 0 <= i < |inputs| :: Encoded(segments, inputs[i].fieldIndex)
  {
    hide Admits;
    forall i | 0 <= i < |inputs|
      ensures Encoded(segments, inputs[i].fieldIndex)
    {
      assert Admitted(segments, fields, inputs[i]);
    }
  }
}
