/**
 * What the text messages' definitions say in terms of bytes, lengths and the author's lists alone:
 * which records a template reads, which characters and values a field takes, and what Encode and
 * Decode therefore answer.
 */
module TextMeaning {
  import opened Bytes
  import opened Kmp
  import opened TextTemplates
  import opened TextCodec
  import opened TextRecords
  import opened FramingSpec
  import opened AsciiBoundary

  // ---------------------------------------------------------------- pieces and searches

  lemma FindMeans(p: bytes, s: bytes)
    ensures Find(p, s) == None <==> forall j: nat | j <= |s| :: !(p <= s[j..])
    ensures Find(p, s).Some? ==>
              && Find(p, s).value <= |s| && p <= s[Find(p, s).value..]
              && forall j: nat | j < Find(p, s).value :: !(p <= s[j..])
  {
    hide Find;
    FindIsLeftmost(p, s);
    forall j: nat | j <= |s|
      ensures OccursAt(p, s, j) <==> p <= s[j..]
    {
      assert j + |p| <= |s| ==> s[j..][..|p|] == s[j..j + |p|];
    }
    if Find(p, s) != None {
      NothingBefore(p, s, Find(p, s).value);
    }
  }

  lemma ConcatMeans(parts: seq<bytes>, last: bytes)
    ensures Concat([]) == [] && Concat(parts + [last]) == Concat(parts) + last
  {
    ConcatAppend(parts, last);
  }

  /** Whatever begins before the value's end is not the terminator. */
  predicate EndsFirst(value: bytes, terminator: bytes) {
    forall j: nat | j < |value| :: !(terminator <= (value + terminator)[j..])
  }

  lemma EndsFirstMeans(value: bytes, terminator: bytes)
    ensures EndsFirst(value, terminator)
            <==> forall j: nat | j < |value| :: !(terminator <= (value + terminator)[j..])
    ensures EndsFirst(value, terminator)
            <==> Find(terminator, value + terminator) == Some(|value|)
  {
    hide Find;
    FindMeans(terminator, value + terminator);
    assert (value + terminator)[|value|..] == terminator;
  }

  /** Only a variable field before a literal is searched for its end. */
  lemma ClearMeans(segments: seq<TextSegment>, fields: seq<TextField>, i: nat, piece: bytes)
    requires i < |segments|
    requires segments[i].Field? ==> segments[i].fieldIndex < |fields|
    ensures Clear(segments, fields, i, piece)
            <==> (&& segments[i].Field? && i + 1 < |segments| && segments[i + 1].Literal?
                  && fields[segments[i].fieldIndex].minLength
                     != fields[segments[i].fieldIndex].maxLength
                  ==> EndsFirst(piece, segments[i + 1].literal))
  {
    hide Find;
    if Terminator(segments, fields, i).Some? {
      EndsFirstMeans(piece, segments[i + 1].literal);
    }
  }

  /** What segment `i` reads as `piece`, whatever stands before and behind. */
  predicate PieceReads(segments: seq<TextSegment>, fields: seq<TextField>, i: nat, piece: bytes) {
    i < |segments| && match segments[i]
    case Literal(literal) => piece == literal
    case Field(f) =>
      && f < |fields|
      && fields[f].minLength <= |piece| <= fields[f].maxLength
      && (fields[f].minLength != fields[f].maxLength
          && i + 1 < |segments| && segments[i + 1].Literal?
          ==> EndsFirst(piece, segments[i + 1].literal))
  }

  lemma PieceReadsMeans(segments: seq<TextSegment>, fields: seq<TextField>, i: nat, piece: bytes)
    requires i < |segments|
    ensures segments[i].Literal? ==>
              (PieceReads(segments, fields, i, piece) <==> piece == segments[i].literal)
    ensures segments[i].Field? && segments[i].fieldIndex < |fields| ==>
              var field := fields[segments[i].fieldIndex];
              PieceReads(segments, fields, i, piece)
              <==> && field.minLength <= |piece| <= field.maxLength
                   && (field.minLength == field.maxLength || i + 1 == |segments|
                       || segments[i + 1].Field?
                       || EndsFirst(piece, segments[i + 1].literal))
  {
  }

  /** Which lists of pieces are a reading of an input. */
  lemma ReadingMeans(segments: seq<TextSegment>, fields: seq<TextField>, input: bytes,
                     pieces: seq<bytes>)
    ensures Parse(segments, fields, input, pieces)
            <==> && |pieces| == |segments| && Concat(pieces) == input
                 && forall i: nat | i < |segments| ::
                      PieceReads(segments, fields, i, pieces[i])
  {
    hide Concat, Clear, Terminator, EndsFirst;
    if |pieces| == |segments| {
      forall i: nat | i < |segments|
        ensures PieceReads(segments, fields, i, pieces[i])
                <==> Shapes(segments[i], fields, pieces[i])
                     && Clear(segments, fields, i, pieces[i])
      {
        if segments[i].Field? ==> segments[i].fieldIndex < |fields| {
          ClearMeans(segments, fields, i, pieces[i]);
        }
      }
    }
  }

  /** The value slots of a reading, one segment at a time. */
  lemma VisitsMean(segments: seq<TextSegment>, pieces: seq<bytes>, segment: TextSegment,
                   piece: bytes)
    requires |pieces| == |segments|
    ensures Visits([], []) == []
    ensures segment.Literal? ==>
              Visits(segments + [segment], pieces + [piece]) == Visits(segments, pieces)
    ensures segment.Field? ==>
              Visits(segments + [segment], pieces + [piece])
              == Visits(segments, pieces)
                 + [Visit(segment.fieldIndex, |Concat(pieces)|, |piece|)]
  {
    var all := segments + [segment];
    assert all[..|segments|] == segments && (all)[|segments|] == segment;
    assert (pieces + [piece])[..|pieces|] == pieces;
  }

  // ---------------------------------------------------------------- templates

  lemma LengthsMean(segments: seq<TextSegment>, fields: seq<TextField>, segment: TextSegment)
    requires segment.Field? ==> segment.fieldIndex < |fields|
    ensures ShortestRecord([], fields) == 0 && LongestRecord([], fields) == 0
    ensures segment.Literal? ==>
              && ShortestRecord(segments + [segment], fields)
                 == ShortestRecord(segments, fields) + |segment.literal|
              && LongestRecord(segments + [segment], fields)
                 == LongestRecord(segments, fields) + |segment.literal|
    ensures segment.Field? ==>
              && ShortestRecord(segments + [segment], fields)
                 == ShortestRecord(segments, fields) + fields[segment.fieldIndex].minLength
              && LongestRecord(segments + [segment], fields)
                 == LongestRecord(segments, fields) + fields[segment.fieldIndex].maxLength
  {
    assert (segments + [segment])[..|segments|] == segments;
  }

  /** Which templates the compiler accepts. */
  lemma AcceptableMeans(segments: seq<TextSegment>, fields: seq<TextField>)
    ensures Acceptable(segments, fields)
            <==> && (forall i: nat | i < |segments| && segments[i].Literal? ::
                       segments[i].literal != [])
                 && (forall i: nat | i < |segments| && segments[i].Field? ::
                       segments[i].fieldIndex < |fields|)
                 && (forall i: nat | i + 1 < |segments| && segments[i].Field?
                                     && segments[i].fieldIndex < |fields| ::
                       fields[segments[i].fieldIndex].minLength
                       == fields[segments[i].fieldIndex].maxLength || segments[i + 1].Literal?)
                 && (forall i: nat, j: nat | i < j < |segments|
                                             && segments[i].Field? && segments[j].Field? ::
                       segments[i].fieldIndex != segments[j].fieldIndex)
                 && ShortestRecord(segments, fields) < 0x1_0000_0000_0000_0000
                 && LongestRecord(segments, fields) < 0x1_0000_0000_0000_0000
  {
    hide ShortestRecord, LongestRecord;
    forall i: nat | i < |segments|
      ensures Bounded(segments, fields, i)
              <==> match segments[i]
                   case Literal(literal) => literal != []
                   case Field(f) =>
                     f < |fields| && (i + 1 < |segments| ==>
                                        fields[f].minLength == fields[f].maxLength
                                        || segments[i + 1].Literal?)
      ensures Once(segments, i)
              <==> forall j: nat | j < i && segments[i].Field? && segments[j].Field? ::
                     segments[j].fieldIndex != segments[i].fieldIndex
    {
    }
  }

  /** A frozen action: its template is accepted, and lengths and prefix tables are the template's. */
  lemma ValidActionMeans(action: TextAction, fields: seq<TextField>)
    ensures ValidTextAction(action, fields)
            <==> && action.segments != [] && Acceptable(action.segments, fields)
                 && action.minRecordLength == ShortestRecord(action.segments, fields)
                 && action.maxRecordLength == LongestRecord(action.segments, fields)
                 && |action.prefixTables| == |action.segments|
                 && forall i: nat | i < |action.segments| && action.segments[i].Literal? ::
                      PrefixTable(action.segments[i].literal, action.prefixTables[i])
  {
    hide Acceptable, PrefixTable, ShortestRecord, LongestRecord;
  }

  // ---------------------------------------------------------------- characters

  /** The compiler built the field from bounds and a list of control bytes. */
  predicate Lists(field: TextField, controls: bytes) {
    forall c: byte :: FieldAllowsAscii(field, c) <==> 0x20 <= c <= 0x7E || c in controls
  }

  lemma ListMeans(field: TextField, controls: bytes, value: bytes)
    requires Lists(field, controls)
    ensures forall c: byte :: FieldAllowsAscii(field, c) <==> 0x20 <= c <= 0x7E || c in controls
    ensures AllAllowed(field, value)
            <==> forall c | c in value :: 0x20 <= c <= 0x7E || c in controls
  {
    hide FieldAllowsAscii;
    if AllAllowed(field, value) {
      forall c | c in value
        ensures 0x20 <= c <= 0x7E || c in controls
      {
        var i :| 0 <= i < |value| && value[i] == c;
        assert FieldAllowsAscii(field, value[i]);
      }
    } else {
      var i :| 0 <= i < |value| && !FieldAllowsAscii(field, value[i]);
      assert value[i] in value;
    }
  }

  /** A field as the compiler builds it is valid exactly if its bounds are in order. */
  lemma ListedIsValid(field: TextField, controls: bytes)
    requires Lists(field, controls)
    ensures ValidTextField(field) <==> field.minLength <= field.maxLength
    ensures ValidFields([field]) <==> field.minLength <= field.maxLength
  {
    hide FieldAllowsAscii;
    ListMeans(field, controls, []);
  }

  /** No piece has a character that is neither printable nor in its field's list. */
  lemma PermittedMeans(segments: seq<TextSegment>, fields: seq<TextField>, lists: seq<bytes>,
                       pieces: seq<bytes>)
    requires |lists| == |fields| && forall f | 0 <= f < |fields| :: Lists(fields[f], lists[f])
    requires |pieces| == |segments|
    requires forall i: nat | i < |segments| && segments[i].Field? ::
               segments[i].fieldIndex < |fields|
    ensures Permitted(segments, fields, pieces)
            <==> forall i: nat, c: byte | i < |segments| && segments[i].Field? && c in pieces[i] ::
                   0x20 <= c <= 0x7E || c in lists[segments[i].fieldIndex]
  {
    hide AllAllowed, Lists;
    forall i: nat | i < |segments| && segments[i].Field?
      ensures AllAllowed(fields[segments[i].fieldIndex], pieces[i])
              <==> forall c | c in pieces[i] ::
                     0x20 <= c <= 0x7E || c in lists[segments[i].fieldIndex]
    {
      ListMeans(fields[segments[i].fieldIndex], lists[segments[i].fieldIndex], pieces[i]);
    }
  }

  /** The walk told by the author's lists: it stops for a character exactly if one is unlisted. */
  method WalkListed(action: TextAction, fields: seq<TextField>, lists: seq<bytes>, input: bytes,
                    ghost pieces: seq<bytes>)
    returns (status: TextWalkStatus, visits: seq<Visit>)
    requires ValidTextAction(action, fields)
    requires |lists| == |fields| && forall f | 0 <= f < |fields| :: Lists(fields[f], lists[f])
    requires Parse(action.segments, fields, input, pieces)
    ensures status == Match || status == InvalidCharacter
    ensures status == InvalidCharacter
            <==> exists i: nat, c: byte ::
                   && i < |action.segments| == |pieces| && action.segments[i].Field?
                   && action.segments[i].fieldIndex < |lists|
                   && c in pieces[i] && !(0x20 <= c <= 0x7E)
                   && c !in lists[action.segments[i].fieldIndex]
    ensures status == Match ==> |pieces| == |action.segments|
                                && visits == Visits(action.segments, pieces)
  {
    hide Parse, Permitted, Visits, Lists, ShortestRecord, LongestRecord, Concat;
    ghost var found;
    status, visits, found := WalkTextAction(action, fields, input, true);
    PiecesPerSegment(action.segments, fields, input, pieces);
    forall i: nat | i < |action.segments| && action.segments[i].Field?
      ensures action.segments[i].fieldIndex < |fields|
    {
      assert Bounded(action.segments, fields, i);
    }
    PermittedMeans(action.segments, fields, lists, pieces);
    if status == Match {
      ReadingIs(action.segments, fields, input, found, pieces);
    }
  }

  // ---------------------------------------------------------------- inputs and records

  /** Why an input is refused, in terms of the template, the lengths and the author's list. */
  lemma ReasonMeans(segments: seq<TextSegment>, fields: seq<TextField>, lists: seq<bytes>,
                    inputs: seq<TextInput>, i: nat)
    requires |lists| == |fields| && forall f | 0 <= f < |fields| :: Lists(fields[f], lists[f])
    requires i < |inputs|
    ensures var f, value := inputs[i].fieldIndex, inputs[i].value;
            var reason := InputReason(segments, fields, inputs, i);
            && (reason == FieldReferenceMismatch <==> f >= |fields| || Field(f) !in segments)
            && (f < |fields| && Field(f) in segments ==>
                  && (reason == DuplicateField
                      <==> exists j :: 0 <= j < i && inputs[j].fieldIndex == f)
                  && ((forall j | 0 <= j < i :: inputs[j].fieldIndex != f) ==>
                        && (reason == BytesLengthMismatch
                            <==> |value| < fields[f].minLength || |value| > fields[f].maxLength)
                        && (fields[f].minLength <= |value| <= fields[f].maxLength ==>
                              if exists c :: c in value && !(0x20 <= c <= 0x7E) && c !in lists[f]
                              then reason == AsciiCharacterNotAllowed else reason == Ok)))
  {
    hide AllAllowed, Lists;
    var f := inputs[i].fieldIndex;
    if f < |fields| {
      ListMeans(fields[f], lists[f], inputs[i].value);
    }
  }

  /** The first reason against an input is the one reported; a missing field comes last. */
  lemma RefusalMeans(segments: seq<TextSegment>, fields: seq<TextField>, inputs: seq<TextInput>,
                     status: CodecStatus)
    requires status != Ok && RefusedFor(segments, fields, inputs, status)
    ensures forall i: nat | i < |inputs| && InputReason(segments, fields, inputs, i) != Ok ::
              (exists j: nat :: j < i && InputReason(segments, fields, inputs, j) != Ok)
              || status == InputReason(segments, fields, inputs, i)
    ensures (forall i: nat | i < |inputs| :: InputReason(segments, fields, inputs, i) == Ok) ==>
              && status == MissingField
              && exists f: nat :: f < |fields| && Field(f) in segments
                                  && forall j: nat | j < |inputs| :: inputs[j].fieldIndex != f
  {
    hide InputReason;
  }

  /** Which inputs are complete. */
  lemma CompleteMeans(segments: seq<TextSegment>, fields: seq<TextField>, lists: seq<bytes>,
                      inputs: seq<TextInput>)
    requires |lists| == |fields| && forall f | 0 <= f < |fields| :: Lists(fields[f], lists[f])
    ensures Complete(segments, fields, inputs)
            <==> && (forall i, j | 0 <= i < j < |inputs| ::
                       inputs[i].fieldIndex != inputs[j].fieldIndex)
                 && (forall i | 0 <= i < |inputs| ::
                       var f := inputs[i].fieldIndex;
                       && f < |fields| && Field(f) in segments
                       && fields[f].minLength <= |inputs[i].value| <= fields[f].maxLength
                       && forall c | c in inputs[i].value ::
                            0x20 <= c <= 0x7E || c in lists[f])
                 && forall f: nat | f < |fields| && Field(f) in segments ::
                      exists i :: 0 <= i < |inputs| && inputs[i].fieldIndex == f
  {
    hide AllAllowed, Lists;
    forall i {:trigger inputs[i]} | 0 <= i < |inputs|
      ensures Admitted(segments, fields, inputs[i])
              <==> var f := inputs[i].fieldIndex;
                   && f < |fields| && Field(f) in segments
                   && fields[f].minLength <= |inputs[i].value| <= fields[f].maxLength
                   && forall c | c in inputs[i].value :: 0x20 <= c <= 0x7E || c in lists[f]
    {
      if inputs[i].fieldIndex < |fields| {
        ListMeans(fields[inputs[i].fieldIndex], lists[inputs[i].fieldIndex], inputs[i].value);
      }
    }
    forall f: nat | f < |fields|
      ensures Encoded(segments, f) <==> Field(f) in segments
    {
    }
  }

  /** The record is the literals and the caller's values, in template order. */
  lemma RecordMeans(segments: seq<TextSegment>, inputs: seq<TextInput>, pieces: seq<bytes>)
    requires forall i, j | 0 <= i < j < |inputs| :: inputs[i].fieldIndex != inputs[j].fieldIndex
    requires |pieces| == |segments|
    requires forall i | 0 <= i < |segments| ::
               match segments[i]
               case Literal(literal) => pieces[i] == literal
               case Field(f) => TextInput(f, pieces[i]) in inputs
    ensures Pieces(segments, inputs) == pieces && Record(segments, inputs) == Concat(pieces)
  {
    hide Concat, ValueOf;
    forall i: nat | i < |segments|
      ensures pieces[i] == Piece(segments[i], inputs)
    {
      if segments[i].Field? {
        var k :| 0 <= k < |inputs| && inputs[k] == TextInput(segments[i].fieldIndex, pieces[i]);
        ValueIs(inputs, k);
      }
    }
    assert Pieces(segments, inputs) == pieces;
  }

  /** When no value ends early. */
  lemma UnmistakableMeans(segments: seq<TextSegment>, fields: seq<TextField>,
                          inputs: seq<TextInput>)
    requires forall i: nat | i < |segments| && segments[i].Field? ::
               segments[i].fieldIndex < |fields|
    ensures Unmistakable(segments, fields, inputs)
            <==> forall i: nat | && i + 1 < |segments| && segments[i].Field?
                                 && segments[i + 1].Literal?
                                 && fields[segments[i].fieldIndex].minLength
                                    != fields[segments[i].fieldIndex].maxLength ::
                   EndsFirst(Pieces(segments, inputs)[i], segments[i + 1].literal)
  {
    hide Clear, Terminator, EndsFirst, ValueOf;
    forall i: nat {:trigger segments[i]} | i < |segments|
      ensures Clear(segments, fields, i, Piece(segments[i], inputs))
              <==> (&& segments[i].Field? && i + 1 < |segments| && segments[i + 1].Literal?
                    && fields[segments[i].fieldIndex].minLength
                       != fields[segments[i].fieldIndex].maxLength
                    ==> EndsFirst(Pieces(segments, inputs)[i], segments[i + 1].literal))
    {
      ClearMeans(segments, fields, i, Piece(segments[i], inputs));
    }
  }

  /** What Decode answers for a record with a reading. */
  lemma DecodesMeans(action: TextAction, fields: seq<TextField>, lists: seq<bytes>, input: bytes,
                     slotCapacity: nat, status: CodecStatus, slots: seq<Visit>,
                     pieces: seq<bytes>)
    requires ValidTextAction(action, fields)
    requires |lists| == |fields| && forall f | 0 <= f < |fields| :: Lists(fields[f], lists[f])
    requires Decodes(action, fields, input, slotCapacity, status, slots)
    requires Parse(action.segments, fields, input, pieces)
    ensures |pieces| == |action.segments|
    ensures |Visits(action.segments, pieces)| > slotCapacity ==> status == OutputSlotsTooSmall
    ensures |Visits(action.segments, pieces)| <= slotCapacity ==>
              if exists i: nat, c: byte ::
                   && i < |pieces| && action.segments[i].Field?
                   && action.segments[i].fieldIndex < |lists| && c in pieces[i]
                   && !(0x20 <= c <= 0x7E) && c !in lists[action.segments[i].fieldIndex]
              then status == AsciiCharacterNotAllowed
              else status == Ok && slots == Visits(action.segments, pieces)
  {
    hide Parse, Permitted, Visits, Lists, ShortestRecord, LongestRecord, Concat;
    PiecesPerSegment(action.segments, fields, input, pieces);
    forall i: nat | i < |action.segments| && action.segments[i].Field?
      ensures action.segments[i].fieldIndex < |fields|
    {
      assert Bounded(action.segments, fields, i);
    }
    PermittedMeans(action.segments, fields, lists, pieces);
  }

  // ---------------------------------------------------------------- records in a stream

  /** The values that may stand in a record, by length and by the author's list. */
  lemma FitsMeans(segments: seq<TextSegment>, fields: seq<TextField>, lists: seq<bytes>,
                  pieces: seq<bytes>)
    requires |lists| == |fields| && forall f | 0 <= f < |fields| :: Lists(fields[f], lists[f])
    requires |pieces| == |segments|
    ensures FitsAll(segments, fields, pieces)
            <==> forall i | 0 <= i < |segments| ::
                   match segments[i]
                   case Literal(literal) => pieces[i] == literal
                   case Field(f) =>
                     && f < |fields|
                     && fields[f].minLength <= |pieces[i]| <= fields[f].maxLength
                     && forall c | c in pieces[i] :: 0x20 <= c <= 0x7E || c in lists[f]
  {
    hide Lists, AllAllowed;
    forall i {:trigger pieces[i]} | 0 <= i < |segments|
      ensures Fits(segments[i], fields, pieces[i])
              <==> match segments[i]
                   case Literal(literal) => pieces[i] == literal
                   case Field(f) =>
                     && f < |fields|
                     && fields[f].minLength <= |pieces[i]| <= fields[f].maxLength
                     && forall c | c in pieces[i] :: 0x20 <= c <= 0x7E || c in lists[f]
    {
      if segments[i].Field? && segments[i].fieldIndex < |fields| {
        ListMeans(fields[segments[i].fieldIndex], lists[segments[i].fieldIndex], pieces[i]);
      }
    }
  }

  /** The records a template spells. */
  lemma SpelledMeans(segments: seq<TextSegment>, fields: seq<TextField>, record: bytes)
    ensures record in Spelled(segments, fields)
            <==> exists pieces: seq<bytes> ::
                   FitsAll(segments, fields, pieces) && Concat(pieces) == record
  {
  }

  /** What the CRLF proof proves. */
  lemma BoundaryMeans(segments: seq<TextSegment>, fields: seq<TextField>)
    ensures CRLF == [0x0D, 0x0A]
    ensures EndsWithCrlf(segments)
            <==> && segments != [] && segments[|segments| - 1].Literal?
                 && var literal := segments[|segments| - 1].literal;
                    |literal| >= 2 && literal[|literal| - 2..] == CRLF
    ensures Resolved(segments, fields)
            <==> forall f: nat | Field(f) in segments :: f < |fields|
    ensures FirstCrlfEnds(segments, fields)
            <==> forall r | r in Spelled(segments, fields) ::
                   && |r| >= 2 && r[|r| - 2..] == CRLF
                   && forall j | 0 <= j < |r| - 2 :: !(CRLF <= r[j..])
  {
    hide Find, Spelled;
    forall r: bytes {:trigger r in Spelled(segments, fields)} | |r| >= 2
      ensures Find(CRLF, r) == Some(|r| - 2)
              <==> && r[|r| - 2..] == CRLF
                   && forall j | 0 <= j < |r| - 2 :: !(CRLF <= r[j..])
    {
      FirstIsLast(CRLF, r, |r| - 2);
    }
  }

  lemma FirstIsLast(p: bytes, r: bytes, last: nat)
    requires last + |p| == |r|
    ensures Find(p, r) == Some(last)
            <==> r[last..] == p && forall j | 0 <= j < last :: !(p <= r[j..])
  {
    hide Find;
    assert r[last..] == r[last..last + |p|];
    forall j: nat | j <= last
      ensures OccursAt(p, r, j) <==> p <= r[j..]
    {
      assert r[j..][..|p|] == r[j..j + |p|];
    }
    if Find(p, r) == Some(last) {
      FindIsLeftmost(p, r);
      NothingBefore(p, r, last);
    }
    if r[last..] == p && forall j | 0 <= j < last :: !(p <= r[j..]) {
      LeftmostIsFound(p, r, last);
    }
  }
}
