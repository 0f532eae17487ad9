/**
 * The text half of the complete-record codec: walking a template over a record, and writing a
 * record that the same walk reads back.
 */
module TextCodec {
  import opened Bytes
  import opened Kmp
  import opened TextTemplates

  const MAX_UINT64: nat := 0xFFFF_FFFF_FFFF_FFFF

  /** A frozen action: its template, the prefix table of every literal, and its length bounds. */
  datatype TextAction = TextAction(
    segments: seq<TextSegment>,
    prefixTables: seq<seq<nat>>,
    minRecordLength: nat,
    maxRecordLength: nat)

  // ---------------------------------------------------------------- accepting an action

  predicate Variable(field: TextField) {
    field.minLength != field.maxLength
  }

  /** A variable field that is not last is ended by a literal. */
  predicate Bounded(segments: seq<TextSegment>, fields: seq<TextField>, i: nat) {
    i < |segments| && match segments[i]
    case Literal(literal) => literal != []
    case Field(index) =>
      && index < |fields|
      && (Variable(fields[index]) && i + 1 < |segments| ==> segments[i + 1].Literal?)
  }

  predicate Once(segments: seq<TextSegment>, i: nat) {
    forall j: nat | j < i < |segments| && segments[i].Field? :: segments[j] != segments[i]
  }

  function SegmentShortest(segment: TextSegment, fields: seq<TextField>): nat {
    match segment
    case Literal(literal) => |literal|
    case Field(index) => if index < |fields| then fields[index].minLength else 0
  }

  function SegmentLongest(segment: TextSegment, fields: seq<TextField>): nat {
    match segment
    case Literal(literal) => |literal|
    case Field(index) => if index < |fields| then fields[index].maxLength else 0
  }

  function ShortestRecord(segments: seq<TextSegment>, fields: seq<TextField>): nat {
    if segments == [] then 0
    else ShortestRecord(segments[..|segments| - 1], fields)
         + SegmentShortest(segments[|segments| - 1], fields)
  }

  function LongestRecord(segments: seq<TextSegment>, fields: seq<TextField>): nat {
    if segments == [] then 0
    else LongestRecord(segments[..|segments| - 1], fields)
         + SegmentLongest(segments[|segments| - 1], fields)
  }

  lemma {:induction false} SumsGrow(segments: seq<TextSegment>, fields: seq<TextField>, k: nat)
    requires k <= |segments|
    ensures ShortestRecord(segments[..k], fields) <= ShortestRecord(segments, fields)
    ensures LongestRecord(segments[..k], fields) <= LongestRecord(segments, fields)
    decreases |segments|
  {
    if k == |segments| {
      assert segments[..k] == segments;
    } else {
      var shorter := segments[..|segments| - 1];
      assert shorter[..k] == segments[..k];
      SumsGrow(shorter, fields, k);
    }
  }

  /** The template is usable, and its record lengths fit the machine's 64-bit counters. */
  predicate Acceptable(segments: seq<TextSegment>, fields: seq<TextField>) {
    && (forall i: nat | i < |segments| :: Bounded(segments, fields, i) && Once(segments, i))
    && ShortestRecord(segments, fields) <= MAX_UINT64 && LongestRecord(segments, fields) <= MAX_UINT64
  }

  method ValidateTextAction(segments: seq<TextSegment>, fields: seq<TextField>)
    returns (accepted: bool, minimum: nat, maximum: nat)
    ensures accepted <==> Acceptable(segments, fields)
    ensures accepted ==> minimum == ShortestRecord(segments, fields) && maximum == LongestRecord(segments, fields)
  {
    hide ShortestRecord, LongestRecord;
    minimum, maximum := 0, 0;
    LengthsAt(segments, fields, 0);
    var references: set<nat> := {};
    for k := 0 to |segments|
      invariant forall i: nat | i < k :: Bounded(segments, fields, i) && Once(segments, i)
      invariant forall f: nat :: f in references <==> Field(f) in segments[..k]
      invariant minimum == ShortestRecord(segments[..k], fields) <= MAX_UINT64
      invariant maximum == LongestRecord(segments[..k], fields) <= MAX_UINT64
    {
      LengthsAt(segments, fields, k);
      SumsGrow(segments, fields, k + 1);
      assert segments[..k + 1] == segments[..k] + [segments[k]];
      var segment := segments[k];
      minimum, maximum :=
        minimum + SegmentShortest(segment, fields), maximum + SegmentLongest(segment, fields);
      if segment.Literal? {
        if segment.literal == [] || minimum > MAX_UINT64 || maximum > MAX_UINT64 {
          assert segment.literal == [] ==> !Bounded(segments, fields, k);
          return false, 0, 0;
        }
      } else {
        var index := segment.fieldIndex;
        if index >= |fields| {
          assert !Bounded(segments, fields, k);
          return false, 0, 0;
        }
        if index in references {
          assert !Once(segments, k);
          return false, 0, 0;
        }
        references := references + {index};
        if minimum > MAX_UINT64 || maximum > MAX_UINT64 {
          return false, 0, 0;
        }
        if Variable(fields[index]) && k + 1 < |segments| && !segments[k + 1].Literal? {
          assert !Bounded(segments, fields, k);
          return false, 0, 0;
        }
      }
    }
    assert segments[..|segments|] == segments;
    accepted := true;
  }

  lemma LengthsAt(segments: seq<TextSegment>, fields: seq<TextField>, k: nat)
    requires k <= |segments|
    ensures k == 0 ==> ShortestRecord(segments[..k], fields) == LongestRecord(segments[..k], fields) == 0
    ensures k < |segments| ==>
              && ShortestRecord(segments[..k + 1], fields)
                 == ShortestRecord(segments[..k], fields) + SegmentShortest(segments[k], fields)
              && LongestRecord(segments[..k + 1], fields)
                 == LongestRecord(segments[..k], fields) + SegmentLongest(segments[k], fields)
  {
    if k < |segments| {
      assert segments[..k + 1][..k] == segments[..k];
    }
  }

  ghost predicate ValidTextAction(action: TextAction, fields: seq<TextField>) {
    && action.segments != [] && Acceptable(action.segments, fields)
    && action.minRecordLength == ShortestRecord(action.segments, fields)
    && action.maxRecordLength == LongestRecord(action.segments, fields)
    && |action.prefixTables| == |action.segments|
    && forall i: nat | i < |action.segments| && action.segments[i].Literal? ::
         PrefixTable(action.segments[i].literal, action.prefixTables[i])
  }

  /** Freezing an accepted template: lengths and prefix tables are computed once. */
  method FreezeTextAction(segments: seq<TextSegment>, fields: seq<TextField>)
    returns (action: Option<TextAction>)
    requires segments != []
    ensures action.Some? <==> Acceptable(segments, fields)
    ensures action.Some? ==> action.value.segments == segments && ValidTextAction(action.value, fields)
  {
    hide Acceptable, PrefixTable;
    var accepted, minimum, maximum := ValidateTextAction(segments, fields);
    if !accepted {
      return None;
    }
    var tables: seq<seq<nat>> := [];
    for k := 0 to |segments|
      invariant |tables| == k
      invariant forall i: nat | i < k && segments[i].Literal? ::
                  PrefixTable(segments[i].literal, tables[i])
    {
      var table: seq<nat> := [];
      if segments[k].Literal? {
        table := BuildPrefixTable(segments[k].literal);
      }
      tables := tables + [table];
    }
    action := Some(TextAction(segments, tables, minimum, maximum));
  }

  // ---------------------------------------------------------------- searching a terminator

  /** The scan stops where a match could only begin too late to end an admissible field. */
  method FindTextLiteral(input: bytes, begin: nat, maximumFieldLength: nat, literal: bytes,
                         table: seq<nat>)
    returns (found: Option<nat>)
    requires begin <= |input| && literal != [] && PrefixTable(literal, table)
    ensures var i := Find(literal, input[begin..]);
            found == if i.Some? && i.value <= maximumFieldLength then Some(begin + i.value) else None
  {
    hide Find, Longest;
    var scanEnd := |input|;
    if maximumFieldLength <= |input| - begin
       && |literal| <= |input| - begin - maximumFieldLength {
      scanEnd := begin + maximumFieldLength + |literal|;
    }
    var prefix: nat := 0;
    var index := begin;
    ScanStart(literal);
    assert input[begin..begin] == [];
    while index < scanEnd
      invariant begin <= index <= scanEnd
      invariant Scanned(literal, input[begin..index], prefix)
    {
      TablePrefix(literal, table, |literal|, prefix);
      var next, units := Advance(literal, table, input[begin..index], prefix, input[index]);
      ScanStep(literal, input[begin..index], input[index]);
      assert input[begin..index] + [input[index]] == input[begin..index + 1];
      prefix := next;
      if prefix == |literal| {
        InTwo(input, begin, index + 1);
        FindStable(literal, input[begin..index + 1], input[index + 1..]);
        return Some(index + 1 - prefix);
      }
      index := index + 1;
    }
    assert input[begin..][..scanEnd - begin] == input[begin..scanEnd];
    CutOff(literal, input[begin..], scanEnd - begin, maximumFieldLength);
    found := None;
  }

  lemma InTwo(s: bytes, from: nat, at: nat)
    requires from <= at <= |s|
    ensures s[from..] == s[from..at] + s[at..]
  {
  }

  lemma CutOff(literal: bytes, s: bytes, n: nat, maximum: nat)
    requires n <= |s| && (n == |s| || n == maximum + |literal|) && Find(literal, s[..n]) == None
    ensures Find(literal, s).Some? ==> Find(literal, s).value > maximum
  {
    hide Find;
    FindIsLeftmost(literal, s);
    if Find(literal, s).Some? && Find(literal, s).value + |literal| <= n {
      FoundInPrefix(literal, s, n);
    }
    if n == |s| {
      assert s[..n] == s;
    }
  }

  /** Where a value followed by its terminator is first seen to end. */
  method FindFirstAcrossBoundary(value: bytes, literal: bytes, table: seq<nat>)
    returns (found: Option<nat>)
    requires literal != [] && PrefixTable(literal, table)
    ensures found == Find(literal, value + literal)
  {
    hide Find, Longest;
    var total := |value| + |literal|;
    ghost var text := value + literal;
    var prefix: nat := 0;
    ScanStart(literal);
    for index := 0 to total
      invariant Scanned(literal, text[..index], prefix)
    {
      var b := if index < |value| then value[index] else literal[index - |value|];
      assert b == text[index];
      TablePrefix(literal, table, |literal|, prefix);
      var next, units := Advance(literal, table, text[..index], prefix, b);
      ScanStep(literal, text[..index], b);
      assert text[..index] + [b] == text[..index + 1];
      prefix := next;
      if prefix == |literal| {
        assert text == text[..index + 1] + text[index + 1..];
        FindStable(literal, text[..index + 1], text[index + 1..]);
        return Some(index + 1 - prefix);
      }
    }
    assert text[..total] == text;
    found := None;
  }

  // ---------------------------------------------------------------- what a walk finds

  /** `piece` has a length the segment admits; its characters may still be forbidden. */
  predicate Shapes(segment: TextSegment, fields: seq<TextField>, piece: bytes) {
    match segment
    case Literal(literal) => piece == literal
    case Field(index) => index < |fields| && Sized(fields[index], piece)
  }

  /** The literal that ends segment `i`, if the walk has to search for it. */
  function Terminator(segments: seq<TextSegment>, fields: seq<TextField>, i: nat): Option<bytes> {
    if i + 1 < |segments| && segments[i].Field? && segments[i].fieldIndex < |fields|
       && Variable(fields[segments[i].fieldIndex]) && segments[i + 1].Literal?
    then Some(segments[i + 1].literal)
    else None
  }

  /** Nothing that could be taken for the terminator begins before the piece's end. */
  predicate Clear(segments: seq<TextSegment>, fields: seq<TextField>, i: nat, piece: bytes) {
    var t := Terminator(segments, fields, i);
    t.Some? ==> Find(t.value, piece + t.value) == Some(|piece|)
  }

  /** `pieces` is a way to read `input` as the template's segments. */
  ghost predicate Parse(segments: seq<TextSegment>, fields: seq<TextField>, input: bytes,
                        pieces: seq<bytes>)
  {
    && |pieces| == |segments| && Concat(pieces) == input
    && forall i: nat {:trigger pieces[i]} | i < |pieces| ::
         Shapes(segments[i], fields, pieces[i]) && Clear(segments, fields, i, pieces[i])
  }

  /** No piece has a character its field forbids. */
  predicate Permitted(segments: seq<TextSegment>, fields: seq<TextField>, pieces: seq<bytes>) {
    |pieces| == |segments| &&
    forall i: nat {:trigger pieces[i]} | i < |pieces| && segments[i].Field? ::
      segments[i].fieldIndex < |fields| && AllAllowed(fields[segments[i].fieldIndex], pieces[i])
  }

  /** What is left of the input at segment `k` begins with that segment's piece. */
  lemma {:induction false} ConcatSplit(pieces: seq<bytes>, k: nat)
    requires k < |pieces|
    ensures Concat(pieces) == Concat(pieces[..k]) + pieces[k] + Concat(pieces[k + 1..])
    ensures k + 1 < |pieces| ==> pieces[k + 1] <= Concat(pieces[k + 1..])
    ensures k + 1 == |pieces| ==> Concat(pieces[k + 1..]) == []
  {
    if k == 0 {
      assert pieces[..0] == [];
    } else {
      ConcatSplit(pieces[1..], k - 1);
      assert pieces[..k] == [pieces[0]] + pieces[1..][..k - 1];
      assert pieces[1..][k..] == pieces[k + 1..];
    }
  }

  /** At each segment the input leaves the piece no choice. */
  lemma PieceForced(segments: seq<TextSegment>, fields: seq<TextField>, input: bytes,
                    pieces: seq<bytes>, k: nat)
    requires Parse(segments, fields, input, pieces) && k < |segments|
    ensures var cursor := |Concat(pieces[..k])|;
            && cursor + |pieces[k]| <= |input| && input[cursor..cursor + |pieces[k]|] == pieces[k]
            && Shapes(segments[k], fields, pieces[k]) && Clear(segments, fields, k, pieces[k])
            && (k + 1 == |segments| ==> cursor + |pieces[k]| == |input|)
            && var t := Terminator(segments, fields, k);
               t.Some? ==> Find(t.value, input[cursor..]) == Some(|pieces[k]|)
  {
    hide Find, Clear;
    ConcatSplit(pieces, k);
    assert Clear(segments, fields, k, pieces[k]);
    var t := Terminator(segments, fields, k);
    if t.Some? {
      assert pieces[k + 1] == t.value;
      var rest := Concat(pieces[k + 1..]);
      var cursor := |Concat(pieces[..k])|;
      assert input[cursor..] == (pieces[k] + t.value) + rest[|t.value|..];
      ClearFinds(segments, fields, k, pieces[k], rest[|t.value|..]);
    }
  }

  lemma ClearFinds(segments: seq<TextSegment>, fields: seq<TextField>, k: nat, piece: bytes,
                   rest: bytes)
    requires Clear(segments, fields, k, piece) && Terminator(segments, fields, k).Some?
    ensures var t := Terminator(segments, fields, k).value;
            Find(t, (piece + t) + rest) == Some(|piece|)
  {
    FindStable(Terminator(segments, fields, k).value,
               piece + Terminator(segments, fields, k).value, rest);
  }

  /** A record can be read in one way only. */
  lemma {:induction false} ParseUnique(segments: seq<TextSegment>, fields: seq<TextField>,
                                       input: bytes, p: seq<bytes>, q: seq<bytes>, k: nat)
    requires forall i: nat | i < |segments| :: Bounded(segments, fields, i)
    requires Parse(segments, fields, input, p) && Parse(segments, fields, input, q)
    requires k <= |segments|
    ensures p[..k] == q[..k]
  {
    hide Find, Clear;
    if k > 0 {
      ParseUnique(segments, fields, input, p, q, k - 1);
      PieceForced(segments, fields, input, p, k - 1);
      PieceForced(segments, fields, input, q, k - 1);
      assert Bounded(segments, fields, k - 1);
      assert |p[k - 1]| == |q[k - 1]|;
      assert p[..k] == p[..k - 1] + [p[k - 1]] && q[..k] == q[..k - 1] + [q[k - 1]];
    }
  }

  /** A parsed record's length is within the action's bounds. */
  lemma {:induction false} ParseLength(segments: seq<TextSegment>, fields: seq<TextField>,
                                       pieces: seq<bytes>, k: nat)
    requires |pieces| == |segments| && k <= |segments|
    requires forall i: nat | i < |pieces| :: Shapes(segments[i], fields, pieces[i])
    ensures ShortestRecord(segments[..k], fields) <= |Concat(pieces[..k])|
            <= LongestRecord(segments[..k], fields)
  {
    if k > 0 {
      ParseLength(segments, fields, pieces, k - 1);
      LengthsAt(segments, fields, k - 1);
      assert Shapes(segments[k - 1], fields, pieces[k - 1]);
      assert pieces[..k] == pieces[..k - 1] + [pieces[k - 1]];
      ConcatAppend(pieces[..k - 1], pieces[k - 1]);
    }
  }

  // ---------------------------------------------------------------- the walk

  datatype TextWalkStatus = Match | NoMatch | InvalidCharacter | InvalidPlan

  /** A field's value as the walk reports it: which field, from where, how long. */
  datatype Visit = Visit(fieldIndex: nat, offset: nat, length: nat)

  /** The field values of a reading, in template order. */
  function Visits(segments: seq<TextSegment>, pieces: seq<bytes>): seq<Visit>
    requires |pieces| == |segments|
  {
    if segments == [] then []
    else
      var k := |segments| - 1;
      Visits(segments[..k], pieces[..k])
      + if segments[k].Field?
        then [Visit(segments[k].fieldIndex, |Concat(pieces[..k])|, |pieces[k]|)] else []
  }

  /** A variable field at the very end takes all that is left. */
  predicate Trailing(segments: seq<TextSegment>, fields: seq<TextField>, k: nat) {
    k + 1 == |segments| && segments[k].Field? && segments[k].fieldIndex < |fields|
    && Variable(fields[segments[k].fieldIndex])
  }

  /** `piece` can be what segment `k` reads at `cursor`. */
  ghost predicate Candidate(segments: seq<TextSegment>, fields: seq<TextField>, input: bytes,
                            cursor: nat, k: nat, piece: bytes)
  {
    && k < |segments| && cursor + |piece| <= |input|
    && input[cursor..cursor + |piece|] == piece
    && Shapes(segments[k], fields, piece) && Clear(segments, fields, k, piece)
    && (Trailing(segments, fields, k) ==> cursor + |piece| == |input|)
    && var t := Terminator(segments, fields, k);
       t.Some? ==> Find(t.value, input[cursor..]) == Some(|piece|)
  }

  lemma CandidateUnique(segments: seq<TextSegment>, fields: seq<TextField>, input: bytes,
                        cursor: nat, k: nat, p: bytes, q: bytes)
    requires Bounded(segments, fields, k)
    requires Candidate(segments, fields, input, cursor, k, p)
    requires Candidate(segments, fields, input, cursor, k, q)
    ensures p == q
  {
    hide Find;
    assert |p| == |q|;
  }

  /** However the input can be read, it begins with the pieces read so far. */
  ghost predicate OnTrack(segments: seq<TextSegment>, fields: seq<TextField>, input: bytes,
                          done: seq<bytes>)
  {
    forall q :: Parse(segments, fields, input, q) ==> |done| <= |q| && q[..|done|] == done
  }

  lemma StaysOnTrack(segments: seq<TextSegment>, fields: seq<TextField>, input: bytes,
                     done: seq<bytes>, cursor: nat, piece: bytes)
    requires OnTrack(segments, fields, input, done) && |Concat(done)| == cursor
    requires Bounded(segments, fields, |done|)
    requires Candidate(segments, fields, input, cursor, |done|, piece)
    ensures OnTrack(segments, fields, input, done + [piece])
  {
    hide Candidate, Parse, Bounded;
    forall q | Parse(segments, fields, input, q)
      ensures |done| + 1 <= |q| && q[..|done| + 1] == done + [piece]
    {
      CandidateOfSegment(segments, fields, input, cursor, |done|, piece);
      ReadingIsCandidate(segments, fields, input, done, cursor, q);
      CandidateUnique(segments, fields, input, cursor, |done|, piece, q[|done|]);
    }
  }

  lemma CandidateOfSegment(segments: seq<TextSegment>, fields: seq<TextField>, input: bytes,
                           cursor: nat, k: nat, piece: bytes)
    requires Candidate(segments, fields, input, cursor, k, piece)
    ensures k < |segments|
  {
  }

  lemma ReadingIsCandidate(segments: seq<TextSegment>, fields: seq<TextField>, input: bytes,
                           done: seq<bytes>, cursor: nat, q: seq<bytes>)
    requires Parse(segments, fields, input, q) && OnTrack(segments, fields, input, done)
    requires |done| < |segments| && |Concat(done)| == cursor
    ensures |done| < |q| && q[..|done|] == done
    ensures Candidate(segments, fields, input, cursor, |done|, q[|done|])
  {
    hide Clear, Find, Shapes;
    PieceForced(segments, fields, input, q, |done|);
  }

  /** No piece fits: there is no way to read the input. */
  lemma Stuck(segments: seq<TextSegment>, fields: seq<TextField>, input: bytes, done: seq<bytes>,
              cursor: nat)
    requires OnTrack(segments, fields, input, done) && |Concat(done)| == cursor
    requires |done| < |segments|
    requires forall piece :: !Candidate(segments, fields, input, cursor, |done|, piece)
    ensures forall q :: !Parse(segments, fields, input, q)
  {
    hide Candidate, Parse;
    forall q
      ensures !Parse(segments, fields, input, q)
    {
      if Parse(segments, fields, input, q) {
        ReadingIsCandidate(segments, fields, input, done, cursor, q);
      }
    }
  }

  lemma TerminatorEnds(segments: seq<TextSegment>, fields: seq<TextField>, input: bytes,
                       cursor: nat, k: nat, length: nat)
    requires cursor <= |input| && Terminator(segments, fields, k).Some?
    requires Find(Terminator(segments, fields, k).value, input[cursor..]) == Some(length)
    ensures cursor + length <= |input|
    ensures Clear(segments, fields, k, input[cursor..cursor + length])
  {
    hide Find;
    var t, rest := Terminator(segments, fields, k).value, input[cursor..];
    FindIsLeftmost(t, rest);
    NothingBefore(t, rest, length);
    FindOccurs(t, rest);
    FoundInPrefix(t, rest, length + |t|);
    assert rest[..length + |t|] == input[cursor..cursor + length] + t;
  }

  lemma {:induction false} FindOccurs(p: bytes, s: bytes)
    requires Find(p, s).Some?
    ensures OccursAt(p, s, Find(p, s).value)
  {
    FindIsLeftmost(p, s);
  }

  /** How long the value of field segment `k` is at `cursor`. */
  method MeasureField(action: TextAction, fields: seq<TextField>, input: bytes, cursor: nat, k: nat)
    returns (status: TextWalkStatus, length: nat)
    requires ValidTextAction(action, fields) && cursor <= |input|
    requires k < |action.segments| && action.segments[k].Field?
    ensures status == Match || status == NoMatch
    ensures status == Match ==> cursor + length <= |input|
    ensures status == Match ==>
              Candidate(action.segments, fields, input, cursor, k, input[cursor..cursor + length])
    ensures status == NoMatch ==>
              forall piece :: !Candidate(action.segments, fields, input, cursor, k, piece)
  {
    hide Find, ShortestRecord, LongestRecord;
    var segments := action.segments;
    assert Bounded(segments, fields, k);
    var field := fields[segments[k].fieldIndex];
    status, length := NoMatch, 0;
    if field.minLength == field.maxLength {
      length := field.minLength;
      if length > |input| - cursor {
        return;
      }
    } else if k + 1 == |segments| {
      length := |input| - cursor;
    } else {
      var terminator := segments[k + 1];
      if !terminator.Literal? {
        status := InvalidPlan;
        return;
      }
      assert Bounded(segments, fields, k + 1);
      var found := FindTextLiteral(input, cursor, field.maxLength, terminator.literal,
                                   action.prefixTables[k + 1]);
      if found == None {
        return;
      }
      length := found.value - cursor;
      TerminatorEnds(segments, fields, input, cursor, k, length);
    }
    if length < field.minLength || length > field.maxLength {
      return;
    }
    status := Match;
  }

  /**
   * The walk. It matches exactly the inputs that can be read as the template, and reports the
   * slices of the one way to read them; asked to look at characters, it accepts them exactly when
   * no piece has a forbidden one.
   */
  method WalkTextAction(action: TextAction, fields: seq<TextField>, input: bytes, validate: bool)
    returns (status: TextWalkStatus, visits: seq<Visit>, ghost pieces: seq<bytes>)
    requires ValidTextAction(action, fields)
    ensures status == Match ==>
              && Parse(action.segments, fields, input, pieces)
              && visits == Visits(action.segments, pieces)
    ensures forall q :: Parse(action.segments, fields, input, q) ==>
              status == if !validate || Permitted(action.segments, fields, q)
                        then Match else InvalidCharacter
    ensures status == Match && validate ==> Permitted(action.segments, fields, pieces)
  {
    hide Find, ShortestRecord, LongestRecord, Candidate, Clear, Parse, PrefixTable, AllAllowed, OnTrack,
         ReadSoFar, Visits, Concat, Permitted;
    var segments := action.segments;
    visits, pieces := [], [];
    if |input| < action.minRecordLength || |input| > action.maxRecordLength || segments == [] {
      NotThatLong(segments, fields, input);
      return NoMatch, visits, pieces;
    }
    var cursor: nat := 0;
    StartsOnTrack(segments, fields, input, validate);
    for k := 0 to |segments|
      invariant cursor <= |input| && |pieces| == k && Concat(pieces) == input[..cursor]
      invariant OnTrack(segments, fields, input, pieces)
      invariant ReadSoFar(segments, fields, pieces, validate)
      invariant visits == Visits(segments[..k], pieces)
    {
      var length;
      status, length := ReadSegment(action, fields, input, cursor, k, validate);
      if status == NoMatch || status == InvalidPlan {
        Stuck(segments, fields, input, pieces, cursor);
        return status, visits, pieces;
      }
      ghost var piece := input[cursor..cursor + length];
      assert Bounded(segments, fields, k);
      StaysOnTrack(segments, fields, input, pieces, cursor, piece);
      if status == InvalidCharacter {
        Forbidden(segments, fields, input, pieces + [piece]);
        return status, visits, pieces;
      }
      if segments[k].Field? {
        visits := visits + [Visit(segments[k].fieldIndex, cursor, length)];
      }
      ReadMore(segments, fields, input, cursor, pieces, piece, validate);
      ReadOn(segments, input, cursor, pieces, piece);
      pieces := pieces + [piece];
      cursor := cursor + length;
    }
    assert segments[..|segments|] == segments;
    WalkEnds(segments, fields, input, pieces, cursor, validate);
    status := if cursor == |input| then Match else NoMatch;
  }

  /** One segment of the walk: how much of the input it reads at `cursor`, if any. */
  method ReadSegment(action: TextAction, fields: seq<TextField>, input: bytes, cursor: nat, k: nat,
                     validate: bool)
    returns (status: TextWalkStatus, length: nat)
    requires ValidTextAction(action, fields) && cursor <= |input| && k < |action.segments|
    ensures status != InvalidPlan
    ensures status == NoMatch ==>
              forall piece :: !Candidate(action.segments, fields, input, cursor, k, piece)
    ensures status != NoMatch ==> cursor + length <= |input|
    ensures status != NoMatch ==>
              Candidate(action.segments, fields, input, cursor, k, input[cursor..cursor + length])
    ensures status != NoMatch ==>
              if validate && action.segments[k].Field?
                 && !AllAllowed(fields[action.segments[k].fieldIndex],
                                input[cursor..cursor + length])
              then status == InvalidCharacter else status == Match
  {
    hide Find, ShortestRecord, LongestRecord, Clear, PrefixTable, AllAllowed;
    var segments := action.segments;
    status, length := NoMatch, 0;
    if segments[k].Literal? {
      var literal := segments[k].literal;
      if |literal| > |input| - cursor || input[cursor..cursor + |literal|] != literal {
        NoLiteral(segments, fields, input, cursor, k);
        return;
      }
      LiteralCandidate(segments, fields, input, cursor, k);
      status, length := Match, |literal|;
    } else {
      assert Bounded(segments, fields, k);
      status, length := MeasureField(action, fields, input, cursor, k);
      if status == Match && validate {
        var allowed := CheckCharacters(fields[segments[k].fieldIndex],
                                       input[cursor..cursor + length]);
        if !allowed {
          status := InvalidCharacter;
        }
      }
    }
  }

  method CheckCharacters(field: TextField, value: bytes) returns (allowed: bool)
    ensures allowed == AllAllowed(field, value)
  {
    hide FieldAllowsAscii;
    for i := 0 to |value|
      invariant forall j | 0 <= j < i :: FieldAllowsAscii(field, value[j])
    {
      if !FieldAllowsAscii(field, value[i]) {
        return false;
      }
    }
    return true;
  }

  /** What holds of the pieces a walk has read. */
  ghost predicate ReadSoFar(segments: seq<TextSegment>, fields: seq<TextField>,
                            pieces: seq<bytes>, validate: bool)
  {
    |pieces| <= |segments| &&
    forall i: nat {:trigger pieces[i]} | i < |pieces| ::
      && Shapes(segments[i], fields, pieces[i]) && Clear(segments, fields, i, pieces[i])
      && (validate && segments[i].Field? ==>
            AllAllowed(fields[segments[i].fieldIndex], pieces[i]))
  }

  lemma ReadMore(segments: seq<TextSegment>, fields: seq<TextField>, input: bytes, cursor: nat,
                 pieces: seq<bytes>, piece: bytes, validate: bool)
    requires ReadSoFar(segments, fields, pieces, validate)
    requires Candidate(segments, fields, input, cursor, |pieces|, piece)
    requires validate && segments[|pieces|].Field? ==>
               AllAllowed(fields[segments[|pieces|].fieldIndex], piece)
    ensures ReadSoFar(segments, fields, pieces + [piece], validate)
  {
    hide Clear, AllAllowed;
  }

  lemma ReadOn(segments: seq<TextSegment>, input: bytes, cursor: nat, pieces: seq<bytes>,
               piece: bytes)
    requires |pieces| < |segments|
    requires cursor + |piece| <= |input| && Concat(pieces) == input[..cursor]
    requires input[cursor..cursor + |piece|] == piece
    ensures Concat(pieces + [piece]) == input[..cursor + |piece|]
    ensures var k := |pieces|;
            Visits(segments[..k + 1], pieces + [piece])
            == Visits(segments[..k], pieces)
               + if segments[k].Field? then [Visit(segments[k].fieldIndex, cursor, |piece|)] else []
  {
    hide Concat, Visits;
    ConcatAppend(pieces, piece);
    VisitsMore(segments, pieces, piece, |pieces|);
  }

  lemma VisitsMore(segments: seq<TextSegment>, pieces: seq<bytes>, piece: bytes, k: nat)
    requires k == |pieces| < |segments|
    ensures Visits(segments[..k + 1], pieces + [piece])
            == Visits(segments[..k], pieces)
               + if segments[k].Field?
                 then [Visit(segments[k].fieldIndex, |Concat(pieces)|, |piece|)] else []
  {
    assert segments[..k + 1][..k] == segments[..k];
    assert (pieces + [piece])[..k] == pieces;
  }

  lemma StartsOnTrack(segments: seq<TextSegment>, fields: seq<TextField>, input: bytes,
                      validate: bool)
    ensures OnTrack(segments, fields, input, []) && ReadSoFar(segments, fields, [], validate)
    ensures Concat([]) == input[..0] && Visits(segments[..0], []) == []
  {
  }

  lemma LiteralCandidate(segments: seq<TextSegment>, fields: seq<TextField>, input: bytes,
                         cursor: nat, k: nat)
    requires k < |segments| && segments[k].Literal?
    requires cursor + |segments[k].literal| <= |input|
    requires input[cursor..cursor + |segments[k].literal|] == segments[k].literal
    ensures Candidate(segments, fields, input, cursor, k, segments[k].literal)
  {
  }

  lemma NoLiteral(segments: seq<TextSegment>, fields: seq<TextField>, input: bytes, cursor: nat,
                  k: nat)
    requires k < |segments| && segments[k].Literal? && cursor <= |input|
    requires |segments[k].literal| > |input| - cursor
             || input[cursor..cursor + |segments[k].literal|] != segments[k].literal
    ensures forall piece :: !Candidate(segments, fields, input, cursor, k, piece)
  {
  }

  lemma NotThatLong(segments: seq<TextSegment>, fields: seq<TextField>, input: bytes)
    requires |input| < ShortestRecord(segments, fields) || |input| > LongestRecord(segments, fields)
             || segments == []
    ensures segments != [] ==> forall q :: !Parse(segments, fields, input, q)
  {
    hide ShortestRecord, LongestRecord, Clear;
    forall q | Parse(segments, fields, input, q)
      ensures segments == []
    {
      ParseLength(segments, fields, q, |segments|);
      assert segments[..|segments|] == segments && q[..|q|] == q;
    }
  }

  lemma Forbidden(segments: seq<TextSegment>, fields: seq<TextField>, input: bytes,
                  done: seq<bytes>)
    requires OnTrack(segments, fields, input, done) && 0 < |done| <= |segments|
    requires var k := |done| - 1;
             segments[k].Field? && segments[k].fieldIndex < |fields|
             && !AllAllowed(fields[segments[k].fieldIndex], done[k])
    ensures forall q :: Parse(segments, fields, input, q) ==> !Permitted(segments, fields, q)
  {
    hide Parse, AllAllowed;
    forall q | Parse(segments, fields, input, q)
      ensures !Permitted(segments, fields, q)
    {
      assert q[..|done|][|done| - 1] == q[|done| - 1];
    }
  }

  lemma WalkEnds(segments: seq<TextSegment>, fields: seq<TextField>, input: bytes,
                 pieces: seq<bytes>, cursor: nat, validate: bool)
    requires |pieces| == |segments| && cursor <= |input| && Concat(pieces) == input[..cursor]
    requires OnTrack(segments, fields, input, pieces)
    requires ReadSoFar(segments, fields, pieces, validate)
    ensures cursor == |input| ==> Parse(segments, fields, input, pieces)
    ensures validate ==> Permitted(segments, fields, pieces)
    ensures forall q :: Parse(segments, fields, input, q) ==> q == pieces && cursor == |input|
  {
    hide Clear, AllAllowed;
    assert input[..|input|] == input;
    if validate {
      forall i: nat | i < |pieces| && segments[i].Field?
        ensures segments[i].fieldIndex < |fields|
                && AllAllowed(fields[segments[i].fieldIndex], pieces[i])
      {
        assert Shapes(segments[i], fields, pieces[i]);
      }
    }
    forall q | Parse(segments, fields, input, q)
      ensures q == pieces && cursor == |input|
    {
      assert q[..|pieces|] == q;
    }
  }
}
