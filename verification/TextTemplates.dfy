/**
 * Text actions: a record is a sequence of fixed literals and of fields whose values have bounded
 * length and allowed characters.
 */
module TextTemplates {
  import opened Bytes

  /** The 128-bit set of allowed characters is kept in two words, as the frozen plan keeps it. */
  datatype TextField = TextField(minLength: nat, maxLength: nat, allowedLow: bv64, allowedHigh: bv64)

  datatype TextSegment = Literal(literal: bytes) | Field(fieldIndex: nat)

  /** `1 << k`. */
  function Flag(k: nat): bv64 {
    if k == 0 then 1 else Twice(Flag(k - 1))
  }

  function Twice(x: bv64): bv64 {
    x << 1
  }

  predicate HasFlag(word: bv64, flag: bv64) {
    word & flag != 0
  }

  predicate FieldAllowsAscii(field: TextField, character: byte) {
    var word := if character < 64 then field.allowedLow else field.allowedHigh;
    character < 128 && HasFlag(word, Flag(character % 64))
  }

  predicate AllAllowed(field: TextField, value: bytes) {
    forall i | 0 <= i < |value| :: FieldAllowsAscii(field, value[i])
  }

  predicate Sized(field: TextField, value: bytes) {
    field.minLength <= |value| <= field.maxLength
  }

  /** A value the field admits. */
  predicate Admits(field: TextField, value: bytes) {
    Sized(field, value) && AllAllowed(field, value)
  }

  /** What parsing guarantees of a field, and plan building checks again. */
  predicate ValidTextField(field: TextField) {
    && field.minLength <= field.maxLength
    && forall c: byte | 0x20 <= c <= 0x7E :: FieldAllowsAscii(field, c)
  }

  /** `piece` may stand in a record where the template has `segment`. */
  predicate Fits(segment: TextSegment, fields: seq<TextField>, piece: bytes) {
    match segment
    case Literal(literal) => piece == literal
    case Field(index) => index < |fields| && Admits(fields[index], piece)
  }

  predicate FitsAll(segments: seq<TextSegment>, fields: seq<TextField>, pieces: seq<bytes>) {
    |pieces| == |segments| && forall i | 0 <= i < |pieces| :: Fits(segments[i], fields, pieces[i])
  }

  lemma FitsMore(segments: seq<TextSegment>, fields: seq<TextField>, k: nat, pieces: seq<bytes>,
                 piece: bytes)
    requires k < |segments| && FitsAll(segments[..k], fields, pieces)
    requires Fits(segments[k], fields, piece)
    ensures FitsAll(segments[..k + 1], fields, pieces + [piece])
    ensures Concat(pieces + [piece]) == Concat(pieces) + piece
  {
    ConcatAppend(pieces, piece);
  }

  lemma FitsFewer(segments: seq<TextSegment>, fields: seq<TextField>, k: nat, pieces: seq<bytes>)
    requires k < |segments| && FitsAll(segments[..k + 1], fields, pieces)
    ensures FitsAll(segments[..k], fields, pieces[..k]) && Fits(segments[k], fields, pieces[k])
    ensures Concat(pieces) == Concat(pieces[..k]) + pieces[k]
  {
    ConcatAppend(pieces[..k], pieces[k]);
    assert pieces == pieces[..k] + [pieces[k]];
  }
}
