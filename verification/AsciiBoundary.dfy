/**
 * The compiler's static proof that the first CRLF of every record a text template describes is the
 * record's end: a powerset automaton over the two facts "may end without CR" and "may end with CR".
 */
module AsciiBoundary {
  import opened Bytes
  import opened Kmp
  import opened FramingSpec
  import opened TextTemplates

  /** The two state bits of the source: some text so far ends without CR, some ends with CR. */
  datatype CrLfStates = CrLfStates(plain: bool, afterCr: bool)

  const NO_STATES := CrLfStates(false, false)

  function Union(s: CrLfStates, t: CrLfStates): CrLfStates {
    CrLfStates(s.plain || t.plain, s.afterCr || t.afterCr)
  }

  // ---------------------------------------------------------------- what the bits mean

  predicate EndsCr(t: bytes) {
    t != [] && t[|t| - 1] == CR
  }

  predicate Has(s: CrLfStates, t: bytes) {
    if EndsCr(t) then s.afterCr else s.plain
  }

  /** No text has a CRLF, and the bits are exactly the kinds of ends that occur. */
  ghost predicate Describes(s: CrLfStates, texts: iset<bytes>) {
    && (forall t :: t in texts ==> Find(CRLF, t) == None && Has(s, t))
    && (s.plain ==> exists t :: t in texts && !EndsCr(t))
    && (s.afterCr ==> exists t :: t in texts && EndsCr(t))
  }

  /** Every text followed by one of the characters. */
  ghost function Append(texts: iset<bytes>, chars: set<byte>): iset<bytes> {
    iset u: bytes | u != [] && u[..|u| - 1] in texts && u[|u| - 1] in chars
  }

  lemma AppendHas(texts: iset<bytes>, chars: set<byte>, t: bytes, c: byte)
    requires t in texts && c in chars
    ensures t + [c] in Append(texts, chars)
  {
    assert (t + [c])[..|t + [c]| - 1] == t;
  }

  /** No character completes a CRLF: the bits after the step are known from the characters alone. */
  lemma StepDescribes(s: CrLfStates, texts: iset<bytes>, chars: set<byte>, plainChar: byte,
                      s': CrLfStates)
    requires Describes(s, texts) && s != NO_STATES && !(s.afterCr && LF in chars)
    requires s'.afterCr == (CR in chars)
    requires s'.plain ==> plainChar in chars && plainChar != CR
    requires !s'.plain ==> forall c :: c in chars ==> c == CR
    ensures Describes(s', Append(texts, chars))
  {
    hide Find, Append;
    forall u | u in Append(texts, chars)
      ensures Find(CRLF, u) == None && Has(s', u)
    {
      StepClean(s, texts, chars, u);
    }
    var t :| t in texts;
    if s'.plain {
      AppendHas(texts, chars, t, plainChar);
      assert !EndsCr(t + [plainChar]);
    }
    if s'.afterCr {
      AppendHas(texts, chars, t, CR);
      assert EndsCr(t + [CR]);
    }
  }

  lemma StepClean(s: CrLfStates, texts: iset<bytes>, chars: set<byte>, u: bytes)
    requires Describes(s, texts) && !(s.afterCr && LF in chars) && u in Append(texts, chars)
    ensures u != [] && u[|u| - 1] in chars && Find(CRLF, u) == None
  {
    hide Find;
    var t, c := u[..|u| - 1], u[|u| - 1];
    assert u == t + [c];
    RecordGoesOn(t, c);
  }

  /** A line feed after a possible CR is a CRLF in some text. */
  lemma StepBreaks(s: CrLfStates, texts: iset<bytes>, chars: set<byte>) returns (u: bytes)
    requires Describes(s, texts) && s.afterCr && LF in chars
    ensures u in Append(texts, chars) && Find(CRLF, u) == Some(|u| - 2)
  {
    hide Find, Append;
    var t :| t in texts && EndsCr(t);
    AppendHas(texts, chars, t, LF);
    RecordEnds(t, LF);
    u := t + [LF];
  }

  // ---------------------------------------------------------------- the texts of a template

  /** The concatenations of pieces that fit the segments. */
  ghost function Spelled(segments: seq<TextSegment>, fields: seq<TextField>): iset<bytes> {
    iset pieces: seq<bytes> | FitsAll(segments, fields, pieces) :: Concat(pieces)
  }

  ghost function Followed(texts: iset<bytes>, tail: bytes): iset<bytes> {
    iset u: bytes | |u| >= |tail| && u[|u| - |tail|..] == tail && u[..|u| - |tail|] in texts
  }

  ghost function Allowed(field: TextField): set<byte> {
    set c: byte | FieldAllowsAscii(field, c)
  }

  /** Every text followed by `n` characters the field allows. */
  ghost function Grown(texts: iset<bytes>, field: TextField, n: nat): iset<bytes> {
    if n == 0 then texts else Append(Grown(texts, field, n - 1), Allowed(field))
  }

  lemma AllowedMore(field: TextField, w: bytes, c: byte)
    ensures AllAllowed(field, w + [c]) <==> AllAllowed(field, w) && FieldAllowsAscii(field, c)
  {
    hide FieldAllowsAscii;
    assert (w + [c])[|w|] == c;
    assert forall i | 0 <= i < |w| :: w[i] == (w + [c])[i];
  }

  lemma {:induction false} GrownIs(texts: iset<bytes>, field: TextField, n: nat, u: bytes)
    ensures u in Grown(texts, field, n)
            <==> |u| >= n && u[..|u| - n] in texts && AllAllowed(field, u[|u| - n..])
  {
    hide AllAllowed, FieldAllowsAscii;
    if n == 0 {
      assert u[..|u|] == u && u[|u|..] == [] && AllAllowed(field, []) by {
        NothingForbidden(field);
      }
    } else if u != [] {
      var t, c := u[..|u| - 1], u[|u| - 1];
      GrownIs(texts, field, n - 1, t);
      if |u| >= n {
        assert t[..|t| - (n - 1)] == u[..|u| - n];
        var w := t[|t| - (n - 1)..];
        assert u[|u| - n..] == w + [c];
        AllowedMore(field, w, c);
      }
    }
  }

  lemma NothingForbidden(field: TextField)
    ensures AllAllowed(field, [])
  {
  }

  /** A template that ends in a field: a text of every admitted length, and no other. */
  lemma SpelledByField(segments: seq<TextSegment>, fields: seq<TextField>, k: nat, u: bytes)
    returns (n: nat)
    requires k < |segments| && segments[k].Field? && segments[k].fieldIndex < |fields|
    requires u in Spelled(segments[..k + 1], fields)
    ensures var f := fields[segments[k].fieldIndex];
            f.minLength <= n <= f.maxLength && u in Grown(Spelled(segments[..k], fields), f, n)
  {
    hide Grown, FieldAllowsAscii;
    var f := fields[segments[k].fieldIndex];
    var pieces :| FitsAll(segments[..k + 1], fields, pieces) && u == Concat(pieces);
    FitsFewer(segments, fields, k, pieces);
    n := |pieces[k]|;
    GrownIs(Spelled(segments[..k], fields), f, n, u);
    assert u[..|u| - n] == Concat(pieces[..k]) && u[|u| - n..] == pieces[k];
  }

  lemma FieldSpells(segments: seq<TextSegment>, fields: seq<TextField>, k: nat, u: bytes, n: nat)
    requires k < |segments| && segments[k].Field? && segments[k].fieldIndex < |fields|
    requires var f := fields[segments[k].fieldIndex];
             f.minLength <= n <= f.maxLength && u in Grown(Spelled(segments[..k], fields), f, n)
    ensures u in Spelled(segments[..k + 1], fields)
  {
    hide Grown, FieldAllowsAscii;
    var f := fields[segments[k].fieldIndex];
    GrownIs(Spelled(segments[..k], fields), f, n, u);
    var pieces :| FitsAll(segments[..k], fields, pieces) && u[..|u| - n] == Concat(pieces);
    FitsMore(segments, fields, k, pieces, u[|u| - n..]);
    assert u == u[..|u| - n] + u[|u| - n..];
  }

  lemma SpelledLiteral(segments: seq<TextSegment>, fields: seq<TextField>, k: nat, u: bytes)
    requires k < |segments| && segments[k].Literal?
    ensures u in Spelled(segments[..k + 1], fields)
            <==> u in Followed(Spelled(segments[..k], fields), segments[k].literal)
  {
    var w := segments[k].literal;
    if u in Spelled(segments[..k + 1], fields) {
      var pieces :| FitsAll(segments[..k + 1], fields, pieces) && u == Concat(pieces);
      FitsFewer(segments, fields, k, pieces);
      assert u[..|u| - |w|] == Concat(pieces[..k]) && u[|u| - |w|..] == pieces[k];
    }
    if u in Followed(Spelled(segments[..k], fields), w) {
      var pieces :| FitsAll(segments[..k], fields, pieces) && u[..|u| - |w|] == Concat(pieces);
      FitsMore(segments, fields, k, pieces, w);
      assert u == u[..|u| - |w|] + u[|u| - |w|..];
    }
  }

  lemma FollowedStep(texts: iset<bytes>, w: bytes, j: nat)
    requires j < |w|
    ensures Append(Followed(texts, w[..j]), {w[j]}) == Followed(texts, w[..j + 1])
  {
    forall u: bytes
      ensures u in Append(Followed(texts, w[..j]), {w[j]}) <==> u in Followed(texts, w[..j + 1])
    {
      if |u| >= j + 1 {
        var t := u[..|u| - 1];
        assert t[..|t| - j] == u[..|u| - (j + 1)];
        assert u[|u| - (j + 1)..] == t[|t| - j..] + [u[|u| - 1]];
        assert w[..j + 1] == w[..j] + [w[j]];
        if u[|u| - (j + 1)..] == w[..j + 1] {
          assert (t[|t| - j..] + [u[|u| - 1]])[j] == w[j];
          assert (t[|t| - j..] + [u[|u| - 1]])[..j] == t[|t| - j..];
          assert (w[..j] + [w[j]])[..j] == w[..j];
        }
      }
    }
  }

  // ---------------------------------------------------------------- what the check decides

  predicate EndsWithCrlf(segments: seq<TextSegment>) {
    segments != [] && var last := segments[|segments| - 1];
    last.Literal? && |last.literal| >= 2 && last.literal[|last.literal| - 2..] == CRLF
  }

  predicate Resolved(segments: seq<TextSegment>, fields: seq<TextField>) {
    forall s :: s in segments && s.Field? ==> s.fieldIndex < |fields|
  }

  /** In every record of the template the first CRLF is its end. */
  ghost predicate FirstCrlfEnds(segments: seq<TextSegment>, fields: seq<TextField>) {
    forall r :: r in Spelled(segments, fields) ==> |r| >= 2 && Find(CRLF, r) == Some(|r| - 2)
  }

  ghost predicate ValidFields(fields: seq<TextField>) {
    forall f :: f in fields ==> ValidTextField(f)
  }

  /** The shortest value of blanks. */
  function Blanks(n: nat): (w: bytes)
    ensures |w| == n && forall i | 0 <= i < n :: w[i] == 0x20
  {
    seq(n, _ => 0x20)
  }

  lemma BlanksAdmitted(field: TextField)
    requires ValidTextField(field)
    ensures Admits(field, Blanks(field.minLength))
  {
    hide FieldAllowsAscii;
  }

  /** Any beginning of a record can be completed, by at least the closing CRLF. */
  lemma {:induction false} Completes(segments: seq<TextSegment>, fields: seq<TextField>, k: nat,
                                     t: bytes) returns (tail: bytes)
    requires Resolved(segments, fields) && ValidFields(fields) && EndsWithCrlf(segments)
    requires k <= |segments| && t in Spelled(segments[..k], fields)
    ensures t + tail in Spelled(segments, fields)
    ensures k < |segments| ==> |tail| >= 2
    decreases |segments| - k
  {
    hide FieldAllowsAscii, Concat, FitsAll, ValidTextField, Admits, Blanks;
    if k == |segments| {
      assert segments[..k] == segments;
      tail := [];
      assert t + tail == t;
    } else {
      var pieces :| FitsAll(segments[..k], fields, pieces) && t == Concat(pieces);
      assert segments[k] in segments;
      var piece :=
        if segments[k].Literal? then segments[k].literal
        else Blanks(fields[segments[k].fieldIndex].minLength);
      if segments[k].Field? {
        assert fields[segments[k].fieldIndex] in fields;
        BlanksAdmitted(fields[segments[k].fieldIndex]);
      }
      FitsMore(segments, fields, k, pieces, piece);
      var rest := Completes(segments, fields, k + 1, t + piece);
      tail := piece + rest;
      assert t + tail == t + piece + rest;
    }
  }

  /** A CRLF in the beginning of a record comes before the record's end. */
  lemma BreaksEarly(segments: seq<TextSegment>, fields: seq<TextField>, u: bytes, tail: bytes)
    requires u + tail in Spelled(segments, fields) && |tail| >= 2
    requires |u| >= 2 && Find(CRLF, u) == Some(|u| - 2)
    ensures !FirstCrlfEnds(segments, fields)
  {
    FindStable(CRLF, u, tail);
  }

  lemma LiteralCompleted(u: bytes, w: bytes, n: nat)
    requires n <= |w| && n <= |u|
    ensures var whole := u + w[n..];
            && |whole| >= |w| && whole[..|whole| - |w|] == u[..|u| - n]
            && whole[|whole| - |w|..] == u[|u| - n..] + w[n..]
            && w == w[..n] + w[n..]
  {
  }

  /** A CRLF inside an unfinished literal. */
  lemma LiteralBreaks(segments: seq<TextSegment>, fields: seq<TextField>, k: nat, j: nat,
                      s: CrLfStates)
    requires Resolved(segments, fields) && ValidFields(fields) && EndsWithCrlf(segments)
    requires k < |segments| && segments[k].Literal? && j < |segments[k].literal|
    requires k + 1 == |segments| ==> j + 2 < |segments[k].literal|
    requires Describes(s, Followed(Spelled(segments[..k], fields), segments[k].literal[..j]))
    requires s.afterCr && segments[k].literal[j] == LF
    ensures !FirstCrlfEnds(segments, fields)
  {
    hide Find, Describes, FirstCrlfEnds, Spelled, Resolved, ValidFields;
    var w := segments[k].literal;
    var before := Spelled(segments[..k], fields);
    var u := StepBreaks(s, Followed(before, w[..j]), {LF});
    FollowedStep(before, w, j);
    var whole := u + w[j + 1..];
    LiteralCompleted(u, w, j + 1);
    SpelledLiteral(segments, fields, k, whole);
    var tail := Completes(segments, fields, k + 1, whole);
    assert whole + tail == u + (w[j + 1..] + tail);
    BreaksEarly(segments, fields, u, w[j + 1..] + tail);
  }

  /** A CRLF inside an unfinished field value. */
  lemma FieldBreaks(segments: seq<TextSegment>, fields: seq<TextField>, k: nat, n: nat,
                    s: CrLfStates)
    requires Resolved(segments, fields) && ValidFields(fields) && EndsWithCrlf(segments)
    requires k < |segments| && segments[k].Field?
    requires segments[k].fieldIndex < |fields| && n < fields[segments[k].fieldIndex].maxLength
    requires Describes(s, Grown(Spelled(segments[..k], fields), fields[segments[k].fieldIndex], n))
    requires s.afterCr && FieldAllowsAscii(fields[segments[k].fieldIndex], LF)
    ensures !FirstCrlfEnds(segments, fields)
  {
    hide Find, Describes, FirstCrlfEnds, FieldAllowsAscii, Spelled, Resolved, ValidFields, ValidTextField;
    var f := fields[segments[k].fieldIndex];
    FieldIsValid(fields, segments[k].fieldIndex);
    var before := Spelled(segments[..k], fields);
    var u := StepBreaks(s, Grown(before, f, n), Allowed(f));
    GrownIs(before, f, n + 1, u);
    var pad := Blanks(if f.minLength > n + 1 then f.minLength - (n + 1) else 0);
    var whole := u + pad;
    var m := n + 1 + |pad|;
    assert whole[..|whole| - m] == u[..|u| - (n + 1)];
    assert whole[|whole| - m..] == u[|u| - (n + 1)..] + pad;
    GrownIs(before, f, m, whole);
    FieldSpells(segments, fields, k, whole, m);
    var tail := Completes(segments, fields, k + 1, whole);
    assert whole + tail == u + (pad + tail);
    BreaksEarly(segments, fields, u, pad + tail);
  }

  // ---------------------------------------------------------------- the check

  /** All the characters a field allows, one step on from every possible state. */
  method AdvanceCrLfStates(states: CrLfStates, field: TextField)
    returns (ok: bool, output: CrLfStates)
    requires ValidTextField(field)
    ensures ok == (states != NO_STATES && !(states.afterCr && FieldAllowsAscii(field, LF)))
    ensures ok ==> output == CrLfStates(true, FieldAllowsAscii(field, CR))
  {
    hide FieldAllowsAscii;
    output := NO_STATES;
    var value := 0;
    while value <= 0x7F
      invariant 0 <= value <= 0x80
      invariant value > LF ==> !(states.afterCr && FieldAllowsAscii(field, LF))
      invariant output.afterCr ==
                (states != NO_STATES && value > CR && FieldAllowsAscii(field, CR))
      invariant states == NO_STATES ==> !output.plain
      invariant states != NO_STATES && value > 0x20 ==> output.plain
    {
      var character: byte := value;
      if FieldAllowsAscii(field, character) {
        var reached := if character == CR then CrLfStates(false, true) else CrLfStates(true, false);
        if states.plain {
          output := Union(output, reached);
        }
        if states.afterCr {
          if character == LF {
            return false, output;
          }
          output := Union(output, reached);
        }
      }
      value := value + 1;
    }
    ok := output != NO_STATES;
  }

  method AdvanceCrLfByte(states: CrLfStates, b: byte) returns (ok: bool, output: CrLfStates)
    ensures ok == !(states.afterCr && b == LF)
    ensures ok ==> output == if b == CR then CrLfStates(false, true) else CrLfStates(true, false)
  {
    if states.afterCr && b == LF {
      return false, states;
    }
    return true, if b == CR then CrLfStates(false, true) else CrLfStates(true, false);
  }

  /** The texts grown by at least `lo` and fewer than `hi` characters. */
  ghost function GrownBetween(texts: iset<bytes>, field: TextField, lo: nat, hi: nat): iset<bytes> {
    if hi <= lo then iset{} else GrownBetween(texts, field, lo, hi - 1) + Grown(texts, field, hi - 1)
  }

  lemma {:induction false} BetweenGrew(texts: iset<bytes>, field: TextField, lo: nat, hi: nat,
                                       u: bytes) returns (n: nat)
    requires u in GrownBetween(texts, field, lo, hi)
    ensures lo <= n < hi && u in Grown(texts, field, n)
  {
    hide Grown;
    if u in Grown(texts, field, hi - 1) {
      n := hi - 1;
    } else {
      n := BetweenGrew(texts, field, lo, hi - 1, u);
    }
  }

  lemma {:induction false} GrewBetween(texts: iset<bytes>, field: TextField, lo: nat, hi: nat,
                                       u: bytes, n: nat)
    requires lo <= n < hi && u in Grown(texts, field, n)
    ensures u in GrownBetween(texts, field, lo, hi)
  {
    hide Grown;
    if n < hi - 1 {
      GrewBetween(texts, field, lo, hi - 1, u, n);
    }
  }

  lemma UnionDescribes(s: CrLfStates, a: iset<bytes>, t: CrLfStates, b: iset<bytes>)
    requires Describes(s, a) && Describes(t, b)
    ensures Describes(Union(s, t), a + b)
  {
    hide Find;
  }

  lemma NothingDescribed()
    ensures Describes(NO_STATES, iset{})
  {
  }

  /** One allowed character more, from the states of texts grown by `n`. */
  lemma FieldStep(s: CrLfStates, texts: iset<bytes>, field: TextField, n: nat)
    requires ValidTextField(field) && Describes(s, Grown(texts, field, n)) && s != NO_STATES
    requires !(s.afterCr && FieldAllowsAscii(field, LF))
    ensures Describes(CrLfStates(true, FieldAllowsAscii(field, CR)), Grown(texts, field, n + 1))
  {
    hide Describes, FieldAllowsAscii;
    StepDescribes(s, Grown(texts, field, n), Allowed(field), 0x20,
                  CrLfStates(true, FieldAllowsAscii(field, CR)));
  }

  /** States that a step does not change describe every longer text too. */
  lemma {:induction false} Stationary(s: CrLfStates, texts: iset<bytes>, field: TextField, n: nat,
                                      m: nat)
    requires ValidTextField(field) && Describes(s, Grown(texts, field, n)) && n <= m
    requires s == CrLfStates(true, FieldAllowsAscii(field, CR))
    requires !(s.afterCr && FieldAllowsAscii(field, LF))
    ensures Describes(s, Grown(texts, field, m))
  {
    hide Describes, FieldAllowsAscii, Grown;
    if n < m {
      Stationary(s, texts, field, n, m - 1);
      FieldStep(s, texts, field, m - 1);
    }
  }

  /** So the remaining counts need not be walked: why the source may leave its loop early. */
  lemma {:induction false} RestIsStationary(accepted: CrLfStates, s: CrLfStates,
                                            texts: iset<bytes>, field: TextField, n: nat, hi: nat)
    requires ValidTextField(field) && Describes(s, Grown(texts, field, n)) && n < hi
    requires s == CrLfStates(true, FieldAllowsAscii(field, CR))
    requires !(s.afterCr && FieldAllowsAscii(field, LF))
    requires Describes(accepted, GrownBetween(texts, field, field.minLength, n + 1))
    requires if n < field.minLength then accepted == NO_STATES else Union(accepted, s) == accepted
    ensures Describes(if field.minLength < hi then Union(accepted, s) else NO_STATES,
                      GrownBetween(texts, field, field.minLength, hi))
  {
    hide Describes, FieldAllowsAscii, Grown;
    if n + 1 < hi {
      RestIsStationary(accepted, s, texts, field, n, hi - 1);
      if field.minLength < hi {
        Stationary(s, texts, field, n, hi - 1);
        UnionDescribes(if field.minLength < hi - 1 then Union(accepted, s) else NO_STATES,
                       GrownBetween(texts, field, field.minLength, hi - 1),
                       s, Grown(texts, field, hi - 1));
      } else {
        NothingDescribed();
      }
    }
  }

  method ProveLiteral(segments: seq<TextSegment>, ghost fields: seq<TextField>, k: nat,
                      byteCount: nat, states: CrLfStates)
    returns (ok: bool, output: CrLfStates)
    requires ValidFields(fields) && EndsWithCrlf(segments)
    requires k < |segments| && segments[k].Literal? && byteCount <= |segments[k].literal|
    requires k + 1 == |segments| ==> byteCount + 2 == |segments[k].literal|
    requires states != NO_STATES && Describes(states, Spelled(segments[..k], fields))
    ensures ok ==> output != NO_STATES
                   && Describes(output, Followed(Spelled(segments[..k], fields),
                                                 segments[k].literal[..byteCount]))
    ensures !ok && Resolved(segments, fields) ==> !FirstCrlfEnds(segments, fields)
  {
    hide Describes, Spelled, FirstCrlfEnds, Resolved;
    ghost var before := Spelled(segments[..k], fields);
    var literal := segments[k].literal;
    output := states;
    FollowedByNothing(before);
    assert literal[..0] == [];
    for index := 0 to byteCount
      invariant output != NO_STATES && Describes(output, Followed(before, literal[..index]))
    {
      ghost var s := output;
      ok, output := AdvanceCrLfByte(output, literal[index]);
      if !ok {
        if Resolved(segments, fields) {
          LiteralBreaks(segments, fields, k, index, s);
        }
        return false, output;
      }
      StepDescribes(s, Followed(before, literal[..index]), {literal[index]}, literal[index], output);
      FollowedStep(before, literal, index);
    }
    ok := true;
  }

  lemma FollowedByNothing(texts: iset<bytes>)
    ensures Followed(texts, []) == texts
  {
    forall u: bytes
      ensures u in Followed(texts, []) <==> u in texts
    {
      assert u[..|u| - 0] == u;
    }
  }

  lemma FieldIsValid(fields: seq<TextField>, index: nat)
    requires ValidFields(fields) && index < |fields|
    ensures ValidTextField(fields[index]) && fields[index].minLength <= fields[index].maxLength
  {
  }

  lemma Accepts(accepted: CrLfStates, s: CrLfStates, texts: iset<bytes>, field: TextField, n: nat)
    requires Describes(s, Grown(texts, field, n))
    requires Describes(accepted, GrownBetween(texts, field, field.minLength, n))
    ensures Describes(if n >= field.minLength then Union(accepted, s) else accepted,
                      GrownBetween(texts, field, field.minLength, n + 1))
  {
    hide Describes, Grown;
    UnionDescribes(accepted, GrownBetween(texts, field, field.minLength, n),
                   s, Grown(texts, field, n));
  }

  method ProveField(ghost segments: seq<TextSegment>, ghost fields: seq<TextField>, ghost k: nat,
                    field: TextField, states: CrLfStates)
    returns (ok: bool, accepted: CrLfStates)
    requires ValidFields(fields) && EndsWithCrlf(segments)
    requires k < |segments| && segments[k].Field? && segments[k].fieldIndex < |fields|
    requires field == fields[segments[k].fieldIndex]
    requires states != NO_STATES && Describes(states, Spelled(segments[..k], fields))
    ensures ok ==> accepted != NO_STATES
                   && Describes(accepted, Spelled(segments[..k + 1], fields))
    ensures !ok && Resolved(segments, fields) ==> !FirstCrlfEnds(segments, fields)
  {
    hide Describes, Spelled, FirstCrlfEnds, Resolved, FieldAllowsAscii, ValidFields, Grown,
         GrownBetween, EndsWithCrlf, ValidTextField;
    FieldIsValid(fields, segments[k].fieldIndex);
    ghost var before := Spelled(segments[..k], fields);
    var exact := states;
    accepted := NO_STATES;
    var count := 0;
    NothingDescribed();
    NoGrowth(before, field);
    while true
      invariant count <= field.maxLength && exact != NO_STATES
      invariant Describes(exact, Grown(before, field, count))
      invariant Describes(accepted, GrownBetween(before, field, field.minLength, count))
      invariant count <= field.minLength ==> accepted == NO_STATES
      decreases field.maxLength - count
    {
      Accepts(accepted, exact, before, field, count);
      if count >= field.minLength {
        accepted := Union(accepted, exact);
      }
      if count == field.maxLength {
        break;
      }
      var advanced, next := AdvanceCrLfStates(exact, field);
      if !advanced {
        if Resolved(segments, fields) {
          FieldBreaks(segments, fields, k, count, exact);
        }
        return false, accepted;
      }
      if next == exact {
        RestIsStationary(accepted, exact, before, field, count, field.maxLength + 1);
        if field.maxLength >= field.minLength {
          accepted := Union(accepted, next);
        }
        break;
      }
      FieldStep(exact, before, field, count);
      exact := next;
      count := count + 1;
    }
    ok := accepted != NO_STATES;
    FieldSpelled(segments, fields, k);
  }

  lemma NoGrowth(texts: iset<bytes>, field: TextField)
    ensures Grown(texts, field, 0) == texts
    ensures GrownBetween(texts, field, field.minLength, 0) == iset{}
  {
  }

  lemma FieldSpelled(segments: seq<TextSegment>, fields: seq<TextField>, k: nat)
    requires k < |segments| && segments[k].Field? && segments[k].fieldIndex < |fields|
    ensures var f := fields[segments[k].fieldIndex];
            GrownBetween(Spelled(segments[..k], fields), f, f.minLength, f.maxLength + 1)
            == Spelled(segments[..k + 1], fields)
  {
    hide Spelled, Grown, GrownBetween, FieldAllowsAscii;
    var f := fields[segments[k].fieldIndex];
    var before := Spelled(segments[..k], fields);
    forall u: bytes {:trigger u in Spelled(segments[..k + 1], fields)}
      ensures u in GrownBetween(before, f, f.minLength, f.maxLength + 1)
              <==> u in Spelled(segments[..k + 1], fields)
    {
      if u in GrownBetween(before, f, f.minLength, f.maxLength + 1) {
        var n := BetweenGrew(before, f, f.minLength, f.maxLength + 1, u);
        FieldSpells(segments, fields, k, u, n);
      }
      if u in Spelled(segments[..k + 1], fields) {
        var n := SpelledByField(segments, fields, k, u);
        GrewBetween(before, f, f.minLength, f.maxLength + 1, u, n);
      }
    }
  }

  /** Exactly the templates all of whose records have their first CRLF at their very end. */
  method ProveAsciiCrLfBoundary(segments: seq<TextSegment>, fields: seq<TextField>)
    returns (proved: bool)
    requires ValidFields(fields)
    ensures proved <==> EndsWithCrlf(segments) && Resolved(segments, fields)
                        && FirstCrlfEnds(segments, fields)
  {
    hide Describes, Spelled, FirstCrlfEnds, ValidFields;
    if segments == [] {
      return false;
    }
    var final := segments[|segments| - 1];
    if !final.Literal? || |final.literal| < 2 || final.literal[|final.literal| - 2] != CR
       || final.literal[|final.literal| - 1] != LF {
      return false;
    }
    assert final.literal[|final.literal| - 2..] == CRLF;
    var states := CrLfStates(true, false);
    NothingSpelled(fields);
    assert segments[..0] == [];
    for k := 0 to |segments|
      invariant states != NO_STATES
      invariant k < |segments| ==> Describes(states, Spelled(segments[..k], fields))
      invariant k == |segments| ==> FirstCrlfEnds(segments, fields)
      invariant Resolved(segments[..k], fields)
    {
      assert segments[..k + 1] == segments[..k] + [segments[k]];
      var ok;
      if segments[k].Literal? {
        var byteCount := |segments[k].literal|;
        if k + 1 == |segments| {
          byteCount := byteCount - 2;
        }
        ok, states := ProveLiteral(segments, fields, k, byteCount, states);
        if !ok {
          return false;
        }
        if k + 1 == |segments| {
          RecordsEnd(states, segments, fields);
        } else {
          LiteralSpelled(segments, fields, k);
        }
      } else {
        if segments[k].fieldIndex >= |fields| {
          return false;
        }
        ok, states := ProveField(segments, fields, k, fields[segments[k].fieldIndex], states);
        if !ok {
          return false;
        }
      }
    }
    assert segments[..|segments|] == segments;
    proved := true;
  }

  lemma NothingSpelled(fields: seq<TextField>)
    ensures Describes(CrLfStates(true, false), Spelled([], fields))
  {
    assert FitsAll([], fields, []);
    assert [] in Spelled([], fields);
  }

  lemma LiteralSpelled(segments: seq<TextSegment>, fields: seq<TextField>, k: nat)
    requires k < |segments| && segments[k].Literal?
    ensures Followed(Spelled(segments[..k], fields), segments[k].literal[..|segments[k].literal|])
            == Spelled(segments[..k + 1], fields)
  {
    hide Spelled, Followed;
    var w := segments[k].literal;
    assert w[..|w|] == w;
    forall u: bytes
      ensures u in Followed(Spelled(segments[..k], fields), w)
              <==> u in Spelled(segments[..k + 1], fields)
    {
      SpelledLiteral(segments, fields, k, u);
    }
  }

  lemma CloseEnds(t: bytes)
    requires Find(CRLF, t) == None
    ensures Find(CRLF, t + CRLF) == Some(|t|)
  {
    hide Find;
    assert t + CRLF == (t + [CR]) + [LF];
    RecordGoesOn(t, CR);
    RecordEnds(t + [CR], LF);
  }

  /** Clean up to the closing CRLF: the closing CRLF is the first. */
  lemma RecordsEnd(s: CrLfStates, segments: seq<TextSegment>, fields: seq<TextField>)
    requires EndsWithCrlf(segments)
    requires var last := segments[|segments| - 1].literal;
             Describes(s, Followed(Spelled(segments[..|segments| - 1], fields), last[..|last| - 2]))
    ensures FirstCrlfEnds(segments, fields)
  {
    hide Find, Spelled, Describes;
    var k := |segments| - 1;
    assert segments[..k + 1] == segments;
    forall r | r in Spelled(segments, fields)
      ensures |r| >= 2 && Find(CRLF, r) == Some(|r| - 2)
    {
      SpelledLiteral(segments, fields, k, r);
      RecordEndsClean(s, Spelled(segments[..k], fields), segments[k].literal, r);
    }
  }

  lemma RecordEndsClean(s: CrLfStates, before: iset<bytes>, w: bytes, r: bytes)
    requires |w| >= 2 && w[|w| - 2..] == CRLF && r in Followed(before, w)
    requires Describes(s, Followed(before, w[..|w| - 2]))
    ensures |r| >= 2 && Find(CRLF, r) == Some(|r| - 2)
  {
    hide Find, Followed;
    CutFollowed(before, w, r);
    CloseEnds(r[..|r| - 2]);
    assert r == r[..|r| - 2] + CRLF;
  }

  lemma CutFollowed(before: iset<bytes>, w: bytes, r: bytes)
    requires |w| >= 2 && r in Followed(before, w)
    ensures |r| >= 2 && r[|r| - 2..] == w[|w| - 2..]
    ensures r[..|r| - 2] in Followed(before, w[..|w| - 2])
  {
    var t := r[..|r| - 2];
    assert t[..|t| - (|w| - 2)] == r[..|r| - |w|];
    assert t[|t| - (|w| - 2)..] == r[|r| - |w|..][..|w| - 2];
    assert r[|r| - 2..] == r[|r| - |w|..][|w| - 2..];
  }
}
