/**
 * What a stream profile means: the checks a profile must pass, and a naive parser that sees the
 * whole stream at once. The bounded framer is proved to deliver what this parser delivers.
 */
module FramingSpec {
  import opened Bytes
  import opened Kmp

  datatype Strategy = FixedLength | SyncFixedLength | SyncLengthField | AsciiCrlf

  datatype ByteOrder = NotApplicable | Big | Little

  datatype Profile = Profile(
    strategy: Strategy,
    frameLength: nat,
    sync: bytes,
    prefixTable: seq<nat>,
    lengthOffset: nat,
    lengthWidth: nat,
    lengthOrder: ByteOrder,
    minimum: nat,
    maximum: nat)
  {
    predicate SearchesSync() {
      strategy == SyncFixedLength || strategy == SyncLengthField
    }

    function HeaderEnd(): nat {
      lengthOffset + lengthWidth
    }

    /** The buffer size a workspace for this profile allocates. */
    function FrameCapacity(): nat {
      if strategy == SyncLengthField || strategy == AsciiCrlf then maximum else frameLength
    }
  }

  const CR: byte := 0x0D
  const LF: byte := 0x0A
  const CRLF: bytes := [CR, LF]

  /** The compiler's local check of a stream profile. */
  predicate ValidateStreamFramingLocal(p: Profile) {
    match p.strategy
    case FixedLength => p.frameLength != 0
    case SyncFixedLength => p.frameLength != 0 && p.sync != [] && |p.sync| <= p.frameLength
    case AsciiCrlf =>
      && p.sync == CRLF && p.frameLength == 0 && p.lengthOffset == 0 && p.lengthWidth == 0
      && p.lengthOrder == NotApplicable && p.minimum == 0 && p.maximum >= 2
    case SyncLengthField =>
      && p.sync != []
      && (p.lengthWidth == 1 || p.lengthWidth == 2 || p.lengthWidth == 4)
      && (p.lengthWidth == 1 ==> p.lengthOrder == NotApplicable)
      && (p.lengthWidth != 1 ==> p.lengthOrder == Big || p.lengthOrder == Little)
      && p.minimum != 0 && p.minimum <= p.maximum
      && p.lengthOffset + p.lengthWidth <= p.minimum
      && !(p.lengthOffset < |p.sync| && p.lengthOffset + p.lengthWidth > 0)
      && p.maximum <= (if p.lengthWidth == 1 then 0xFF
                       else if p.lengthWidth == 2 then 0xFFFF
                       else 0xFFFF_FFFF)
  }

  /** A validated profile together with the prefix table the compiler froze beside it. */
  ghost predicate Frozen(p: Profile) {
    ValidateStreamFramingLocal(p) && PrefixTable(p.sync, p.prefixTable)
  }

  // ---------------------------------------------------------------- the naive parser

  function BigEndian(s: bytes): nat {
    if s == [] then 0 else 256 * BigEndian(s[..|s| - 1]) + s[|s| - 1]
  }

  function Reverse(s: bytes): (r: bytes)
    ensures |r| == |s|
    ensures forall i | 0 <= i < |s| :: r[i] == s[|s| - 1 - i]
  {
    if s == [] then [] else Reverse(s[1..]) + [s[0]]
  }

  /** The length field of a candidate, most significant byte first. */
  function Ordered(p: Profile, s: bytes): bytes
    requires p.HeaderEnd() <= |s|
  {
    var field := s[p.lengthOffset..p.HeaderEnd()];
    if p.lengthOrder == Little then Reverse(field) else field
  }

  /** The total frame length a candidate's header declares. */
  function DeclaredLength(p: Profile, s: bytes): nat
    requires p.HeaderEnd() <= |s|
  {
    BigEndian(Ordered(p, s))
  }

  /** What the naive parser does at the front of a stream. */
  datatype Decision = Wait | Skip(size: nat) | Emit(size: nat)

  function Decide(p: Profile, s: bytes): Decision {
    match p.strategy
    case FixedLength => if |s| < p.frameLength then Wait else Emit(p.frameLength)
    case AsciiCrlf =>
      (match Find(CRLF, s)
       case None => Wait
       case Some(i) => if i + 2 <= p.maximum then Emit(i + 2) else Skip(i + 2))
    case SyncFixedLength =>
      if |s| < |p.sync| then Wait
      else if !(p.sync <= s) then Skip(1)
      else if |s| < p.frameLength then Wait else Emit(p.frameLength)
    case SyncLengthField =>
      if |s| < |p.sync| then Wait
      else if !(p.sync <= s) then Skip(1)
      else if |s| < p.HeaderEnd() then Wait
      else
        var declared := DeclaredLength(p, s);
        if declared < p.minimum || declared > p.maximum then Skip(1)
        else if |s| < declared then Wait else Emit(declared)
  }

  /** Decisions cover at least one and at most all of the bytes they were made on. */
  lemma DecisionSize(p: Profile, s: bytes)
    requires ValidateStreamFramingLocal(p)
    ensures Decide(p, s).Wait? || 1 <= Decide(p, s).size <= |s|
  {
    FindIsLeftmost(CRLF, s);
  }

  /** The frames of a complete stream, front to back. */
  function ParseStream(p: Profile, s: bytes): seq<bytes>
    requires ValidateStreamFramingLocal(p)
    decreases |s|
  {
    DecisionSize(p, s);
    match Decide(p, s)
    case Wait => []
    case Skip(n) => ParseStream(p, s[n..])
    case Emit(n) => [s[..n]] + ParseStream(p, s[n..])
  }

  /** A skip that is a malformed candidate's: a header with a bad length, or an over-long record. */
  predicate Malformed(p: Profile, s: bytes) {
    Decide(p, s).Skip? && (p.strategy == AsciiCrlf || p.sync <= s)
  }

  /** How many malformed candidates the naive parser comes across. */
  function MalformedIn(p: Profile, s: bytes): nat
    requires ValidateStreamFramingLocal(p)
    decreases |s|
  {
    DecisionSize(p, s);
    match Decide(p, s)
    case Wait => 0
    case Skip(n) => (if Malformed(p, s) then 1 else 0) + MalformedIn(p, s[n..])
    case Emit(n) => MalformedIn(p, s[n..])
  }

  predicate EndsRecord(s: bytes, b: byte) {
    s != [] && s[|s| - 1] == CR && b == LF
  }

  lemma RecordEnds(s: bytes, b: byte)
    requires Find(CRLF, s) == None && EndsRecord(s, b)
    ensures Find(CRLF, s + [b]) == Some(|s| - 1)
  {
    hide Find;
    assert (s + [b])[|s| - 1..|s| - 1 + |CRLF|] == [s[|s| - 1], b];
    ScanFinds(CRLF, s, b);
  }

  lemma RecordGoesOn(s: bytes, b: byte)
    requires Find(CRLF, s) == None && !EndsRecord(s, b)
    ensures Find(CRLF, s + [b]) == None
  {
    hide Find;
    if s != [] {
      assert (s + [b])[|s| - 1..|s| - 1 + |CRLF|] == [s[|s| - 1], b];
    }
    ScanGoesOn(CRLF, s, b);
  }

  /** The next byte of a record either ends it, or not. */
  lemma RecordByte(p: Profile, s: bytes, b: byte)
    requires p.strategy == AsciiCrlf && Find(CRLF, s) == None
    ensures Decide(p, s).Wait?
    ensures if EndsRecord(s, b)
            then Decide(p, s + [b]) == if |s| < p.maximum then Emit(|s| + 1) else Skip(|s| + 1)
            else Find(CRLF, s + [b]) == None
  {
    hide Find;
    if EndsRecord(s, b) {
      RecordEnds(s, b);
    } else {
      RecordGoesOn(s, b);
    }
  }

  /** A decision, once made, does not change as more of the stream arrives. */
  lemma DecisionStable(p: Profile, s: bytes, rest: bytes)
    requires ValidateStreamFramingLocal(p) && !Decide(p, s).Wait?
    ensures Decide(p, s + rest) == Decide(p, s)
  {
    if p.strategy == AsciiCrlf {
      FindStable(CRLF, s, rest);
    } else if p.SearchesSync() {
      assert p.sync <= s <==> p.sync <= s + rest by {
        assert (s + rest)[..|p.sync|] == s[..|p.sync|];
      }
      if p.strategy == SyncLengthField && p.HeaderEnd() <= |s| {
        assert (s + rest)[p.lengthOffset..p.HeaderEnd()] == s[p.lengthOffset..p.HeaderEnd()];
      }
    }
  }

  lemma MalformedStable(p: Profile, s: bytes, rest: bytes)
    requires ValidateStreamFramingLocal(p) && Decide(p, s).Skip?
    ensures Malformed(p, s + rest) == Malformed(p, s)
  {
    DecisionStable(p, s, rest);
    if p.strategy != AsciiCrlf {
      assert |s| >= |p.sync|;
      assert (s + rest)[..|p.sync|] == s[..|p.sync|];
    }
  }

  // ---------------------------------------------------------------- simulation

  /**
   * `before` parses like `frames` and `malformed` candidates followed by `after`, whatever the
   * stream still brings. The framer's state is summarised by such an `after`.
   */
  ghost predicate Simulates(p: Profile, before: bytes, frames: seq<bytes>, malformed: int,
                            after: bytes)
    requires ValidateStreamFramingLocal(p)
  {
    forall rest: bytes {:trigger Future(rest)} ::
      Future(rest) ==>
        && ParseStream(p, before + rest) == frames + ParseStream(p, after + rest)
        && MalformedIn(p, before + rest) == malformed + MalformedIn(p, after + rest)
  }

  /** Names the part of the stream still to come, so that the definition above unfolds only on it. */
  ghost predicate Future(rest: bytes) {
    true
  }

  lemma SimulatesSelf(p: Profile, a: bytes)
    requires ValidateStreamFramingLocal(p)
    ensures Simulates(p, a, [], 0, a)
  {
  }

  /** Simulation composes: `x` arrives after `b` was reached, and carries it on to `c`. */
  lemma SimulatesThen(p: Profile, a: bytes, f: seq<bytes>, m: int, b: bytes, x: bytes,
                      g: seq<bytes>, n: int, c: bytes)
    requires ValidateStreamFramingLocal(p)
    requires Simulates(p, a, f, m, b) && Simulates(p, b + x, g, n, c)
    ensures Simulates(p, a + x, f + g, m + n, c)
  {
    hide ParseStream, MalformedIn;
    forall rest: bytes | Future(rest)
      ensures ParseStream(p, (a + x) + rest) == (f + g) + ParseStream(p, c + rest)
      ensures MalformedIn(p, (a + x) + rest) == m + n + MalformedIn(p, c + rest)
    {
      assert (a + x) + rest == a + (x + rest);
      assert b + (x + rest) == (b + x) + rest;
      assert Future(x + rest);
      assert f + (g + ParseStream(p, c + rest)) == (f + g) + ParseStream(p, c + rest);
    }
  }

  lemma EmitSimulates(p: Profile, s: bytes)
    requires ValidateStreamFramingLocal(p) && Decide(p, s) == Emit(|s|)
    ensures Simulates(p, s, [s], 0, [])
  {
    forall rest: bytes | Future(rest)
      ensures ParseStream(p, s + rest) == [s] + ParseStream(p, [] + rest)
      ensures MalformedIn(p, s + rest) == MalformedIn(p, [] + rest)
    {
      DecisionStable(p, s, rest);
      assert (s + rest)[..|s|] == s && (s + rest)[|s|..] == rest == [] + rest;
    }
  }

  lemma SkipSimulates(p: Profile, s: bytes)
    requires ValidateStreamFramingLocal(p) && Decide(p, s).Skip?
    ensures Decide(p, s).size <= |s|
    ensures Simulates(p, s, [], if Malformed(p, s) then 1 else 0, s[Decide(p, s).size..])
  {
    DecisionSize(p, s);
    var n := Decide(p, s).size;
    forall rest: bytes | Future(rest)
      ensures ParseStream(p, s + rest) == [] + ParseStream(p, s[n..] + rest)
      ensures MalformedIn(p, s + rest)
              == (if Malformed(p, s) then 1 else 0) + MalformedIn(p, s[n..] + rest)
    {
      DecisionStable(p, s, rest);
      MalformedStable(p, s, rest);
      assert (s + rest)[n..] == s[n..] + rest;
    }
  }

  /** Nothing is delivered from bytes in which no sync header starts, and nothing is malformed. */
  lemma {:induction false} ParseDrops(p: Profile, s: bytes, k: nat)
    requires ValidateStreamFramingLocal(p) && p.SearchesSync() && k <= |s|
    requires forall i: nat | i < k :: !OccursAt(p.sync, s, i)
    ensures ParseStream(p, s) == ParseStream(p, s[k..])
    ensures MalformedIn(p, s) == MalformedIn(p, s[k..])
    decreases k
  {
    if k == 0 {
      assert s[0..] == s;
    } else {
      var t := s[1..];
      assert !OccursAt(p.sync, s, 0);
      forall i: nat | i < k - 1
        ensures !OccursAt(p.sync, t, i)
      {
        assert !OccursAt(p.sync, s, i + 1);
        assert i + 1 + |p.sync| <= |s| ==>
                 t[i..i + |p.sync|] == s[i + 1..i + 1 + |p.sync|];
      }
      ParseDrops(p, t, k - 1);
      assert t[k - 1..] == s[k..];
      assert |s| >= |p.sync| ==> s[..|p.sync|] == s[0..0 + |p.sync|];
    }
  }

  /** A scan that ran to its end leaves only its state: the partial match at the end of `t`. */
  lemma ScanSimulates(p: Profile, t: bytes, m: nat)
    requires ValidateStreamFramingLocal(p) && p.SearchesSync() && Scanned(p.sync, t, m)
    ensures Simulates(p, t, [], 0, p.sync[..m])
  {
    hide Longest, Find, ParseStream, MalformedIn;
    LongestFacts(p.sync, t);
    forall rest: bytes | Future(rest)
      ensures ParseStream(p, t + rest) == [] + ParseStream(p, p.sync[..m] + rest)
      ensures MalformedIn(p, t + rest) == MalformedIn(p, p.sync[..m] + rest)
    {
      var k := |t| - m;
      forall i: nat | i < k
        ensures !OccursAt(p.sync, t + rest, i)
      {
        ScannedStart(p.sync, t, m, rest, i);
      }
      ParseDrops(p, t + rest, k);
      assert (t + rest)[k..] == t[k..] + rest;
    }
  }

  /** `t`, a partial match and the byte after it, may be replaced by the first `m` sync bytes. */
  ghost predicate SyncAdvanced(p: Profile, t: bytes, m: nat)
    requires ValidateStreamFramingLocal(p) && m <= |p.sync|
  {
    (m == |p.sync| ==> t == p.sync) && Simulates(p, t, [], 0, p.sync[..m])
  }

  lemma SyncAdvances(p: Profile, matched: nat, b: byte)
    requires ValidateStreamFramingLocal(p) && p.SearchesSync() && matched < |p.sync|
    ensures var t := p.sync[..matched] + [b];
            var m := Longest(p.sync, t);
            m <= |p.sync| && SyncAdvanced(p, t, m)
  {
    hide Longest, ParseStream;
    var t := p.sync[..matched] + [b];
    assert Find(p.sync, p.sync[..matched]) == None;
    ScanStep(p.sync, p.sync[..matched], b);
    if Longest(p.sync, t) < |p.sync| {
      ScanSimulates(p, t, Longest(p.sync, t));
    } else {
      CompleteMatch(p, t);
    }
  }

  lemma CompleteMatch(p: Profile, t: bytes)
    requires ValidateStreamFramingLocal(p)
    requires |t| <= |p.sync| && Longest(p.sync, t) == |p.sync|
    ensures SyncAdvanced(p, t, |p.sync|)
  {
    hide Longest, ParseStream;
    LongestFacts(p.sync, t);
    assert t[0..] == t && p.sync[..|p.sync|] == p.sync;
    SimulatesSelf(p, t);
  }

  /** The declared length is a matter of the header alone. */
  lemma DeclaredStable(p: Profile, s: bytes, rest: bytes)
    ensures p.HeaderEnd() <= |s| ==> DeclaredLength(p, s + rest) == DeclaredLength(p, s)
  {
    if p.HeaderEnd() <= |s| {
      assert (s + rest)[p.lengthOffset..p.HeaderEnd()] == s[p.lengthOffset..p.HeaderEnd()];
    }
  }

  /** A rescan that finds no further header keeps only the partial match at its end. */
  lemma RescanFails(p: Profile, s: bytes, m: nat)
    requires ValidateStreamFramingLocal(p) && p.SearchesSync()
    requires |s| >= 1 && Malformed(p, s) && Scanned(p.sync, s[1..], m)
    ensures Simulates(p, s, [], 1, p.sync[..m])
  {
    hide Find, Longest, ParseStream, MalformedIn;
    SkipSimulates(p, s);
    ScanSimulates(p, s[1..], m);
    SimulatesTrans(p, s, 1, s[1..], p.sync[..m]);
  }

  /** Nothing is delivered from the bytes before the leftmost header. */
  lemma LeftmostSimulates(p: Profile, u: bytes, start: nat)
    requires ValidateStreamFramingLocal(p) && p.SearchesSync()
    requires start <= |u| && Find(p.sync, u) == Some(start)
    ensures Simulates(p, u, [], 0, u[start..])
  {
    hide Find, ParseStream, MalformedIn;
    forall rest: bytes | Future(rest)
      ensures ParseStream(p, u + rest) == [] + ParseStream(p, u[start..] + rest)
      ensures MalformedIn(p, u + rest) == MalformedIn(p, u[start..] + rest)
    {
      var v := u + rest;
      FindStable(p.sync, u, rest);
      NothingBefore(p.sync, v, start);
      ParseDrops(p, v, start);
      assert v[start..] == u[start..] + rest;
    }
  }

  /** A rescan that finds the leftmost further header restarts the candidate there. */
  lemma RescanFinds(p: Profile, s: bytes, t: bytes, start: nat)
    requires ValidateStreamFramingLocal(p) && p.SearchesSync()
    requires |s| >= 1 && Malformed(p, s) && t <= s[1..] && Find(p.sync, t) == Some(start)
    ensures 1 + start + |p.sync| <= |s| && p.sync <= s[1 + start..]
    ensures Simulates(p, s, [], 1, s[1 + start..])
  {
    hide Find, ParseStream, MalformedIn;
    var u := s[1..];
    assert u == t + u[|t|..];
    FindStable(p.sync, t, u[|t|..]);
    FindIsLeftmost(p.sync, u);
    SkipSimulates(p, s);
    LeftmostSimulates(p, u, start);
    SimulatesTrans(p, s, 1, u, u[start..]);
    assert s[1 + start..] == u[start..];
    assert u[start..][..|p.sync|] == u[start..start + |p.sync|];
  }

  lemma SimulatesTrans(p: Profile, a: bytes, n: int, b: bytes, c: bytes)
    requires ValidateStreamFramingLocal(p)
    requires Simulates(p, a, [], n, b) && Simulates(p, b, [], 0, c)
    ensures Simulates(p, a, [], n, c)
  {
    hide ParseStream, MalformedIn;
  }

  /** One step of reading the length field: where its next byte is, and what it adds. */
  lemma OrderedPrefix(p: Profile, s: bytes, index: nat)
    requires p.HeaderEnd() <= |s| && index <= p.lengthWidth
    ensures |Ordered(p, s)| == p.lengthWidth
    ensures BigEndian(Ordered(p, s)[..0]) == 0
    ensures index == p.lengthWidth ==> Ordered(p, s)[..index] == Ordered(p, s)
    ensures index < p.lengthWidth ==>
              var at := if p.lengthOrder == Little then p.lengthWidth - 1 - index else index;
              BigEndian(Ordered(p, s)[..index + 1])
              == 256 * BigEndian(Ordered(p, s)[..index]) + s[p.lengthOffset + at]
  {
    if index < p.lengthWidth {
      var field := Ordered(p, s)[..index + 1];
      assert field[..|field| - 1] == Ordered(p, s)[..index];
    }
  }
}
