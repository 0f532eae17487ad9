/**
 * What the stream profile's definitions say in terms of bytes and numbers alone: which profiles are
 * legal, where the naive parser cuts, and what each step of the work costs. From the costs follow
 * a lower and an upper bound for every stream.
 */
module FramingMeaning {
  import opened Arithmetic
  import opened Bytes
  import opened Kmp
  import opened FramingSpec
  import opened FramingWork

  // ---------------------------------------------------------------- profiles and decisions

  /** What the compiler admits as a stream profile. */
  lemma ProfileMeans(p: Profile)
    ensures p.strategy == FixedLength ==>
              (ValidateStreamFramingLocal(p) <==> p.frameLength >= 1)
    ensures p.strategy == SyncFixedLength ==>
              (ValidateStreamFramingLocal(p) <==> 1 <= |p.sync| <= p.frameLength)
    ensures p.strategy == AsciiCrlf ==>
              (ValidateStreamFramingLocal(p)
               <==> && p.sync == [0x0D, 0x0A] && p.frameLength == 0 && p.lengthOffset == 0
                    && p.lengthWidth == 0 && p.lengthOrder == NotApplicable
                    && p.minimum == 0 && p.maximum >= 2)
    ensures p.strategy == SyncLengthField ==>
              (ValidateStreamFramingLocal(p)
               <==> && 1 <= |p.sync| <= p.lengthOffset
                    && 1 <= p.minimum <= p.maximum && p.lengthOffset + p.lengthWidth <= p.minimum
                    && (|| (p.lengthWidth == 1 && p.lengthOrder == NotApplicable
                            && p.maximum < 0x100)
                        || (p.lengthWidth == 2 && p.lengthOrder != NotApplicable
                            && p.maximum < 0x1_0000)
                        || (p.lengthWidth == 4 && p.lengthOrder != NotApplicable
                            && p.maximum < 0x1_0000_0000)))
  {
  }

  lemma BigEndianMore(s: bytes, b: byte)
    ensures BigEndian([]) == 0 && BigEndian(s + [b]) == 256 * BigEndian(s) + b
  {
    assert (s + [b])[..|s|] == s;
  }

  /** The declared length, byte by byte. */
  lemma DeclaredMeans(p: Profile, s: bytes, a: int, b: int, c: int, d: int)
    requires p.lengthOffset + p.lengthWidth <= |s|
    requires p.lengthWidth >= 1 ==> a == s[p.lengthOffset]
    requires p.lengthWidth >= 2 ==> b == s[p.lengthOffset + 1]
    requires p.lengthWidth >= 4 ==> c == s[p.lengthOffset + 2] && d == s[p.lengthOffset + 3]
    ensures p.lengthWidth == 1 ==> DeclaredLength(p, s) == a
    ensures p.lengthWidth == 2 ==>
              DeclaredLength(p, s) == if p.lengthOrder == Little then a + 256 * b else 256 * a + b
    ensures p.lengthWidth == 4 ==>
              DeclaredLength(p, s)
              == if p.lengthOrder == Little
                 then a + 0x100 * b + 0x1_0000 * c + 0x100_0000 * d
                 else 0x100_0000 * a + 0x1_0000 * b + 0x100 * c + d
  {
    hide BigEndian, Ordered;
    OrderedPrefix(p, s, 0);
    if p.lengthWidth >= 1 { OrderedPrefix(p, s, 1); }
    if p.lengthWidth >= 2 { OrderedPrefix(p, s, 2); }
    if p.lengthWidth >= 3 { OrderedPrefix(p, s, 3); }
    if p.lengthWidth >= 4 { OrderedPrefix(p, s, 4); }
  }

  /** Where the naive parser cuts a stream of records. */
  lemma RecordsMean(p: Profile, s: bytes, i: nat)
    requires ValidateStreamFramingLocal(p) && p.strategy == AsciiCrlf
    ensures i + 2 <= |s| && [0x0D, 0x0A] <= s[i..]
            && (forall j: nat | j < i :: !([0x0D, 0x0A] <= s[j..])) ==>
              Decide(p, s) == if i + 2 <= p.maximum then Emit(i + 2) else Skip(i + 2)
    ensures (forall j: nat | j <= |s| :: !([0x0D, 0x0A] <= s[j..])) ==> Decide(p, s) == Wait
  {
    hide Find;
    var t: bytes := [0x0D, 0x0A];
    FindIsLeftmost(t, s);
    if Find(t, s).Some? {
      var f := Find(t, s).value;
      assert s[f..][..2] == s[f..f + 2];
      NothingBefore(t, s, f);
      if f < i {
        assert t <= s[f..];
      }
    }
    if i + 2 <= |s| && t <= s[i..] {
      assert s[i..][..2] == s[i..i + 2];
      assert OccursAt(t, s, i);
    }
  }

  /** Where it cuts a stream of another kind. */
  lemma FramesMean(p: Profile, s: bytes)
    requires ValidateStreamFramingLocal(p) && p.strategy != AsciiCrlf
    ensures p.strategy == FixedLength ==>
              Decide(p, s) == if |s| >= p.frameLength then Emit(p.frameLength) else Wait
    ensures p.strategy == SyncFixedLength ==>
              Decide(p, s) == if |s| < |p.sync| then Wait
                              else if s[..|p.sync|] != p.sync then Skip(1)
                              else if |s| >= p.frameLength then Emit(p.frameLength) else Wait
    ensures p.strategy == SyncLengthField ==>
              Decide(p, s) == if |s| < |p.sync| then Wait
                              else if s[..|p.sync|] != p.sync then Skip(1)
                              else if |s| < p.lengthOffset + p.lengthWidth then Wait
                              else if DeclaredLength(p, s) < p.minimum then Skip(1)
                              else if DeclaredLength(p, s) > p.maximum then Skip(1)
                              else if |s| < DeclaredLength(p, s) then Wait
                              else Emit(DeclaredLength(p, s))
  {
  }

  /** The naive parser's frames and its count, one decision at a time. */
  lemma ParseMeans(p: Profile, s: bytes)
    requires ValidateStreamFramingLocal(p)
    ensures Decide(p, s) == Wait ==> ParseStream(p, s) == [] && MalformedIn(p, s) == 0
    ensures Decide(p, s).Emit? ==>
              var n := Decide(p, s).size;
              && n <= |s| && ParseStream(p, s) == [s[..n]] + ParseStream(p, s[n..])
              && MalformedIn(p, s) == MalformedIn(p, s[n..])
    ensures Decide(p, s).Skip? ==>
              var n := Decide(p, s).size;
              && n <= |s| && ParseStream(p, s) == ParseStream(p, s[n..])
              && MalformedIn(p, s)
                 == MalformedIn(p, s[n..])
                    + if p.strategy == AsciiCrlf || (|s| >= |p.sync| && s[..|p.sync|] == p.sync)
                      then 1 else 0
  {
    DecisionSize(p, s);
  }

  // ---------------------------------------------------------------- prices

  /** The automaton's state. */
  lemma LongestMeans(p: bytes, t: bytes, k: nat)
    ensures Longest(p, t) == k
            <==> && k <= |p| && k <= |t| && t[|t| - k..] == p[..k]
                 && forall j: nat | k < j <= |p| && j <= |t| :: t[|t| - j..] != p[..j]
  {
    hide Longest;
    LongestFacts(p, t);
    forall j: nat | j <= |p| && j <= |t|
      ensures Overlaps(p, t, j) <==> t[|t| - j..] == p[..j]
    {
    }
    if && k <= |p| && k <= |t| && t[|t| - k..] == p[..k]
       && forall j: nat | k < j <= |p| && j <= |t| :: t[|t| - j..] != p[..j] {
      LongestIs(p, t, k);
    }
  }

  /** The prefix table: for each place, the longest proper border of the pattern up to there. */
  lemma TableMeans(p: bytes, table: seq<nat>)
    ensures PrefixTable(p, table)
            <==> |table| == |p| && forall i: nat | i < |p| :: table[i] == Longest(p, p[1..i + 1])
  {
    hide Longest;
  }

  /** Two units, and two more for each fallback. */
  lemma StepPriceMeans(p: bytes, m: nat, b: byte)
    requires m < |p|
    ensures m == 0 ==> StepPrice(p, m, b) == 2
    ensures b == p[m] ==> StepPrice(p, m, b) == 2
    ensures m > 0 && b != p[m] ==>
              && Longest(p, p[1..m]) < m
              && StepPrice(p, m, b) == 2 + StepPrice(p, Longest(p, p[1..m]), b)
  {
    hide Longest;
    if m > 0 {
      LongestShort(p, p[1..m]);
    }
  }

  /** A candidate's further bytes cost two units each, and its length field a unit a byte. */
  lemma CandidateCosts(p: Profile, s: bytes, h: nat)
    requires ValidateStreamFramingLocal(p) && p.SearchesSync() && |p.sync| <= |s|
    ensures p.strategy == SyncFixedLength ==>
              CandidateWork(p, s, h)
              == if |s| < p.frameLength then 2 * (|s| - h)
                 else 2 * (p.frameLength - h) + SearchWork(p, 0, s[p.frameLength..])
    ensures p.strategy == SyncLengthField && |s| < p.lengthOffset + p.lengthWidth ==>
              CandidateWork(p, s, h) == 2 * (|s| - h)
    ensures p.strategy == SyncLengthField && |s| >= p.lengthOffset + p.lengthWidth ==>
              var declared := DeclaredLength(p, s);
              CandidateWork(p, s, h)
              == p.lengthWidth
                 + if declared < p.minimum || declared > p.maximum
                   then 2 * (p.lengthOffset + p.lengthWidth - h) + RescanWork(p, s, 1)
                   else if |s| < declared then 2 * (|s| - h)
                   else 2 * (declared - h) + SearchWork(p, 0, s[declared..])
  {
    hide DeclaredLength, SearchWork, RescanWork;
    if p.strategy == SyncFixedLength {
      assert CandidateWork(p, s, h) == CollectWork(p, s, h, p.frameLength);
    } else if |s| >= p.HeaderEnd() {
      var declared := DeclaredLength(p, s);
      assert p.minimum <= declared <= p.maximum ==>
               CandidateWork(p, s, h)
               == 2 * (p.HeaderEnd() - h) + p.lengthWidth
                  + CollectWork(p, s, p.HeaderEnd(), declared);
    }
  }

  /** A rescanned byte costs its step, and a unit is due for each byte that is moved. */
  lemma RescanCosts(p: Profile, s: bytes, i: nat)
    requires ValidateStreamFramingLocal(p) && p.strategy == SyncLengthField
    requires 1 <= i <= p.lengthOffset + p.lengthWidth <= |s|
    requires Longest(p.sync, s[1..i]) < |p.sync|
    ensures var size, m := p.lengthOffset + p.lengthWidth, Longest(p.sync, s[1..i]);
            && (i == size ==> RescanWork(p, s, i) == SearchWork(p, m, s[size..]))
            && (i < size && Longest(p.sync, s[1..i + 1]) < |p.sync| ==>
                  RescanWork(p, s, i)
                  == StepPrice(p.sync, m, s[i]) + RescanWork(p, s, i + 1))
            && (i < size && Longest(p.sync, s[1..i + 1]) >= |p.sync| ==>
                  && |p.sync| <= i
                  && var start := i + 1 - |p.sync|;
                     RescanWork(p, s, i)
                     == StepPrice(p.sync, m, s[i]) + (size - start)
                        + CandidateWork(p, s[start..], size - start))
  {
    hide Longest, StepPrice, SearchWork, CandidateWork;
    if i < p.HeaderEnd() && Longest(p.sync, s[1..i + 1]) >= |p.sync| {
      assert Matched(p, s[1..i + 1]) == |p.sync|;
      FoundWork(p, s, i, i + 1 - |p.sync|);
    }
  }

  /** What the next step costs, state by state. */
  lemma NextPriceMeans(p: Profile, at: Position, rest: bytes)
    requires Sound(p, at)
    ensures at.stage.Plain? || at.stage.Collecting? ==> NextPrice(p, at, rest) == 2
    ensures at.stage.Copying? || at.stage.Moving? ==> NextPrice(p, at, rest) == 1
    ensures at.stage.Delivering? ==> NextPrice(p, at, rest) == 0
    ensures at.stage.Reading? ==>
              NextPrice(p, at, rest)
              == if |at.pending| < p.lengthOffset + p.lengthWidth then 2 else p.lengthWidth
    ensures at.stage.Searching? && rest != [] ==>
              |at.pending| < |p.sync|
              && NextPrice(p, at, rest) == StepPrice(p.sync, |at.pending|, rest[0])
    ensures at.stage.Rescanning? && at.stage.index < |at.pending| ==>
              && 1 <= at.stage.index && Longest(p.sync, at.pending[1..at.stage.index]) < |p.sync|
              && NextPrice(p, at, rest)
                 == StepPrice(p.sync, Longest(p.sync, at.pending[1..at.stage.index]),
                              at.pending[at.stage.index])
  {
    hide Longest, StepPrice;
  }

  lemma StreamCosts(p: Profile, s: bytes)
    requires ValidateStreamFramingLocal(p)
    ensures p.strategy == FixedLength || p.strategy == AsciiCrlf ==> StreamWork(p, s) == 2 * |s|
    ensures p.strategy == SyncFixedLength || p.strategy == SyncLengthField ==>
              p.sync != [] && StreamWork(p, s) == SearchWork(p, 0, s)
  {
    hide SearchWork;
  }

  // ---------------------------------------------------------------- bounds

  /** No byte is taken for less than two units. */
  lemma {:induction false} SearchPays(p: Profile, m: nat, s: bytes)
    requires ValidateStreamFramingLocal(p) && p.SearchesSync() && m < |p.sync|
    ensures SearchWork(p, m, s) >= 2 * |s|
    decreases m + |s|, 2, |s|
  {
    hide StepPrice, CandidateWork, Longest;
    if s != [] {
      StepAtLeast(p.sync, m, s[0]);
      var n := Matched(p, p.sync[..m] + [s[0]]);
      if n < |p.sync| {
        SearchPays(p, n, s[1..]);
      } else {
        CandidatePays(p, p.sync + s[1..], |p.sync|);
      }
    }
  }

  lemma StepAtLeast(p: bytes, m: nat, b: byte)
    requires m < |p|
    ensures StepPrice(p, m, b) >= 2
  {
  }

  lemma {:induction false} CandidatePays(p: Profile, s: bytes, h: nat)
    requires ValidateStreamFramingLocal(p) && p.SearchesSync() && |p.sync| <= |s|
    ensures CandidateWork(p, s, h) >= 2 * (|s| - h)
    decreases |s|, 1, 0
  {
    hide SearchWork, RescanWork, DeclaredLength, CollectWork;
    if p.strategy == SyncFixedLength {
      CollectPays(p, s, h, p.frameLength);
    } else if |s| >= p.HeaderEnd() {
      var declared := DeclaredLength(p, s);
      if p.minimum <= declared <= p.maximum {
        CollectPays(p, s, p.HeaderEnd(), declared);
      } else {
        hide Longest;
        LongestShort(p.sync, s[1..1]);
        RescanPays(p, s, 1);
      }
    }
  }

  lemma {:induction false} CollectPays(p: Profile, s: bytes, h: nat, size: nat)
    requires ValidateStreamFramingLocal(p) && p.SearchesSync() && size > 0
    ensures CollectWork(p, s, h, size) >= 2 * (|s| - h)
    decreases |s|, 0, 0
  {
    hide SearchWork;
    if |s| >= size {
      SearchPays(p, 0, s[size..]);
    }
  }

  lemma {:induction false} RescanPays(p: Profile, s: bytes, i: nat)
    requires ValidateStreamFramingLocal(p) && p.strategy == SyncLengthField
    requires 1 <= i <= p.HeaderEnd() <= |s| && Matched(p, s[1..i]) < |p.sync|
    ensures RescanWork(p, s, i) >= 2 * (|s| - p.HeaderEnd())
    decreases |s|, 0, p.HeaderEnd() - i
  {
    hide Longest, StepPrice, SearchWork, CandidateWork;
    var m := Matched(p, s[1..i]);
    if i == p.HeaderEnd() {
      SearchPays(p, m, s[i..]);
    } else {
      StepAtLeast(p.sync, m, s[i]);
      if Matched(p, s[1..i + 1]) < |p.sync| {
        RescanPays(p, s, i + 1);
      } else {
        var start := i + 1 - |p.sync|;
        FoundWork(p, s, i, start);
        CandidatePays(p, s[start..], p.HeaderEnd() - start);
      }
    }
  }

  /** Fallbacks are set off against the match they give up. */
  lemma {:induction false} StepAtMost(p: bytes, m: nat, b: byte, n: nat)
    requires m < |p| && n <= m + 1
    requires n > 0 ==> p[n - 1] == b && (n - 1 == m || Overlaps(p, p[1..m], n - 1))
    ensures StepPrice(p, m, b) + 2 * n <= 4 + 2 * m
    decreases m
  {
    hide Longest;
    if m != 0 && b != p[m] {
      var k := Longest(p, p[1..m]);
      LongestShort(p, p[1..m]);
      LongestFacts(p, p[1..m]);
      if n > 0 && n - 1 < k {
        OverlapIsBorder(p, p[1..m], k, n - 1);
      }
      StepAtMost(p, k, b, n);
    }
  }

  lemma StepBound(p: bytes, t: bytes, b: byte)
    requires Longest(p, t) < |p|
    ensures StepPrice(p, Longest(p, t), b) + 2 * Longest(p, t + [b]) <= 4 + 2 * Longest(p, t)
  {
    hide Longest, StepPrice;
    var m, n := Longest(p, t), Longest(p, t + [b]);
    LongestFacts(p, t);
    LongestFacts(p, t + [b]);
    if n > 0 {
      OverlapGrows(p, t, b, n);
      if n - 1 < m {
        OverlapIsBorder(p, t, m, n - 1);
      }
    }
    StepAtMost(p, m, b, n);
  }

  /** What a byte can cost at most beyond the two units of taking it. */
  function Surcharge(p: Profile): nat {
    2 + |p.sync| + p.lengthWidth + 5 * p.HeaderEnd()
  }

  /** `k` times `n`, kept apart from other arithmetic. */
  function Times(k: nat, n: nat): int {
    k * n
  }

  lemma TimesLess(k: nat, a: nat, b: nat)
    ensures a <= b ==> Times(k, a) <= Times(k, b)
    ensures a < b ==> Times(k, a) + k <= Times(k, b)
    ensures Times(k, a) >= 0
  {
    if a <= b {
      MulMono(a, b, k);
    }
    if a < b {
      MulMono(a + 1, b, k);
    }
    NonNegative(k, a);
  }

  lemma {:induction false} SearchBounded(p: Profile, m: nat, s: bytes)
    requires ValidateStreamFramingLocal(p) && p.SearchesSync() && m < |p.sync|
    ensures SearchWork(p, m, s) <= 2 * |s| + Times(Surcharge(p), m + |s|)
    decreases m + |s|, 2, |s|
  {
    hide StepPrice, CandidateWork, Longest, Times, Surcharge;
    TimesLess(Surcharge(p), m, m + |s|);
    if s != [] {
      var n := Matched(p, p.sync[..m] + [s[0]]);
      PrefixOverlap(p.sync, m);
      StepBound(p.sync, p.sync[..m], s[0]);
      if n < |p.sync| {
        SearchBounded(p, n, s[1..]);
        SpareFallbacks(p, m + |s|, n + |s| - 1);
      } else {
        CandidateBounded(p, p.sync + s[1..], |p.sync|);
      }
    }
  }

  lemma SpareFallbacks(p: Profile, a: nat, b: nat)
    requires b <= a
    ensures 2 * (a - b) + Times(Surcharge(p), b) <= Times(Surcharge(p), a)
  {
    MulMono(2, Surcharge(p), a - b);
    Distribute(b, a - b, Surcharge(p));
  }

  lemma {:induction false} CandidateBounded(p: Profile, s: bytes, h: nat)
    requires ValidateStreamFramingLocal(p) && p.SearchesSync() && |p.sync| <= |s|
    ensures CandidateWork(p, s, h) + |p.sync| <= 2 * (|s| - h) + Times(Surcharge(p), |s|)
    decreases |s|, 1, 0
  {
    hide SearchWork, RescanWork, DeclaredLength, CollectWork, Times, Longest;
    TimesLess(Surcharge(p), 0, |s|);
    if p.strategy == SyncFixedLength {
      CollectBounded(p, s, h, p.frameLength);
    } else if |s| >= p.HeaderEnd() {
      var declared := DeclaredLength(p, s);
      if p.minimum <= declared <= p.maximum {
        CollectBounded(p, s, p.HeaderEnd(), declared);
      } else {
        LongestShort(p.sync, s[1..1]);
        RescanBounded(p, s, 1);
        TimesLess(Surcharge(p), |s| - 1, |s|);
      }
    }
  }

  lemma {:induction false} CollectBounded(p: Profile, s: bytes, h: nat, size: nat)
    requires ValidateStreamFramingLocal(p) && p.SearchesSync() && size > 0 && s != []
    ensures CollectWork(p, s, h, size) + p.lengthWidth + |p.sync|
            <= 2 * (|s| - h) + Times(Surcharge(p), |s|)
    decreases |s|, 0, 0
  {
    hide SearchWork, Times;
    if |s| >= size {
      SearchBounded(p, 0, s[size..]);
      TimesLess(Surcharge(p), |s| - size, |s|);
    } else {
      TimesLess(Surcharge(p), 0, |s|);
    }
  }

  lemma {:induction false} RescanBounded(p: Profile, s: bytes, i: nat)
    requires ValidateStreamFramingLocal(p) && p.strategy == SyncLengthField
    requires 1 <= i <= p.HeaderEnd() <= |s| && Matched(p, s[1..i]) < |p.sync|
    ensures RescanWork(p, s, i)
            <= 4 * (p.HeaderEnd() - i) + 2 * Matched(p, s[1..i]) + p.HeaderEnd()
               + 2 * (|s| - p.HeaderEnd()) + Times(Surcharge(p), |s| - 1)
    decreases |s|, 0, p.HeaderEnd() - i
  {
    hide Longest, StepPrice, SearchWork, CandidateWork, Times, Surcharge;
    var m := Matched(p, s[1..i]);
    if i == p.HeaderEnd() {
      SearchBounded(p, m, s[i..]);
      TimesLess(Surcharge(p), m + |s| - i, |s| - 1);
    } else {
      StepBound(p.sync, s[1..i], s[i]);
      assert s[1..i] + [s[i]] == s[1..i + 1];
      if Matched(p, s[1..i + 1]) < |p.sync| {
        RescanBounded(p, s, i + 1);
      } else {
        var start := i + 1 - |p.sync|;
        FoundWork(p, s, i, start);
        CandidateBounded(p, s[start..], p.HeaderEnd() - start);
        TimesLess(Surcharge(p), |s| - start, |s| - 1);
      }
    }
  }

  /**
   * What any stream costs: two units a byte at least, and a constant a byte at most. No stream,
   * however its bytes are chosen, makes the rescans and moves cost more than that.
   */
  lemma WorkBounded(p: Profile, s: bytes)
    requires ValidateStreamFramingLocal(p)
    ensures 2 * |s| <= StreamWork(p, s)
            <= (4 + |p.sync| + p.lengthWidth + 5 * (p.lengthOffset + p.lengthWidth)) * |s|
  {
    hide SearchWork;
    if p.SearchesSync() {
      SearchPays(p, 0, s);
      SearchBounded(p, 0, s);
    }
    NonNegative(Surcharge(p), |s|);
    Distribute(2, Surcharge(p), |s|);
  }

  /** A stream profile with one sync byte and a length byte behind another. */
  predicate Nested(p: Profile) {
    && p.strategy == SyncLengthField && p.sync == [0xAA] && p.lengthOffset == 2
    && p.lengthWidth == 1 && p.lengthOrder == NotApplicable && p.minimum == 4 && p.maximum == 8
  }

  lemma NestedMatches(p: Profile)
    requires Nested(p)
    ensures var s: bytes := [0xAA, 0xAA, 0xFF];
            && Longest(p.sync, p.sync[..0] + [0xAA]) == 1 && Longest(p.sync, s[1..1]) == 0
            && Longest(p.sync, s[1..2]) == 1
  {
    hide Longest;
    var s: bytes := [0xAA, 0xAA, 0xFF];
    OneByteMatch(0xAA);
    assert p.sync[..0] + [0xAA] == [0xAA] && s[1..1] == [] && s[1..2] == [0xAA];
  }

  lemma OneByteMatch(x: byte)
    ensures Longest([x], [x]) == 1 && Longest([x], []) == 0
  {
    assert Overlaps([x], [x], 1);
  }

  /** The second header is found, and its candidate moved, before its length is complete. */
  lemma NestedRescan(p: Profile)
    requires Nested(p)
    ensures RescanWork(p, [0xAA, 0xAA, 0xFF], 1) == 4
  {
    hide SearchWork, CandidateWork, RescanWork, DeclaredLength, Longest;
    var s: bytes := [0xAA, 0xAA, 0xFF];
    NestedMatches(p);
    RescanCosts(p, s, 1);
    CandidateCosts(p, s[1..], 2);
  }

  lemma NestedCandidate(p: Profile)
    requires Nested(p)
    ensures CandidateWork(p, [0xAA, 0xAA, 0xFF], 1) == 9
  {
    hide SearchWork, CandidateWork, RescanWork, DeclaredLength, Longest;
    var s: bytes := [0xAA, 0xAA, 0xFF];
    DeclaredMeans(p, s, 0xFF, 0, 0, 0);
    CandidateCosts(p, s, 1);
    NestedRescan(p);
  }

  /** One header inside another, and no frame: 2 + 1 + 2 + 2 + 1, then 2 and 2 for the move. */
  lemma NestedHeaderCosts(p: Profile)
    requires Nested(p)
    ensures ValidateStreamFramingLocal(p) && StreamWork(p, [0xAA, 0xAA, 0xFF]) == 12
  {
    hide SearchWork, CandidateWork, Longest;
    var rest: bytes := [0xAA, 0xFF];
    NestedMatches(p);
    SearchCosts(p, 0, 0xAA, rest);
    assert [0xAA] + rest == [0xAA, 0xAA, 0xFF] && p.sync + rest == [0xAA, 0xAA, 0xFF];
    NestedCandidate(p);
  }
}
