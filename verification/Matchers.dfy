/**
 * Structural matching of complete records: what a message's matchers demand of a frame, the
 * compiler's test whether two messages can demand the same frame, and the run-time lookup that
 * relies on it.
 */
module Matchers {
  import opened Bytes

  datatype MatcherClause =
    | FrameLengthEquals(lengthBytes: nat)
    | FixedBytes(offset: nat, content: bytes)

  /** The structural side of a Binary message; a bounded payload makes its length variable. */
  datatype MessageShape = MessageShape(
    bounded: bool,
    minFrame: nat,
    maxFrame: nat,
    headerLength: nat,
    clauses: seq<MatcherClause>)
  {
    /** Up to where every frame of the message reaches: where matchers may stand. */
    function Reach(): nat {
      if bounded then headerLength else maxFrame
    }
  }

  // ---------------------------------------------------------------- what matchers demand

  predicate ClauseDemands(c: MatcherClause, i: nat, v: byte) {
    c.FixedBytes? && c.offset <= i < c.offset + |c.content| && c.content[i - c.offset] == v
  }

  predicate Demands(clauses: seq<MatcherClause>, i: nat, v: byte) {
    exists c :: c in clauses && ClauseDemands(c, i, v)
  }

  /** A byte is asked for by a clause whose content has it there. */
  lemma DemandsMeans(clauses: seq<MatcherClause>, i: nat, v: byte)
    ensures Demands(clauses, i, v)
            <==> exists c :: c in clauses && c.FixedBytes? && c.offset <= i < c.offset + |c.content|
                             && c.content[i - c.offset] == v
  {
  }

  /** The frame has a length and the bytes that the message's matchers ask for. */
  ghost predicate Satisfies(m: MessageShape, frame: bytes) {
    && m.minFrame <= |frame| <= m.maxFrame
    && forall i: nat, v: byte | Demands(m.clauses, i, v) :: i < |frame| && frame[i] == v
  }

  /** Clause by clause: the content stands in the frame at its offset. */
  lemma SatisfiedByContent(m: MessageShape, frame: bytes)
    ensures Satisfies(m, frame)
            <==> && m.minFrame <= |frame| <= m.maxFrame
                 && forall c | c in m.clauses && c.FixedBytes? && c.content != [] ::
                      c.offset + |c.content| <= |frame|
                      && frame[c.offset..c.offset + |c.content|] == c.content
  {
    if Satisfies(m, frame) {
      forall c | c in m.clauses && c.FixedBytes? && c.content != []
        ensures c.offset + |c.content| <= |frame|
        ensures frame[c.offset..c.offset + |c.content|] == c.content
      {
        ClauseInFrame(m, frame, c);
      }
    }
    if forall c | c in m.clauses && c.FixedBytes? && c.content != [] ::
         c.offset + |c.content| <= |frame|
         && frame[c.offset..c.offset + |c.content|] == c.content
    {
      forall i: nat, v: byte | Demands(m.clauses, i, v)
        ensures i < |frame| && frame[i] == v
      {
        var c :| c in m.clauses && ClauseDemands(c, i, v);
        assert frame[i] == frame[c.offset..c.offset + |c.content|][i - c.offset];
      }
    }
  }

  lemma ClauseInFrame(m: MessageShape, frame: bytes, c: MatcherClause)
    requires Satisfies(m, frame) && c in m.clauses && c.FixedBytes? && c.content != []
    ensures c.offset + |c.content| <= |frame|
    ensures frame[c.offset..c.offset + |c.content|] == c.content
  {
    NthInFrame(m, frame, c, |c.content| - 1);
    var part := frame[c.offset..c.offset + |c.content|];
    forall n: nat | n < |c.content|
      ensures part[n] == c.content[n]
    {
      NthInFrame(m, frame, c, n);
    }
  }

  lemma NthInFrame(m: MessageShape, frame: bytes, c: MatcherClause, n: nat)
    requires Satisfies(m, frame) && c in m.clauses && c.FixedBytes? && n < |c.content|
    ensures c.offset + n < |frame| && frame[c.offset + n] == c.content[n]
  {
    assert ClauseDemands(c, c.offset + n, c.content[n]);
    assert Demands(m.clauses, c.offset + n, c.content[n]);
  }

  predicate ClauseLegal(m: MessageShape, c: MatcherClause) {
    match c
    case FrameLengthEquals(n) => !m.bounded && n == m.maxFrame
    case FixedBytes(offset, content) => offset + |content| <= m.Reach()
  }

  /** No byte is asked to have two values. */
  ghost predicate Consistent(clauses: seq<MatcherClause>) {
    forall i: nat, v: byte, w: byte {:trigger Demands(clauses, i, v), Demands(clauses, i, w)} ::
      Demands(clauses, i, v) && Demands(clauses, i, w) ==> v == w
  }

  ghost predicate LegalMatchers(m: MessageShape) {
    (forall c :: c in m.clauses ==> ClauseLegal(m, c)) && Consistent(m.clauses)
  }

  /** The lengths ValidateMessageDomain has fixed before it looks at matchers. */
  predicate LegalLengths(m: MessageShape) {
    && m.minFrame <= m.maxFrame && (!m.bounded ==> m.minFrame == m.maxFrame)
    && m.Reach() <= m.minFrame
  }

  /** `fixed` is the union of the clauses' bytes. */
  ghost predicate IsUnion(fixed: map<nat, byte>, clauses: seq<MatcherClause>) {
    forall i: nat, v: byte {:trigger Demands(clauses, i, v)} ::
      Demands(clauses, i, v) <==> i in fixed && fixed[i] == v
  }

  /** The part of `c` before its `n`-th byte. */
  function Cut(c: MatcherClause, n: nat): MatcherClause {
    if c.FixedBytes? && n <= |c.content| then FixedBytes(c.offset, c.content[..n]) else c
  }

  lemma DemandsMore(clauses: seq<MatcherClause>, c: MatcherClause, i: nat, v: byte)
    ensures Demands(clauses + [c], i, v) <==> Demands(clauses, i, v) || ClauseDemands(c, i, v)
  {
    if Demands(clauses, i, v) {
      var d :| d in clauses && ClauseDemands(d, i, v);
      assert d in clauses + [c];
    }
    if ClauseDemands(c, i, v) {
      assert c in clauses + [c];
    }
  }

  lemma CutMore(c: MatcherClause, n: nat, i: nat, v: byte)
    requires c.FixedBytes? && n < |c.content|
    ensures ClauseDemands(Cut(c, n + 1), i, v)
            <==> ClauseDemands(Cut(c, n), i, v) || (i == c.offset + n && v == c.content[n])
  {
    if c.offset <= i <= c.offset + n {
      assert c.content[..n + 1][i - c.offset] == c.content[i - c.offset];
      assert i < c.offset + n ==> c.content[..n][i - c.offset] == c.content[i - c.offset];
    }
  }

  /** One byte more: inserted, or already there with the same value, or a contradiction. */
  lemma UnionMore(fixed: map<nat, byte>, clauses: seq<MatcherClause>, c: MatcherClause, n: nat)
    requires c.FixedBytes? && n < |c.content| && IsUnion(fixed, clauses + [Cut(c, n)])
    ensures var at, v := c.offset + n, c.content[n];
            && (at !in fixed ==> IsUnion(fixed[at := v], clauses + [Cut(c, n + 1)]))
            && (at in fixed && fixed[at] == v ==> IsUnion(fixed, clauses + [Cut(c, n + 1)]))
            && (at in fixed && fixed[at] != v ==>
                  Demands(clauses + [c], at, v) && Demands(clauses + [c], at, fixed[at]))
  {
    hide Demands, ClauseDemands, Cut;
    var at, v := c.offset + n, c.content[n];
    var before, after := clauses + [Cut(c, n)], clauses + [Cut(c, n + 1)];
    forall i: nat, w: byte {:trigger Demands(after, i, w)}
      ensures Demands(after, i, w) <==> Demands(before, i, w) || (i == at && w == v)
    {
      DemandsMore(clauses, Cut(c, n), i, w);
      DemandsMore(clauses, Cut(c, n + 1), i, w);
      CutMore(c, n, i, w);
    }
    DemandsMore(clauses, c, at, v);
    NthDemanded(c, n);
    if at in fixed {
      DemandsMore(clauses, Cut(c, n), at, fixed[at]);
      DemandsMore(clauses, c, at, fixed[at]);
      CutDemands(c, n, at, fixed[at]);
      assert Demands(clauses + [Cut(c, n)], at, fixed[at]);
    }
  }

  lemma NthDemanded(c: MatcherClause, n: nat)
    requires c.FixedBytes? && n < |c.content|
    ensures ClauseDemands(c, c.offset + n, c.content[n])
  {
  }

  lemma CutDemands(c: MatcherClause, n: nat, i: nat, v: byte)
    requires c.FixedBytes? && n <= |c.content|
    ensures ClauseDemands(Cut(c, n), i, v) ==> ClauseDemands(c, i, v)
  {
  }

  lemma CutNothing(fixed: map<nat, byte>, clauses: seq<MatcherClause>, c: MatcherClause)
    requires IsUnion(fixed, clauses)
    ensures c.FixedBytes? ==> IsUnion(fixed, clauses + [Cut(c, 0)])
    ensures c.FrameLengthEquals? ==> IsUnion(fixed, clauses + [c])
  {
    forall i: nat, v: byte
      ensures Demands(clauses + [Cut(c, 0)], i, v) <==> Demands(clauses, i, v)
    {
      DemandsMore(clauses, Cut(c, 0), i, v);
      assert !ClauseDemands(Cut(c, 0), i, v);
    }
    if c.FrameLengthEquals? {
      assert Cut(c, 0) == c;
    }
  }

  lemma CutAll(c: MatcherClause)
    requires c.FixedBytes?
    ensures Cut(c, |c.content|) == c
  {
  }

  lemma ConsistentUnion(fixed: map<nat, byte>, clauses: seq<MatcherClause>)
    requires IsUnion(fixed, clauses)
    ensures Consistent(clauses)
  {
  }

  lemma StillDemanded(clauses: seq<MatcherClause>, k: nat, i: nat, v: byte)
    requires k <= |clauses| && Demands(clauses[..k], i, v)
    ensures Demands(clauses, i, v)
  {
    var c :| c in clauses[..k] && ClauseDemands(c, i, v);
    assert c in clauses;
  }

  /** The bytes of one more clause, unless it asks for others than the clauses before it. */
  method AddBytes(fixed0: map<nat, byte>, ghost clauses: seq<MatcherClause>, c: MatcherClause)
    returns (ok: bool, fixed: map<nat, byte>)
    requires c.FixedBytes? && IsUnion(fixed0, clauses)
    ensures ok ==> IsUnion(fixed, clauses + [c])
    ensures !ok ==> !Consistent(clauses + [c])
  {
    hide Demands, ClauseDemands, IsUnion, Consistent, Cut;
    fixed := fixed0;
    CutNothing(fixed, clauses, c);
    for n := 0 to |c.content|
      invariant IsUnion(fixed, clauses + [Cut(c, n)])
    {
      var at, v := c.offset + n, c.content[n];
      UnionMore(fixed, clauses, c, n);
      if at in fixed {
        if fixed[at] != v {
          Contradicts(clauses + [c], at, v, fixed[at]);
          return false, fixed;
        }
      } else {
        fixed := fixed[at := v];
      }
    }
    CutAll(c);
    ok := true;
  }

  /** Legal matchers: right lengths, bytes in reach, and no byte of which two values are asked. */
  lemma LegalMeans(m: MessageShape)
    ensures LegalMatchers(m)
            <==> && (forall c | c in m.clauses && c.FrameLengthEquals? ::
                       !m.bounded && c.lengthBytes == m.maxFrame)
                 && (forall c | c in m.clauses && c.FixedBytes? ::
                       c.offset + |c.content| <= if m.bounded then m.headerLength else m.maxFrame)
                 && forall i: nat, v: byte, w: byte |
                      Demands(m.clauses, i, v) && Demands(m.clauses, i, w) :: v == w
    ensures LegalLengths(m)
            <==> && m.minFrame <= m.maxFrame && (m.bounded || m.minFrame == m.maxFrame)
                 && (if m.bounded then m.headerLength else m.maxFrame) <= m.minFrame
  {
    hide Demands;
  }

  /** The compiler's check of a message's matchers, and the union it builds on the way. */
  method ValidateMatchers(m: MessageShape) returns (accepted: bool, fixed: map<nat, byte>)
    ensures accepted <==> LegalMatchers(m)
    ensures accepted ==> IsUnion(fixed, m.clauses)
  {
    hide Demands, ClauseDemands, IsUnion, Consistent, Cut;
    fixed := map[];
    NothingDemanded();
    for k := 0 to |m.clauses|
      invariant IsUnion(fixed, m.clauses[..k])
      invariant forall c :: c in m.clauses[..k] ==> ClauseLegal(m, c)
    {
      var c := m.clauses[k];
      assert c in m.clauses;
      assert m.clauses[..k + 1] == m.clauses[..k] + [c];
      CutNothing(fixed, m.clauses[..k], c);
      if c.FrameLengthEquals? {
        if m.bounded || c.lengthBytes != m.maxFrame {
          assert !ClauseLegal(m, c);
          return false, fixed;
        }
      } else {
        if c.offset + |c.content| > m.Reach() {
          assert !ClauseLegal(m, c);
          return false, fixed;
        }
        PrefixConsistent(m.clauses, k + 1);
        var ok;
        ok, fixed := AddBytes(fixed, m.clauses[..k], c);
        if !ok {
          return false, fixed;
        }
      }
    }
    assert m.clauses[..|m.clauses|] == m.clauses;
    ConsistentUnion(fixed, m.clauses);
    accepted := true;
  }

  lemma PrefixConsistent(clauses: seq<MatcherClause>, k: nat)
    requires k <= |clauses|
    ensures Consistent(clauses) ==> Consistent(clauses[..k])
  {
    hide Demands;
    forall i: nat, v: byte | Demands(clauses[..k], i, v)
      ensures Demands(clauses, i, v)
    {
      StillDemanded(clauses, k, i, v);
    }
  }

  lemma NothingDemanded()
    ensures IsUnion(map[], [])
  {
  }

  lemma Contradicts(clauses: seq<MatcherClause>, i: nat, v: byte, w: byte)
    requires Demands(clauses, i, v) && Demands(clauses, i, w) && v != w
    ensures !Consistent(clauses)
  {
  }

  // ---------------------------------------------------------------- can two messages intersect?

  method BytesOf(clauses: seq<MatcherClause>) returns (fixed: map<nat, byte>)
    requires Consistent(clauses)
    ensures IsUnion(fixed, clauses)
  {
    hide Demands, ClauseDemands, IsUnion, Consistent, Cut;
    fixed := map[];
    NothingDemanded();
    for k := 0 to |clauses|
      invariant IsUnion(fixed, clauses[..k])
    {
      var c := clauses[k];
      assert clauses[..k + 1] == clauses[..k] + [c];
      CutNothing(fixed, clauses[..k], c);
      if c.FixedBytes? {
        PrefixConsistent(clauses, k + 1);
        var ok;
        ok, fixed := AddBytes(fixed, clauses[..k], c);
      }
    }
    assert clauses[..|clauses|] == clauses;
  }

  /** Some byte is asked for with different values. */
  ghost predicate Clash(a: seq<MatcherClause>, b: seq<MatcherClause>) {
    exists i: nat, v: byte, w: byte :: Demands(a, i, v) && Demands(b, i, w) && v != w
  }

  /** Exactly when some frame satisfies both messages. */
  method FixedMatchersCanIntersect(left: MessageShape, right: MessageShape) returns (can: bool)
    requires LegalLengths(left) && LegalMatchers(left)
    requires LegalLengths(right) && LegalMatchers(right)
    ensures can <==> exists frame :: Satisfies(left, frame) && Satisfies(right, frame)
  {
    hide Demands, ClauseDemands, Consistent, Clash, Satisfies, IsUnion, LegalMatchers;
    if left.maxFrame < right.minFrame || right.maxFrame < left.minFrame {
      LengthsApart(left, right);
      return false;
    }
    MatchersConsistent(left);
    var leftBytes := BytesOf(left.clauses);
    NoClash(left.clauses);
    for k := 0 to |right.clauses|
      invariant !Clash(left.clauses, right.clauses[..k])
    {
      var c := right.clauses[k];
      assert right.clauses[..k + 1] == right.clauses[..k] + [c];
      if c.FixedBytes? {
        for n := 0 to |c.content|
          invariant forall j: nat | j < n ::
                      c.offset + j in leftBytes ==> leftBytes[c.offset + j] == c.content[j]
        {
          var at := c.offset + n;
          if at in leftBytes && leftBytes[at] != c.content[n] {
            ClauseClashes(left, right, leftBytes, k, n);
            return false;
          }
        }
      }
      ClauseAgrees(left.clauses, leftBytes, right.clauses[..k], c);
    }
    assert right.clauses[..|right.clauses|] == right.clauses;
    CommonFrame(left, right);
    can := true;
  }

  lemma MatchersConsistent(m: MessageShape)
    requires LegalMatchers(m)
    ensures Consistent(m.clauses)
  {
  }

  lemma LengthsApart(left: MessageShape, right: MessageShape)
    requires left.maxFrame < right.minFrame || right.maxFrame < left.minFrame
    ensures !exists frame :: Satisfies(left, frame) && Satisfies(right, frame)
  {
  }

  lemma NoClash(a: seq<MatcherClause>)
    ensures !Clash(a, [])
  {
  }

  lemma ClauseClashes(left: MessageShape, right: MessageShape, fixed: map<nat, byte>, k: nat, n: nat)
    requires IsUnion(fixed, left.clauses)
    requires k < |right.clauses| && right.clauses[k].FixedBytes?
    requires var c := right.clauses[k];
             n < |c.content| && c.offset + n in fixed && fixed[c.offset + n] != c.content[n]
    ensures !exists frame :: Satisfies(left, frame) && Satisfies(right, frame)
  {
    hide Demands, ClauseDemands, IsUnion;
    var c := right.clauses[k];
    var at := c.offset + n;
    UnionDemands(fixed, left.clauses, at);
    NthDemanded(c, n);
    ClauseDemanded(right.clauses, k, at, c.content[n]);
  }

  lemma UnionDemands(fixed: map<nat, byte>, clauses: seq<MatcherClause>, i: nat)
    requires IsUnion(fixed, clauses) && i in fixed
    ensures Demands(clauses, i, fixed[i])
  {
  }

  lemma ClauseDemanded(clauses: seq<MatcherClause>, k: nat, i: nat, v: byte)
    requires k < |clauses| && ClauseDemands(clauses[k], i, v)
    ensures Demands(clauses, i, v)
  {
  }

  lemma ClauseAgrees(a: seq<MatcherClause>, fixed: map<nat, byte>, b: seq<MatcherClause>,
                     c: MatcherClause)
    requires IsUnion(fixed, a) && !Clash(a, b)
    requires c.FixedBytes? ==>
               forall j: nat | j < |c.content| ::
                 c.offset + j in fixed ==> fixed[c.offset + j] == c.content[j]
    ensures !Clash(a, b + [c])
  {
    hide Demands;
    forall i: nat, v: byte, w: byte | Demands(a, i, v) && Demands(b + [c], i, w)
      ensures v == w
    {
      DemandsMore(b, c, i, w);
      if ClauseDemands(c, i, w) {
        var j: nat := i - c.offset;
        assert c.offset + j == i;
      }
    }
  }

  /** Without a clash the two demands can be written into one frame. */
  lemma CommonFrame(left: MessageShape, right: MessageShape)
    requires LegalLengths(left) && LegalMatchers(left)
    requires LegalLengths(right) && LegalMatchers(right)
    requires left.maxFrame >= right.minFrame && right.maxFrame >= left.minFrame
    requires !Clash(left.clauses, right.clauses)
    ensures exists frame :: Satisfies(left, frame) && Satisfies(right, frame)
  {
    hide Demands, ClauseDemands;
    var size := if left.minFrame < right.minFrame then right.minFrame else left.minFrame;
    var frame := seq(size, i requires i >= 0 => Wanted(left.clauses, right.clauses, i));
    forall i: nat, v: byte | Demands(left.clauses, i, v)
      ensures i < |frame| && frame[i] == v
    {
      DemandedInReach(left, i, v);
    }
    forall i: nat, v: byte | Demands(right.clauses, i, v)
      ensures i < |frame| && frame[i] == v
    {
      DemandedInReach(right, i, v);
    }
    assert Satisfies(left, frame) && Satisfies(right, frame);
  }

  /** What either side asks for at an offset, or 0. */
  ghost function Wanted(a: seq<MatcherClause>, b: seq<MatcherClause>, i: nat): byte {
    if v: byte :| Demands(a, i, v) then v
    else if w: byte :| Demands(b, i, w) then w
    else 0
  }

  lemma DemandedInReach(m: MessageShape, i: nat, v: byte)
    requires LegalMatchers(m) && Demands(m.clauses, i, v)
    ensures i < m.Reach()
  {
    var c :| c in m.clauses && ClauseDemands(c, i, v);
    assert ClauseLegal(m, c);
  }
}
