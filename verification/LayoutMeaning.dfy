/**
 * What the compiler's checks of a Binary message's layout say in terms of offsets and widths, and
 * that the matchers they refuse could never be met.
 */
module LayoutMeaning {
  import opened Bytes
  import opened FramingSpec
  import opened WideIntegers
  import opened DecimalConversion
  import opened WireIntegers
  import Integrity
  import opened PipelineMatch
  import opened BinaryPlan
  import opened BinaryImage
  import opened BinaryEncode
  import opened MatcherConflicts

  // ---------------------------------------------------------------- legal parts

  /** The parts that make a message legal, each spelled out below or above. */
  lemma MessageMeans(m: MessagePlan)
    ensures ValidMessage(m)
            <==> && m.LegalBounds()
                 && (forall c | c in m.containers :: LegalContainer(m, c))
                 && (forall k: nat | k < |m.fields| :: LegalField(m, k))
                 && (m.bounded.Some? ==> m.bounded.value.payloadField < |m.fields|)
                 && LegalComputed(m) && LegalIntegrity(m) && LegalMatcherBytes(m)
                 && AllApart(Spans(m)) && FullyDefined(m)
                 && forall c: nat | c < |m.containers| :: MembersApart(m.fields, c)
  {
    hide LegalContainer, LegalField, LegalComputed, LegalIntegrity, LegalMatcherBytes, AllApart,
         FullyDefined, MembersApart;
  }

  /** The sizes of frames. */
  lemma BoundsMean(m: MessagePlan)
    ensures m.bounded.None? ==>
              (m.LegalBounds()
               <==> !m.structure.bounded && m.structure.minFrame == m.structure.maxFrame)
    ensures m.bounded.Some? ==>
              var b := m.bounded.value;
              (m.LegalBounds()
               <==> && m.structure.bounded && b.minPayload <= b.maxPayload
                    && m.structure.minFrame == b.headerLength + b.minPayload + b.trailerLength
                    && m.structure.maxFrame == b.headerLength + b.maxPayload + b.trailerLength
                    && b.trailerLength == match m.integrity
                                          case None => 0
                                          case Some(i) =>
                                            match i.algorithm
                                            case Sum8 => 1
                                            case Crc(p) => p.width / 8)
  {
  }

  lemma ContainerMeans(m: MessagePlan, c: ContainerPlan)
    ensures LegalContainer(m, c)
            <==> && 1 <= c.width <= 8 && (c.width == 1 || c.order == Big || c.order == Little)
                 && c.offset + c.width <= (if m.bounded.Some? then m.bounded.value.headerLength
                                           else m.structure.maxFrame)
                 && c.baseValue < Pow2(8 * c.width)
  {
    hide Pow2;
  }

  /** A field's place, by its kind of wire. */
  lemma WireMeans(m: MessagePlan, k: nat, w: Wire)
    ensures var reach := if m.bounded.Some? then m.bounded.value.headerLength
                         else m.structure.maxFrame;
            LegalWire(m, k, w)
            <==>
            match w
            case WholeBytes(offset, width) =>
              if m.bounded.Some? && k == m.bounded.value.payloadField
              then offset == m.bounded.value.headerLength && width == m.bounded.value.maxPayload
              else offset + width <= reach
            case Unsigned(offset, width, order) =>
              1 <= width <= 8 && (width == 1 || order == Big || order == Little)
              && offset + width <= reach
            case Bitfield(c, shift, bits) =>
              c < |m.containers| && bits >= 1 && shift + bits <= 8 * m.containers[c].width
  {
  }

  /** A field's type and source, by its kind of wire. */
  lemma FieldMeans(m: MessagePlan, k: nat)
    requires k < |m.fields|
    ensures var f := m.fields[k];
            var bits := match f.wire
                        case Unsigned(_, width, _) => 8 * width
                        case Bitfield(_, _, bits) => bits
                        case WholeBytes(_, _) => 0;
            LegalField(m, k)
            <==> && LegalWire(m, k, f.wire)
                 && (m.bounded.Some? && k == m.bounded.value.payloadField ==> f.fieldType == Bytes)
                 && (match f.fieldType
                     case Uint => !f.wire.WholeBytes?
                     case Int => f.wire.Unsigned?
                     case Bytes => f.wire.WholeBytes? && f.source == Input
                     case Bool => f.wire.Bitfield? && bits == 1 && f.source == Input
                     case Decimal(c) => f.wire.Unsigned? && f.source == Input && Moderate(c)
                     case Enum(raws, _) =>
                       && !f.wire.WholeBytes? && f.source == Input
                       && (forall i | 0 <= i < |raws| :: raws[i] < Pow2(bits))
                       && forall i, j | 0 <= i < j < |raws| :: raws[i] != raws[j])
                 && match f.source
                    case Input => true
                    case Computed => f.fieldType == Uint && f.wire.Unsigned?
                    case Constant(value) =>
                      || (f.fieldType == Uint && 0 <= value < Pow2(bits))
                      || (f.fieldType == Int && f.wire.Unsigned?
                          && InRange(value, ValueType.Int64, f.wire.width))
  {
    hide Pow2, LegalWire, Moderate, InRange;
  }

  /** The computed length: one field, wide enough for the longest length it can hold. */
  lemma ComputedMeans(m: MessagePlan)
    ensures LegalComputed(m)
            <==> && (forall k | 0 <= k < |m.fields| ::
                       m.fields[k].source == Computed
                       <==> m.computed.Some? && k == m.computed.value.fieldIndex)
                 && (m.computed.Some? ==>
                       var c := m.computed.value;
                       && c.fieldIndex < |m.fields| && m.fields[c.fieldIndex].wire.Unsigned?
                       && m.fields[c.fieldIndex].source == Computed
                       && (c.scope == PayloadScope ==> m.bounded.Some?)
                       && (c.scope == RegionScope ==> m.bounded.None?)
                       && var longest := match c.scope
                                         case FrameScope => m.structure.maxFrame
                                         case RegionScope => c.regionLength
                                         case PayloadScope =>
                                           if m.bounded.Some? then m.bounded.value.maxPayload else 0;
                          longest < WidthLimit(m.fields[c.fieldIndex].wire.width))
  {
    hide WidthLimit;
  }

  /** The checksum: legal parameters, and storage apart from what it covers and from all fields. */
  lemma IntegrityMeans(m: MessagePlan)
    ensures m.integrity.None? ==> LegalIntegrity(m)
    ensures m.integrity.Some? ==>
              var i := m.integrity.value;
              var width := match i.algorithm
                           case Sum8 => 1
                           case Crc(p) => p.width / 8;
              (LegalIntegrity(m)
               <==> && (i.algorithm.Crc? ==> Integrity.ValidCrc(i.algorithm.parameters)
                                             && (i.order == Big || i.order == Little))
                    && (i.rangeEndsAtPayload ==>
                          m.bounded.Some? && i.rangeOffset <= m.bounded.value.headerLength)
                    && (m.bounded.Some? && !i.rangeEndsAtPayload ==>
                          i.rangeOffset + i.rangeLength
                          <= m.structure.minFrame - m.bounded.value.trailerLength)
                    && (m.bounded.None? ==>
                          && i.rangeOffset + i.rangeLength <= m.structure.maxFrame
                          && i.storageOffset + width <= m.structure.maxFrame
                          && (|| i.storageOffset + width <= i.rangeOffset
                              || i.rangeOffset + i.rangeLength <= i.storageOffset)
                          && forall s :: s in Spans(m) ==>
                               i.storageOffset + width <= s.begin || s.end <= i.storageOffset))
  {
    hide Integrity.ValidCrc, Spans;
  }

  // ---------------------------------------------------------------- who owns which bytes

  lemma {:induction false} CollectedIs(fields: seq<FieldPlan>, pick: FieldPlan -> Option<Span>,
                                       s: Span)
    ensures s in Collect(fields, pick)
            <==> exists k :: 0 <= k < |fields| && pick(fields[k]) == Some(s)
    decreases |fields|
  {
    hide Collect;
    if fields == [] {
      NothingCollected(pick);
    } else {
      var n := |fields| - 1;
      CollectedIs(fields[..n], pick, s);
      LastCollected(fields, pick);
      if s in Collect(fields[..n], pick) {
        var k :| 0 <= k < n && pick(fields[..n][k]) == Some(s);
        assert pick(fields[k]) == Some(s);
      }
      if k :| 0 <= k < |fields| && pick(fields[k]) == Some(s) {
        assert k < n ==> pick(fields[..n][k]) == Some(s);
      }
    }
  }

  lemma NothingCollected(pick: FieldPlan -> Option<Span>)
    ensures Collect([], pick) == []
  {
  }

  lemma LastCollected(fields: seq<FieldPlan>, pick: FieldPlan -> Option<Span>)
    requires fields != []
    ensures var n := |fields| - 1;
            Collect(fields, pick)
            == Collect(fields[..n], pick)
               + match pick(fields[n])
                 case Some(span) => [span]
                 case None => []
  {
  }

  lemma AppendApart(spans: seq<Span>, x: Span)
    ensures AllApart(spans + [x]) <==> AllApart(spans) && forall s | s in spans :: Apart(s, x)
  {
    var all := spans + [x];
    if AllApart(all) {
      forall s | s in spans
        ensures Apart(s, x)
      {
        var i :| 0 <= i < |spans| && spans[i] == s;
        assert all[i] == s && all[|spans|] == x;
      }
      forall i, j | 0 <= i < j < |spans|
        ensures Apart(spans[i], spans[j])
      {
        assert all[i] == spans[i] && all[j] == spans[j];
      }
    }
  }

  /** The chosen spans are apart exactly if those of any two different fields are. */
  lemma {:induction false} CollectedApart(fields: seq<FieldPlan>, pick: FieldPlan -> Option<Span>)
    ensures AllApart(Collect(fields, pick))
            <==> forall i, j | 0 <= i < j < |fields| && pick(fields[i]).Some?
                               && pick(fields[j]).Some? ::
                   Apart(pick(fields[i]).value, pick(fields[j]).value)
    decreases |fields|
  {
    if AllApart(Collect(fields, pick)) {
      forall i, j | 0 <= i < j < |fields| && pick(fields[i]).Some? && pick(fields[j]).Some?
        ensures Apart(pick(fields[i]).value, pick(fields[j]).value)
      {
        CollectApart(fields, pick, i, j);
      }
    } else if fields != [] {
      var n := |fields| - 1;
      CollectedApart(fields[..n], pick);
      if pick(fields[n]).Some? {
        var x := pick(fields[n]).value;
        AppendApart(Collect(fields[..n], pick), x);
        if AllApart(Collect(fields[..n], pick)) {
          var s :| s in Collect(fields[..n], pick) && !Apart(s, x);
          CollectedIs(fields[..n], pick, s);
          var k :| 0 <= k < n && pick(fields[..n][k]) == Some(s);
          assert pick(fields[k]) == Some(s);
        }
      }
    }
  }

  lemma {:induction false} SpansApart(a: seq<Span>, b: seq<Span>)
    ensures AllApart(a + b)
            <==> AllApart(a) && AllApart(b) && forall s, t | s in a && t in b :: Apart(s, t)
    decreases |b|
  {
    if b == [] {
      assert a + b == a;
    } else {
      var n := |b| - 1;
      var x := b[n];
      assert a + b == (a + b[..n]) + [x] && b == b[..n] + [x];
      SpansApart(a, b[..n]);
      AppendApart(a + b[..n], x);
      AppendApart(b[..n], x);
    }
  }

  /** Fields and containers are apart: no two of them have a byte in common. */
  lemma OwnersMean(m: MessagePlan)
    ensures AllApart(Spans(m))
            <==> && (forall i, j | 0 <= i < j < |m.containers| ::
                       var a, b := m.containers[i], m.containers[j];
                       a.offset + a.width <= b.offset || b.offset + b.width <= a.offset)
                 && (forall i, j | 0 <= i < j < |m.fields| && !m.fields[i].wire.Bitfield?
                                   && !m.fields[j].wire.Bitfield? ::
                       var a, b := m.fields[i].wire, m.fields[j].wire;
                       a.offset + a.width <= b.offset || b.offset + b.width <= a.offset)
                 && (forall i, j | 0 <= i < |m.containers| && 0 <= j < |m.fields|
                                   && !m.fields[j].wire.Bitfield? ::
                       var a, b := m.containers[i], m.fields[j].wire;
                       a.offset + a.width <= b.offset || b.offset + b.width <= a.offset)
  {
    hide AllApart, Collect;
    var containers, fields := ContainerSpans(m.containers), Collect(m.fields, ByteSpan);
    SpansApart(containers, fields);
    ContainersMean(m.containers);
    CollectedApart(m.fields, ByteSpan);
    FieldsMean(m.fields);
    CrossMeans(m);
  }

  lemma ContainersMean(containers: seq<ContainerPlan>)
    ensures AllApart(ContainerSpans(containers))
            <==> forall i, j | 0 <= i < j < |containers| ::
                   var a, b := containers[i], containers[j];
                   a.offset + a.width <= b.offset || b.offset + b.width <= a.offset
  {
    var spans := ContainerSpans(containers);
    forall i, j | 0 <= i < j < |containers|
      ensures Apart(spans[i], spans[j])
              <==> var a, b := containers[i], containers[j];
                   a.offset + a.width <= b.offset || b.offset + b.width <= a.offset
    {
    }
  }

  lemma FieldsMean(fields: seq<FieldPlan>)
    ensures (forall i, j | 0 <= i < j < |fields| && ByteSpan(fields[i]).Some?
                           && ByteSpan(fields[j]).Some? ::
               Apart(ByteSpan(fields[i]).value, ByteSpan(fields[j]).value))
            <==> forall i, j | 0 <= i < j < |fields| && !fields[i].wire.Bitfield?
                               && !fields[j].wire.Bitfield? ::
                   var a, b := fields[i].wire, fields[j].wire;
                   a.offset + a.width <= b.offset || b.offset + b.width <= a.offset
  {
  }

  lemma CrossMeans(m: MessagePlan)
    ensures (forall s, t | s in ContainerSpans(m.containers) && t in Collect(m.fields, ByteSpan) ::
               Apart(s, t))
            <==> forall i, j | 0 <= i < |m.containers| && 0 <= j < |m.fields|
                               && !m.fields[j].wire.Bitfield? ::
                   var a, b := m.containers[i], m.fields[j].wire;
                   a.offset + a.width <= b.offset || b.offset + b.width <= a.offset
  {
    hide Collect;
    var containers, fields := ContainerSpans(m.containers), Collect(m.fields, ByteSpan);
    if forall s, t | s in containers && t in fields :: Apart(s, t) {
      forall i, j | 0 <= i < |m.containers| && 0 <= j < |m.fields| && !m.fields[j].wire.Bitfield?
        ensures var a, b := m.containers[i], m.fields[j].wire;
                a.offset + a.width <= b.offset || b.offset + b.width <= a.offset
      {
        var w := m.fields[j].wire;
        CollectedIs(m.fields, ByteSpan, Span(w.offset, w.offset + w.width));
        assert containers[i] in containers && ByteSpan(m.fields[j]).Some?;
      }
    } else {
      var s, t :| s in containers && t in fields && !Apart(s, t);
      var i :| 0 <= i < |containers| && containers[i] == s;
      CollectedIs(m.fields, ByteSpan, t);
      var j :| 0 <= j < |m.fields| && ByteSpan(m.fields[j]) == Some(t);
      assert !m.fields[j].wire.Bitfield?;
    }
  }

  /** A container's members are apart: no two of them have a bit in common. */
  lemma MembersMean(fields: seq<FieldPlan>, c: nat)
    ensures MembersApart(fields, c)
            <==> forall i, j | 0 <= i < j < |fields| && fields[i].wire.Bitfield?
                               && fields[j].wire.Bitfield?
                               && fields[i].wire.container == c == fields[j].wire.container ::
                   || fields[i].wire.shift + fields[i].wire.bits <= fields[j].wire.shift
                   || fields[j].wire.shift + fields[j].wire.bits <= fields[i].wire.shift
  {
    hide AllApart, Collect;
    CollectedApart(fields, MemberSpan(c));
    forall i | 0 <= i < |fields|
      ensures MemberSpan(c)(fields[i]).Some?
              <==> fields[i].wire.Bitfield? && fields[i].wire.container == c
    {
    }
  }

  /** Something says what byte `i` is. */
  ghost predicate Defined(m: MessagePlan, i: nat) {
    || Covered(Spans(m), i) || MatcherAt(m, i)
    || (m.integrity.Some? && m.bounded.None? && Covers(StorageSpan(m, m.structure.maxFrame), i))
  }

  /** A container, a field, a matcher or the checksum of a message of fixed size. */
  lemma DefinedMeans(m: MessagePlan, i: nat)
    ensures Defined(m, i)
            <==> || (exists c :: 0 <= c < |m.containers|
                                 && m.containers[c].offset <= i
                                 && i < m.containers[c].offset + m.containers[c].width)
                 || (exists k :: 0 <= k < |m.fields| && !m.fields[k].wire.Bitfield?
                                 && m.fields[k].wire.offset <= i
                                 && i < m.fields[k].wire.offset + m.fields[k].wire.width)
                 || (exists f :: f in m.structure.fixedBytes && f.offset == i)
                 || (m.bounded.None? && m.integrity.Some?
                     && m.integrity.value.storageOffset <= i
                     && i < m.integrity.value.storageOffset
                            + match m.integrity.value.algorithm
                              case Sum8 => 1
                              case Crc(p) => p.width / 8)
  {
    hide Spans, Covered;
    CoveredMeans(m, i);
  }

  /** Every byte of the frame, or of a bounded message's header, is to be defined. */
  lemma FullyDefinedMeans(m: MessagePlan)
    ensures m.bounded.Some? ==>
              (FullyDefined(m)
               <==> forall i: nat | i < m.bounded.value.headerLength :: Defined(m, i))
    ensures m.bounded.None? ==>
              (FullyDefined(m) <==> forall i: nat | i < m.structure.maxFrame :: Defined(m, i))
  {
    hide Spans, Covered, MatcherAt;
    if FullyDefined(m) {
      forall i: nat | i < m.Reach()
        ensures Defined(m, i)
      {
        assert Covered(Spans(m), i) || !Covered(Spans(m), i);
      }
    }
    if forall i: nat | i < m.Reach() :: Defined(m, i) {
      forall i: nat | i < m.Reach()
        ensures Covered(Spans(m), i) || MatcherAt(m, i)
                || (m.integrity.Some? && m.bounded.None?
                    && Covers(StorageSpan(m, m.structure.maxFrame), i))
      {
        assert Defined(m, i);
      }
    }
  }

  lemma CoveredMeans(m: MessagePlan, i: nat)
    ensures Covered(Spans(m), i)
            <==> || (exists c :: 0 <= c < |m.containers|
                                 && m.containers[c].offset <= i
                                 && i < m.containers[c].offset + m.containers[c].width)
                 || (exists k :: 0 <= k < |m.fields| && !m.fields[k].wire.Bitfield?
                                 && m.fields[k].wire.offset <= i
                                 && i < m.fields[k].wire.offset + m.fields[k].wire.width)
  {
    hide Collect;
    var containers, fields := ContainerSpans(m.containers), Collect(m.fields, ByteSpan);
    if Covered(Spans(m), i) {
      var s :| s in Spans(m) && Covers(s, i);
      if s in containers {
        var c :| 0 <= c < |containers| && containers[c] == s;
        assert m.containers[c].offset <= i < m.containers[c].offset + m.containers[c].width;
      } else {
        CollectedIs(m.fields, ByteSpan, s);
        var k :| 0 <= k < |m.fields| && ByteSpan(m.fields[k]) == Some(s);
        assert !m.fields[k].wire.Bitfield?;
      }
    }
    if c :| 0 <= c < |m.containers| && m.containers[c].offset <= i
            && i < m.containers[c].offset + m.containers[c].width {
      assert containers[c] in containers && containers[c] in Spans(m) && Covers(containers[c], i);
    }
    if k :| 0 <= k < |m.fields| && !m.fields[k].wire.Bitfield? && m.fields[k].wire.offset <= i
            && i < m.fields[k].wire.offset + m.fields[k].wire.width {
      var w := m.fields[k].wire;
      var s := Span(w.offset, w.offset + w.width);
      CollectedIs(m.fields, ByteSpan, s);
      assert ByteSpan(m.fields[k]) == Some(s);
      assert s in Spans(m) && Covers(s, i);
    }
  }

  /** Nothing that begins in reach ends beyond it, nor does a matcher or the checksum. */
  lemma ReachMeans(m: MessagePlan)
    ensures (forall s :: s in CoverageSpans(m) ==> s.end <= m.Reach())
            <==> && (forall c | 0 <= c < |m.containers| && m.containers[c].offset < m.Reach() ::
                       m.containers[c].offset + m.containers[c].width <= m.Reach())
                 && (forall k | 0 <= k < |m.fields| && !m.fields[k].wire.Bitfield?
                                && m.fields[k].wire.offset < m.Reach() ::
                       m.fields[k].wire.offset + m.fields[k].wire.width <= m.Reach())
                 && (forall f | f in m.structure.fixedBytes :: f.offset < m.Reach())
                 && (m.bounded.None? && m.integrity.Some? ==>
                       m.integrity.value.storageOffset
                       + (match m.integrity.value.algorithm
                          case Sum8 => 1
                          case Crc(p) => p.width / 8) <= m.Reach())
  {
    hide Spans, StartingBelow;
    if forall s :: s in CoverageSpans(m) ==> s.end <= m.Reach() {
      forall c | 0 <= c < |m.containers| && m.containers[c].offset < m.Reach()
        ensures m.containers[c].offset + m.containers[c].width <= m.Reach()
      {
        ContainerListed(m, c);
        StartingBelowIs(Spans(m), m.Reach(), ContainerSpan(m.containers[c]));
        assert ContainerSpan(m.containers[c]) in CoverageSpans(m);
      }
      forall k | 0 <= k < |m.fields| && !m.fields[k].wire.Bitfield?
                 && m.fields[k].wire.offset < m.Reach()
        ensures m.fields[k].wire.offset + m.fields[k].wire.width <= m.Reach()
      {
        var span := FieldListed(m, k);
        StartingBelowIs(Spans(m), m.Reach(), span);
        assert span in CoverageSpans(m);
      }
      forall f | f in m.structure.fixedBytes
        ensures f.offset < m.Reach()
      {
        var j :| 0 <= j < |m.structure.fixedBytes| && m.structure.fixedBytes[j] == f;
        var span := MatcherSpans(m.structure.fixedBytes)[j];
        assert span in MatcherSpans(m.structure.fixedBytes) && span in CoverageSpans(m);
      }
      if m.bounded.None? && m.integrity.Some? {
        assert StorageSpan(m, m.structure.maxFrame) in CoverageSpans(m);
      }
    } else {
      var s :| s in CoverageSpans(m) && s.end > m.Reach();
      StartingBelowIs(Spans(m), m.Reach(), s);
      if s in MatcherSpans(m.structure.fixedBytes) {
        var j :| 0 <= j < |m.structure.fixedBytes|
                 && MatcherSpans(m.structure.fixedBytes)[j] == s;
        assert m.structure.fixedBytes[j] in m.structure.fixedBytes;
      } else if s in Spans(m) {
        var c, isContainer, k := SpanOwner(m, s);
      }
    }
  }

  lemma ContainerListed(m: MessagePlan, c: nat)
    requires c < |m.containers|
    ensures ContainerSpan(m.containers[c]) in Spans(m)
  {
    assert ContainerSpans(m.containers)[c] in ContainerSpans(m.containers);
  }

  lemma FieldListed(m: MessagePlan, k: nat) returns (s: Span)
    requires k < |m.fields| && !m.fields[k].wire.Bitfield?
    ensures s in Spans(m)
    ensures s == Span(m.fields[k].wire.offset, m.fields[k].wire.offset + m.fields[k].wire.width)
  {
    hide Collect;
    s := Span(m.fields[k].wire.offset, m.fields[k].wire.offset + m.fields[k].wire.width);
    assert ByteSpan(m.fields[k]) == Some(s);
    CollectedIs(m.fields, ByteSpan, s);
  }

  // ---------------------------------------------------------------- matchers that are refused

  /** A matcher byte on the computed length, which the compiler refuses whatever it asks for. */
  predicate OnComputed(m: MessagePlan, f: FixedByte) {
    m.computed.Some? && m.computed.value.fieldIndex < |m.fields|
    && ByteSpan(m.fields[m.computed.value.fieldIndex]).Some?
    && Covers(ByteSpan(m.fields[m.computed.value.fieldIndex]).value, f.offset)
  }

  /**
   * The compiler's check refuses no message needlessly, matchers on the computed length apart:
   * when it refuses, no values at all have an image that the message's own matchers accept.
   */
  lemma DisagreementNeverPasses(m: MessagePlan, values: Values, out: bytes)
    requires ValidMessage(m) && AllAdmitted(m, values) && Image(m, values, out)
    requires !MatchersAgree(m)
    requires forall f | f in m.structure.fixedBytes :: !OnComputed(m, f)
    ensures !Matches(m.structure, out)
  {
    hide ValidMessage, AllAdmitted, Image, Matches, FieldDecides, ContainerDecides, OnComputed;
    if f, k: nat :| f in m.structure.fixedBytes && k < |m.fields| && !FieldDecides(m, f, k) {
      FieldDisagrees(m, values, out, f, k);
      NotMatched(m, out, f);
    } else {
      var f, c: nat :| f in m.structure.fixedBytes && c < |m.containers|
                       && !ContainerDecides(m, f, c);
      ContainerDisagrees(m, values, out, f, c);
      NotMatched(m, out, f);
    }
  }

  lemma NotMatched(m: MessagePlan, out: bytes, f: FixedByte)
    requires f in m.structure.fixedBytes && f.offset < |out| && out[f.offset] != f.value
    ensures !Matches(m.structure, out)
  {
    var j :| 0 <= j < |m.structure.fixedBytes| && m.structure.fixedBytes[j] == f;
  }

  lemma FieldDisagrees(m: MessagePlan, values: Values, out: bytes, f: FixedByte, k: nat)
    requires ValidMessage(m) && AllAdmitted(m, values) && Image(m, values, out)
    requires f in m.structure.fixedBytes && k < |m.fields| && !FieldDecides(m, f, k)
    requires !OnComputed(m, f)
    ensures f.offset < |out| && out[f.offset] != f.value
  {
    hide ValidMessage, AllAdmitted, FieldsPlaced, ContainersPlaced, MatchersPlaced, ChecksumPlaced,
         RawOf, StoreBytes, FrameSize;
    ComputedOnly(m, k);
    FieldPlacedAt(m, values, out, k);
    var w := m.fields[k].wire;
    ConstantRawFixed(m.fields[k], values(k));
    SameByte(out, out, w.offset, Content(m, values, |out|, k), f.offset);
  }

  lemma ComputedOnly(m: MessagePlan, k: nat)
    requires ValidMessage(m) && k < |m.fields|
    ensures LegalSource(m.fields[k]) && LegalType(m.fields[k])
    ensures m.fields[k].source == Computed <==>
              m.computed.Some? && k == m.computed.value.fieldIndex
  {
    hide LegalIntegrity, LegalMatcherBytes, AllApart, MembersApart, FullyDefined, Spans,
         LegalContainer, LegalWire;
    assert LegalField(m, k);
  }

  lemma ContainerDisagrees(m: MessagePlan, values: Values, out: bytes, f: FixedByte, c: nat)
    requires ValidMessage(m) && AllAdmitted(m, values) && Image(m, values, out)
    requires f in m.structure.fixedBytes && c < |m.containers| && !ContainerDecides(m, f, c)
    ensures f.offset < |out| && out[f.offset] != f.value
  {
    hide ValidMessage, AllAdmitted, Image, ContainerValue, DeterminedValue, WidthLimit, Bit,
         Determined;
    var w := m.containers[c];
    var at := LogicalByte(w, f.offset);
    var whole := ContainerValue(m, values, c, |m.fields|);
    var j: nat :| j < 8 && Determined(m, c, 8 * at + j)
                  && Bit(DeterminedValue(m, c, |m.fields|), 8 * at + j) != Bit(f.value, j);
    ContainerByte(m, values, out, c, f.offset);
    ByteBit(whole, at, j);
    DeterminedBits(m, values, c, |m.fields|, 8 * at + j);
  }
}
