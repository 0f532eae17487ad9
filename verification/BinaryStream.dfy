/**
 * Binary messages over a stream, end to end: with a pipeline that the compiler accepts for a
 * stream profile, every frame that Encode writes is a frame of the profile, and the values that
 * were encoded are decoded at the other end, however the stream was cut.
 */
module BinaryStream {
  import opened Bytes
  import opened FramingSpec
  import opened DecimalConversion
  import opened WireIntegers
  import opened StreamFramer
  import opened FramerRuns
  import opened Matchers
  import opened PipelineMatch
  import opened BinaryPlan
  import opened BinaryImage
  import opened BinaryDecode
  import opened BinaryEncode
  import opened BinaryCodec
  import opened MatcherConflicts

  // ---------------------------------------------------------------- the compiler's check

  /** Every frame of the message starts with the sync bytes. */
  ghost predicate HasSync(clauses: seq<MatcherClause>, sync: bytes) {
    forall i: nat | i < |sync| :: Demands(clauses, i, sync[i])
  }

  /** The message's computed length counts the whole frame and stands where the framer looks. */
  predicate HasLengthField(m: MessagePlan, p: Profile) {
    m.computed.Some? &&
    var c := m.computed.value;
    && c.scope == FrameScope && c.fieldIndex < |m.fields|
    && m.fields[c.fieldIndex].wire == Unsigned(p.lengthOffset, p.lengthWidth, p.lengthOrder)
  }

  ghost predicate StreamSafe(p: Profile, shape: MessageShape, m: MessagePlan) {
    && (p.strategy == FixedLength || p.strategy == SyncFixedLength ==>
          shape.minFrame == shape.maxFrame == p.frameLength)
    && (p.strategy != FixedLength ==> HasSync(shape.clauses, p.sync))
    && (p.strategy == SyncLengthField ==>
          p.minimum <= shape.minFrame && shape.maxFrame <= p.maximum && HasLengthField(m, p))
  }

  predicate Reaches(c: MatcherClause, offset: nat) {
    c.FixedBytes? && c.offset <= offset < c.offset + |c.content|
  }

  /** Only the first matcher that reaches a sync byte is looked at; the others agree with it. */
  method MessageHasSyncMatcher(clauses: seq<MatcherClause>, sync: bytes) returns (has: bool)
    requires Consistent(clauses)
    ensures has <==> HasSync(clauses, sync)
  {
    for offset := 0 to |sync|
      invariant forall i: nat | i < offset :: Demands(clauses, i, sync[i])
    {
      var matched, k := false, 0;
      while k < |clauses| && !Reaches(clauses[k], offset)
        invariant 0 <= k <= |clauses| && !matched
        invariant forall j | 0 <= j < k :: !Reaches(clauses[j], offset)
      {
        k := k + 1;
      }
      if k < |clauses| {
        var asked := clauses[k].content[offset - clauses[k].offset];
        assert ClauseDemands(clauses[k], offset, asked) && clauses[k] in clauses;
        assert Demands(clauses, offset, asked);
        matched := asked == sync[offset];
      }
      if !matched {
        assert !Demands(clauses, offset, sync[offset]);
        return false;
      }
    }
    has := true;
  }

  method MessageHasLengthField(m: MessagePlan, p: Profile) returns (has: bool)
    requires LegalComputed(m)
    ensures has <==> HasLengthField(m, p)
  {
    for k := 0 to |m.fields|
      invariant HasLengthField(m, p) ==> m.computed.value.fieldIndex >= k
    {
      if m.fields[k].source == Computed && m.computed.value.scope == FrameScope
         && m.fields[k].wire == Unsigned(p.lengthOffset, p.lengthWidth, p.lengthOrder)
      {
        return true;
      }
    }
    has := false;
  }

  /** The check in terms of lengths, clauses and the computed field. */
  lemma StreamSafeMeans(p: Profile, shape: MessageShape, m: MessagePlan)
    ensures p.strategy == FixedLength ==>
              (StreamSafe(p, shape, m)
               <==> shape.minFrame == p.frameLength && shape.maxFrame == p.frameLength)
    ensures p.strategy == SyncFixedLength ==>
              (StreamSafe(p, shape, m)
               <==> shape.minFrame == p.frameLength && shape.maxFrame == p.frameLength
                    && forall i: nat | i < |p.sync| :: Demands(shape.clauses, i, p.sync[i]))
    ensures p.strategy == SyncLengthField ==>
              (StreamSafe(p, shape, m)
               <==> && p.minimum <= shape.minFrame && shape.maxFrame <= p.maximum
                    && (forall i: nat | i < |p.sync| :: Demands(shape.clauses, i, p.sync[i]))
                    && m.computed.Some? && m.computed.value.scope == FrameScope
                    && m.computed.value.fieldIndex < |m.fields|
                    && var w := m.fields[m.computed.value.fieldIndex].wire;
                       w.Unsigned? && w.offset == p.lengthOffset && w.width == p.lengthWidth
                       && w.order == p.lengthOrder)
  {
    hide Demands;
  }

  /** The compiler's check of a Binary pipeline that is bound to a stream profile. */
  method CheckBinaryPipeline(p: Profile, indices: seq<nat>, shapes: seq<MessageShape>,
                             plans: seq<MessagePlan>)
    returns (accepted: bool)
    requires |plans| == |shapes| && forall i | i in indices :: i < |shapes|
    requires forall i | 0 <= i < |shapes| :: Legal(shapes[i]) && LegalComputed(plans[i])
    ensures accepted <==> forall i | i in indices :: StreamSafe(p, shapes[i], plans[i])
  {
    hide Legal, LegalComputed, HasSync, HasLengthField;
    for k := 0 to |indices|
      invariant forall j | 0 <= j < k ::
                  indices[j] < |shapes| && StreamSafe(p, shapes[indices[j]], plans[indices[j]])
    {
      assert indices[k] in indices;
      var shape, plan := shapes[indices[k]], plans[indices[k]];
      if (p.strategy == FixedLength || p.strategy == SyncFixedLength)
         && (shape.minFrame != p.frameLength || shape.maxFrame != p.frameLength)
      {
        return false;
      }
      if p.strategy != FixedLength {
        LegalParts(shape);
        MatchersConsistent(shape);
        var sync := MessageHasSyncMatcher(shape.clauses, p.sync);
        if !sync {
          return false;
        }
      }
      if p.strategy == SyncLengthField {
        var lengthField := MessageHasLengthField(plan, p);
        if shape.minFrame < p.minimum || shape.maxFrame > p.maximum || !lengthField {
          return false;
        }
      }
    }
    accepted := true;
  }

  // ---------------------------------------------------------------- what the check is worth

  /** What has the structure and the length of an accepted message is a frame of the profile. */
  lemma MessageIsFrame(p: Profile, shape: MessageShape, m: MessagePlan, frame: bytes)
    requires ValidateStreamFramingLocal(p) && p.strategy != AsciiCrlf
    requires Legal(shape) && Freezes(m.structure, shape) && StreamSafe(p, shape, m)
    requires Matches(m.structure, frame) && LengthHolds(m, frame)
    ensures ValidFrame(p, frame)
  {
    hide Demands, Legal, Freezes, Matches, BigEndian;
    MatchesIsSatisfies(m.structure, shape, frame);
    if p.strategy != FixedLength {
      StartsWithSync(p, shape, frame);
    }
    if p.strategy == SyncLengthField {
      assert frame[p.lengthOffset..p.HeaderEnd()] == Slice(frame, p.lengthOffset, p.lengthWidth);
      assert DeclaredLength(p, frame) == |frame|;
    }
  }

  lemma StartsWithSync(p: Profile, shape: MessageShape, frame: bytes)
    requires ValidateStreamFramingLocal(p) && p.strategy != AsciiCrlf && p.strategy != FixedLength
    requires HasSync(shape.clauses, p.sync) && Satisfies(shape, frame)
    ensures p.sync <= frame
  {
    hide Demands;
    assert Demands(shape.clauses, |p.sync| - 1, p.sync[|p.sync| - 1]);
    forall i: nat | i < |p.sync|
      ensures i < |frame| && frame[i] == p.sync[i]
    {
      assert Demands(shape.clauses, i, p.sync[i]);
    }
  }

  /** A frame as the codec takes it: of the message's structure, and with the length it declares. */
  ghost predicate FrameOf(shape: MessageShape, m: MessagePlan, frame: bytes) {
    Satisfies(shape, frame) && LengthHolds(m, frame)
  }

  /** In frames of `n` bytes the computed length has `v` at offset `i`. */
  predicate LengthByte(m: MessagePlan, n: nat, i: nat, v: byte) {
    m.computed.Some? && m.computed.value.fieldIndex < |m.fields| &&
    match m.fields[m.computed.value.fieldIndex].wire
    case Unsigned(offset, width, order) =>
      && offset <= i < offset + width
      && StoreBytes(LengthValue(m, m.computed.value, n), width, order)[i - offset] == v
    case _ => false
  }

  /** All the message's frames of `n` bytes have `v` at offset `i`. */
  predicate Pins(shape: MessageShape, m: MessagePlan, n: nat, i: nat, v: byte) {
    Demands(shape.clauses, i, v) || LengthByte(m, n, i, v)
  }

  /** What the message pins of its frames of `n` bytes makes them frames of the profile. */
  ghost predicate Cut(p: Profile, shape: MessageShape, m: MessagePlan, n: nat) {
    && (p.strategy == FixedLength || p.strategy == SyncFixedLength ==> n == p.frameLength)
    && (p.strategy != FixedLength ==>
          forall i: nat | i < |p.sync| :: Pins(shape, m, n, i, p.sync[i]))
    && (p.strategy == SyncLengthField ==>
          p.minimum <= n <= p.maximum && exists size: bytes :: DeclaresSize(p, shape, m, n, size))
  }

  /** The bytes where the framer looks for the length are pinned, as the number `n`. */
  ghost predicate DeclaresSize(p: Profile, shape: MessageShape, m: MessagePlan, n: nat, size: bytes) {
    && |size| == p.lengthWidth && LoadValue(size, p.lengthOrder) == n
    && forall k: nat | k < |size| :: Pins(shape, m, n, p.lengthOffset + k, size[k])
  }

  /** The computed length has its place in every frame, holds every length, and meets no matcher. */
  ghost predicate LengthPlaced(shape: MessageShape, m: MessagePlan) {
    m.computed.Some? ==>
      && m.computed.value.fieldIndex < |m.fields|
      && m.fields[m.computed.value.fieldIndex].wire.Unsigned?
      && var w := m.fields[m.computed.value.fieldIndex].wire;
         && w.offset + w.width <= shape.minFrame
         && (forall n: nat | shape.minFrame <= n <= shape.maxFrame ::
               LengthValue(m, m.computed.value, n) < WidthLimit(w.width))
         && forall i: nat, v: byte | Demands(shape.clauses, i, v) ::
              !(w.offset <= i < w.offset + w.width)
  }

  /** So it is in every message that the compiler has accepted. */
  lemma LengthIsPlaced(shape: MessageShape, m: MessagePlan)
    requires ValidMessage(m) && MatchersAgree(m) && Freezes(m.structure, shape)
    ensures LengthPlaced(shape, m)
  {
    hide ValidMessage, Demands, LengthValue, WidthLimit;
    if m.computed.Some? {
      var k := m.computed.value.fieldIndex;
      BoundsOrdered(m);
      LengthFits(m, shape.minFrame);
      var w := m.fields[k].wire;
      UnsignedInside(m, shape.minFrame, k);
      forall n: nat | shape.minFrame <= n <= shape.maxFrame
        ensures LengthValue(m, m.computed.value, n) < WidthLimit(w.width)
      {
        LengthFits(m, n);
      }
      forall i: nat, v: byte | Demands(shape.clauses, i, v)
        ensures !(w.offset <= i < w.offset + w.width)
      {
        assert FieldDecides(m, FixedByte(i, v), k);
      }
    }
  }

  lemma BoundsOrdered(m: MessagePlan)
    requires ValidMessage(m)
    ensures m.structure.minFrame <= m.structure.maxFrame
  {
    hide LegalComputed, LegalIntegrity, LegalMatcherBytes, FullyDefined, AllApart, MembersApart,
         LegalContainer, LegalField;
  }

  /** What is pinned is so. */
  lemma PinnedByte(shape: MessageShape, m: MessagePlan, frame: bytes, i: nat, v: byte)
    requires LengthPlaced(shape, m) && FrameOf(shape, m, frame) && Pins(shape, m, |frame|, i, v)
    ensures i < |frame| && frame[i] == v
  {
    hide Demands, LengthValue, WidthLimit, StoreBytes;
    if LengthByte(m, |frame|, i, v) {
      var w := m.fields[m.computed.value.fieldIndex].wire;
      SatisfiesSize(shape, frame);
      StoreOfLoad(Slice(frame, w.offset, w.width), w.order);
    }
  }

  /** A frame of the message in which every byte that is not pinned is `filler`. */
  lemma SomeFrame(shape: MessageShape, m: MessagePlan, size: nat, filler: byte)
    returns (frame: bytes)
    requires Legal(shape) && LengthPlaced(shape, m)
    requires shape.minFrame <= size <= shape.maxFrame
    ensures FrameOf(shape, m, frame) && |frame| == size
    ensures forall i: nat | i < size :: Pins(shape, m, size, i, frame[i]) || frame[i] == filler
  {
    hide Demands, LengthValue, WidthLimit, StoreBytes, LengthByte;
    LegalParts(shape);
    MatchersConsistent(shape);
    frame := seq(size, i requires i >= 0 => Filled(shape, m, size, i, filler));
    forall i: nat, v: byte | Demands(shape.clauses, i, v)
      ensures i < |frame| && frame[i] == v
    {
      DemandedInReach(shape, i, v);
      assert Demands(shape.clauses, i, frame[i]);
    }
    FilledLength(shape, m, frame, filler);
  }

  ghost function Filled(shape: MessageShape, m: MessagePlan, n: nat, i: nat, filler: byte): (b: byte)
    ensures (exists v: byte :: Demands(shape.clauses, i, v)) ==> Demands(shape.clauses, i, b)
    ensures !(exists v: byte :: Demands(shape.clauses, i, v)) ==>
              if exists v: byte :: LengthByte(m, n, i, v) then LengthByte(m, n, i, b)
              else b == filler
  {
    if v: byte :| Demands(shape.clauses, i, v) then v
    else if v: byte :| LengthByte(m, n, i, v) then v
    else filler
  }

  lemma FilledLength(shape: MessageShape, m: MessagePlan, frame: bytes, filler: byte)
    requires LengthPlaced(shape, m) && shape.minFrame <= |frame| <= shape.maxFrame
    requires forall i: nat | i < |frame| :: frame[i] == Filled(shape, m, |frame|, i, filler)
    ensures LengthHolds(m, frame)
  {
    hide Demands, LengthValue, WidthLimit, StoreBytes;
    if m.computed.Some? {
      var c := m.computed.value;
      var w := m.fields[c.fieldIndex].wire;
      var part := StoreBytes(LengthValue(m, c, |frame|), w.width, w.order);
      forall k: nat | k < w.width
        ensures frame[w.offset + k] == part[k]
      {
        assert LengthByte(m, |frame|, w.offset + k, part[k]);
      }
      assert Slice(frame, w.offset, w.width) == part;
      WireRoundTrip(LengthValue(m, c, |frame|), w.width, w.order);
    }
  }

  /** Where two frames of the message agree that have nothing in common but what is pinned. */
  lemma PinnedWhereEqual(shape: MessageShape, m: MessagePlan, a: bytes, b: bytes, i: nat)
    requires |a| == |b| && i < |a| && a[i] == b[i]
    requires forall i: nat | i < |a| :: Pins(shape, m, |a|, i, a[i]) || a[i] == 0
    requires forall i: nat | i < |b| :: Pins(shape, m, |b|, i, b[i]) || b[i] == 1
    ensures Pins(shape, m, |a|, i, a[i])
  {
  }

  /**
   * Which messages the framer cuts out whole: all frames of the message are frames of the profile
   * exactly if, for each of its sizes, what the message pins already makes them so.
   */
  lemma AllFramesCut(p: Profile, shape: MessageShape, m: MessagePlan)
    requires ValidateStreamFramingLocal(p) && p.strategy != AsciiCrlf
    requires Legal(shape) && LengthPlaced(shape, m)
    ensures (forall frame: bytes | FrameOf(shape, m, frame) :: ValidFrame(p, frame))
            <==> forall n: nat | shape.minFrame <= n <= shape.maxFrame :: Cut(p, shape, m, n)
  {
    hide FrameOf, ValidFrame, LengthPlaced, Legal, Cut;
    if forall frame: bytes | FrameOf(shape, m, frame) :: ValidFrame(p, frame) {
      forall n: nat | shape.minFrame <= n <= shape.maxFrame
        ensures Cut(p, shape, m, n)
      {
        var a := SomeFrame(shape, m, n, 0);
        var b := SomeFrame(shape, m, n, 1);
        CutBySamples(p, shape, m, a, b);
      }
    }
    if forall n: nat | shape.minFrame <= n <= shape.maxFrame :: Cut(p, shape, m, n) {
      forall frame: bytes | FrameOf(shape, m, frame)
        ensures ValidFrame(p, frame)
      {
        FrameOfSize(shape, m, frame);
        CutIsFrame(p, shape, m, frame);
      }
    }
  }

  lemma FrameOfSize(shape: MessageShape, m: MessagePlan, frame: bytes)
    requires FrameOf(shape, m, frame)
    ensures shape.minFrame <= |frame| <= shape.maxFrame
  {
  }

  lemma CutIsFrame(p: Profile, shape: MessageShape, m: MessagePlan, frame: bytes)
    requires ValidateStreamFramingLocal(p) && p.strategy != AsciiCrlf && LengthPlaced(shape, m)
    requires FrameOf(shape, m, frame) && Cut(p, shape, m, |frame|)
    ensures ValidFrame(p, frame)
  {
    hide FrameOf, LengthPlaced, Pins, BigEndian;
    if p.strategy != FixedLength {
      PinnedByte(shape, m, frame, |p.sync| - 1, p.sync[|p.sync| - 1]);
      forall i: nat | i < |p.sync|
        ensures i < |frame| && frame[i] == p.sync[i]
      {
        PinnedByte(shape, m, frame, i, p.sync[i]);
      }
      assert p.sync <= frame;
    }
    if p.strategy == SyncLengthField {
      var size: bytes :| DeclaresSize(p, shape, m, |frame|, size);
      forall k: nat | k < |size|
        ensures p.lengthOffset + k < |frame| && frame[p.lengthOffset + k] == size[k]
      {
        PinnedByte(shape, m, frame, p.lengthOffset + k, size[k]);
      }
      assert frame[p.lengthOffset..p.HeaderEnd()] == size;
    }
  }

  lemma CutBySamples(p: Profile, shape: MessageShape, m: MessagePlan, a: bytes, b: bytes)
    requires ValidateStreamFramingLocal(p) && p.strategy != AsciiCrlf
    requires |a| == |b| && ValidFrame(p, a) && ValidFrame(p, b)
    requires forall i: nat | i < |a| :: Pins(shape, m, |a|, i, a[i]) || a[i] == 0
    requires forall i: nat | i < |b| :: Pins(shape, m, |b|, i, b[i]) || b[i] == 1
    ensures Cut(p, shape, m, |a|)
  {
    hide Pins, DeclaredLength, DeclaresSize;
    if p.strategy != FixedLength {
      forall i: nat | i < |p.sync|
        ensures Pins(shape, m, |a|, i, p.sync[i])
      {
        PinnedWhereEqual(shape, m, a, b, i);
      }
    }
    if p.strategy == SyncLengthField {
      SizeBySamples(p, shape, m, a, b);
    }
  }

  lemma SizeBySamples(p: Profile, shape: MessageShape, m: MessagePlan, a: bytes, b: bytes)
    requires |a| == |b| && p.HeaderEnd() <= |a|
    requires DeclaredLength(p, a) == |a| == DeclaredLength(p, b)
    requires forall i: nat | i < |a| :: Pins(shape, m, |a|, i, a[i]) || a[i] == 0
    requires forall i: nat | i < |b| :: Pins(shape, m, |b|, i, b[i]) || b[i] == 1
    ensures exists size: bytes :: DeclaresSize(p, shape, m, |a|, size)
  {
    hide Pins, BigEndian;
    var size := a[p.lengthOffset..p.HeaderEnd()];
    SameNumber(size, b[p.lengthOffset..p.HeaderEnd()], p.lengthOrder);
    forall k: nat | k < |size|
      ensures Pins(shape, m, |a|, p.lengthOffset + k, size[k])
    {
      assert size[k] == b[p.lengthOffset..p.HeaderEnd()][k];
      PinnedWhereEqual(shape, m, a, b, p.lengthOffset + k);
    }
    assert DeclaresSize(p, shape, m, |a|, size);
  }

  /** Bytes are determined by their number. */
  lemma SameNumber(a: bytes, b: bytes, order: ByteOrder)
    requires |a| == |b| && LoadValue(a, order) == LoadValue(b, order)
    ensures a == b
  {
    hide LoadValue, StoreBytes;
    StoreOfLoad(a, order);
    StoreOfLoad(b, order);
  }

  /**
   * Exactly which messages the check refuses needlessly: those all of whose frames the framer would
   * cut out, though the check does not find its lengths, sync matcher or length field. None that it
   * accepts is cut wrongly.
   */
  lemma RefusedNeedlessly(p: Profile, shape: MessageShape, m: MessagePlan)
    requires ValidateStreamFramingLocal(p) && p.strategy != AsciiCrlf
    requires ValidMessage(m) && MatchersAgree(m) && Legal(shape) && Freezes(m.structure, shape)
    ensures (forall frame: bytes | FrameOf(shape, m, frame) :: ValidFrame(p, frame))
            <==> forall n: nat | shape.minFrame <= n <= shape.maxFrame :: Cut(p, shape, m, n)
    ensures StreamSafe(p, shape, m) ==>
              forall frame: bytes | FrameOf(shape, m, frame) :: ValidFrame(p, frame)
  {
    hide ValidMessage, MatchersAgree, Legal, Freezes, Satisfies, LengthHolds, ValidFrame, Cut, Matches,
         StreamSafe;
    LengthIsPlaced(shape, m);
    AllFramesCut(p, shape, m);
    if StreamSafe(p, shape, m) {
      forall frame: bytes | FrameOf(shape, m, frame)
        ensures ValidFrame(p, frame)
      {
        MatchesIsSatisfies(m.structure, shape, frame);
        MessageIsFrame(p, shape, m, frame);
      }
    }
  }

  /**
   * Of fixed lengths, the check refuses no message needlessly as far as its matchers go: one that it
   * refuses has the structure of a frame that the profile does not cut out.
   */
  lemma RefusedForFrame(p: Profile, shape: MessageShape, m: MessagePlan)
    requires ValidateStreamFramingLocal(p) && Legal(shape)
    requires p.strategy == FixedLength || p.strategy == SyncFixedLength
    ensures StreamSafe(p, shape, m)
            <==> forall frame: bytes | Satisfies(shape, frame) :: ValidFrame(p, frame)
  {
    hide Demands, Legal, Satisfies, ValidFrame, HasSync;
    var plain := m.(computed := None);
    AllFramesCut(p, shape, plain);
    NothingComputed(shape, plain);
    LegalParts(shape);
    SyncPinned(p, shape, plain, shape.minFrame);
    assert shape.minFrame <= shape.minFrame <= shape.maxFrame;
    assert StreamSafe(p, shape, m) ==>
        forall n: nat | shape.minFrame <= n <= shape.maxFrame :: Cut(p, shape, plain, n);
    assert Cut(p, shape, plain, shape.minFrame) && Cut(p, shape, plain, shape.maxFrame) ==>
        StreamSafe(p, shape, m);
  }

  lemma NothingComputed(shape: MessageShape, m: MessagePlan)
    requires m.computed == None
    ensures forall frame: bytes :: FrameOf(shape, m, frame) <==> Satisfies(shape, frame)
  {
  }

  lemma SyncPinned(p: Profile, shape: MessageShape, m: MessagePlan, n: nat)
    requires m.computed == None
    ensures HasSync(shape.clauses, p.sync)
            <==> forall i: nat | i < |p.sync| :: Pins(shape, m, n, i, p.sync[i])
  {
    hide Demands;
    forall i: nat | i < |p.sync|
      ensures Pins(shape, m, n, i, p.sync[i]) <==> Demands(shape.clauses, i, p.sync[i])
    {
    }
  }

  /** The matchers ask for the message's one size where the framer looks for the length. */
  ghost predicate ConstantLength(p: Profile, shape: MessageShape, size: bytes) {
    && HasSync(shape.clauses, p.sync)
    && p.minimum <= shape.minFrame == shape.maxFrame <= p.maximum
    && |size| == p.lengthWidth && LoadValue(size, p.lengthOrder) == shape.minFrame
    && forall k: nat | k < |size| :: Demands(shape.clauses, p.lengthOffset + k, size[k])
  }

  /**
   * Without a computed length the check for a length-field profile refuses every message, and
   * needlessly exactly those whose matchers hold the sync bytes and the right length as constants.
   */
  lemma ConstantLengthIsRefused(p: Profile, shape: MessageShape, m: MessagePlan)
    requires ValidateStreamFramingLocal(p) && p.strategy == SyncLengthField && Legal(shape)
    requires m.computed == None
    ensures !StreamSafe(p, shape, m)
    ensures (exists size: bytes :: ConstantLength(p, shape, size))
            <==> forall frame: bytes | Satisfies(shape, frame) :: ValidFrame(p, frame)
  {
    hide Demands, Legal, Satisfies, ValidFrame, HasSync, LoadValue;
    AllFramesCut(p, shape, m);
    NothingComputed(shape, m);
    LegalParts(shape);
    SyncPinned(p, shape, m, shape.minFrame);
    if size: bytes :| ConstantLength(p, shape, size) {
      assert DeclaresSize(p, shape, m, shape.minFrame, size);
    }
    if forall n: nat | shape.minFrame <= n <= shape.maxFrame :: Cut(p, shape, m, n) {
      ConstantsOnly(p, shape, m);
    }
  }

  /** Constants cannot declare two different sizes. */
  lemma ConstantsOnly(p: Profile, shape: MessageShape, m: MessagePlan)
    requires p.strategy == SyncLengthField && m.computed == None && Legal(shape)
    requires forall n: nat | shape.minFrame <= n <= shape.maxFrame :: Cut(p, shape, m, n)
    ensures exists size: bytes :: ConstantLength(p, shape, size)
  {
    hide Demands, Satisfies, LoadValue, HasSync;
    LegalParts(shape);
    MatchersConsistent(shape);
    SyncPinned(p, shape, m, shape.minFrame);
    assert Cut(p, shape, m, shape.minFrame) && Cut(p, shape, m, shape.maxFrame);
    var size: bytes :| DeclaresSize(p, shape, m, shape.minFrame, size);
    var largest: bytes :| DeclaresSize(p, shape, m, shape.maxFrame, largest);
    assert size == largest;
    assert ConstantLength(p, shape, size);
  }

  const TWO_BYTES := Profile(SyncLengthField, 0, [0xAA], [0], 1, 1, NotApplicable, 2, 2)
  const TWO_CONSTANTS := MessageShape(false, 2, 2, 0, [FixedBytes(0, [0xAA, 0x02])])

  /** There are such messages: a sync byte and a constant length of two. */
  lemma ConstantLengthExists()
    ensures ValidateStreamFramingLocal(TWO_BYTES) && Legal(TWO_CONSTANTS)
    ensures ConstantLength(TWO_BYTES, TWO_CONSTANTS, [0x02])
  {
    hide Demands, BigEndian, ClauseDemands;
    var clause := TWO_CONSTANTS.clauses[0];
    ConstantsAgree(clause);
    TwoDemanded(clause);
    OneByteNumber(0x02);
  }

  lemma TwoDemanded(c: MatcherClause)
    requires c == FixedBytes(0, [0xAA, 0x02])
    ensures Demands([c], 0, 0xAA) && Demands([c], 1, 0x02)
  {
    hide Demands;
    assert ClauseDemands(c, 0, 0xAA) && ClauseDemands(c, 1, 0x02);
    ClauseDemanded([c], 0, 0, 0xAA);
    ClauseDemanded([c], 0, 1, 0x02);
  }

  /** One clause cannot contradict itself. */
  lemma ConstantsAgree(c: MatcherClause)
    ensures Consistent([c])
  {
    forall i: nat, v: byte | Demands([c], i, v)
      ensures ClauseDemands(c, i, v)
    {
    }
  }

  lemma OneByteNumber(b: byte)
    ensures BigEndian([b]) == b
  {
    assert BigEndian([b]) == 256 * BigEndian([]) + b;
  }

  lemma SatisfiesSize(shape: MessageShape, frame: bytes)
    requires Satisfies(shape, frame)
    ensures shape.minFrame <= |frame| <= shape.maxFrame
  {
  }

  // ---------------------------------------------------------------- sent and received

  /** A frame on the wire, the message it is of, and the values it was encoded from. */
  datatype Sent = Sent(index: nat, values: Values, frame: bytes)

  /** The frame is one that Encode returned OK for. */
  ghost predicate Encoded(p: Pipeline, plans: seq<MessagePlan>, s: Sent) {
    && s.index in p.messageIndices && s.index < |plans|
    && AllAdmitted(plans[s.index], s.values)
    && Image(plans[s.index], s.values, s.frame) && Matches(plans[s.index].structure, s.frame)
  }

  /** What Encode returns OK for may be sent. */
  method EncodeToSend(p: Pipeline, structures: seq<MessageExecution>, plans: seq<MessagePlan>,
                      lookups: seq<seq<seq<EnumEntry>>>, index: nat, inputs: seq<FieldInput>,
                      output: array<byte>)
    returns (status: EncodeStatus, bytesWritten: nat, ghost s: Sent)
    requires FrozenPipeline(p, structures) && FrozenPlans(structures, plans, lookups)
    requires NativeInputs(inputs) && index < |plans|
    modifies output
    ensures status == EncodeOk ==>
              && bytesWritten <= output.Length && s.frame == output[..bytesWritten]
              && s.index == index && Given(plans[index], inputs, s.values)
              && Encoded(p, plans, s)
  {
    hide ValidMessage, FrozenPipeline, Given, AllAdmitted, Acceptable, Image, Matches, RefusedFor,
         LookupsOf, FrameSize, FrozenPlans;
    FrozenPlan(structures, plans, lookups, index);
    PlansCount(structures, plans, lookups);
    var requiredSize;
    ghost var values;
    status, bytesWritten, requiredSize, values :=
      EncodeCompleteRecord(p, structures, plans[index], index, inputs, output);
    s := Sent(index, values, output[..if status == EncodeOk then bytesWritten else 0]);
  }

  datatype Received = Received(
    status: DecodeStatus,
    messageIndex: nat,
    slots: seq<LogicalValue>,
    tainted: bool)

  /** The message arrived as what it was sent as. */
  ghost predicate Arrived(plans: seq<MessagePlan>, s: Sent, r: Received) {
    && r.status == DecodeStatus.Ok && r.messageIndex == s.index < |plans|
    && !r.tainted && |r.slots| == |plans[s.index].fields|
    && forall k: nat | k < |r.slots| ::
         SameLogical(r.slots[k], Expected(plans[s.index], s.values, |s.frame|, k))
  }

  ghost function Frames(sent: seq<Sent>): (frames: seq<bytes>)
    ensures |frames| == |sent| && forall i | 0 <= i < |sent| :: frames[i] == sent[i].frame
  {
    seq(|sent|, i requires 0 <= i < |sent| => sent[i].frame)
  }

  /** The pipeline's messages as the compiler accepted and the plan builder froze them. */
  ghost predicate StreamPipeline(profile: Profile, p: Pipeline, shapes: seq<MessageShape>,
                                 structures: seq<MessageExecution>, plans: seq<MessagePlan>,
                                 lookups: seq<seq<seq<EnumEntry>>>)
  {
    && FrozenFrom(p, shapes, structures) && FrozenPlans(structures, plans, lookups)
    && |plans| == |shapes|
    && forall i | i in p.messageIndices && i < |shapes| :: StreamSafe(profile, shapes[i], plans[i])
  }

  lemma EncodedIsFrame(profile: Profile, p: Pipeline, shapes: seq<MessageShape>,
                       structures: seq<MessageExecution>, plans: seq<MessagePlan>,
                       lookups: seq<seq<seq<EnumEntry>>>, s: Sent)
    requires ValidateStreamFramingLocal(profile) && profile.strategy != AsciiCrlf
    requires StreamPipeline(profile, p, shapes, structures, plans, lookups)
    requires Encoded(p, plans, s)
    ensures ValidFrame(profile, s.frame)
  {
    hide Legal, Freezes, StreamSafe, ValidMessage, LookupsOf, AllAdmitted, Image, Matches,
         LengthHolds, Grouped, Disjointed, Decide;
    FrozenPlan(structures, plans, lookups, s.index);
    LengthReadsBack(plans[s.index], s.values, s.frame);
    MessageIsFrame(profile, shapes[s.index], plans[s.index], s.frame);
  }

  /**
   * The frames that were encoded, through a workspace of any size and any limits, in any chunks,
   * past any interruptions: each arrives, in order, and decodes to the values it was encoded from.
   */
  method TransmitMessages(ws: StreamFramingWorkspace, p: Pipeline, ghost shapes: seq<MessageShape>,
                          structures: seq<MessageExecution>, plans: seq<MessagePlan>,
                          lookups: seq<seq<seq<EnumEntry>>>, ghost sent: seq<Sent>,
                          chunks: seq<bytes>, sinks: (nat, nat) -> FrameSink, slotCapacity: nat)
    returns (received: seq<Received>)
    requires ws.Valid() && !ws.inUse.taken && ws.Pending() == [] && ws.Held() == 0
    requires !ws.HasInternalWork() && ws.profile.strategy != AsciiCrlf
    requires StreamPipeline(ws.profile, p, shapes, structures, plans, lookups)
    requires forall s | s in sent :: Encoded(p, plans, s)
    requires forall plan | plan in plans :: |plan.fields| <= slotCapacity
    requires Concat(chunks) == Concat(Frames(sent))
    modifies ws, ws.buffer, ws.inUse
    ensures ws.Valid() && |received| == |sent|
    ensures forall i | 0 <= i < |sent| :: Arrived(plans, sent[i], received[i])
  {
    hide StreamPipeline, Encoded, Arrived, ParseStream, Concat, Decide;
    forall f | f in Frames(sent)
      ensures ValidFrame(ws.profile, f)
    {
      var i :| 0 <= i < |sent| && Frames(sent)[i] == f;
      EncodedIsFrame(ws.profile, p, shapes, structures, plans, lookups, sent[i]);
    }
    FramesParseBack(ws.profile, Frames(sent));
    ghost var profile := ws.profile;
    var frames, work := DriveStream(ws, chunks, sinks);
    received := DecodeFrames(profile, p, shapes, structures, plans, lookups, sent, frames,
                             slotCapacity);
  }

  method DecodeFrames(ghost profile: Profile, p: Pipeline, ghost shapes: seq<MessageShape>,
                      structures: seq<MessageExecution>, plans: seq<MessagePlan>,
                      lookups: seq<seq<seq<EnumEntry>>>, ghost sent: seq<Sent>, frames: seq<bytes>,
                      slotCapacity: nat)
    returns (received: seq<Received>)
    requires StreamPipeline(profile, p, shapes, structures, plans, lookups)
    requires forall s | s in sent :: Encoded(p, plans, s)
    requires forall plan | plan in plans :: |plan.fields| <= slotCapacity
    requires frames == Frames(sent)
    ensures |received| == |sent|
    ensures forall i | 0 <= i < |sent| :: Arrived(plans, sent[i], received[i])
  {
    hide StreamPipeline, Encoded, Arrived, FrozenPipeline, FrozenPlans, Decodes, Matches;
    IsFrozen(profile, p, shapes, structures, plans, lookups);
    received := [];
    for n := 0 to |frames|
      invariant |received| == n
      invariant forall i | 0 <= i < n :: Arrived(plans, sent[i], received[i])
    {
      var status, messageIndex, slots, tainted :=
        DecodeCompleteRecord(p, structures, plans, lookups, frames[n], slotCapacity);
      DecodedArrives(p, structures, plans, lookups, sent[n], slotCapacity,
                     Received(status, messageIndex, slots, tainted));
      received := received + [Received(status, messageIndex, slots, tainted)];
    }
  }

  lemma IsFrozen(profile: Profile, p: Pipeline, shapes: seq<MessageShape>,
                 structures: seq<MessageExecution>, plans: seq<MessagePlan>,
                 lookups: seq<seq<seq<EnumEntry>>>)
    requires StreamPipeline(profile, p, shapes, structures, plans, lookups)
    ensures FrozenPipeline(p, structures) && FrozenPlans(structures, plans, lookups)
  {
    hide FrozenFrom, FrozenPlans, StreamSafe;
  }

  lemma DecodedArrives(p: Pipeline, structures: seq<MessageExecution>, plans: seq<MessagePlan>,
                       lookups: seq<seq<seq<EnumEntry>>>, s: Sent, slotCapacity: nat, r: Received)
    requires FrozenPlans(structures, plans, lookups) && Encoded(p, plans, s)
    requires forall plan | plan in plans :: |plan.fields| <= slotCapacity
    requires forall i | i in p.messageIndices && i < |plans| && Matches(structures[i], s.frame) ::
               && r.messageIndex == i && Decodes(plans[i], s.frame, slotCapacity, r.status, r.slots)
               && (r.tainted <==> r.status == DecodeStatus.Ok && Tainted(plans[i], s.frame))
    ensures Arrived(plans, s, r)
  {
    hide ValidMessage, LookupsOf, AllAdmitted, Image, Matches, Decodes, SameLogical, Expected;
    FrozenPlan(structures, plans, lookups, s.index);
    ImageDecodes(plans[s.index], s.values, s.frame, slotCapacity, r.status, r.slots);
    ImageNotTainted(plans[s.index], s.values, s.frame);
  }
}
