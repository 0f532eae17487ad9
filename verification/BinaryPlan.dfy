/**
 * Frozen Binary messages, and the layout checks that make their codec safe: byte spans and bit
 * ranges that do not overlap, and every byte of the frame defined by someone.
 */
module BinaryPlan {
  import opened Bytes
  import opened FramingSpec
  import opened WideIntegers
  import opened DecimalConversion
  import opened WireIntegers
  import Integrity
  import opened PipelineMatch

  datatype FieldType =
    | Uint
    | Int
    | Bytes
    | Enum(rawValues: seq<nat>, preserveUnknown: bool)
    | Bool
    | Decimal(conversion: LinearConversion)

  datatype Wire =
    | WholeBytes(offset: nat, width: nat)
    | Unsigned(offset: nat, width: nat, order: ByteOrder)
    | Bitfield(container: nat, shift: nat, bits: nat)

  datatype EncodeSource = Input | Constant(value: int) | Computed

  datatype FieldPlan = FieldPlan(fieldType: FieldType, wire: Wire, source: EncodeSource)

  datatype ContainerPlan = ContainerPlan(offset: nat, width: nat, order: ByteOrder, baseValue: nat)

  datatype Algorithm = Sum8 | Crc(parameters: Integrity.CrcParameters)

  datatype IntegrityPlan = IntegrityPlan(
    algorithm: Algorithm,
    rangeOffset: nat,
    rangeLength: nat,
    storageOffset: nat,
    order: ByteOrder,
    rangeEndsAtPayload: bool)

  datatype LengthScope = FrameScope | RegionScope | PayloadScope

  datatype ComputedLength = ComputedLength(fieldIndex: nat, scope: LengthScope, regionLength: nat)

  datatype BoundedPayload = BoundedPayload(
    headerLength: nat,
    minPayload: nat,
    maxPayload: nat,
    trailerLength: nat,
    payloadField: nat)

  datatype MessagePlan = MessagePlan(
    structure: MessageExecution,
    fields: seq<FieldPlan>,
    containers: seq<ContainerPlan>,
    integrity: Option<IntegrityPlan>,
    computed: Option<ComputedLength>,
    bounded: Option<BoundedPayload>)
  {
    /** Fields, containers and matchers stand below this offset, except the payload. */
    function Reach(): nat {
      if bounded.Some? then bounded.value.headerLength else structure.maxFrame
    }

    predicate IsPayload(k: nat) {
      bounded.Some? && k == bounded.value.payloadField
    }

    /** The frame lengths that ValidateMessageDomain derives. */
    predicate LegalBounds() {
      && structure.bounded == bounded.Some? && structure.minFrame <= structure.maxFrame
      && (bounded.None? ==> structure.minFrame == structure.maxFrame)
      && (bounded.Some? ==>
            var b := bounded.value;
            && b.minPayload <= b.maxPayload
            && structure.minFrame == b.headerLength + b.minPayload + b.trailerLength
            && structure.maxFrame == b.headerLength + b.maxPayload + b.trailerLength
            && b.trailerLength == if integrity.Some? then StorageWidth(integrity.value) else 0)
    }
  }

  function StorageWidth(i: IntegrityPlan): nat {
    if i.algorithm.Sum8? then 1 else i.algorithm.parameters.width / 8
  }

  // ---------------------------------------------------------------- spans

  datatype Span = Span(begin: nat, end: nat)

  predicate Proper(s: Span) {
    s.begin <= s.end
  }

  predicate Apart(a: Span, b: Span) {
    a.end <= b.begin || b.end <= a.begin
  }

  predicate AllApart(spans: seq<Span>) {
    forall i, j | 0 <= i < j < |spans| :: Apart(spans[i], spans[j])
  }

  predicate Before(a: Span, b: Span) {
    a.begin < b.begin || (a.begin == b.begin && a.end <= b.end)
  }

  function Insert(x: Span, sorted: seq<Span>): seq<Span> {
    if sorted == [] || Before(x, sorted[0]) then [x] + sorted
    else [sorted[0]] + Insert(x, sorted[1..])
  }

  /** What the library's sort gives: the same spans, by begin and then by end. */
  function Sorted(spans: seq<Span>): seq<Span> {
    if spans == [] then [] else Insert(spans[0], Sorted(spans[1..]))
  }

  predicate IsSorted(spans: seq<Span>) {
    forall i, j | 0 <= i < j < |spans| :: Before(spans[i], spans[j])
  }

  lemma {:induction false} InsertSorted(x: Span, sorted: seq<Span>)
    requires IsSorted(sorted)
    ensures IsSorted(Insert(x, sorted)) && |Insert(x, sorted)| == |sorted| + 1
    ensures forall s :: s in Insert(x, sorted) <==> s == x || s in sorted
  {
    if !(sorted == [] || Before(x, sorted[0])) {
      InsertSorted(x, sorted[1..]);
      var rest := Insert(x, sorted[1..]);
      forall j | 0 <= j < |rest|
        ensures Before(sorted[0], rest[j])
      {
        assert rest[j] in rest;
      }
    }
  }

  lemma {:induction false} SortedSorts(spans: seq<Span>)
    ensures IsSorted(Sorted(spans)) && |Sorted(spans)| == |spans|
    ensures forall s :: s in Sorted(spans) <==> s in spans
  {
    if spans != [] {
      SortedSorts(spans[1..]);
      InsertSorted(spans[0], Sorted(spans[1..]));
    }
  }

  predicate ApartFrom(x: Span, spans: seq<Span>) {
    forall s :: s in spans ==> Apart(x, s)
  }

  lemma {:induction false} InsertApart(x: Span, sorted: seq<Span>)
    ensures AllApart(Insert(x, sorted)) <==> AllApart(sorted) && ApartFrom(x, sorted)
    ensures forall s :: s in Insert(x, sorted) <==> s == x || s in sorted
  {
    hide AllApart;
    if sorted == [] || Before(x, sorted[0]) {
      PrependApart(x, sorted);
    } else {
      var first, rest := sorted[0], sorted[1..];
      InsertApart(x, rest);
      PrependApart(first, rest);
      PrependApart(first, Insert(x, rest));
      assert sorted == [first] + rest;
      assert x in Insert(x, rest);
      assert ApartFrom(first, Insert(x, rest)) <==> Apart(first, x) && ApartFrom(first, rest);
      assert ApartFrom(x, sorted) <==> Apart(x, first) && ApartFrom(x, rest);
    }
  }

  lemma PrependApart(x: Span, spans: seq<Span>)
    ensures AllApart([x] + spans) <==> AllApart(spans) && ApartFrom(x, spans)
  {
    var all := [x] + spans;
    if AllApart(all) {
      forall s | s in spans
        ensures Apart(x, s)
      {
        var k :| 0 <= k < |spans| && spans[k] == s;
        assert Apart(all[0], all[k + 1]);
      }
      forall i, j | 0 <= i < j < |spans|
        ensures Apart(spans[i], spans[j])
      {
        assert Apart(all[i + 1], all[j + 1]);
      }
    }
  }

  lemma {:induction false} SortingKeepsApart(spans: seq<Span>)
    ensures AllApart(Sorted(spans)) <==> AllApart(spans)
    ensures forall s :: s in Sorted(spans) <==> s in spans
  {
    if spans != [] {
      SortingKeepsApart(spans[1..]);
      InsertApart(spans[0], Sorted(spans[1..]));
      PrependApart(spans[0], spans[1..]);
      assert spans == [spans[0]] + spans[1..];
    }
  }

  /** Comparing neighbours of the sorted spans is comparing all of them. */
  method CheckSpans(spans: seq<Span>) returns (ok: bool)
    requires forall s :: s in spans ==> Proper(s)
    ensures ok <==> AllApart(spans)
  {
    hide Sorted, Before, Insert;
    var sorted := Sorted(spans);
    SortedSorts(spans);
    SortingKeepsApart(spans);
    var index := 1;
    while index < |sorted|
      invariant 1 <= index
      invariant forall i, j | 0 <= i < j < index && j < |sorted| :: sorted[i].end <= sorted[j].begin
    {
      assert sorted[index] in sorted && sorted[index - 1] in sorted;
      if sorted[index].begin < sorted[index - 1].end {
        NeighboursOverlap(sorted, index);
        return false;
      }
      forall i | 0 <= i < index
        ensures sorted[i].end <= sorted[index].begin
      {
        if i < index - 1 {
          assert sorted[i].end <= sorted[index - 1].begin;
        }
      }
      index := index + 1;
    }
    ok := true;
  }

  lemma SortedBegins(sorted: seq<Span>, i: nat, j: nat)
    requires IsSorted(sorted) && i < j < |sorted|
    ensures sorted[i].begin <= sorted[j].begin
    ensures sorted[i].begin == sorted[j].begin ==> sorted[i].end <= sorted[j].end
  {
    assert Before(sorted[i], sorted[j]);
  }

  lemma NeighboursOverlap(sorted: seq<Span>, index: nat)
    requires IsSorted(sorted) && 1 <= index < |sorted|
    requires Proper(sorted[index - 1]) && Proper(sorted[index])
    requires sorted[index].begin < sorted[index - 1].end
    ensures !AllApart(sorted)
  {
    SortedBegins(sorted, index - 1, index);
    var a, b := sorted[index - 1], sorted[index];
    assert !Apart(a, b);
  }

  predicate Covers(s: Span, i: nat) {
    s.begin <= i < s.end
  }

  ghost predicate Covered(spans: seq<Span>, i: nat) {
    exists s :: s in spans && Covers(s, i)
  }

  /** Every byte below `required` is covered, and nothing reaches beyond. */
  method CheckCoverage(spans: seq<Span>, required: nat) returns (ok: bool)
    requires forall s :: s in spans ==> Proper(s)
    ensures ok <==> (forall i: nat | i < required :: Covered(spans, i))
                    && forall s :: s in spans ==> s.end <= required
  {
    hide Sorted, Before, Insert;
    var sorted := Sorted(spans);
    SortedSorts(spans);
    var coveredEnd: nat := 0;
    for index := 0 to |sorted|
      invariant forall i: nat | i < coveredEnd :: Covered(spans, i)
      invariant forall k | 0 <= k < index :: sorted[k].end <= coveredEnd
      invariant coveredEnd == 0 || exists s :: s in spans && s.end == coveredEnd
    {
      var span := sorted[index];
      assert span in sorted && span in spans;
      if span.begin > coveredEnd {
        Gap(spans, sorted, index, coveredEnd);
        return false;
      }
      if span.end > coveredEnd {
        forall i: nat | i < span.end
          ensures Covered(spans, i)
        {
          assert i >= coveredEnd ==> Covers(span, i);
        }
        coveredEnd := span.end;
      }
    }
    forall s | s in spans
      ensures s.end <= coveredEnd
    {
      var k :| 0 <= k < |sorted| && sorted[k] == s;
    }
    if coveredEnd < required {
      forall s | s in spans
        ensures !Covers(s, coveredEnd)
      {
      }
      assert !Covered(spans, coveredEnd);
    }
    ok := coveredEnd == required;
  }

  lemma Gap(spans: seq<Span>, sorted: seq<Span>, index: nat, coveredEnd: nat)
    requires IsSorted(sorted) && index < |sorted|
    requires forall s :: s in sorted <==> s in spans
    requires forall s :: s in spans ==> Proper(s)
    requires forall k | 0 <= k < index :: sorted[k].end <= coveredEnd
    requires sorted[index].begin > coveredEnd
    ensures !Covered(spans, coveredEnd)
    ensures sorted[index] in spans && sorted[index].end > coveredEnd
  {
    assert sorted[index] in sorted;
    forall s | s in spans
      ensures !Covers(s, coveredEnd)
    {
      var k :| 0 <= k < |sorted| && sorted[k] == s;
      if k > index {
        SortedBegins(sorted, index, k);
      }
    }
  }

  // ---------------------------------------------------------------- spans of a message

  /** The spans that a choice of fields has, in field order. */
  function Collect(fields: seq<FieldPlan>, pick: FieldPlan -> Option<Span>): seq<Span> {
    if fields == [] then []
    else Collect(fields[..|fields| - 1], pick)
         + match pick(fields[|fields| - 1])
           case Some(span) => [span]
           case None => []
  }

  lemma {:induction false} CollectPrefix(fields: seq<FieldPlan>, pick: FieldPlan -> Option<Span>,
                                         k: nat)
    requires k <= |fields|
    ensures Collect(fields[..k], pick) <= Collect(fields, pick)
    decreases |fields|
  {
    if k == |fields| {
      assert fields[..k] == fields;
    } else {
      CollectPrefix(fields[..|fields| - 1], pick, k);
      assert fields[..|fields| - 1][..k] == fields[..k];
    }
  }

  lemma PrefixApart(a: seq<Span>, b: seq<Span>)
    requires a <= b && AllApart(b)
    ensures AllApart(a)
  {
    assert forall i | 0 <= i < |a| :: a[i] == b[i];
  }

  lemma {:induction false} CollectListed(fields: seq<FieldPlan>, pick: FieldPlan -> Option<Span>,
                                         i: nat) returns (x: nat)
    requires i < |fields| && pick(fields[i]).Some?
    ensures x < |Collect(fields, pick)| && Collect(fields, pick)[x] == pick(fields[i]).value
    decreases |fields|
  {
    var n := |fields| - 1;
    if i == n {
      x := |Collect(fields[..n], pick)|;
    } else {
      x := CollectListed(fields[..n], pick, i);
    }
  }

  /** Different fields have different places in the list. */
  lemma {:induction false} CollectApart(fields: seq<FieldPlan>, pick: FieldPlan -> Option<Span>,
                                        i: nat, j: nat)
    requires AllApart(Collect(fields, pick)) && i < j < |fields|
    requires pick(fields[i]).Some? && pick(fields[j]).Some?
    ensures Apart(pick(fields[i]).value, pick(fields[j]).value)
    decreases |fields|
  {
    var n := |fields| - 1;
    var all := Collect(fields, pick);
    if j < n {
      CollectPrefix(fields, pick, n);
      PrefixApart(Collect(fields[..n], pick), all);
      CollectApart(fields[..n], pick, i, j);
    } else {
      var x := CollectListed(fields[..n], pick, i);
      assert all[x] == pick(fields[i]).value;
      assert all[|Collect(fields[..n], pick)|] == pick(fields[n]).value;
    }
  }

  function ByteSpan(f: FieldPlan): Option<Span> {
    match f.wire
    case WholeBytes(offset, width) => Some(Span(offset, offset + width))
    case Unsigned(offset, width, _) => Some(Span(offset, offset + width))
    case Bitfield(_, _, _) => None
  }

  function ContainerSpan(c: ContainerPlan): Span {
    Span(c.offset, c.offset + c.width)
  }

  function ContainerSpans(containers: seq<ContainerPlan>): seq<Span> {
    seq(|containers|, i requires 0 <= i < |containers| => ContainerSpan(containers[i]))
  }

  /** Everything that owns bytes of the frame, the checksum's storage apart. */
  function Spans(m: MessagePlan): seq<Span> {
    ContainerSpans(m.containers) + Collect(m.fields, ByteSpan)
  }

  lemma SpansParts(m: MessagePlan)
    requires AllApart(Spans(m))
    ensures AllApart(ContainerSpans(m.containers)) && AllApart(Collect(m.fields, ByteSpan))
  {
    var a, b := ContainerSpans(m.containers), Collect(m.fields, ByteSpan);
    PrefixApart(a, Spans(m));
    assert forall i | 0 <= i < |b| :: b[i] == Spans(m)[|a| + i];
  }

  lemma FieldsApart(m: MessagePlan, i: nat, j: nat)
    requires AllApart(Spans(m)) && i < |m.fields| && j < |m.fields| && i != j
    requires ByteSpan(m.fields[i]).Some? && ByteSpan(m.fields[j]).Some?
    ensures Apart(ByteSpan(m.fields[i]).value, ByteSpan(m.fields[j]).value)
  {
    SpansParts(m);
    if i < j {
      CollectApart(m.fields, ByteSpan, i, j);
    } else {
      CollectApart(m.fields, ByteSpan, j, i);
    }
  }

  lemma ContainersApart(m: MessagePlan, i: nat, j: nat)
    requires AllApart(Spans(m)) && i < |m.containers| && j < |m.containers| && i != j
    ensures Apart(ContainerSpan(m.containers[i]), ContainerSpan(m.containers[j]))
  {
    SpansParts(m);
    var a := ContainerSpans(m.containers);
    assert i < j ==> Apart(a[i], a[j]);
    assert j < i ==> Apart(a[j], a[i]);
  }

  lemma FieldContainerApart(m: MessagePlan, i: nat, c: nat)
    requires AllApart(Spans(m)) && i < |m.fields| && c < |m.containers|
    requires ByteSpan(m.fields[i]).Some?
    ensures Apart(ByteSpan(m.fields[i]).value, ContainerSpan(m.containers[c]))
  {
    var x := CollectListed(m.fields, ByteSpan, i);
    var all := Spans(m);
    assert all[c] == ContainerSpan(m.containers[c]);
    assert all[|m.containers| + x] == ByteSpan(m.fields[i]).value;
  }

  // ---------------------------------------------------------------- bit ranges

  predicate InContainer(f: FieldPlan, container: nat) {
    f.wire.Bitfield? && f.wire.container == container
  }

  /** The bits that a member's mask has. */
  function MemberSpan(container: nat): FieldPlan -> Option<Span> {
    (f: FieldPlan) =>
      if InContainer(f, container) then Some(Span(f.wire.shift, f.wire.shift + f.wire.bits))
      else None
  }

  predicate MembersApart(fields: seq<FieldPlan>, container: nat) {
    AllApart(Collect(fields, MemberSpan(container)))
  }

  /** The source accumulates a container's member masks; the bits of a mask are its range. */
  method CheckMembers(fields: seq<FieldPlan>, container: nat) returns (ok: bool)
    ensures ok <==> MembersApart(fields, container)
  {
    var pick := MemberSpan(container);
    var members: seq<Span> := [];
    for k := 0 to |fields|
      invariant members == Collect(fields[..k], pick) && AllApart(members)
    {
      assert fields[..k + 1][..k] == fields[..k];
      CollectPrefix(fields, pick, k + 1);
      if pick(fields[k]).Some? {
        var member := pick(fields[k]).value;
        ghost var more := members + [member];
        assert more == Collect(fields[..k + 1], pick);
        for j := 0 to |members|
          invariant forall i | 0 <= i < j :: Apart(members[i], member)
        {
          if !Apart(members[j], member) {
            assert more[j] == members[j] && more[|members|] == member;
            if MembersApart(fields, container) {
              PrefixApart(more, Collect(fields, pick));
            }
            return false;
          }
        }
        members := members + [member];
      }
    }
    assert fields[..|fields|] == fields;
    ok := true;
  }

  /** Two different members of one container have no bit in common. */
  lemma MembersBitsApart(fields: seq<FieldPlan>, container: nat, i: nat, j: nat)
    requires MembersApart(fields, container) && i < |fields| && j < |fields| && i != j
    requires InContainer(fields[i], container) && InContainer(fields[j], container)
    ensures BitsApart(fields[i].wire.shift, fields[i].wire.bits,
                      fields[j].wire.shift, fields[j].wire.bits)
  {
    if i < j {
      CollectApart(fields, MemberSpan(container), i, j);
    } else {
      CollectApart(fields, MemberSpan(container), j, i);
    }
  }

  // ---------------------------------------------------------------- legal messages

  predicate LegalContainer(m: MessagePlan, c: ContainerPlan) {
    && 1 <= c.width <= 8 && IsIntegerByteOrderValid(c.order, c.width)
    && c.offset + c.width <= m.Reach() && c.baseValue < WidthLimit(c.width)
  }

  /** How many bits the wire gives a field's raw value. */
  function RawBits(f: FieldPlan): nat {
    match f.wire
    case WholeBytes(_, _) => 0
    case Unsigned(_, width, _) => 8 * width
    case Bitfield(_, _, bits) => bits
  }

  predicate LegalWire(m: MessagePlan, k: nat, w: Wire) {
    match w
    case WholeBytes(offset, width) =>
      if m.IsPayload(k)
      then offset == m.bounded.value.headerLength && width == m.bounded.value.maxPayload
      else offset + width <= m.Reach()
    case Unsigned(offset, width, order) =>
      1 <= width <= 8 && IsIntegerByteOrderValid(order, width) && offset + width <= m.Reach()
    case Bitfield(container, shift, bits) =>
      container < |m.containers| && 1 <= bits && shift + bits <= 8 * m.containers[container].width
  }

  ghost predicate LegalType(f: FieldPlan) {
    match f.fieldType
    case Uint => !f.wire.WholeBytes?
    case Int => f.wire.Unsigned?
    case Bytes => f.wire.WholeBytes? && f.source == Input
    case Bool => f.wire.Bitfield? && f.wire.bits == 1 && f.source == Input
    case Decimal(c) => f.wire.Unsigned? && f.source == Input && Moderate(c)
    case Enum(raws, _) =>
      && !f.wire.WholeBytes? && f.source == Input
      && (forall i | 0 <= i < |raws| :: raws[i] < Pow2(RawBits(f)))
      && forall i, j | 0 <= i < j < |raws| :: raws[i] != raws[j]
  }

  predicate LegalSource(f: FieldPlan) {
    match f.source
    case Input => true
    case Computed => f.fieldType == Uint && f.wire.Unsigned?
    case Constant(value) =>
      (f.fieldType == Uint && 0 <= value < Pow2(RawBits(f)))
      || (f.fieldType == Int && f.wire.Unsigned? && InRange(value, ValueType.Int64, f.wire.width))
  }

  ghost predicate LegalField(m: MessagePlan, k: nat)
    requires k < |m.fields|
  {
    var f := m.fields[k];
    LegalWire(m, k, f.wire) && LegalType(f) && LegalSource(f)
    && (m.IsPayload(k) ==> f.fieldType == Bytes)
  }

  /** What a computed length must be able to hold at most. */
  function LongestLength(m: MessagePlan, c: ComputedLength): nat {
    match c.scope
    case FrameScope => m.structure.maxFrame
    case RegionScope => c.regionLength
    case PayloadScope => if m.bounded.Some? then m.bounded.value.maxPayload else 0
  }

  predicate LegalComputed(m: MessagePlan) {
    && (forall k | 0 <= k < |m.fields| ::
          m.fields[k].source == Computed <==>
          m.computed.Some? && k == m.computed.value.fieldIndex)
    && (m.computed.Some? ==>
          var c := m.computed.value;
          && c.fieldIndex < |m.fields| && m.fields[c.fieldIndex].source == Computed
          && m.fields[c.fieldIndex].wire.Unsigned?
          && LongestLength(m, c) < WidthLimit(m.fields[c.fieldIndex].wire.width)
          && (c.scope == PayloadScope ==> m.bounded.Some?)
          && (c.scope == RegionScope ==> m.bounded.None?))
  }

  function StorageOffset(m: MessagePlan, size: nat): nat
    requires m.integrity.Some?
  {
    if m.bounded.Some? && size >= m.bounded.value.trailerLength
    then size - m.bounded.value.trailerLength
    else m.integrity.value.storageOffset
  }

  function StorageSpan(m: MessagePlan, size: nat): Span
    requires m.integrity.Some?
  {
    Span(StorageOffset(m, size), StorageOffset(m, size) + StorageWidth(m.integrity.value))
  }

  /** The bytes the checksum covers in a frame of this size. */
  function RangeSpan(m: MessagePlan, size: nat): Span
    requires m.integrity.Some?
  {
    var i := m.integrity.value;
    Span(i.rangeOffset,
         if i.rangeEndsAtPayload then StorageOffset(m, size) else i.rangeOffset + i.rangeLength)
  }

  predicate LegalIntegrity(m: MessagePlan) {
    m.integrity.Some? ==>
      var i := m.integrity.value;
      && (i.algorithm.Crc? ==>
            Integrity.ValidCrc(i.algorithm.parameters) && (i.order == Big || i.order == Little))
      && (i.rangeEndsAtPayload ==>
            m.bounded.Some? && i.rangeOffset <= m.bounded.value.headerLength)
      && (m.bounded.Some? && !i.rangeEndsAtPayload ==>
            i.rangeOffset + i.rangeLength <= m.structure.minFrame - m.bounded.value.trailerLength)
      && (m.bounded.None? ==>
            var storage := StorageSpan(m, m.structure.maxFrame);
            var range := RangeSpan(m, m.structure.maxFrame);
            && range.end <= m.structure.maxFrame && storage.end <= m.structure.maxFrame
            && Apart(storage, range)
            && forall s :: s in Spans(m) ==> Apart(storage, s))
  }

  predicate MatcherAt(m: MessagePlan, i: nat) {
    exists f :: f in m.structure.fixedBytes && f.offset == i
  }

  predicate LegalMatcherBytes(m: MessagePlan) {
    && (forall k | 0 <= k < |m.structure.fixedBytes| ::
          m.structure.fixedBytes[k].offset < m.Reach())
    && (forall f, g | f in m.structure.fixedBytes && g in m.structure.fixedBytes ::
          f.offset == g.offset ==> f == g)
    && (m.integrity.Some? && m.bounded.None? ==>
          forall f :: f in m.structure.fixedBytes ==>
            !Covers(StorageSpan(m, m.structure.maxFrame), f.offset))
  }

  /** Every byte that matchers and fixed-place owners must define is defined. */
  ghost predicate FullyDefined(m: MessagePlan) {
    forall i: nat | i < m.Reach() ::
      Covered(Spans(m), i) || MatcherAt(m, i)
      || (m.integrity.Some? && m.bounded.None?
          && Covers(StorageSpan(m, m.structure.maxFrame), i))
  }

  /** What DomainValidator accepts of a Binary message, as its codec relies on it. */
  ghost predicate ValidMessage(m: MessagePlan) {
    && m.LegalBounds()
    && (forall c :: c in m.containers ==> LegalContainer(m, c))
    && (forall k: nat | k < |m.fields| :: LegalField(m, k))
    && (m.bounded.Some? ==> m.bounded.value.payloadField < |m.fields|)
    && LegalComputed(m) && LegalIntegrity(m) && LegalMatcherBytes(m)
    && AllApart(Spans(m))
    && (forall c: nat | c < |m.containers| :: MembersApart(m.fields, c))
    && FullyDefined(m)
  }

  // ---------------------------------------------------------------- the compiler's layout check

  function StartingBelow(spans: seq<Span>, limit: nat): seq<Span> {
    if spans == [] then []
    else StartingBelow(spans[..|spans| - 1], limit)
         + if spans[|spans| - 1].begin < limit then [spans[|spans| - 1]] else []
  }

  lemma {:induction false} StartingBelowIs(spans: seq<Span>, limit: nat, s: Span)
    ensures s in StartingBelow(spans, limit) <==> s in spans && s.begin < limit
  {
    if spans != [] {
      var n := |spans| - 1;
      StartingBelowIs(spans[..n], limit, s);
      assert spans == spans[..n] + [spans[n]];
    }
  }

  function MatcherSpans(fixedBytes: seq<FixedByte>): seq<Span> {
    seq(|fixedBytes|, k requires 0 <= k < |fixedBytes| =>
          Span(fixedBytes[k].offset, fixedBytes[k].offset + 1))
  }

  /** What counts as defining bytes: owners that start in reach, matchers, and fixed storage. */
  function CoverageSpans(m: MessagePlan): seq<Span> {
    StartingBelow(Spans(m), m.Reach()) + MatcherSpans(m.structure.fixedBytes)
    + if m.integrity.Some? && m.bounded.None? then [StorageSpan(m, m.structure.maxFrame)] else []
  }

  lemma {:induction false} CollectProper(fields: seq<FieldPlan>)
    ensures forall s :: s in Collect(fields, ByteSpan) ==> Proper(s)
  {
    if fields != [] {
      CollectProper(fields[..|fields| - 1]);
    }
  }

  lemma SpansProper(m: MessagePlan)
    ensures forall s :: s in Spans(m) ==> Proper(s)
    ensures forall s :: s in CoverageSpans(m) ==> Proper(s)
  {
    CollectProper(m.fields);
    forall s | s in CoverageSpans(m)
      ensures Proper(s)
    {
      StartingBelowIs(Spans(m), m.Reach(), s);
    }
  }

  lemma CoverageMeans(m: MessagePlan, i: nat)
    requires i < m.Reach()
    ensures Covered(CoverageSpans(m), i) <==>
              Covered(Spans(m), i) || MatcherAt(m, i)
              || (m.integrity.Some? && m.bounded.None?
                  && Covers(StorageSpan(m, m.structure.maxFrame), i))
  {
    hide Spans, StorageSpan, StartingBelow;
    var low, matchers := StartingBelow(Spans(m), m.Reach()), MatcherSpans(m.structure.fixedBytes);
    if Covered(CoverageSpans(m), i) {
      var s :| s in CoverageSpans(m) && Covers(s, i);
      StartingBelowIs(Spans(m), m.Reach(), s);
      if s in matchers {
        var k :| 0 <= k < |matchers| && matchers[k] == s;
        assert m.structure.fixedBytes[k] in m.structure.fixedBytes;
        assert MatcherAt(m, i);
      }
    }
    if Covered(Spans(m), i) {
      var s :| s in Spans(m) && Covers(s, i);
      StartingBelowIs(Spans(m), m.Reach(), s);
      assert s in CoverageSpans(m);
    }
    if MatcherAt(m, i) {
      var f :| f in m.structure.fixedBytes && f.offset == i;
      var k :| 0 <= k < |m.structure.fixedBytes| && m.structure.fixedBytes[k] == f;
      assert matchers[k] in matchers && matchers[k] in CoverageSpans(m) && Covers(matchers[k], i);
    }
    if m.integrity.Some? && m.bounded.None? {
      assert StorageSpan(m, m.structure.maxFrame) in CoverageSpans(m);
    }
  }

  /**
   * The span, bit-range and coverage checks of ValidateMessageDomain: accepted exactly when no two
   * owners share a byte or a bit, every byte in reach is defined, and nothing that defines bytes
   * sticks out.
   */
  method ValidateLayout(m: MessagePlan) returns (accepted: bool)
    ensures accepted <==>
            && AllApart(Spans(m))
            && (forall c: nat | c < |m.containers| :: MembersApart(m.fields, c))
            && FullyDefined(m)
            && forall s :: s in CoverageSpans(m) ==> s.end <= m.Reach()
  {
    hide Spans, CoverageSpans, AllApart, MembersApart, Covered, MatcherAt;
    SpansProper(m);
    for c := 0 to |m.containers|
      invariant forall d: nat | d < c :: MembersApart(m.fields, d)
    {
      var membersApart := CheckMembers(m.fields, c);
      if !membersApart {
        return false;
      }
    }
    var spansApart := CheckSpans(Spans(m));
    if !spansApart {
      return false;
    }
    accepted := CheckCoverage(CoverageSpans(m), m.Reach());
    forall i: nat | i < m.Reach()
      ensures Covered(CoverageSpans(m), i) <==>
                Covered(Spans(m), i) || MatcherAt(m, i)
                || (m.integrity.Some? && m.bounded.None?
                    && Covers(StorageSpan(m, m.structure.maxFrame), i))
    {
      CoverageMeans(m, i);
    }
  }
}
