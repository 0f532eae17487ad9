/**
 * Looking a frame up among a pipeline's Binary messages: candidate groups by exact size, found by
 * binary search, and the messages of variable size. With the compiler's pairwise check no frame
 * is ambiguous.
 */
module PipelineMatch {
  import opened Bytes
  import opened Matchers

  datatype FixedByte = FixedByte(offset: nat, value: byte)

  /** The frozen structural side of a message. */
  datatype MessageExecution = MessageExecution(
    bounded: bool,
    minFrame: nat,
    maxFrame: nat,
    fixedBytes: seq<FixedByte>)

  ghost predicate Legal(m: MessageShape) {
    LegalLengths(m) && LegalMatchers(m)
  }

  /** The frozen message asks for exactly what the matchers ask for. */
  ghost predicate Freezes(e: MessageExecution, m: MessageShape) {
    && e.bounded == m.bounded && e.minFrame == m.minFrame && e.maxFrame == m.maxFrame
    && forall i: nat, v: byte {:trigger Demands(m.clauses, i, v)} ::
         FixedByte(i, v) in e.fixedBytes <==> Demands(m.clauses, i, v)
  }

  /** The union of the matchers in ascending offset order. */
  method FreezeMatchers(m: MessageShape, fixed: map<nat, byte>) returns (e: MessageExecution)
    requires Legal(m) && IsUnion(fixed, m.clauses)
    ensures Freezes(e, m)
  {
    hide Demands, LegalMatchers;
    var fixedBytes: seq<FixedByte> := [];
    for offset := 0 to m.Reach()
      invariant forall i: nat, v: byte ::
                  FixedByte(i, v) in fixedBytes <==> i < offset && i in fixed && fixed[i] == v
    {
      if offset in fixed {
        fixedBytes := fixedBytes + [FixedByte(offset, fixed[offset])];
      }
    }
    forall i: nat, v: byte
      ensures Demands(m.clauses, i, v) ==> i < m.Reach()
    {
      if Demands(m.clauses, i, v) {
        DemandedInReach(m, i, v);
      }
    }
    e := MessageExecution(m.bounded, m.minFrame, m.maxFrame, fixedBytes);
  }

  predicate Matches(e: MessageExecution, frame: bytes) {
    && (if e.bounded then e.minFrame <= |frame| <= e.maxFrame else |frame| == e.maxFrame)
    && forall k | 0 <= k < |e.fixedBytes| ::
         e.fixedBytes[k].offset < |frame| && frame[e.fixedBytes[k].offset] == e.fixedBytes[k].value
  }

  lemma MatchesIsSatisfies(e: MessageExecution, m: MessageShape, frame: bytes)
    requires Legal(m) && Freezes(e, m)
    ensures Matches(e, frame) <==> Satisfies(m, frame)
  {
    hide Demands, LegalMatchers;
    if Matches(e, frame) {
      forall i: nat, v: byte | Demands(m.clauses, i, v)
        ensures i < |frame| && frame[i] == v
      {
        assert FixedByte(i, v) in e.fixedBytes;
      }
    }
    if Satisfies(m, frame) {
      forall k | 0 <= k < |e.fixedBytes|
        ensures e.fixedBytes[k].offset < |frame|
                && frame[e.fixedBytes[k].offset] == e.fixedBytes[k].value
      {
        var f := e.fixedBytes[k];
        assert FixedByte(f.offset, f.value) in e.fixedBytes;
        assert Demands(m.clauses, f.offset, f.value);
      }
    }
  }

  /** Offsets are in range once the size is right. */
  ghost predicate Reaching(e: MessageExecution) {
    && (!e.bounded ==> e.minFrame == e.maxFrame)
    && forall k | 0 <= k < |e.fixedBytes| :: e.fixedBytes[k].offset < e.minFrame
  }

  lemma FrozenReaches(e: MessageExecution, m: MessageShape)
    requires Legal(m) && Freezes(e, m)
    ensures Reaching(e)
  {
    hide Demands, LegalMatchers;
    forall k | 0 <= k < |e.fixedBytes|
      ensures e.fixedBytes[k].offset < e.minFrame
    {
      var f := e.fixedBytes[k];
      assert FixedByte(f.offset, f.value) in e.fixedBytes;
      assert Demands(m.clauses, f.offset, f.value);
      DemandedInReach(m, f.offset, f.value);
    }
  }

  method MessageMatches(e: MessageExecution, input: bytes) returns (matches: bool)
    requires Reaching(e)
    ensures matches == Matches(e, input)
  {
    if e.bounded {
      if |input| < e.minFrame || |input| > e.maxFrame {
        return false;
      }
    } else if |input| != e.maxFrame {
      return false;
    }
    for k := 0 to |e.fixedBytes|
      invariant forall j | 0 <= j < k ::
                  e.fixedBytes[j].offset < |input|
                  && input[e.fixedBytes[j].offset] == e.fixedBytes[j].value
    {
      if input[e.fixedBytes[k].offset] != e.fixedBytes[k].value {
        return false;
      }
    }
    matches := true;
  }

  // ---------------------------------------------------------------- candidate groups

  datatype CandidateGroup = CandidateGroup(frameSize: nat, messageIndices: seq<nat>)

  datatype Pipeline = Pipeline(
    messageIndices: seq<nat>,
    candidateGroups: seq<CandidateGroup>,
    variableIndices: seq<nat>)

  /** Those of `indices` that satisfy `f`, in order. */
  function Select(indices: seq<nat>, f: nat -> bool): seq<nat> {
    if indices == [] then []
    else Select(indices[..|indices| - 1], f)
         + if f(indices[|indices| - 1]) then [indices[|indices| - 1]] else []
  }

  function OfSize(messages: seq<MessageExecution>, size: nat): nat -> bool {
    (i: nat) => i < |messages| && !messages[i].bounded && messages[i].maxFrame == size
  }

  function OfVariableSize(messages: seq<MessageExecution>): nat -> bool {
    (i: nat) => i < |messages| && messages[i].bounded
  }

  function MatchedBy(messages: seq<MessageExecution>, frame: bytes): nat -> bool {
    (i: nat) => i < |messages| && Matches(messages[i], frame)
  }

  predicate Ascending(groups: seq<CandidateGroup>) {
    forall i, j | 0 <= i < j < |groups| :: groups[i].frameSize < groups[j].frameSize
  }

  /** The messages a size is looked up to. */
  function Listed(groups: seq<CandidateGroup>, size: nat): seq<nat> {
    if groups == [] then []
    else if groups[0].frameSize == size then groups[0].messageIndices
    else Listed(groups[1..], size)
  }

  /** Every size's messages are in its group, the variable ones apart, in pipeline order. */
  ghost predicate Grouped(p: Pipeline, messages: seq<MessageExecution>, n: nat) {
    && n <= |p.messageIndices| && Ascending(p.candidateGroups)
    && (forall size: nat ::
          Listed(p.candidateGroups, size) == Select(p.messageIndices[..n], OfSize(messages, size)))
    && p.variableIndices == Select(p.messageIndices[..n], OfVariableSize(messages))
  }

  lemma SelectMore(indices: seq<nat>, n: nat, f: nat -> bool)
    requires n < |indices|
    ensures Select(indices[..n + 1], f)
            == Select(indices[..n], f) + if f(indices[n]) then [indices[n]] else []
  {
    assert indices[..n + 1][..n] == indices[..n];
  }

  /** Into the group of its size, which is created in its place if it is the first. */
  function AddCandidate(groups: seq<CandidateGroup>, size: nat, index: nat): seq<CandidateGroup> {
    if groups == [] || size < groups[0].frameSize then [CandidateGroup(size, [index])] + groups
    else if groups[0].frameSize == size then
      [CandidateGroup(size, groups[0].messageIndices + [index])] + groups[1..]
    else [groups[0]] + AddCandidate(groups[1..], size, index)
  }

  predicate Above(groups: seq<CandidateGroup>, low: int) {
    forall k | 0 <= k < |groups| :: low < groups[k].frameSize
  }

  lemma {:induction false} AddedAbove(groups: seq<CandidateGroup>, size: nat, index: nat, low: int)
    requires Above(groups, low) && low < size
    ensures Above(AddCandidate(groups, size, index), low)
  {
    if !(groups == [] || size < groups[0].frameSize || groups[0].frameSize == size) {
      AddedAbove(groups[1..], size, index, low);
    }
  }

  lemma {:induction false} AddedAscending(groups: seq<CandidateGroup>, size: nat, index: nat)
    requires Ascending(groups)
    ensures Ascending(AddCandidate(groups, size, index))
  {
    if !(groups == [] || size < groups[0].frameSize || groups[0].frameSize == size) {
      AddedAscending(groups[1..], size, index);
      AddedAbove(groups[1..], size, index, groups[0].frameSize);
    }
  }

  lemma {:induction false} AddedListed(groups: seq<CandidateGroup>, size: nat, index: nat, s: nat)
    requires Ascending(groups)
    ensures Listed(AddCandidate(groups, size, index), s)
            == Listed(groups, s) + if s == size then [index] else []
  {
    var added := AddCandidate(groups, size, index);
    if groups == [] || size < groups[0].frameSize {
      assert added[1..] == groups;
      if s == size {
        Unlisted(groups, size);
      }
    } else if groups[0].frameSize == size {
      assert added[1..] == groups[1..];
    } else {
      AddedListed(groups[1..], size, index, s);
      assert added[1..] == AddCandidate(groups[1..], size, index);
    }
  }

  lemma {:induction false} Unlisted(groups: seq<CandidateGroup>, size: nat)
    requires forall k | 0 <= k < |groups| :: groups[k].frameSize != size
    ensures Listed(groups, size) == []
  {
    if groups != [] {
      Unlisted(groups[1..], size);
    }
  }

  lemma {:induction false} ListedAt(groups: seq<CandidateGroup>, k: nat)
    requires Ascending(groups) && k < |groups|
    ensures Listed(groups, groups[k].frameSize) == groups[k].messageIndices
  {
    if k > 0 {
      assert groups[0].frameSize < groups[k].frameSize;
      ListedAt(groups[1..], k - 1);
    }
  }

  /** The grouping that the plan builder freezes. */
  method GroupCandidates(indices: seq<nat>, messages: seq<MessageExecution>) returns (p: Pipeline)
    requires forall i | i in indices :: i < |messages|
    ensures p.messageIndices == indices && Grouped(p, messages, |indices|)
  {
    p := Pipeline(indices, [], []);
    assert indices[..0] == [];
    for n := 0 to |indices|
      invariant p.messageIndices == indices && Grouped(p, messages, n)
    {
      var index := indices[n];
      assert index in indices;
      forall size: nat
        ensures Select(indices[..n + 1], OfSize(messages, size))
                == Select(indices[..n], OfSize(messages, size))
                   + if !messages[index].bounded && messages[index].maxFrame == size
                     then [index] else []
      {
        SelectMore(indices, n, OfSize(messages, size));
      }
      SelectMore(indices, n, OfVariableSize(messages));
      if messages[index].bounded {
        p := p.(variableIndices := p.variableIndices + [index]);
      } else {
        AddedAscending(p.candidateGroups, messages[index].maxFrame, index);
        forall size: nat
          ensures Listed(AddCandidate(p.candidateGroups, messages[index].maxFrame, index), size)
                  == Listed(p.candidateGroups, size)
                     + if size == messages[index].maxFrame then [index] else []
        {
          AddedListed(p.candidateGroups, messages[index].maxFrame, index, size);
        }
        p := p.(candidateGroups :=
                AddCandidate(p.candidateGroups, messages[index].maxFrame, index));
      }
    }
  }

  // ---------------------------------------------------------------- the run-time lookup

  method FindCandidateGroup(groups: seq<CandidateGroup>, frameSize: nat)
    returns (candidates: seq<nat>)
    requires Ascending(groups)
    ensures candidates == Listed(groups, frameSize)
  {
    var first, last := 0, |groups|;
    while first < last
      invariant 0 <= first <= last <= |groups|
      invariant forall k | 0 <= k < first :: groups[k].frameSize < frameSize
      invariant forall k | last <= k < |groups| :: groups[k].frameSize >= frameSize
    {
      var middle := first + (last - first) / 2;
      if groups[middle].frameSize < frameSize {
        first := middle + 1;
      } else {
        last := middle;
      }
    }
    if first == |groups| || groups[first].frameSize != frameSize {
      assert first < |groups| ==>
          forall k | first < k < |groups| :: groups[first].frameSize < groups[k].frameSize;
      Unlisted(groups, frameSize);
      return [];
    }
    ListedAt(groups, first);
    candidates := groups[first].messageIndices;
  }

  /** How many of the candidates match, and the first of them. */
  method CountMatches(indices: seq<nat>, messages: seq<MessageExecution>, input: bytes)
    returns (count: nat, first: Option<nat>)
    requires forall i | i in indices :: i < |messages|
    requires forall e | e in messages :: Reaching(e)
    ensures count == |Select(indices, MatchedBy(messages, input))|
    ensures count == 0 <==> first == None
    ensures first.Some? ==> first.value in Select(indices, MatchedBy(messages, input))
  {
    hide Matches, Reaching;
    count, first := 0, None;
    var f := MatchedBy(messages, input);
    assert indices[..0] == [];
    for n := 0 to |indices|
      invariant count == |Select(indices[..n], f)|
      invariant count == 0 <==> first == None
      invariant first.Some? ==> first.value in Select(indices[..n], f)
    {
      SelectMore(indices, n, f);
      assert indices[n] in indices && messages[indices[n]] in messages;
      var matches := MessageMatches(messages[indices[n]], input);
      if matches {
        count := count + 1;
        if first == None {
          first := Some(indices[n]);
        }
      }
    }
    assert indices[..|indices|] == indices;
  }

  lemma {:induction false} SelectedFrom(indices: seq<nat>, f: nat -> bool, i: nat)
    ensures i in Select(indices, f) <==> i in indices && f(i)
  {
    if indices != [] {
      var n := |indices| - 1;
      SelectedFrom(indices[..n], f, i);
      assert indices == indices[..n] + [indices[n]];
    }
  }

  /** Selecting in two steps, when the second implies the first or the other. */
  lemma {:induction false} SelectSplits(indices: seq<nat>, f: nat -> bool, g: nat -> bool,
                                        h: nat -> bool)
    requires forall i :: !(g(i) && h(i)) && (f(i) ==> g(i) || h(i))
    ensures |Select(indices, f)|
            == |Select(Select(indices, g), f)| + |Select(Select(indices, h), f)|
  {
    if indices != [] {
      var n := |indices| - 1;
      var last := indices[n];
      SelectSplits(indices[..n], f, g, h);
      SelectAppend(Select(indices[..n], g), last, f);
      SelectAppend(Select(indices[..n], h), last, f);
      assert Select(indices[..n], g) + [] == Select(indices[..n], g);
      assert Select(indices[..n], h) + [] == Select(indices[..n], h);
    }
  }

  lemma SelectAppend(indices: seq<nat>, last: nat, f: nat -> bool)
    ensures Select(indices + [last], f) == Select(indices, f) + if f(last) then [last] else []
  {
    assert (indices + [last])[..|indices|] == indices;
  }

  /** Grouped lookup counts exactly the pipeline's messages that the frame matches. */
  method FindPipelineMatch(p: Pipeline, messages: seq<MessageExecution>, input: bytes)
    returns (matchCount: nat, messageIndex: Option<nat>)
    requires Grouped(p, messages, |p.messageIndices|)
    requires forall i | i in p.messageIndices :: i < |messages|
    requires forall e | e in messages :: Reaching(e)
    ensures matchCount == |Select(p.messageIndices, MatchedBy(messages, input))|
    ensures matchCount == 0 <==> messageIndex == None
    ensures messageIndex.Some? ==>
              messageIndex.value in p.messageIndices
              && MatchedBy(messages, input)(messageIndex.value)
  {
    hide Matches, Reaching, Select;
    var all := p.messageIndices;
    assert all[..|all|] == all;
    var f, g, h := MatchedBy(messages, input), OfSize(messages, |input|), OfVariableSize(messages);
    var candidates := FindCandidateGroup(p.candidateGroups, |input|);
    SelectedValid(all, g, |messages|);
    SelectedValid(all, h, |messages|);
    var fixedCount, first := CountMatches(candidates, messages, input);
    var variableCount, second := CountMatches(p.variableIndices, messages, input);
    SizesSplit(messages, input);
    SelectSplits(all, f, g, h);
    matchCount := fixedCount + variableCount;
    messageIndex := if first.Some? then first else second;
    if first.Some? {
      SelectedFrom(candidates, f, first.value);
      SelectedFrom(all, g, first.value);
    }
    if second.Some? {
      SelectedFrom(p.variableIndices, f, second.value);
      SelectedFrom(all, h, second.value);
    }
  }

  lemma SizesSplit(messages: seq<MessageExecution>, input: bytes)
    ensures forall i ::
              && !(OfSize(messages, |input|)(i) && OfVariableSize(messages)(i))
              && (MatchedBy(messages, input)(i) ==>
                    OfSize(messages, |input|)(i) || OfVariableSize(messages)(i))
  {
  }

  lemma SelectedValid(indices: seq<nat>, f: nat -> bool, n: nat)
    requires forall i | i in indices :: i < n
    ensures forall i | i in Select(indices, f) :: i < n
  {
    forall i: nat | i in Select(indices, f)
      ensures i < n
    {
      SelectedFrom(indices, f, i);
    }
  }

  // ---------------------------------------------------------------- no ambiguity

  predicate Distinct<T(==)>(s: seq<T>) {
    forall i, j | 0 <= i < j < |s| :: s[i] != s[j]
  }

  ghost predicate Intersect(a: MessageShape, b: MessageShape) {
    exists frame :: Satisfies(a, frame) && Satisfies(b, frame)
  }

  ghost predicate Disjointed(shapes: seq<MessageShape>, a: nat, b: nat) {
    a < |shapes| && b < |shapes| ==> !Intersect(shapes[a], shapes[b])
  }

  ghost predicate PairwiseApart(indices: seq<nat>, shapes: seq<MessageShape>) {
    (forall i | i in indices :: i < |shapes|) &&
    forall i, j | 0 <= i < j < |indices| :: Disjointed(shapes, indices[i], indices[j])
  }

  /** What a pipeline's message references are looked up in. */
  datatype MessageName = MessageName(id: string, direction: string)

  predicate UniqueIds(names: seq<MessageName>) {
    forall i, j | 0 <= i < j < |names| :: names[i].id != names[j].id
  }

  function IndexOf(names: seq<MessageName>, id: string): Option<nat> {
    if names == [] then None
    else if names[|names| - 1].id == id then Some(|names| - 1)
    else IndexOf(names[..|names| - 1], id)
  }

  lemma {:induction false} IndexOfIs(names: seq<MessageName>, id: string)
    ensures match IndexOf(names, id)
            case Some(i) => i < |names| && names[i].id == id
            case None => forall i | 0 <= i < |names| :: names[i].id != id
  {
    if names != [] {
      IndexOfIs(names[..|names| - 1], id);
    }
  }

  /** `index` is the message that the reference `id` means in a pipeline of that direction. */
  predicate Refers(names: seq<MessageName>, direction: string, id: string, index: nat) {
    index < |names| && names[index] == MessageName(id, direction)
  }

  predicate Resolves(names: seq<MessageName>, direction: string, ids: seq<string>,
                     indices: seq<nat>)
  {
    |indices| == |ids| && forall i | 0 <= i < |ids| :: Refers(names, direction, ids[i], indices[i])
  }

  lemma ResolvesOneWay(names: seq<MessageName>, direction: string, ids: seq<string>, x: seq<nat>,
                       y: seq<nat>)
    requires UniqueIds(names) && Resolves(names, direction, ids, x) && |y| <= |x|
    requires forall i | 0 <= i < |y| :: Refers(names, direction, ids[i], y[i])
    ensures y == x[..|y|]
  {
    forall i | 0 <= i < |y|
      ensures y[i] == x[i]
    {
      assert Refers(names, direction, ids[i], x[i]);
    }
  }

  /** Some resolution of the references has no two messages that intersect. */
  ghost predicate Referable(names: seq<MessageName>, direction: string, ids: seq<string>,
                             shapes: seq<MessageShape>)
  {
    exists indices ::
      Resolves(names, direction, ids, indices) && PairwiseApart(indices, shapes)
  }

  /** References that name messages of the direction, of which no frame satisfies two. */
  lemma ReferableMeans(names: seq<MessageName>, direction: string, ids: seq<string>,
                       shapes: seq<MessageShape>, indices: seq<nat>)
    requires |names| == |shapes| && UniqueIds(names) && |indices| == |ids|
    requires forall i | 0 <= i < |ids| ::
               indices[i] < |names| && names[indices[i]].id == ids[i]
               && names[indices[i]].direction == direction
    ensures Referable(names, direction, ids, shapes)
            <==> forall i, j, frame | 0 <= i < j < |indices| ::
                   !(Satisfies(shapes[indices[i]], frame) && Satisfies(shapes[indices[j]], frame))
    ensures Distinct(ids) <==> forall i, j | 0 <= i < j < |ids| :: ids[i] != ids[j]
  {
    hide Satisfies;
    assert Resolves(names, direction, ids, indices);
    forall x | Resolves(names, direction, ids, x)
      ensures x == indices
    {
      ResolvesOneWay(names, direction, ids, x, indices);
      assert x[..|indices|] == x;
    }
    if forall i, j, frame | 0 <= i < j < |indices| ::
         !(Satisfies(shapes[indices[i]], frame) && Satisfies(shapes[indices[j]], frame)) {
      forall i, j | 0 <= i < j < |indices|
        ensures Disjointed(shapes, indices[i], indices[j])
      {
      }
      IsReferable(names, direction, ids, shapes, indices);
    }
    if Referable(names, direction, ids, shapes) {
      forall i, j, frame | 0 <= i < j < |indices|
        ensures !(Satisfies(shapes[indices[i]], frame) && Satisfies(shapes[indices[j]], frame))
      {
        assert Disjointed(shapes, indices[i], indices[j]);
      }
    }
  }

  /** And references that do not. */
  lemma Unreferable(names: seq<MessageName>, direction: string, ids: seq<string>,
                    shapes: seq<MessageShape>, n: nat)
    requires n < |ids| && |names| == |shapes|
    requires forall name | name in names :: name.id != ids[n] || name.direction != direction
    ensures !Referable(names, direction, ids, shapes)
  {
    forall x
      ensures !Resolves(names, direction, ids, x)
    {
      assert |x| == |ids| && x[n] < |names| ==> names[x[n]] in names;
    }
  }

  /** The compiler's check of a pipeline's message references. */
  method ValidatePipeline(ids: seq<string>, direction: string, names: seq<MessageName>,
                          shapes: seq<MessageShape>)
    returns (accepted: bool, indices: seq<nat>)
    requires |names| == |shapes| && UniqueIds(names)
    requires forall m | m in shapes :: Legal(m)
    ensures accepted <==> Distinct(ids) && Referable(names, direction, ids, shapes)
    ensures accepted ==>
              Resolves(names, direction, ids, indices) && PairwiseApart(indices, shapes)
  {
    hide Legal, Intersect, Referable, IndexOf;
    indices := [];
    var seen: set<string> := {};
    for n := 0 to |ids|
      invariant |indices| == n && forall id :: id in seen <==> id in ids[..n]
      invariant forall i, j | 0 <= i < j < n :: ids[i] != ids[j]
      invariant forall i | 0 <= i < n :: Refers(names, direction, ids[i], indices[i])
      invariant forall i, j | 0 <= i < j < n :: Disjointed(shapes, indices[i], indices[j])
    {
      assert ids[..n + 1] == ids[..n] + [ids[n]];
      if ids[n] in seen {
        var i :| 0 <= i < n && ids[..n][i] == ids[n];
        assert ids[i] == ids[n];
        return false, indices;
      }
      IndexOfIs(names, ids[n]);
      var message := IndexOf(names, ids[n]);
      if message == None || names[message.value].direction != direction {
        NoReference(names, direction, ids, shapes, n, message);
        return false, indices;
      }
      var clashes := IntersectsEarlier(indices, message.value, shapes);
      if clashes {
        NotApart(names, direction, ids, shapes, indices, message.value);
        return false, indices;
      }
      forall i | 0 <= i < n
        ensures ids[i] != ids[n]
      {
        assert ids[i] == ids[..n][i];
      }
      seen, indices := seen + {ids[n]}, indices + [message.value];
    }
    IsReferable(names, direction, ids, shapes, indices);
    accepted := true;
  }

  /** A message against those the pipeline already has. */
  method IntersectsEarlier(indices: seq<nat>, index: nat, shapes: seq<MessageShape>)
    returns (clashes: bool)
    requires forall m | m in shapes :: Legal(m)
    requires index < |shapes| && forall i | i in indices :: i < |shapes|
    ensures clashes <==> exists i :: 0 <= i < |indices| && !Disjointed(shapes, indices[i], index)
  {
    hide Legal, Satisfies;
    for earlier := 0 to |indices|
      invariant forall i | 0 <= i < earlier :: Disjointed(shapes, indices[i], index)
    {
      assert indices[earlier] in indices && shapes[indices[earlier]] in shapes;
      LegalParts(shapes[indices[earlier]]);
      LegalParts(shapes[index]);
      var can := FixedMatchersCanIntersect(shapes[indices[earlier]], shapes[index]);
      if can {
        assert !Disjointed(shapes, indices[earlier], index);
        return true;
      }
    }
    clashes := false;
  }

  lemma NoReference(names: seq<MessageName>, direction: string, ids: seq<string>,
                    shapes: seq<MessageShape>, n: nat, message: Option<nat>)
    requires UniqueIds(names) && n < |ids|
    requires match message
             case Some(i) => i < |names| && names[i].id == ids[n] && names[i].direction != direction
             case None => forall i | 0 <= i < |names| :: names[i].id != ids[n]
    ensures !Referable(names, direction, ids, shapes)
  {
    forall x
      ensures !Resolves(names, direction, ids, x)
    {
      assert |x| == |ids| ==> !Refers(names, direction, ids[n], x[n]);
    }
  }

  lemma NotApart(names: seq<MessageName>, direction: string, ids: seq<string>,
                 shapes: seq<MessageShape>, indices: seq<nat>, next: nat)
    requires UniqueIds(names) && |names| == |shapes| && |indices| < |ids|
    requires forall i | 0 <= i < |indices| :: Refers(names, direction, ids[i], indices[i])
    requires Refers(names, direction, ids[|indices|], next)
    requires exists i :: 0 <= i < |indices| && !Disjointed(shapes, indices[i], next)
    ensures !Referable(names, direction, ids, shapes)
  {
    hide Disjointed;
    var i :| 0 <= i < |indices| && !Disjointed(shapes, indices[i], next);
    var all := indices + [next];
    forall x | Resolves(names, direction, ids, x)
      ensures !PairwiseApart(x, shapes)
    {
      ResolvesOneWay(names, direction, ids, x, all);
      assert x[i] == all[i] && x[|indices|] == all[|indices|];
    }
  }

  lemma IsReferable(names: seq<MessageName>, direction: string, ids: seq<string>,
                     shapes: seq<MessageShape>, indices: seq<nat>)
    requires |names| == |shapes| && Resolves(names, direction, ids, indices)
    requires forall i, j | 0 <= i < j < |indices| :: Disjointed(shapes, indices[i], indices[j])
    ensures PairwiseApart(indices, shapes) && Referable(names, direction, ids, shapes)
  {
    hide Disjointed;
    forall i | i in indices
      ensures i < |shapes|
    {
      var k :| 0 <= k < |indices| && indices[k] == i;
      assert Refers(names, direction, ids[k], indices[k]);
    }
  }

  lemma LegalParts(m: MessageShape)
    requires Legal(m)
    ensures LegalLengths(m) && LegalMatchers(m)
  {
  }

  lemma {:induction false} AtMostOneSelected(indices: seq<nat>, f: nat -> bool)
    requires forall i, j | 0 <= i < j < |indices| :: !(f(indices[i]) && f(indices[j]))
    ensures |Select(indices, f)| <= 1
  {
    if indices != [] {
      var n := |indices| - 1;
      AtMostOneSelected(indices[..n], f);
      if f(indices[n]) && Select(indices[..n], f) != [] {
        SelectedFrom(indices[..n], f, Select(indices[..n], f)[0]);
      }
    }
  }

  /** In an accepted pipeline no frame whatever is ambiguous. */
  lemma NeverAmbiguous(indices: seq<nat>, shapes: seq<MessageShape>,
                       messages: seq<MessageExecution>, frame: bytes)
    requires |messages| == |shapes| && forall i | 0 <= i < |shapes| :: Legal(shapes[i])
    requires forall i | 0 <= i < |shapes| :: Freezes(messages[i], shapes[i])
    requires PairwiseApart(indices, shapes)
    ensures |Select(indices, MatchedBy(messages, frame))| <= 1
  {
    hide Legal, Satisfies, Freezes, Matches;
    var f := MatchedBy(messages, frame);
    forall i, j | 0 <= i < j < |indices|
      ensures !(f(indices[i]) && f(indices[j]))
    {
      assert indices[i] in indices && indices[j] in indices;
      MatchesIsSatisfies(messages[indices[i]], shapes[indices[i]], frame);
      MatchesIsSatisfies(messages[indices[j]], shapes[indices[j]], frame);
      assert Disjointed(shapes, indices[i], indices[j]);
    }
    AtMostOneSelected(indices, f);
  }

  // ---------------------------------------------------------------- compiled pipelines

  /** A pipeline that passed the compiler's checks, as the plan builder then freezes it. */
  ghost predicate FrozenFrom(p: Pipeline, shapes: seq<MessageShape>,
                             structures: seq<MessageExecution>)
  {
    && |structures| == |shapes| && (forall i | 0 <= i < |shapes| :: Legal(shapes[i]))
    && (forall i | 0 <= i < |shapes| :: Freezes(structures[i], shapes[i]))
    && PairwiseApart(p.messageIndices, shapes) && Grouped(p, structures, |p.messageIndices|)
  }

  ghost predicate FrozenPipeline(p: Pipeline, structures: seq<MessageExecution>) {
    exists shapes :: FrozenFrom(p, shapes, structures)
  }

  /** What the compiler's checks are worth at run time: above all, no frame is ambiguous. */
  lemma FrozenIsUnambiguous(p: Pipeline, structures: seq<MessageExecution>)
    requires FrozenPipeline(p, structures)
    ensures Grouped(p, structures, |p.messageIndices|)
    ensures forall i | i in p.messageIndices :: i < |structures|
    ensures forall e | e in structures :: Reaching(e)
    ensures forall frame: bytes :: |Select(p.messageIndices, MatchedBy(structures, frame))| <= 1
  {
    hide Legal, Freezes, Reaching, Grouped, Select, Disjointed, MatchedBy;
    var shapes :| FrozenFrom(p, shapes, structures);
    forall e | e in structures
      ensures Reaching(e)
    {
      var i :| 0 <= i < |structures| && structures[i] == e;
      FrozenReaches(structures[i], shapes[i]);
    }
    forall frame: bytes
      ensures |Select(p.messageIndices, MatchedBy(structures, frame))| <= 1
    {
      NeverAmbiguous(p.messageIndices, shapes, structures, frame);
    }
  }

  /** All messages' matchers, frozen; refused if one message's are illegal. */
  method FreezeMessages(shapes: seq<MessageShape>)
    returns (accepted: bool, structures: seq<MessageExecution>)
    requires forall m | m in shapes :: LegalLengths(m)
    ensures accepted <==> forall m | m in shapes :: LegalMatchers(m)
    ensures accepted ==>
              |structures| == |shapes|
              && forall i | 0 <= i < |shapes| :: Freezes(structures[i], shapes[i])
  {
    hide LegalMatchers, LegalLengths, Freezes, IsUnion;
    structures := [];
    for n := 0 to |shapes|
      invariant |structures| == n
      invariant forall i | 0 <= i < n :: LegalMatchers(shapes[i])
      invariant forall i | 0 <= i < n :: Freezes(structures[i], shapes[i])
    {
      assert shapes[n] in shapes;
      var legal, fixed := ValidateMatchers(shapes[n]);
      if !legal {
        return false, structures;
      }
      var structure := FreezeMatchers(shapes[n], fixed);
      structures := structures + [structure];
    }
    accepted := true;
  }

  /**
   * A pipeline from its source to its frozen form: the compiler's checks, and what the plan
   * builder makes of what they accept.
   */
  method CompilePipeline(ids: seq<string>, direction: string, names: seq<MessageName>,
                         shapes: seq<MessageShape>)
    returns (accepted: bool, p: Pipeline, structures: seq<MessageExecution>)
    requires |names| == |shapes| && UniqueIds(names)
    requires forall m | m in shapes :: LegalLengths(m)
    ensures accepted <==> (forall m | m in shapes :: LegalMatchers(m)) && Distinct(ids)
                          && Referable(names, direction, ids, shapes)
    ensures accepted ==>
              FrozenPipeline(p, structures) && Resolves(names, direction, ids, p.messageIndices)
  {
    hide LegalMatchers, LegalLengths, Freezes, Referable, Grouped, Disjointed, Resolves;
    p := Pipeline([], [], []);
    accepted, structures := FreezeMessages(shapes);
    if !accepted {
      return;
    }
    var indices;
    accepted, indices := ValidatePipeline(ids, direction, names, shapes);
    if !accepted {
      return;
    }
    p := GroupCandidates(indices, structures);
    assert forall i | 0 <= i < |shapes| :: shapes[i] in shapes;
    assert FrozenFrom(p, shapes, structures);
  }
}
