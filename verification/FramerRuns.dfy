/**
 * Whole runs of the framer. A host that keeps submitting what was not consumed gets exactly what
 * the naive parser gives for the whole stream, however the stream was cut into chunks and however
 * often budget, quota or sink interrupted.
 */
module FramerRuns {
  import opened Bytes
  import opened Kmp
  import opened FramingSpec
  import opened FramingWork
  import opened StreamFramer

  /** `x` was consumed on the way from `v0` to `v`; it is delivered, discarded or still held. */
  ghost predicate Ran(p: Profile, v0: View, x: bytes, frames: seq<bytes>, v: View)
    requires ValidateStreamFramingLocal(p)
  {
    && Simulates(p, v0.pending + x, frames, Passed(v0, v), v.pending)
    && v0.held + |x| + v0.totalDiscarded == TotalLength(frames) + v.totalDiscarded + v.held
  }

  /** The malformed candidates that were counted and left behind on the way. */
  function Passed(v0: View, v: View): int {
    v.totalMalformed + v0.counted - v0.totalMalformed - v.counted
  }

  lemma RanNowhere(p: Profile, v: View)
    requires ValidateStreamFramingLocal(p)
    ensures Ran(p, v, [], [], v)
  {
    assert v.pending + [] == v.pending;
    SimulatesSelf(p, v.pending);
  }

  lemma RanThen(p: Profile, v0: View, x: bytes, f: seq<bytes>, v1: View, y: bytes, g: seq<bytes>,
                v2: View)
    requires ValidateStreamFramingLocal(p) && Ran(p, v0, x, f, v1) && Ran(p, v1, y, g, v2)
    ensures Ran(p, v0, x + y, f + g, v2)
  {
    SimulatesThen(p, v0.pending + x, f, Passed(v0, v1), v1.pending, y, g, Passed(v1, v2),
                  v2.pending);
    assert (v0.pending + x) + y == v0.pending + (x + y);
    TotalLengthSum(f, g);
  }

  lemma SubmittedRan(p: Profile, limit: nat, quota: nat, sink: FrameSink, input: bytes, v0: View,
                     v: View, r: SubmitResult, delivered: seq<bytes>)
    requires ValidateStreamFramingLocal(p)
    requires Submitted(p, limit, quota, sink, input, v0, v, r, delivered)
    ensures r.bytesConsumed <= |input|
    ensures Ran(p, v0, input[..r.bytesConsumed], delivered, v)
    ensures Priced(p, At(v0), input[..r.bytesConsumed], r.workUnitsUsed, At(v))
  {
    hide Priced;
    assert input[..r.bytesConsumed] == input[0..r.bytesConsumed];
  }

  /** The contract of a submission, clause by clause and for any further input `rest`. */
  lemma SubmittedMeans(p: Profile, limit: nat, quota: nat, sink: FrameSink, input: bytes, v0: View,
                       v: View, r: SubmitResult, delivered: seq<bytes>, rest: bytes)
    requires ValidateStreamFramingLocal(p)
    requires Submitted(p, limit, quota, sink, input, v0, v, r, delivered)
    ensures r.bytesConsumed <= |input| && r.workUnitsUsed <= limit
    ensures r.framesDelivered == |delivered| <= quota
    // parsed, counted and paid for
    ensures var x := input[..r.bytesConsumed];
            && ParseStream(p, v0.pending + x + rest) == delivered + ParseStream(p, v.pending + rest)
            && MalformedIn(p, v0.pending + x + rest) + v0.totalMalformed + v.counted
               == MalformedIn(p, v.pending + rest) + v.totalMalformed + v0.counted
            && Sound(p, At(v0)) && Sound(p, At(v))
            && Owed(p, At(v0), x + rest) == r.workUnitsUsed + Owed(p, At(v), rest)
    // every byte and every candidate is in the counters
    ensures v0.held + r.bytesConsumed == TotalLength(delivered) + r.bytesDiscarded + v.held
    ensures v.totalDiscarded == v0.totalDiscarded + r.bytesDiscarded
    ensures v.totalMalformed == v0.totalMalformed + r.malformedCandidates
    ensures r.lastFramingIssue == if r.malformedCandidates == 0 then NoIssue
                                  else if p.strategy == AsciiCrlf then RecordTooLong
                                  else MalformedLength
    // the sink's answers, and why the call ended
    ensures forall k: nat | k < |delivered| ::
              sink(k, delivered[k])
              == if r.stopReason == SinkStop && k == |delivered| - 1 then Stop else Continue
    ensures r.stopReason == SinkStop ==> delivered != []
    ensures r.stopReason == WorkBudgetReached ==>
              || (v.stage == Delivering && |delivered| == quota)
              || r.workUnitsUsed + NextPrice(p, At(v), input[r.bytesConsumed..]) > limit
    ensures r.stopReason == NeedMore || r.stopReason == InputExhausted ==>
              && r.bytesConsumed == |input| && !v.internal
              && (r.stopReason == NeedMore <==> v.pending != [])
    ensures !v.internal ==> Decide(p, v.pending) == Wait
    // progress
    ensures (input != [] || v0.internal) && r.bytesConsumed == 0 ==>
              || |v.pending| < |v0.pending|
              || (|v.pending| == |v0.pending| && v.phase < v0.phase)
              || (|v.pending| == |v0.pending| && v.phase == v0.phase && v.left < v0.left)
  {
    hide Owed, NextPrice, ParseStream, MalformedIn, Decide, Sound;
    SubmittedRan(p, limit, quota, sink, input, v0, v, r, delivered);
    assert Future(rest);
    assert v0.pending + input[..r.bytesConsumed] + rest == (v0.pending + input[..r.bytesConsumed]) + rest;
  }

  /** Where a run stands: the workspace is idle and everything so far has been accounted for. */
  ghost predicate Standing(ws: StreamFramingWorkspace, p: Profile, v0: View, consumed: bytes,
                           frames: seq<bytes>, work: nat, v: View)
    requires ValidateStreamFramingLocal(p)
    reads ws, ws.buffer, ws.inUse
  {
    && ws.Valid() && !ws.inUse.taken && ws.profile == p && v == ws.Look()
    && Ran(p, v0, consumed, frames, v) && Settled(p, v)
    && Priced(p, At(v0), consumed, work, At(v))
  }

  /** The next submission of a run: as much of `remaining` as the workspace accepts at a time. */
  method Resubmit(ws: StreamFramingWorkspace, remaining: bytes, sink: FrameSink, ghost p: Profile,
                  ghost v0: View, ghost consumed: bytes, frames: seq<bytes>, work: nat,
                  ghost v: View)
    returns (n: nat, all: seq<bytes>, total: nat, internal: bool, ghost v': View)
    requires ValidateStreamFramingLocal(p) && Standing(ws, p, v0, consumed, frames, work, v)
    requires remaining != [] || v.internal
    modifies ws, ws.buffer, ws.inUse
    ensures n <= |remaining|
    ensures Standing(ws, p, v0, consumed + remaining[..n], all, total, v')
    ensures Closer(v, 0, v', n) && internal == v'.internal
  {
    hide Ran, Settled, Accounts, Priced;
    var piece :=
      if |remaining| <= ws.maxSubmitBytes then remaining else remaining[..ws.maxSubmitBytes];
    var r, delivered := ws.PushStreamChunk(ws.plan, ws.pipelineIndex, piece, sink);
    v' := ws.Look();
    n, all, internal := r.bytesConsumed, frames + delivered, ws.HasInternalWork();
    total := work + r.workUnitsUsed;
    SubmittedRan(p, ws.maxWorkUnits, ws.maxFramesPerSubmit, sink, piece, v, v', r, delivered);
    assert piece[..n] == remaining[..n];
    RanThen(p, v0, consumed, frames, v, piece[..n], delivered, v');
    PricedThen(p, At(v0), consumed, work, At(v), piece[..n], r.workUnitsUsed, At(v'));
  }

  method InternalWork(ws: StreamFramingWorkspace, ghost p: Profile, ghost v0: View,
                      ghost consumed: bytes, ghost frames: seq<bytes>, ghost work: nat,
                      ghost v: View)
    returns (internal: bool)
    requires ValidateStreamFramingLocal(p) && Standing(ws, p, v0, consumed, frames, work, v)
    ensures internal == v.internal
  {
    internal := ws.HasInternalWork();
  }

  /** One chunk, resubmitted until it is consumed and no internal work is left. */
  method DriveChunk(ws: StreamFramingWorkspace, chunk: bytes, sinks: nat -> FrameSink,
                    ghost p: Profile, ghost v0: View, ghost before: bytes, frames: seq<bytes>,
                    work: nat, ghost v: View)
    returns (all: seq<bytes>, total: nat, ghost v': View)
    requires ValidateStreamFramingLocal(p) && Standing(ws, p, v0, before, frames, work, v)
    modifies ws, ws.buffer, ws.inUse
    ensures Standing(ws, p, v0, before + chunk, all, total, v') && !v'.internal
  {
    hide Standing;
    var remaining, calls := chunk, 0;
    var internal := InternalWork(ws, p, v0, before, frames, work, v);
    ghost var consumed := before;
    all, total, v' := frames, work, v;
    while remaining != [] || internal
      invariant consumed + remaining == before + chunk
      invariant Standing(ws, p, v0, consumed, all, total, v') && internal == v'.internal
      decreases |remaining|, |v'.pending|, v'.phase, v'.left
    {
      var n;
      n, all, total, internal, v' :=
        Resubmit(ws, remaining, sinks(calls), p, v0, consumed, all, total, v');
      consumed, remaining := consumed + remaining[..n], remaining[n..];
      calls := calls + 1;
    }
    assert consumed == before + chunk;
  }

  /**
   * A whole stream, cut into chunks at any places. What the calls charge in all is what the stream
   * costs, and not a unit more or less for the chunks and interruptions.
   */
  method DriveStream(ws: StreamFramingWorkspace, chunks: seq<bytes>,
                     sinks: (nat, nat) -> FrameSink)
    returns (frames: seq<bytes>, work: nat)
    requires ws.Valid() && !ws.inUse.taken && ws.Pending() == [] && ws.Held() == 0
    requires !ws.HasInternalWork()
    modifies ws, ws.buffer, ws.inUse
    ensures ws.Valid() && !ws.inUse.taken && !ws.HasInternalWork()
    ensures frames == ParseStream(ws.profile, Concat(chunks))
    ensures work == StreamWork(ws.profile, Concat(chunks))
    ensures |Concat(chunks)| + old(ws.totalDiscardedBytes)
            == TotalLength(frames) + ws.totalDiscardedBytes + ws.Held()
    ensures ws.totalMalformedCandidates
            == old(ws.totalMalformedCandidates) + MalformedIn(ws.profile, Concat(chunks))
               + ws.Counted()
    ensures ws.Counted()
            == if ws.profile.strategy == AsciiCrlf && |ws.Pending()| >= ws.profile.maximum then 1
               else 0
  {
    ghost var p, v0 := ws.profile, ws.Look();
    ghost var v := v0;
    frames, work := [], 0;
    RanNowhere(p, v0);
    ws.Stands();
    PricedSelf(p, At(v0));
    EmptyWaits(p);
    for i := 0 to |chunks|
      invariant Standing(ws, p, v0, Concat(chunks[..i]), frames, work, v) && !v.internal
    {
      hide Ran, Settled, Priced;
      frames, work, v := DriveChunk(ws, chunks[i], call => sinks(i, call), p, v0,
                                    Concat(chunks[..i]), frames, work, v);
      assert chunks[..i + 1] == chunks[..i] + [chunks[i]];
      ConcatAppend(chunks[..i], chunks[i]);
    }
    assert chunks[..|chunks|] == chunks;
    Settles(p, Concat(chunks), frames, Passed(v0, v), ws.Pending());
    ws.Idle();
    AllPaid(p, At(v0), Concat(chunks), work, At(v));
  }

  /** From idle to idle everything is paid for. */
  lemma AllPaid(p: Profile, before: Position, stream: bytes, work: int, after: Position)
    requires Priced(p, before, stream, work, after)
    requires before == Position([], if p.SearchesSync() then Searching else Plain)
    requires Owed(p, after, []) == 0
    ensures work == StreamWork(p, stream)
  {
    hide SearchWork;
    assert Future([]) && stream + [] == stream;
  }

  lemma EmptyWaits(p: Profile)
    requires ValidateStreamFramingLocal(p)
    ensures Decide(p, []).Wait?
  {
    DecisionSize(p, []);
  }

  /** What is left when only more input can help contributes nothing. */
  lemma Settles(p: Profile, stream: bytes, frames: seq<bytes>, malformed: int, left: bytes)
    requires ValidateStreamFramingLocal(p)
    requires Simulates(p, [] + stream, frames, malformed, left) && Decide(p, left).Wait?
    ensures ParseStream(p, stream) == frames && MalformedIn(p, stream) == malformed
  {
    assert Future([]);
    assert ([] + stream) + [] == stream && left + [] == left;
  }

  // ---------------------------------------------------------------- what the naive parser gives

  /** A frame as the profile defines it: a front decision that takes exactly all of it. */
  ghost predicate ValidFrame(p: Profile, frame: bytes) {
    Decide(p, frame) == Emit(|frame|)
  }

  /** The frames stand in the stream one after another, without overlap. */
  ghost predicate InOrder(frames: seq<bytes>, s: bytes) {
    frames == [] ||
    exists k: nat :: OccursAt(frames[0], s, k) && InOrder(frames[1..], s[k + |frames[0]|..])
  }

  /** The taken prefix alone decides the frame. */
  lemma EmitsValid(p: Profile, s: bytes)
    requires ValidateStreamFramingLocal(p) && Decide(p, s).Emit?
    ensures Decide(p, s).size <= |s| && ValidFrame(p, s[..Decide(p, s).size])
  {
    DecisionSize(p, s);
    var n := Decide(p, s).size;
    var frame := s[..n];
    if p.strategy == AsciiCrlf {
      FoundInPrefix(CRLF, s, n);
    } else if p.SearchesSync() {
      assert s == frame + s[n..];
      assert frame[..|p.sync|] == s[..|p.sync|];
      DeclaredStable(p, frame, s[n..]);
    }
  }

  lemma {:induction false} ParsedFramesValid(p: Profile, s: bytes)
    requires ValidateStreamFramingLocal(p)
    ensures forall f :: f in ParseStream(p, s) ==> ValidFrame(p, f)
    ensures InOrder(ParseStream(p, s), s)
    decreases |s|
  {
    DecisionSize(p, s);
    match Decide(p, s)
    case Wait =>
    case Skip(n) =>
      ParsedFramesValid(p, s[n..]);
      InOrderLater(ParseStream(p, s[n..]), s, n);
    case Emit(n) =>
      EmitsValid(p, s);
      ParsedFramesValid(p, s[n..]);
      var frames := ParseStream(p, s);
      assert frames[0] == s[..n] == s[0..0 + n] && frames[1..] == ParseStream(p, s[n..]);
      assert OccursAt(frames[0], s, 0) && InOrder(frames[1..], s[0 + |frames[0]|..]);
  }

  lemma InOrderLater(frames: seq<bytes>, s: bytes, n: nat)
    requires n <= |s| && InOrder(frames, s[n..])
    ensures InOrder(frames, s)
  {
    if frames != [] {
      var t := s[n..];
      var k: nat :| OccursAt(frames[0], t, k) && InOrder(frames[1..], t[k + |frames[0]|..]);
      assert s[n + k..n + k + |frames[0]|] == t[k..k + |frames[0]|];
      assert s[n + k + |frames[0]|..] == t[k + |frames[0]|..];
      assert OccursAt(frames[0], s, n + k) && InOrder(frames[1..], s[n + k + |frames[0]|..]);
    }
  }

  /** Frames sent back to back arrive as they were sent. */
  lemma {:induction false} FramesParseBack(p: Profile, frames: seq<bytes>)
    requires ValidateStreamFramingLocal(p)
    requires forall f :: f in frames ==> ValidFrame(p, f)
    ensures ParseStream(p, Concat(frames)) == frames && MalformedIn(p, Concat(frames)) == 0
  {
    if frames == [] {
      EmptyWaits(p);
    } else {
      var rest := Concat(frames[1..]);
      assert frames[0] in frames;
      FrameParsesBack(p, frames[0], rest);
      FramesParseBack(p, frames[1..]);
    }
  }

  /** Noise in which no header starts is skipped without harm to the frame behind it. */
  lemma NoiseIsSkipped(p: Profile, noise: bytes, frame: bytes, rest: bytes)
    requires ValidateStreamFramingLocal(p) && p.SearchesSync() && ValidFrame(p, frame)
    requires Find(p.sync, noise + frame) == Some(|noise|)
    ensures ParseStream(p, noise + frame + rest) == [frame] + ParseStream(p, rest)
    ensures MalformedIn(p, noise + frame + rest) == MalformedIn(p, rest)
  {
    hide Find, Decide, ParseStream, MalformedIn;
    var s := noise + (frame + rest);
    assert noise + frame + rest == s;
    FindStable(p.sync, noise + frame, rest);
    NothingBefore(p.sync, s, |noise|);
    ParseDrops(p, s, |noise|);
    assert s[|noise|..] == frame + rest;
    FrameParsesBack(p, frame, rest);
  }

  lemma FrameParsesBack(p: Profile, frame: bytes, rest: bytes)
    requires ValidateStreamFramingLocal(p) && ValidFrame(p, frame)
    ensures ParseStream(p, frame + rest) == [frame] + ParseStream(p, rest)
    ensures MalformedIn(p, frame + rest) == MalformedIn(p, rest)
  {
    DecisionStable(p, frame, rest);
    assert (frame + rest)[..|frame|] == frame && (frame + rest)[|frame|..] == rest;
  }

  /** Only the records that fit are kept. */
  function Fitting(maximum: nat, records: seq<bytes>): seq<bytes> {
    if records == [] then []
    else (if |records[0]| <= maximum then [records[0]] else []) + Fitting(maximum, records[1..])
  }

  /**
   * CRLF-terminated records: what fits is delivered, what is too long is dropped and counted, no
   * more.
   */
  lemma {:induction false} RecordsParseBack(p: Profile, records: seq<bytes>)
    requires ValidateStreamFramingLocal(p) && p.strategy == AsciiCrlf
    requires forall r :: r in records ==> |r| >= 2 && Find(CRLF, r) == Some(|r| - 2)
    ensures ParseStream(p, Concat(records)) == Fitting(p.maximum, records)
    ensures MalformedIn(p, Concat(records)) == |records| - |Fitting(p.maximum, records)|
  {
    if records == [] {
      EmptyWaits(p);
    } else {
      var record, rest := records[0], Concat(records[1..]);
      assert record in records;
      DecisionStable(p, record, rest);
      assert (record + rest)[..|record|] == record;
      assert (record + rest)[|record|..] == rest;
      RecordsParseBack(p, records[1..]);
    }
  }
}
