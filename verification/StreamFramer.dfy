/**
 * The bounded stream framer: one logical stream's workspace, fed by chunks, that copies candidate
 * frames into a fixed buffer under a work budget and a frame quota.
 */
module StreamFramer {
  import opened Bytes
  import opened Kmp
  import opened FramingSpec
  import opened FramingWork

  datatype SubmitApiStatus = Ok | InvalidPlan | WorkspacePlanMismatch | WorkspaceBusy | LimitExceeded | InternalError

  datatype SubmitStopReason = InputExhausted | NeedMore | WorkBudgetReached | SinkStop

  datatype FramingIssue = NoIssue | MalformedLength | RecordTooLong

  datatype FrameSinkAction = Continue | Stop

  datatype SubmitResult = SubmitResult(
    apiStatus: SubmitApiStatus,
    stopReason: SubmitStopReason,
    bytesConsumed: nat,
    framesDelivered: nat,
    bytesDiscarded: nat,
    malformedCandidates: nat,
    lastFramingIssue: FramingIssue,
    workUnitsUsed: nat)

  /** Requested, default or hard limits; a requested 0 asks for the default. */
  datatype Limits = Limits(
    submitBytes: nat,
    framesPerSubmit: nat,
    workUnits: nat,
    syncBytes: nat,
    sessionBytes: nat)

  const MAX_FRAME_BYTES: nat := 0x10_0000
  const HARD_LIMITS := Limits(0x40_0000, 4096, 0x100_0000, 64, 0x20_0000)

  function SelectLimit(requested: nat, default: nat): nat {
    if requested == 0 then default else requested
  }

  function Select(requested: Limits, default: Limits): Limits {
    Limits(
      SelectLimit(requested.submitBytes, default.submitBytes),
      SelectLimit(requested.framesPerSubmit, default.framesPerSubmit),
      SelectLimit(requested.workUnits, default.workUnits),
      SelectLimit(requested.syncBytes, default.syncBytes),
      SelectLimit(requested.sessionBytes, default.sessionBytes))
  }

  predicate WithinHardLimits(l: Limits) {
    && 1 <= l.submitBytes <= HARD_LIMITS.submitBytes
    && 1 <= l.framesPerSubmit <= HARD_LIMITS.framesPerSubmit
    && 1 <= l.workUnits <= HARD_LIMITS.workUnits
    && 1 <= l.syncBytes <= HARD_LIMITS.syncBytes
    && 1 <= l.sessionBytes <= HARD_LIMITS.sessionBytes
  }

  /** The work of one sync byte at worst, and of the widest length field. */
  function MinimumProgressBudget(p: Profile): nat {
    if 1 + 2 * |p.sync| < 4 then 4 else 1 + 2 * |p.sync|
  }

  function Minus(a: nat, b: nat): nat {
    if b <= a then a - b else 0
  }

  const EMPTY_RESULT := SubmitResult(Ok, InputExhausted, 0, 0, 0, 0, NoIssue, 0)

  /** A host's sink: its answer to the frame it is shown as the call's `k`-th delivery. */
  type FrameSink = (nat, bytes) -> FrameSinkAction

  datatype State =
    | CollectFixed
    | SearchSync
    | CopySync
    | ReadLength
    | CollectDeclared
    | DeliverPending
    | RescanInvalid
    | CompactInvalid
    | CollectAscii
    | DiscardUntilCrlf

  /**
   * The facts about a workspace that its callers reason with. `counted` is 1 while the candidate
   * at the front of `pending` is known, and already counted, to be malformed.
   */
  datatype View = View(
    pending: bytes,
    stage: Stage,
    held: nat,
    totalDiscarded: nat,
    totalMalformed: nat,
    counted: nat,
    phase: nat,
    left: nat,
    internal: bool)

  function At(v: View): Position {
    Position(v.pending, v.stage)
  }

  /**
   * The ledger of a stretch of a call: the bytes consumed in between turn what was pending before
   * into exactly `frames`, as many malformed candidates as were counted, and what is pending after;
   * every byte is delivered, discarded or held; and the work charged is what the bytes cost.
   */
  ghost predicate Accounts(p: Profile, input: bytes, v0: View, r0: SubmitResult, v1: View,
                           r1: SubmitResult, frames: seq<bytes>)
    requires ValidateStreamFramingLocal(p)
  {
    && r0.bytesConsumed <= r1.bytesConsumed <= |input|
    && Simulates(p, v0.pending + input[r0.bytesConsumed..r1.bytesConsumed], frames,
                 Found(v0, r0, v1, r1), v1.pending)
    && Priced(p, At(v0), input[r0.bytesConsumed..r1.bytesConsumed],
              r1.workUnitsUsed - r0.workUnitsUsed, At(v1))
    && v0.held + r1.bytesConsumed + r0.bytesDiscarded
       == TotalLength(frames) + r1.bytesDiscarded + v1.held + r0.bytesConsumed
    && r1.framesDelivered == r0.framesDelivered + |frames|
    && v1.totalDiscarded + r0.bytesDiscarded == v0.totalDiscarded + r1.bytesDiscarded
    && v1.totalMalformed + r0.malformedCandidates == v0.totalMalformed + r1.malformedCandidates
    && Issued(p, r0, r1)
  }

  /** The malformed candidates that were left behind in between. */
  function Found(v0: View, r0: SubmitResult, v1: View, r1: SubmitResult): int {
    r1.malformedCandidates + v0.counted - r0.malformedCandidates - v1.counted
  }

  /** The last issue is the one that the profile's kind of malformed candidate has. */
  predicate Issued(p: Profile, r0: SubmitResult, r1: SubmitResult) {
    && r0.malformedCandidates <= r1.malformedCandidates
    && r1.lastFramingIssue == if r1.malformedCandidates == r0.malformedCandidates
                              then r0.lastFramingIssue
                              else if p.strategy == AsciiCrlf then RecordTooLong
                              else MalformedLength
  }

  /** Progress: a byte is consumed, or pending work shrinks, or its phase or remainder does. */
  ghost predicate Closer(v0: View, consumed0: nat, v1: View, consumed1: nat) {
    || consumed1 > consumed0
    || (consumed1 == consumed0
        && (|| |v1.pending| < |v0.pending|
            || (|v1.pending| == |v0.pending|
                && (v1.phase < v0.phase || (v1.phase == v0.phase && v1.left < v0.left)))))
  }

  /** How a stretch of a rescan ends. */
  datatype ScanOutcome = Interrupted | HeaderFound | NoHeader

  /** What a turn of the loop asks the loop to do. */
  datatype Flow = Next | Exhausted | Return

  /** What one turn of the loop owes: the ledger, the budget, and progress unless it stops. */
  ghost predicate Turn(p: Profile, limit: nat, input: bytes, v0: View, r0: SubmitResult, v1: View,
                       r1: SubmitResult, frames: seq<bytes>, flow: Flow)
    requires ValidateStreamFramingLocal(p)
  {
    && Accounts(p, input, v0, r0, v1, r1, frames)
    && r1.apiStatus == Ok && r0.workUnitsUsed <= r1.workUnitsUsed <= limit
    && (flow == Next ==> Closer(v0, r0.bytesConsumed, v1, r1.bytesConsumed))
    && (flow != Next ==> Settled(p, v1))
    && (flow == Exhausted ==> !v1.internal && r1 == r0 && v1 == v0 && r1.bytesConsumed == |input|)
    && (flow == Return ==>
          || Closer(v0, r0.bytesConsumed, v1, r1.bytesConsumed)
          || (v1 == v0 && r1.bytesConsumed == r0.bytesConsumed
              && (r0.workUnitsUsed > 0 || r0.framesDelivered > 0)))
  }

  /** Either there is work that needs no input, or only more of the stream can bring a frame. */
  ghost predicate Settled(p: Profile, v: View) {
    v.internal || Decide(p, v.pending).Wait?
  }

  /** A turn that charges nothing and stops. */
  lemma TurnStops(p: Profile, limit: nat, input: bytes, v: View, r: SubmitResult)
    requires ValidateStreamFramingLocal(p)
    requires r.apiStatus == Ok && r.workUnitsUsed <= limit && r.bytesConsumed <= |input|
    requires Settled(p, v) && Sound(p, At(v))
    ensures r.workUnitsUsed > 0 || r.framesDelivered > 0 ==>
              Turn(p, limit, input, v, r, v, r.(stopReason := WorkBudgetReached), [], Return)
    ensures r.bytesConsumed == |input| && !v.internal ==>
              Turn(p, limit, input, v, r, v, r, [], Exhausted)
  {
    hide Priced;
    AccountsSelf(p, input, v, r);
    PricedSelf(p, At(v));
    AccountsStill(p, input, v, r, v, r.(stopReason := WorkBudgetReached), v.pending);
  }

  lemma AccountsSelf(p: Profile, input: bytes, v: View, r: SubmitResult)
    requires Sound(p, At(v)) && r.bytesConsumed <= |input|
    ensures Accounts(p, input, v, r, v, r, [])
  {
    hide Priced;
    assert input[r.bytesConsumed..r.bytesConsumed] == [];
    PricedSelf(p, At(v));
    assert v.pending + input[r.bytesConsumed..r.bytesConsumed] == v.pending;
    SimulatesSelf(p, v.pending);
  }

  /** The ledger of one consumed byte. */
  lemma AccountsByte(p: Profile, input: bytes, v0: View, r0: SubmitResult, v1: View,
                     r1: SubmitResult, after: bytes)
    requires ValidateStreamFramingLocal(p)
    requires r0.bytesConsumed < |input| && r1.bytesConsumed == r0.bytesConsumed + 1
    requires v1.pending == after
    requires Simulates(p, v0.pending + [input[r0.bytesConsumed]], [], Found(v0, r0, v1, r1), after)
    requires Priced(p, At(v0), [input[r0.bytesConsumed]], r1.workUnitsUsed - r0.workUnitsUsed, At(v1))
    requires v0.held + 1 + r0.bytesDiscarded == r1.bytesDiscarded + v1.held
    requires r1.framesDelivered == r0.framesDelivered
    requires v1.totalDiscarded + r0.bytesDiscarded == v0.totalDiscarded + r1.bytesDiscarded
    requires v1.totalMalformed + r0.malformedCandidates == v0.totalMalformed + r1.malformedCandidates
    requires Issued(p, r0, r1)
    ensures Accounts(p, input, v0, r0, v1, r1, [])
  {
    hide Priced;
    assert input[r0.bytesConsumed..r1.bytesConsumed] == [input[r0.bytesConsumed]];
  }

  /** The ledger of a step that consumes nothing and delivers nothing. */
  lemma AccountsStill(p: Profile, input: bytes, v0: View, r0: SubmitResult, v1: View,
                      r1: SubmitResult, after: bytes)
    requires ValidateStreamFramingLocal(p)
    requires r0.bytesConsumed == r1.bytesConsumed <= |input|
    requires v1.pending == after && Simulates(p, v0.pending, [], Found(v0, r0, v1, r1), after)
    requires Priced(p, At(v0), [], r1.workUnitsUsed - r0.workUnitsUsed, At(v1))
    requires v0.held + r0.bytesDiscarded == r1.bytesDiscarded + v1.held
    requires r1.framesDelivered == r0.framesDelivered
    requires v1.totalDiscarded + r0.bytesDiscarded == v0.totalDiscarded + r1.bytesDiscarded
    requires v1.totalMalformed + r0.malformedCandidates == v0.totalMalformed + r1.malformedCandidates
    requires Issued(p, r0, r1)
    ensures Accounts(p, input, v0, r0, v1, r1, [])
  {
    hide Priced;
    assert input[r0.bytesConsumed..r1.bytesConsumed] == [];
    assert v0.pending + [] == v0.pending;
  }

  /** The ledger of a delivery. */
  lemma AccountsFrame(p: Profile, input: bytes, v0: View, r0: SubmitResult, v1: View,
                      r1: SubmitResult, frame: bytes)
    requires ValidateStreamFramingLocal(p)
    requires r0.bytesConsumed <= |input| && r1 == r0.(framesDelivered := r0.framesDelivered + 1)
    requires v0.pending == frame && v1.pending == [] && Simulates(p, frame, [frame], 0, [])
    requires Priced(p, At(v0), [], 0, At(v1))
    requires v0.counted == v1.counted
    requires v0.held == |frame| && v1.held == 0
    requires v1.totalDiscarded == v0.totalDiscarded && v1.totalMalformed == v0.totalMalformed
    ensures Accounts(p, input, v0, r0, v1, r1, [frame])
  {
    hide Priced;
    assert input[r0.bytesConsumed..r1.bytesConsumed] == [];
    assert v0.pending + [] == v0.pending;
    assert TotalLength([frame]) == |frame| + TotalLength([frame][1..]);
  }

  /** A call has either not begun to work or is closer to done than when it began. */
  ghost predicate Worked(v0: View, v: View, r: SubmitResult, flow: Flow) {
    || (v == v0 && r == EMPTY_RESULT && flow != Return)
    || Closer(v0, 0, v, r.bytesConsumed)
  }

  /** The work that is left does not pay for the next step. */
  ghost predicate OverBudget(p: Profile, limit: nat, input: bytes, v: View, r: SubmitResult) {
    && Sound(p, At(v)) && r.bytesConsumed <= |input|
    && r.workUnitsUsed + NextPrice(p, At(v), input[r.bytesConsumed..]) > limit
  }

  /** Why a call may stop early: a frame is waiting but no more may be shown, or work runs out. */
  ghost predicate OutOfMeans(p: Profile, limit: nat, quota: nat, input: bytes, v: View,
                             r: SubmitResult)
  {
    || (v.stage == Delivering && r.framesDelivered == quota)
    || OverBudget(p, limit, input, v, r)
  }

  /** Every frame but a stopping last one was answered with Continue. */
  ghost predicate SinkObeyed(sink: FrameSink, delivered: seq<bytes>, stopped: bool) {
    && (stopped ==> delivered != [])
    && forall k: nat | k < |delivered| ::
         sink(k, delivered[k]) == if stopped && k == |delivered| - 1 then Stop else Continue
  }

  /** Everything a call has to answer for at the end of a turn. */
  ghost predicate CallSoFar(p: Profile, limit: nat, quota: nat, sink: FrameSink, input: bytes,
                            v0: View, v: View, r: SubmitResult, delivered: seq<bytes>, flow: Flow)
    requires ValidateStreamFramingLocal(p)
  {
    && Accounts(p, input, v0, EMPTY_RESULT, v, r, delivered)
    && r.apiStatus == Ok && r.workUnitsUsed <= limit && r.framesDelivered <= quota
    && Worked(v0, v, r, flow)
    && (flow == Exhausted ==> r.bytesConsumed == |input| && !v.internal)
    && (flow != Next ==> Settled(p, v))
    && (flow == Return ==> r.stopReason == WorkBudgetReached || r.stopReason == SinkStop)
    && (flow == Return && r.stopReason == WorkBudgetReached ==> OutOfMeans(p, limit, quota, input, v, r))
    && SinkObeyed(sink, delivered, flow == Return && r.stopReason == SinkStop)
  }

  /** The contract of an accepted submission, between the workspace as it was and as it is. */
  ghost predicate Submitted(p: Profile, limit: nat, quota: nat, sink: FrameSink, input: bytes,
                            v0: View, v: View, r: SubmitResult, delivered: seq<bytes>)
    requires ValidateStreamFramingLocal(p)
  {
    // the naive parser agrees with what was delivered, and every byte is accounted for
    && Accounts(p, input, v0, EMPTY_RESULT, v, r, delivered)
    // budget, quota and sink are obeyed
    && r.apiStatus == Ok && r.workUnitsUsed <= limit && r.framesDelivered <= quota
    && SinkObeyed(sink, delivered, r.stopReason == SinkStop)
    && (r.stopReason == WorkBudgetReached ==> OutOfMeans(p, limit, quota, input, v, r))
    // a call with something to do makes progress
    && (input != [] || v0.internal ==> Closer(v0, 0, v, r.bytesConsumed))
    // a call that ends for want of input consumed it all and left nothing undone
    && (r.stopReason == InputExhausted || r.stopReason == NeedMore ==>
          r.bytesConsumed == |input| && !v.internal)
    && Settled(p, v)
    && (r.stopReason == InputExhausted ==> v.pending == [])
    && (r.stopReason == NeedMore ==> v.pending != [])
  }

  /** A turn that continues `CallSoFar`. */
  ghost predicate TurnOfCall(p: Profile, limit: nat, quota: nat, sink: FrameSink, input: bytes,
                             v0: View, r0: SubmitResult, v1: View, r1: SubmitResult,
                             frames: seq<bytes>, flow: Flow)
    requires ValidateStreamFramingLocal(p)
  {
    && Turn(p, limit, input, v0, r0, v1, r1, frames, flow)
    && |frames| <= 1 && r1.framesDelivered <= quota
    && (flow == Return ==> r1.stopReason == WorkBudgetReached || r1.stopReason == SinkStop)
    && (flow == Return && r1.stopReason == WorkBudgetReached ==> OutOfMeans(p, limit, quota, input, v1, r1))
    && (if flow == Return && r1.stopReason == SinkStop
        then frames != [] && sink(r0.framesDelivered, frames[0]) == Stop
        else frames == [] || sink(r0.framesDelivered, frames[0]) == Continue)
  }

  lemma CallGoesOn(p: Profile, limit: nat, quota: nat, sink: FrameSink, input: bytes, v0: View,
                   v1: View, r1: SubmitResult, f: seq<bytes>, v2: View, r2: SubmitResult,
                   g: seq<bytes>, flow: Flow)
    requires ValidateStreamFramingLocal(p)
    requires CallSoFar(p, limit, quota, sink, input, v0, v1, r1, f, Next)
    requires TurnOfCall(p, limit, quota, sink, input, v1, r1, v2, r2, g, flow)
    ensures CallSoFar(p, limit, quota, sink, input, v0, v2, r2, f + g, flow)
  {
    hide Simulates, Priced, OutOfMeans, Settled, Closer, ValidateStreamFramingLocal;
    AccountsThen(p, input, v0, EMPTY_RESULT, v1, r1, f, v2, r2, g);
    assert r1.framesDelivered == |f|;
    WorkGoesOn(v0, v1, r1, v2, r2, flow);
  }

  lemma CallEnds(p: Profile, limit: nat, quota: nat, sink: FrameSink, input: bytes, v0: View,
                 v: View, r: SubmitResult, delivered: seq<bytes>, flow: Flow,
                 reason: SubmitStopReason)
    requires ValidateStreamFramingLocal(p) && flow != Next
    requires CallSoFar(p, limit, quota, sink, input, v0, v, r, delivered, flow)
    requires flow == Return ==> reason == r.stopReason
    requires flow == Exhausted && !v.internal ==>
               reason == if v.pending != [] then NeedMore else InputExhausted
    ensures Submitted(p, limit, quota, sink, input, v0, v, r.(stopReason := reason), delivered)
  {
    hide Simulates, Decide;
  }

  lemma WorkGoesOn(v0: View, v1: View, r1: SubmitResult, v2: View, r2: SubmitResult, flow: Flow)
    requires Worked(v0, v1, r1, Next)
    requires flow == Next ==> Closer(v1, r1.bytesConsumed, v2, r2.bytesConsumed)
    requires flow == Exhausted ==> v2 == v1 && r2 == r1
    requires flow == Return ==>
               || Closer(v1, r1.bytesConsumed, v2, r2.bytesConsumed)
               || (v2 == v1 && r2.bytesConsumed == r1.bytesConsumed && r1 != EMPTY_RESULT)
    ensures Worked(v0, v2, r2, flow)
  {
  }

  lemma AccountsThen(p: Profile, input: bytes, v0: View, r0: SubmitResult, v1: View,
                     r1: SubmitResult, f: seq<bytes>, v2: View, r2: SubmitResult, g: seq<bytes>)
    requires ValidateStreamFramingLocal(p)
    requires Accounts(p, input, v0, r0, v1, r1, f) && Accounts(p, input, v1, r1, v2, r2, g)
    ensures Accounts(p, input, v0, r0, v2, r2, f + g)
  {
    hide Priced, Simulates;
    var x := input[r0.bytesConsumed..r1.bytesConsumed];
    var y := input[r1.bytesConsumed..r2.bytesConsumed];
    SimulatesThen(p, v0.pending + x, f, Found(v0, r0, v1, r1), v1.pending, y, g,
                  Found(v1, r1, v2, r2), v2.pending);
    assert x + y == input[r0.bytesConsumed..r2.bytesConsumed];
    assert (v0.pending + x) + y == v0.pending + (x + y);
    PricedThen(p, At(v0), x, r1.workUnitsUsed - r0.workUnitsUsed, At(v1), y,
               r2.workUnitsUsed - r1.workUnitsUsed, At(v2));
    TotalLengthSum(f, g);
  }

  /** `memmove` of `n` bytes from offset `source` to offset `target` of one buffer. */
  method MoveMemory(a: array<byte>, target: nat, source: nat, n: nat)
    requires target + n <= a.Length && source + n <= a.Length
    modifies a
    ensures forall i {:trigger a[i]} | 0 <= i < a.Length ::
              a[i] == if target <= i < target + n then old(a[source + i - target]) else old(a[i])
  {
    forall i | 0 <= i < n {
      a[target + i] := a[source + i];
    }
  }

  /** The candidate of `size` bytes at offset `start`, its first `moved` bytes already at offset 0. */
  ghost function PartlyMoved(a: bytes, moved: nat, start: nat, size: nat): bytes {
    if start + size <= |a| && moved <= size then a[..moved] + a[start + moved..start + size] else []
  }

  lemma NothingMoved(a: bytes, start: nat, size: nat)
    requires start <= size <= |a|
    ensures PartlyMoved(a, 0, start, size - start) == a[..size][start..]
  {
  }

  /** A part of a part. */
  lemma SamePart(a: bytes, from: nat, to: nat, size: nat)
    requires from <= to <= size <= |a|
    ensures a[..size][from..to] == a[from..to]
  {
  }

  /** Moving the next slice damages neither what is in place nor what is still to move. */
  lemma SliceMoved(before: bytes, after: bytes, moved: nat, start: nat, size: nat, chunk: nat)
    requires start >= 1 && start + size <= |before| == |after| && moved + chunk <= size
    requires forall i {:trigger after[i]} | 0 <= i < |before| ::
               after[i] == if moved <= i < moved + chunk then before[start + i] else before[i]
    ensures PartlyMoved(after, moved + chunk, start, size) == PartlyMoved(before, moved, start, size)
  {
    hide PartlyMoved;
    PartlyMovedAt(after, moved + chunk, start, size);
    PartlyMovedAt(before, moved, start, size);
    var whole := PartlyMoved(after, moved + chunk, start, size);
    var wanted := PartlyMoved(before, moved, start, size);
    forall i | 0 <= i < size
      ensures whole[i] == wanted[i]
    {
      assert after[i] == if moved <= i < moved + chunk then before[start + i] else before[i];
      assert after[start + i] == before[start + i] || i < moved + chunk;
    }
  }

  lemma PartlyMovedAt(a: bytes, moved: nat, start: nat, size: nat)
    requires start + size <= |a| && moved <= size
    ensures |PartlyMoved(a, moved, start, size)| == size
    ensures forall i | 0 <= i < size ::
              PartlyMoved(a, moved, start, size)[i] == if i < moved then a[i] else a[start + i]
  {
    var rest := a[start + moved..start + size];
    assert forall k | 0 <= k < size - moved :: rest[k] == a[start + moved + k];
  }

  /** The candidate at the header just found, at offset `start`, stands for the whole buffer. */
  ghost predicate Relocates(p: Profile, a: bytes, buffered: nat, start: nat)
    requires ValidateStreamFramingLocal(p) && buffered <= |a|
  {
    && 1 <= start && start + |p.sync| <= buffered
    && var next := PartlyMoved(a, 0, start, buffered - start);
       |next| == buffered - start && p.sync <= next && Simulates(p, a[..buffered], [], 1, next)
  }

  lemma Relocated(p: Profile, a: bytes, buffered: nat, start: nat) returns (next: bytes)
    requires ValidateStreamFramingLocal(p) && buffered <= |a| && Relocates(p, a, buffered, start)
    ensures next == PartlyMoved(a, 0, start, buffered - start)
    ensures Simulates(p, a[..buffered], [], 1, next) && |next| < buffered && p.sync <= next
  {
    next := PartlyMoved(a, 0, start, buffered - start);
  }

  /** One buffered byte of a rescan either keeps it going or finds the next candidate. */
  lemma RescanAdvances(p: Profile, a: bytes, buffered: nat, index: nat, b: byte)
    requires ValidateStreamFramingLocal(p) && p.SearchesSync()
    requires 1 <= index < buffered <= |a| && Malformed(p, a[..buffered])
    requires Find(p.sync, a[1..index]) == None && b == a[index]
    ensures var m := Longest(p.sync, a[1..index] + [b]);
            if m < |p.sync| then Scanned(p.sync, a[1..index + 1], m)
            else m == |p.sync| <= index && Relocates(p, a, buffered, index + 1 - |p.sync|)
  {
    hide Longest, Find, ParseStream, Malformed, Relocates;
    var t := a[1..index + 1];
    assert t == a[1..index] + [b];
    ScanStep(p.sync, a[1..index], b);
    if Longest(p.sync, t) == |p.sync| {
      RescanRelocates(p, a, buffered, index + 1);
    }
  }

  lemma RescanRelocates(p: Profile, a: bytes, buffered: nat, scanned: nat)
    requires ValidateStreamFramingLocal(p) && p.SearchesSync()
    requires |p.sync| < scanned <= buffered <= |a| && Malformed(p, a[..buffered])
    requires Find(p.sync, a[1..scanned]) == Some(scanned - 1 - |p.sync|)
    ensures Relocates(p, a, buffered, scanned - |p.sync|)
  {
    hide Find, Malformed, Simulates;
    var s := a[..buffered];
    var start := scanned - |p.sync|;
    assert a[1..scanned] <= s[1..];
    RescanFinds(p, s, a[1..scanned], start - 1);
    NothingMoved(a, start, buffered);
  }

  /** Marks a workspace as busy for the duration of a submission. */
  class UseFlag {
    var taken: bool

    constructor ()
      ensures !taken
    {
      taken := false;
    }
  }

  class StreamFramingWorkspace {
    /** Which frozen plan, and which of its pipelines, the workspace is bound to. */
    const plan: nat
    const pipelineIndex: nat
    const profile: Profile
    const buffer: array<byte>
    const maxSubmitBytes: nat
    const maxFramesPerSubmit: nat
    const maxWorkUnits: nat
    var bufferedSize: nat
    var targetSize: nat
    var syncMatch: nat
    var copySyncIndex: nat
    var rescanIndex: nat
    var rescanMatch: nat
    var compactStart: nat
    var compactSize: nat
    var compactMoved: nat
    var totalDiscardedBytes: nat
    var totalMalformedCandidates: nat
    var previousWasCr: bool
    var state: State
    const inUse: UseFlag
    /** The over-long record being dropped; its bytes are gone from the buffer. */
    ghost var overlong: bytes

    constructor (planScope: nat, pipeline: nat, p: Profile, limits: Limits)
      requires Frozen(p) && WithinHardLimits(limits)
      requires limits.workUnits >= MinimumProgressBudget(p)
      ensures Valid() && fresh(buffer) && fresh(inUse) && !inUse.taken
      ensures profile == p && plan == planScope && pipelineIndex == pipeline
      ensures maxSubmitBytes == limits.submitBytes && maxWorkUnits == limits.workUnits
      ensures maxFramesPerSubmit == limits.framesPerSubmit
      ensures Pending() == [] && Held() == 0 && !HasInternalWork()
      ensures totalDiscardedBytes == 0 && totalMalformedCandidates == 0
    {
      plan := planScope;
      pipelineIndex := pipeline;
      profile := p;
      buffer := new byte[p.FrameCapacity()](_ => 0);
      maxSubmitBytes := limits.submitBytes;
      maxFramesPerSubmit := limits.framesPerSubmit;
      maxWorkUnits := limits.workUnits;
      totalDiscardedBytes := 0;
      totalMalformedCandidates := 0;
      inUse := new UseFlag();
      state := SearchSync;
      new;
      ResetCandidate();
    }

    /** What creation guarantees about the limits; nothing later changes it. */
    ghost predicate Configured() {
      && Frozen(profile)
      && buffer.Length == profile.FrameCapacity()
      && maxWorkUnits >= 4 && maxWorkUnits >= 1 + 2 * |profile.sync|
      && maxFramesPerSubmit >= 1 && maxSubmitBytes >= 1
    }

    ghost predicate Valid()
      reads this, buffer
    {
      && Configured()
      && bufferedSize <= buffer.Length
      && match state
         case CollectFixed =>
           profile.strategy == FixedLength && targetSize == profile.frameLength
         case SearchSync =>
           profile.SearchesSync() && syncMatch < |profile.sync| && bufferedSize == 0
         case CopySync =>
           && profile.SearchesSync() && bufferedSize == copySyncIndex <= |profile.sync|
           && buffer[..bufferedSize] == profile.sync[..copySyncIndex]
         case ReadLength =>
           && profile.strategy == SyncLengthField
           && |profile.sync| <= bufferedSize <= profile.HeaderEnd()
           && profile.sync <= buffer[..bufferedSize]
         case CollectDeclared =>
           && profile.SearchesSync() && bufferedSize <= targetSize <= buffer.Length
           && profile.sync <= buffer[..bufferedSize]
           && (profile.strategy == SyncFixedLength ==> targetSize == profile.frameLength)
           && (profile.strategy == SyncLengthField ==>
                 && profile.HeaderEnd() <= bufferedSize
                 && profile.minimum <= targetSize
                 && targetSize == DeclaredLength(profile, buffer[..bufferedSize]))
         case DeliverPending =>
           Decide(profile, buffer[..bufferedSize]) == Emit(bufferedSize)
         case RescanInvalid =>
           && profile.strategy == SyncLengthField && bufferedSize == profile.HeaderEnd()
           && Malformed(profile, buffer[..bufferedSize])
           && 1 <= rescanIndex <= bufferedSize
           && Scanned(profile.sync, buffer[1..rescanIndex], rescanMatch)
         case CompactInvalid =>
           && profile.strategy == SyncLengthField
           && compactStart >= 1 && compactStart + compactSize == bufferedSize
           && bufferedSize == profile.HeaderEnd()
           && compactMoved <= compactSize
           && |profile.sync| <= compactSize && profile.sync <= Compacted()
         case CollectAscii =>
           && profile.strategy == AsciiCrlf && bufferedSize < buffer.Length
           && Find(CRLF, buffer[..bufferedSize]) == None
         case DiscardUntilCrlf =>
           && profile.strategy == AsciiCrlf && bufferedSize == 0
           && |overlong| >= profile.maximum && Find(CRLF, overlong) == None
           && previousWasCr == (overlong[|overlong| - 1] == CR)
    }

    /** The bytes a half-finished compaction stands for. */
    ghost function Compacted(): bytes
      reads this, buffer
    {
      PartlyMoved(buffer[..], compactMoved, compactStart, compactSize)
    }

    ghost function Buffered(): bytes
      reads this, buffer
    {
      if bufferedSize <= buffer.Length then buffer[..bufferedSize] else []
    }

    /** The part of the stream that is consumed but neither delivered nor known to be dropped. */
    ghost function Pending(): bytes
      reads this, buffer
    {
      match state
      case SearchSync => if syncMatch <= |profile.sync| then profile.sync[..syncMatch] else []
      case CopySync => profile.sync
      case CompactInvalid => Compacted()
      case DiscardUntilCrlf => overlong
      case _ => Buffered()
    }

    /** What the workspace is at with its pending bytes. */
    ghost function StageNow(): Stage
      reads this
    {
      match state
      case CollectFixed => Plain
      case SearchSync => Searching
      case CopySync => Copying(Minus(|profile.sync|, copySyncIndex))
      case ReadLength => Reading
      case CollectDeclared => Collecting(targetSize)
      case DeliverPending => Delivering
      case RescanInvalid => Rescanning(rescanIndex)
      case CompactInvalid => Moving(Minus(compactSize, compactMoved))
      case CollectAscii => Plain
      case DiscardUntilCrlf => Plain
    }

    /** How many consumed bytes are neither delivered nor counted as discarded yet. */
    ghost function Held(): nat
      reads this
    {
      match state
      case SearchSync => syncMatch
      case CopySync => |profile.sync|
      case _ => bufferedSize
    }

    /** Whether the candidate at the front has been counted as malformed. */
    ghost function Counted(): nat
      reads this
    {
      if state == RescanInvalid || state == DiscardUntilCrlf then 1 else 0
    }

    ghost function Phase(): nat
      reads this
    {
      match state
      case CompactInvalid => 5
      case CopySync => 4
      case ReadLength => 3
      case RescanInvalid => 2
      case DeliverPending => 0
      case _ => 1
    }

    ghost function Left(): nat
      reads this
    {
      var left :=
        match state
        case CopySync => |profile.sync| - copySyncIndex
        case RescanInvalid => bufferedSize - rescanIndex
        case CompactInvalid => compactSize - compactMoved
        case _ => 0;
      if left < 0 then 0 else left
    }

    ghost function Look(): View
      reads this, buffer
    {
      View(Pending(), StageNow(), Held(), totalDiscardedBytes, totalMalformedCandidates, Counted(), Phase(),
           Left(), HasInternalWork())
    }

    predicate HasInternalWork()
      reads this
    {
      || state == CopySync || state == RescanInvalid || state == CompactInvalid
      || state == DeliverPending
      || (state == ReadLength && bufferedSize >= profile.HeaderEnd())
    }

    predicate HasHalfFrame()
      reads this
    {
      if state == CollectAscii then bufferedSize != 0
      else if state == DiscardUntilCrlf then true
      else if state == CollectFixed || state == CollectDeclared || state == ReadLength
      then bufferedSize != 0
      else state == SearchSync && syncMatch != 0
    }

    /** The call stops because what is left of its budget does not pay for the next step. */
    ghost predicate Spent(input: bytes, r: SubmitResult)
      reads this, buffer
    {
      r.stopReason == WorkBudgetReached && OverBudget(profile, maxWorkUnits, input, Look(), r)
    }

    lemma Stands()
      requires Valid()
      ensures Sound(profile, At(Look()))
    {
      hide Longest, Find, Decide, Malformed, PartlyMoved;
      if state == RescanInvalid {
        SamePart(buffer[..], 1, rescanIndex, bufferedSize);
      }
      if state == CompactInvalid {
        PartlyMovedAt(buffer[..], compactMoved, compactStart, compactSize);
      }
    }

    /** When only more input can help, nothing is owed for the bytes in hand. */
    lemma Idle()
      requires Valid() && !HasInternalWork()
      ensures Sound(profile, At(Look())) && Owed(profile, At(Look()), []) == 0
      ensures Pending() == [] && Held() == 0 ==>
                StageNow() == if profile.SearchesSync() then Searching else Plain
    {
      hide Sound, Owed, Longest, Find, Decide, Malformed, PartlyMoved, DeclaredLength;
      Stands();
      NothingOwed(profile, At(Look()));
    }

    predicate CanCharge(r: SubmitResult, amount: nat) {
      r.workUnitsUsed <= maxWorkUnits && amount <= maxWorkUnits - r.workUnitsUsed
    }

    /** One input byte into the buffer; false, the source's INTERNAL_ERROR, when it is full. */
    method Append(b: byte) returns (ok: bool)
      requires bufferedSize <= buffer.Length
      modifies this`bufferedSize, buffer
      ensures ok == (old(bufferedSize) < buffer.Length)
      ensures ok ==> bufferedSize == old(bufferedSize) + 1
                     && buffer[..bufferedSize] == old(buffer[..bufferedSize]) + [b]
      ensures !ok ==> bufferedSize == old(bufferedSize) && buffer[..] == old(buffer[..])
    {
      if bufferedSize >= buffer.Length {
        return false;
      }
      buffer[bufferedSize] := b;
      bufferedSize := bufferedSize + 1;
      return true;
    }

    method RecordDiscard(r0: SubmitResult, amount: nat) returns (r: SubmitResult)
      modifies this`totalDiscardedBytes
      ensures totalDiscardedBytes == old(totalDiscardedBytes) + amount
      ensures r == r0.(bytesDiscarded := r0.bytesDiscarded + amount)
    {
      totalDiscardedBytes := totalDiscardedBytes + amount;
      r := r0.(bytesDiscarded := r0.bytesDiscarded + amount);
    }

    method TakeAscii(input: bytes, r0: SubmitResult) returns (r: SubmitResult)
      requires Valid() && state == CollectAscii
      requires r0.apiStatus == Ok && r0.bytesConsumed < |input| && CanCharge(r0, 2)
      modifies this, buffer
      ensures Valid()
      ensures r.apiStatus == Ok && r.workUnitsUsed == r0.workUnitsUsed + 2
      ensures r.bytesConsumed == r0.bytesConsumed + 1
      ensures Accounts(profile, input, old(Look()), r0, Look(), r, [])
    {
      hide Accounts, Simulates, Priced, Sound, Find, Longest, Decide;
      ghost var v0 := Look();
      Stands();
      r := r0.(workUnitsUsed := r0.workUnitsUsed + 2);
      var b := input[r.bytesConsumed];
      ghost var before := buffer[..bufferedSize];
      SimulatesSelf(profile, before + [b]);
      var stored := Append(b);
      if !stored {
        return r.(apiStatus := InternalError);
      }
      r := r.(bytesConsumed := r.bytesConsumed + 1);
      r := JudgeRecord(r, before, b);
      Stands();
      PlainPriced(profile, At(v0), b, At(Look()));
      AccountsByte(profile, input, v0, r0, Look(), r, before + [b]);
    }

    /** With `b` the record is complete, or too long, or goes on. */
    method JudgeRecord(r0: SubmitResult, ghost before: bytes, b: byte) returns (r: SubmitResult)
      requires Configured() && state == CollectAscii && profile.strategy == AsciiCrlf
      requires 1 <= bufferedSize <= buffer.Length && buffer[..bufferedSize] == before + [b]
      requires Find(CRLF, before) == None
      modifies this
      ensures Valid() && Pending() == before + [b]
      ensures r == r0.(malformedCandidates := r0.malformedCandidates + Counted(),
                       lastFramingIssue := if Counted() == 1 then RecordTooLong
                                           else r0.lastFramingIssue,
                       bytesDiscarded := r.bytesDiscarded)
      ensures totalMalformedCandidates == old(totalMalformedCandidates) + Counted()
      ensures totalDiscardedBytes + r0.bytesDiscarded
              == old(totalDiscardedBytes) + r.bytesDiscarded
      ensures Held() + r.bytesDiscarded == old(bufferedSize) + r0.bytesDiscarded
    {
      hide Find, Longest;
      r := r0;
      ghost var after := before + [b];
      RecordByte(profile, before, b);
      var terminated := bufferedSize >= 2 && buffer[bufferedSize - 2] == CR && b == LF;
      assert bufferedSize >= 2 ==> buffer[bufferedSize - 2] == after[bufferedSize - 2];
      if terminated {
        state := DeliverPending;
      } else if bufferedSize == buffer.Length {
        r := StartDiscarding(r);
      }
    }

    /** A full buffer without CRLF: the record is too long, and is dropped up to its end. */
    method StartDiscarding(r0: SubmitResult) returns (r: SubmitResult)
      requires Configured() && profile.strategy == AsciiCrlf
      requires bufferedSize == buffer.Length && Find(CRLF, buffer[..bufferedSize]) == None
      modifies this
      ensures Valid() && state == DiscardUntilCrlf
      ensures Pending() == old(buffer[..bufferedSize])
      ensures totalMalformedCandidates == old(totalMalformedCandidates) + 1
      ensures totalDiscardedBytes == old(totalDiscardedBytes) + old(bufferedSize)
      ensures r == r0.(malformedCandidates := r0.malformedCandidates + 1,
                       lastFramingIssue := RecordTooLong,
                       bytesDiscarded := r0.bytesDiscarded + old(bufferedSize))
    {
      hide Simulates, ParseStream, Find, Longest;
      overlong := buffer[..bufferedSize];
      r := r0.(malformedCandidates := r0.malformedCandidates + 1, lastFramingIssue := RecordTooLong);
      totalMalformedCandidates := totalMalformedCandidates + 1;
      previousWasCr := buffer[bufferedSize - 1] == CR;
      r := RecordDiscard(r, bufferedSize);
      bufferedSize := 0;
      state := DiscardUntilCrlf;
    }

    method TakeDiscarding(input: bytes, r0: SubmitResult) returns (r: SubmitResult)
      requires Valid() && state == DiscardUntilCrlf
      requires r0.apiStatus == Ok && r0.bytesConsumed < |input| && CanCharge(r0, 2)
      modifies this
      ensures Valid()
      ensures r.apiStatus == Ok && r.workUnitsUsed == r0.workUnitsUsed + 2
      ensures r.bytesConsumed == r0.bytesConsumed + 1
      ensures Accounts(profile, input, old(Look()), r0, Look(), r, [])
    {
      hide Accounts, Simulates, Priced, Sound, Find, Longest, Decide;
      ghost var v0 := Look();
      Stands();
      var b := input[r0.bytesConsumed];
      r := r0.(workUnitsUsed := r0.workUnitsUsed + 2, bytesConsumed := r0.bytesConsumed + 1);
      r := RecordDiscard(r, 1);
      JudgeDiscarded(b);
      Stands();
      PlainPriced(profile, At(v0), b, At(Look()));
      AccountsByte(profile, input, v0, r0, Look(), r, Pending());
    }

    /** With `b` the over-long record ends, which forgets it, or goes on. */
    method JudgeDiscarded(b: byte)
      requires Valid() && state == DiscardUntilCrlf
      modifies this`previousWasCr, this`state, this`overlong
      ensures Valid() && Held() == 0
      ensures Simulates(profile, old(overlong) + [b], [], 1 - Counted(), Pending())
    {
      hide Simulates, Longest;
      ghost var after := overlong + [b];
      RecordByte(profile, overlong, b);
      SimulatesSelf(profile, after);
      var terminated := previousWasCr && b == LF;
      if terminated {
        SkipSimulates(profile, after);
        assert after[|after|..] == [] && Malformed(profile, after);
        previousWasCr := false;
        state := CollectAscii;
      } else {
        previousWasCr := b == CR;
        overlong := after;
      }
    }

    method TakeSync(input: bytes, r0: SubmitResult, nextMatch: nat, units: nat)
      returns (r: SubmitResult)
      requires Valid() && state == SearchSync
      requires r0.apiStatus == Ok && r0.bytesConsumed < |input| && CanCharge(r0, units)
      requires nextMatch <= syncMatch + 1 && nextMatch <= |profile.sync|
      requires SyncAdvanced(profile, profile.sync[..syncMatch] + [input[r0.bytesConsumed]], nextMatch)
      requires nextMatch == Matched(profile, profile.sync[..syncMatch] + [input[r0.bytesConsumed]])
      requires units == StepPrice(profile.sync, syncMatch, input[r0.bytesConsumed])
      modifies this
      ensures Valid()
      ensures r.apiStatus == Ok && r.workUnitsUsed == r0.workUnitsUsed + units
      ensures r.bytesConsumed == r0.bytesConsumed + 1
      ensures Accounts(profile, input, old(Look()), r0, Look(), r, [])
      ensures |Pending()| == nextMatch
    {
      hide Accounts, Simulates, Priced, Sound, Matched, StepPrice, Longest, Decide;
      ghost var v0 := Look();
      Stands();
      ghost var t := profile.sync[..syncMatch] + [input[r0.bytesConsumed]];
      var oldMatch := syncMatch;
      syncMatch := nextMatch;
      r := r0.(workUnitsUsed := r0.workUnitsUsed + units, bytesConsumed := r0.bytesConsumed + 1);
      if syncMatch == |profile.sync| {
        syncMatch := 0;
        bufferedSize := 0;
        copySyncIndex := 0;
        state := CopySync;
      } else {
        r := RecordDiscard(r, oldMatch + 1 - syncMatch);
      }
      SearchPriced(profile, At(v0), input[r0.bytesConsumed], At(Look()));
      AccountsByte(profile, input, v0, r0, Look(), r, profile.sync[..nextMatch]);
    }

    method TakeCollected(input: bytes, r0: SubmitResult) returns (r: SubmitResult)
      requires Valid() && (state == CollectFixed || state == CollectDeclared)
      requires bufferedSize != targetSize
      requires r0.apiStatus == Ok && r0.bytesConsumed < |input| && CanCharge(r0, 2)
      modifies this, buffer
      ensures Valid()
      ensures r.apiStatus == Ok && r.workUnitsUsed == r0.workUnitsUsed + 2
      ensures r.bytesConsumed == r0.bytesConsumed + 1
      ensures Accounts(profile, input, old(Look()), r0, Look(), r, [])
    {
      hide Simulates, Priced;
      ghost var v0 := Look();
      Stands();
      r := r0.(workUnitsUsed := r0.workUnitsUsed + 2);
      var b := input[r.bytesConsumed];
      ghost var after := buffer[..bufferedSize] + [b];
      SimulatesSelf(profile, after);
      if state == CollectDeclared {
        TakePriced(profile, At(v0), b);
      }
      DeclaredStable(profile, buffer[..bufferedSize], [b]);
      var stored := Append(b);
      if !stored {
        return r.(apiStatus := InternalError);
      }
      r := r.(bytesConsumed := r.bytesConsumed + 1);
      if state == CollectFixed {
        Stands();
        PlainPriced(profile, At(v0), b, At(Look()));
      }
      AccountsByte(profile, input, v0, r0, Look(), r, after);
    }

    method TakeHeader(input: bytes, r0: SubmitResult) returns (r: SubmitResult)
      requires Valid() && state == ReadLength && bufferedSize < profile.HeaderEnd()
      requires r0.apiStatus == Ok && r0.bytesConsumed < |input| && CanCharge(r0, 2)
      modifies this, buffer
      ensures Valid()
      ensures r.apiStatus == Ok && r.workUnitsUsed == r0.workUnitsUsed + 2
      ensures r.bytesConsumed == r0.bytesConsumed + 1
      ensures Accounts(profile, input, old(Look()), r0, Look(), r, [])
    {
      hide Simulates, Priced;
      ghost var v0 := Look();
      Stands();
      r := r0.(workUnitsUsed := r0.workUnitsUsed + 2);
      var b := input[r.bytesConsumed];
      ghost var after := buffer[..bufferedSize] + [b];
      SimulatesSelf(profile, after);
      TakePriced(profile, At(v0), b);
      var stored := Append(b);
      if !stored {
        return r.(apiStatus := InternalError);
      }
      r := r.(bytesConsumed := r.bytesConsumed + 1);
      AccountsByte(profile, input, v0, r0, Look(), r, after);
    }

    /** One sync byte into the buffer; the input's copy of it was consumed by the search. */
    method CopySyncByte(r0: SubmitResult) returns (r: SubmitResult)
      requires Valid() && state == CopySync && copySyncIndex < |profile.sync|
      requires r0.apiStatus == Ok && CanCharge(r0, 1)
      modifies this, buffer
      ensures Valid() && state == CopySync
      ensures copySyncIndex == old(copySyncIndex) + 1
      ensures r == r0.(workUnitsUsed := r0.workUnitsUsed + 1)
      ensures Look() == old(Look()).(left := Left(), stage := StageNow())
    {
      r := r0.(workUnitsUsed := r0.workUnitsUsed + 1);
      var stored := Append(profile.sync[copySyncIndex]);
      if !stored {
        return r.(apiStatus := InternalError);
      }
      copySyncIndex := copySyncIndex + 1;
      assert profile.sync[..copySyncIndex]
             == profile.sync[..copySyncIndex - 1] + [profile.sync[copySyncIndex - 1]];
    }

    /** The copied header starts a candidate. */
    method StartCandidate()
      requires Valid() && state == CopySync && copySyncIndex == |profile.sync|
      modifies this
      ensures Valid() && Phase() < 4 && Counted() == 0
      ensures StageNow() == if profile.strategy == SyncLengthField then Reading
                            else if profile.frameLength == |profile.sync| then Delivering
                            else Collecting(profile.frameLength)
      ensures Priced(profile, old(At(Look())), [], 0, At(Look()))
      ensures Pending() == old(Pending()) && Held() == old(Held())
      ensures totalDiscardedBytes == old(totalDiscardedBytes)
      ensures totalMalformedCandidates == old(totalMalformedCandidates)
    {
      hide Priced;
      assert buffer[..bufferedSize] == profile.sync;
      ghost var at := At(Look());
      copySyncIndex := 0;
      if profile.strategy == SyncFixedLength {
        targetSize := profile.frameLength;
        state := if bufferedSize == targetSize then DeliverPending else CollectDeclared;
      } else {
        state := ReadLength;
      }
      StartPriced(profile, at, StageNow());
    }

    lemma RescanFacts()
      requires Valid() && state == RescanInvalid
      ensures Frozen(profile) && rescanIndex <= bufferedSize && rescanMatch < |profile.sync|
      ensures maxWorkUnits >= MinimumProgressBudget(profile)
    {
      hide Find, Longest;
    }

    /** The fallback loop on the next buffered byte; nothing is stored before it is charged. */
    method RescanStep() returns (nextMatch: nat, units: nat)
      requires Valid() && state == RescanInvalid && rescanIndex < bufferedSize
      ensures 2 <= units <= 2 * |profile.sync|
      ensures units + 2 * nextMatch <= 4 + 2 * rescanMatch
      ensures units == StepPrice(profile.sync, rescanMatch, buffer[rescanIndex])
      ensures nextMatch == Longest(profile.sync, buffer[1..rescanIndex + 1])
      ensures
        if nextMatch < |profile.sync| then
          Scanned(profile.sync, buffer[1..rescanIndex + 1], nextMatch)
        else
          && nextMatch == |profile.sync| <= rescanIndex
          && Relocates(profile, buffer[..], bufferedSize, rescanIndex + 1 - |profile.sync|)
    {
      hide Simulates, ParseStream, Find, Longest, StepPrice;
      ghost var a := buffer[..];
      var b := buffer[rescanIndex];
      assert a[1..rescanIndex] + [b] == buffer[1..rescanIndex + 1];
      nextMatch, units := Kmp.Advance(profile.sync, profile.prefixTable, a[1..rescanIndex],
                                      rescanMatch, b);
      RescanAdvances(profile, a, bufferedSize, rescanIndex, b);
    }

    method KeepScanning(nextMatch: nat)
      requires Valid() && state == RescanInvalid && rescanIndex < bufferedSize
      requires Scanned(profile.sync, buffer[1..rescanIndex + 1], nextMatch)
      requires rescanMatch < |profile.sync|
      modifies this`rescanMatch, this`rescanIndex
      ensures Valid() && rescanIndex == old(rescanIndex) + 1 && rescanMatch == nextMatch
      ensures Priced(profile, old(At(Look())), [],
                     old(StepPrice(profile.sync, rescanMatch, buffer[rescanIndex])), At(Look()))
      ensures Look() == old(Look()).(left := Left(), stage := StageNow())
    {
      hide Malformed, Find, Longest, Decide, Priced, StepPrice;
      ghost var at := At(Look());
      Stands();
      ghost var held := buffer[..bufferedSize];
      assert held[1..rescanIndex] == buffer[1..rescanIndex];
      assert held[1..rescanIndex + 1] == buffer[1..rescanIndex + 1];
      RescanPriced(profile, at, rescanIndex);
      rescanMatch := nextMatch;
      rescanIndex := rescanIndex + 1;
    }

    /** The rescan found the next header: the candidate that starts there is to be moved down. */
    method StartCompaction()
      requires Valid() && state == RescanInvalid && |profile.sync| <= rescanIndex < bufferedSize
      requires Relocates(profile, buffer[..], bufferedSize, rescanIndex + 1 - |profile.sync|)
      requires Longest(profile.sync, buffer[1..rescanIndex + 1]) == |profile.sync|
      requires rescanMatch < |profile.sync|
      modifies this
      ensures Valid() && state == CompactInvalid
      ensures Held() == old(Held())
      ensures totalDiscardedBytes == old(totalDiscardedBytes)
      ensures totalMalformedCandidates == old(totalMalformedCandidates)
      ensures Simulates(profile, old(Pending()), [], 1, Pending())
      ensures |Pending()| < |old(Pending())|
      ensures Priced(profile, old(At(Look())), [],
                     old(StepPrice(profile.sync, rescanMatch, buffer[rescanIndex])), At(Look()))
    {
      hide Simulates, Priced, Sound, StepPrice, Matched, Find, Longest, Decide, Malformed, PartlyMoved;
      ghost var at, i := At(Look()), rescanIndex;
      RescanAt();
      ghost var a := buffer[..];
      ghost var next := Relocated(profile, a, bufferedSize, rescanIndex + 1 - |profile.sync|);
      MarkCompaction(rescanIndex + 1 - |profile.sync|);
      assert buffer[..] == a;
      assert Compacted() == next;
      FoundPriced(profile, at, i, compactStart, At(Look()));
    }

    /** What the rescan's position says of the workspace. */
    lemma RescanAt()
      requires Valid() && state == RescanInvalid && |profile.sync| <= rescanIndex < bufferedSize
      ensures var at, start := At(Look()), rescanIndex + 1 - |profile.sync|;
              && Sound(profile, at) && at.stage == Rescanning(rescanIndex)
              && |at.pending| == bufferedSize && at.pending[rescanIndex] == buffer[rescanIndex]
              && Matched(profile, at.pending[1..rescanIndex]) == rescanMatch
              && Matched(profile, at.pending[1..rescanIndex + 1])
                 == Longest(profile.sync, buffer[1..rescanIndex + 1])
              && PartlyMoved(buffer[..], 0, start, bufferedSize - start) == at.pending[start..]
    {
      hide Find, Longest, Decide, Malformed, PartlyMoved;
      Stands();
      var held := buffer[..bufferedSize];
      assert held[1..rescanIndex] == buffer[1..rescanIndex];
      assert held[1..rescanIndex + 1] == buffer[1..rescanIndex + 1];
      NothingMoved(buffer[..], rescanIndex + 1 - |profile.sync|, bufferedSize);
    }

    method MarkCompaction(start: nat)
      requires start <= bufferedSize
      modifies this`rescanMatch, this`rescanIndex, this`state
      modifies this`compactStart, this`compactSize, this`compactMoved
      ensures state == CompactInvalid
      ensures compactStart == start && compactSize == bufferedSize - start && compactMoved == 0
    {
      rescanMatch := |profile.sync|;
      rescanIndex := rescanIndex + 1;
      compactStart := start;
      compactSize := bufferedSize - start;
      compactMoved := 0;
      state := CompactInvalid;
    }

    /** The rescan ran to the end of the buffer: only a partial match is worth keeping. */
    method AbandonCandidate(r0: SubmitResult) returns (r: SubmitResult)
      requires Valid() && state == RescanInvalid && rescanIndex == bufferedSize
      modifies this
      ensures Valid() && state == SearchSync
      ensures r == r0.(bytesDiscarded := r0.bytesDiscarded + old(Held()) - Held())
      ensures totalDiscardedBytes == old(totalDiscardedBytes) + old(Held()) - Held()
      ensures totalMalformedCandidates == old(totalMalformedCandidates)
      ensures Simulates(profile, old(Pending()), [], 1, Pending())
      ensures |Pending()| == Held() < old(Held()) == |old(Pending())|
      ensures Priced(profile, old(At(Look())), [], 0, At(Look()))
    {
      hide Simulates, Priced, ParseStream, Find, Longest;
      ghost var at := At(Look());
      Stands();
      ghost var s := buffer[..bufferedSize];
      assert s[1..] == buffer[1..rescanIndex];
      RescanFails(profile, s, rescanMatch);
      var retained := rescanMatch;
      r := RecordDiscard(r0, bufferedSize - retained);
      bufferedSize := 0;
      syncMatch := retained;
      rescanIndex := 0;
      rescanMatch := 0;
      state := SearchSync;
      AbandonPriced(profile, at, At(Look()));
    }

    /** The memmove of one compaction slice. */
    method MoveDown(chunk: nat)
      requires compactStart >= 1 && compactStart + compactSize <= buffer.Length
      requires compactMoved + chunk <= compactSize
      modifies this`compactMoved, buffer
      ensures compactMoved == old(compactMoved) + chunk
      ensures Compacted() == old(Compacted())
    {
      hide PartlyMoved;
      ghost var before := buffer[..];
      MoveMemory(buffer, compactMoved, compactStart + compactMoved, chunk);
      SliceMoved(before, buffer[..], compactMoved, compactStart, compactSize, chunk);
      compactMoved := compactMoved + chunk;
    }

    /** One compaction call: what the budget allows is moved; true when the candidate is in place. */
    method CompactSlice(input: bytes, r0: SubmitResult) returns (r: SubmitResult, complete: bool)
      requires Valid() && state == CompactInvalid
      requires r0.apiStatus == Ok && r0.bytesConsumed <= |input| && r0.workUnitsUsed <= maxWorkUnits
      modifies this`compactMoved, buffer
      ensures Valid() && r == r0.(workUnitsUsed := r.workUnitsUsed)
      ensures r0.workUnitsUsed <= r.workUnitsUsed <= maxWorkUnits
      ensures complete == (compactMoved == compactSize)
      ensures Accounts(profile, input, old(Look()), r0, Look(), r, [])
      ensures state == CompactInvalid
      ensures Look() == old(Look()).(left := Left(), stage := StageNow())
      ensures Left() < old(Left()) || (r == r0 && Look() == old(Look()))
      ensures !complete && Left() == old(Left()) ==> r0.workUnitsUsed > 0
      ensures !complete ==> r.workUnitsUsed == maxWorkUnits
      ensures r.workUnitsUsed - r0.workUnitsUsed == compactMoved - old(compactMoved)
    {
      hide Accounts, Simulates, Priced, Sound, PartlyMoved, Decide, Find, Longest;
      ghost var v0 := Look();
      Stands();
      var remaining := compactSize - compactMoved;
      var available := maxWorkUnits - r0.workUnitsUsed;
      var chunk := if remaining < available then remaining else available;
      r := r0.(workUnitsUsed := r0.workUnitsUsed + chunk);
      MoveDown(chunk);
      complete := compactMoved == compactSize;
      SimulatesSelf(profile, v0.pending);
      MovePriced(profile, At(v0), compactSize - compactMoved);
      AccountsStill(profile, input, v0, r0, Look(), r, v0.pending);
    }

    lemma AllMoved()
      requires compactStart + compactSize <= buffer.Length && compactMoved == compactSize
      ensures Compacted() == buffer[..][..compactSize]
    {
    }

    /** The moved candidate is the buffer's content, and its header is to be read. */
    method AcceptMoved(r0: SubmitResult) returns (r: SubmitResult)
      requires Valid() && state == CompactInvalid && compactMoved == compactSize
      modifies this
      ensures Valid() && state == ReadLength
      ensures r == r0.(bytesDiscarded := r0.bytesDiscarded + old(Held()) - Held())
      ensures Pending() == old(Pending()) && Held() < old(Held())
      ensures Counted() == 0 && Phase() == 3 && StageNow() == Reading
      ensures totalDiscardedBytes == old(totalDiscardedBytes) + old(Held()) - Held()
      ensures totalMalformedCandidates == old(totalMalformedCandidates)
    {
      hide Find, Longest, Decide, PartlyMoved, Malformed, DeclaredLength, PrefixTable, Scanned;
      ghost var a := buffer[..];
      AllMoved();
      r := RecordDiscard(r0, compactStart);
      ReadAgain(compactSize);
      assert buffer[..] == a && buffer[..bufferedSize] == a[..bufferedSize];
    }

    method ReadAgain(size: nat)
      modifies this`bufferedSize, this`state, this`rescanIndex, this`rescanMatch
      modifies this`compactStart, this`compactSize, this`compactMoved
      ensures bufferedSize == size && state == ReadLength
      ensures rescanIndex == rescanMatch == compactStart == compactSize == compactMoved == 0
    {
      bufferedSize := size;
      compactStart := 0;
      compactSize := 0;
      compactMoved := 0;
      rescanIndex := 0;
      rescanMatch := 0;
      state := ReadLength;
    }

    lemma WholeIsMoved()
      requires Valid() && state == CompactInvalid && compactMoved == compactSize
      ensures ValidateStreamFramingLocal(profile) && profile.strategy == SyncLengthField
      ensures StageNow() == Stage.Moving(0) && Counted() == 0 && Phase() == 5
    {
      hide Find, Longest, Decide, PartlyMoved;
    }

    /** The moved candidate's header is read again. */
    method FinishCompaction(input: bytes, r0: SubmitResult) returns (r: SubmitResult)
      requires Valid() && state == CompactInvalid && compactMoved == compactSize
      requires r0.apiStatus == Ok && r0.bytesConsumed <= |input|
      modifies this
      ensures Valid() && state == ReadLength
      ensures r == r0.(bytesDiscarded := r.bytesDiscarded)
      ensures Accounts(profile, input, old(Look()), r0, Look(), r, [])
      ensures Closer(old(Look()), r.bytesConsumed, Look(), r.bytesConsumed)
    {
      hide Accounts, Simulates, Priced, Sound, Valid, Pending, Held, StageNow, Counted, Phase;
      ghost var v0 := Look();
      Stands();
      WholeIsMoved();
      SimulatesSelf(profile, v0.pending);
      r := AcceptMoved(r0);
      MovePriced(profile, At(v0), 0);
      AccountsStill(profile, input, v0, r0, Look(), r, v0.pending);
    }

    /** The declared total length, read byte by byte in the field's own byte order. */
    method ReadDeclared() returns (declared: nat)
      requires Valid() && state == ReadLength && bufferedSize == profile.HeaderEnd()
      ensures declared == DeclaredLength(profile, buffer[..bufferedSize])
    {
      hide BigEndian, Ordered, Find, Longest, Decide;
      var width := profile.lengthWidth;
      ghost var s := buffer[..bufferedSize];
      OrderedPrefix(profile, s, 0);
      declared := 0;
      var index := 0;
      while index < width
        invariant 0 <= index <= width
        invariant declared == BigEndian(Ordered(profile, s)[..index])
      {
        var encodedIndex := if profile.lengthOrder == Little then width - 1 - index else index;
        OrderedPrefix(profile, s, index);
        declared := 256 * declared + buffer[profile.lengthOffset + encodedIndex];
        index := index + 1;
      }
      OrderedPrefix(profile, s, width);
    }

    /** A bad length: look for the next header inside the candidate, from its second byte on. */
    method StartRescan()
      requires Configured() && profile.strategy == SyncLengthField
      requires bufferedSize == profile.HeaderEnd() && bufferedSize <= buffer.Length
      requires Malformed(profile, buffer[..bufferedSize])
      modifies this`totalMalformedCandidates, this`rescanIndex, this`rescanMatch, this`state
      ensures Valid() && state == RescanInvalid && rescanIndex == 1
      ensures totalMalformedCandidates == old(totalMalformedCandidates) + 1
    {
      totalMalformedCandidates := totalMalformedCandidates + 1;
      rescanIndex := 1;
      rescanMatch := 0;
      state := RescanInvalid;
    }

    /** A good length: collect exactly that many bytes, without looking for headers in them. */
    method StartCollecting(declared: nat)
      requires Valid() && state == ReadLength && bufferedSize == profile.HeaderEnd()
      requires declared == DeclaredLength(profile, buffer[..bufferedSize])
      requires profile.minimum <= declared <= profile.maximum
      modifies this`targetSize, this`state
      ensures Valid() && targetSize == declared
      ensures state == if bufferedSize == declared then DeliverPending else CollectDeclared
    {
      targetSize := declared;
      state := if bufferedSize == targetSize then DeliverPending else CollectDeclared;
    }

    /** What the declared length makes of the candidate; whether it is a good one. */
    method Settle(declared: nat) returns (good: bool)
      requires Valid() && state == ReadLength && bufferedSize == profile.HeaderEnd()
      requires declared == DeclaredLength(profile, buffer[..bufferedSize])
      modifies this
      ensures Valid() && good == (profile.minimum <= declared <= profile.maximum)
      ensures bufferedSize == old(bufferedSize) && Phase() < 3
      ensures good ==> targetSize == declared
      ensures state == if !good then RescanInvalid
                       else if bufferedSize == declared then DeliverPending else CollectDeclared
      ensures Pending() == old(Pending()) && Held() == old(Held())
      ensures Counted() == if good then 0 else 1
      ensures StageNow() == if !good then Stage.Rescanning(1)
                            else if bufferedSize == declared then Delivering
                            else Collecting(declared)
      ensures totalDiscardedBytes == old(totalDiscardedBytes)
      ensures totalMalformedCandidates == old(totalMalformedCandidates) + Counted()
    {
      hide Find, Longest, Ordered;
      if declared < profile.minimum || declared > profile.maximum || declared > buffer.Length {
        StartRescan();
        good := false;
      } else {
        StartCollecting(declared);
        good := true;
      }
    }

    lemma HeaderRead()
      requires Valid() && state == ReadLength && bufferedSize == profile.HeaderEnd()
      ensures Configured() && ValidateStreamFramingLocal(profile) && bufferedSize <= buffer.Length
      ensures Pending() == buffer[..bufferedSize] && Phase() == 3 && Counted() == 0
      ensures StageNow() == Reading && profile.strategy == SyncLengthField
    {
    }

    /** A complete header settles the candidate: its frame is collected, or the buffer rescanned. */
    method SettleLength(input: bytes, r0: SubmitResult) returns (r: SubmitResult)
      requires Valid() && state == ReadLength && bufferedSize == profile.HeaderEnd()
      requires r0.apiStatus == Ok && r0.bytesConsumed <= |input|
      requires CanCharge(r0, profile.lengthWidth)
      modifies this
      ensures Valid()
      ensures r.apiStatus == Ok && r.bytesConsumed == r0.bytesConsumed
      ensures r.workUnitsUsed == r0.workUnitsUsed + profile.lengthWidth
      ensures Accounts(profile, input, old(Look()), r0, Look(), r, [])
      ensures Closer(old(Look()), r.bytesConsumed, Look(), r.bytesConsumed)
      ensures var declared := old(DeclaredLength(profile, buffer[..bufferedSize]));
              if profile.minimum <= declared <= profile.maximum then
                && targetSize == declared && r == r0.(workUnitsUsed := r.workUnitsUsed)
                && state == if bufferedSize == declared then DeliverPending else CollectDeclared
              else
                state == RescanInvalid && r.malformedCandidates == r0.malformedCandidates + 1
    {
      hide Accounts, Simulates, Priced, Sound, DeclaredLength, Valid, Pending, Held, Phase, Counted,
           StageNow, Frozen;
      HeaderRead();
      ghost var v0 := Look();
      Stands();
      SimulatesSelf(profile, v0.pending);
      r := r0.(workUnitsUsed := r0.workUnitsUsed + profile.lengthWidth);
      var declared := ReadDeclared();
      var good := Settle(declared);
      if !good {
        r := r.(malformedCandidates := r.malformedCandidates + 1, lastFramingIssue := MalformedLength);
      }
      SettlePriced(profile, At(v0), StageNow());
      AccountsStill(profile, input, v0, r0, Look(), r, v0.pending);
    }

    /** The collected candidate has its full length. */
    method CompleteCollected(input: bytes, r: SubmitResult)
      requires Valid() && (state == CollectFixed || state == CollectDeclared)
      requires bufferedSize == targetSize && r.bytesConsumed <= |input|
      modifies this`state
      ensures Valid() && state == DeliverPending
      ensures Accounts(profile, input, old(Look()), r, Look(), r, [])
      ensures Closer(old(Look()), r.bytesConsumed, Look(), r.bytesConsumed)
    {
      hide Accounts, Simulates, Priced, Sound, Longest;
      ghost var v0 := Look();
      Stands();
      SimulatesSelf(profile, v0.pending);
      if state == CollectFixed {
        PlainStill(profile, At(v0), At(v0).(stage := Delivering));
      } else {
        CollectedPriced(profile, At(v0));
      }
      state := DeliverPending;
      AccountsStill(profile, input, v0, r, Look(), r, v0.pending);
    }

    method ClearProgress()
      modifies this
      ensures bufferedSize == 0 && targetSize == 0 && syncMatch == 0 && copySyncIndex == 0
      ensures overlong == []
      ensures totalDiscardedBytes == old(totalDiscardedBytes)
      ensures totalMalformedCandidates == old(totalMalformedCandidates)
    {
      bufferedSize := 0;
      targetSize := 0;
      syncMatch := 0;
      copySyncIndex := 0;
      rescanIndex := 0;
      rescanMatch := 0;
      compactStart := 0;
      compactSize := 0;
      compactMoved := 0;
      previousWasCr := false;
      overlong := [];
    }

    /** Forgets the candidate and all recovery progress; the lifetime totals stay. */
    method ResetCandidate()
      requires Configured()
      modifies this
      ensures Valid() && Pending() == [] && Held() == 0
      ensures Phase() == 1 && Counted() == 0
      ensures StageNow() == if profile.SearchesSync() then Searching else Plain
      ensures totalDiscardedBytes == old(totalDiscardedBytes)
      ensures totalMalformedCandidates == old(totalMalformedCandidates)
      ensures !HasInternalWork() && !HasHalfFrame()
    {
      ClearProgress();
      state :=
        if profile.strategy == AsciiCrlf then CollectAscii
        else if profile.strategy == FixedLength then CollectFixed
        else SearchSync;
      if state == CollectFixed {
        targetSize := profile.frameLength;
      }
    }

    method TurnCollectAscii(input: bytes, r0: SubmitResult) returns (r: SubmitResult, flow: Flow)
      requires Valid() && state == CollectAscii
      requires r0.apiStatus == Ok && r0.bytesConsumed <= |input| && r0.workUnitsUsed <= maxWorkUnits
      modifies this, buffer
      ensures Valid()
      ensures Turn(profile, maxWorkUnits, input, old(Look()), r0, Look(), r, [], flow)
      ensures flow == Return ==> Spent(input, r)
    {
      hide Accounts, Priced, Sound, Find, Longest;
      Stands();
      RecordByte(profile, Pending(), 0);
      TurnStops(profile, maxWorkUnits, input, Look(), r0);
      if r0.bytesConsumed == |input| {
        return r0, Exhausted;
      }
      if !CanCharge(r0, 2) {
        return r0.(stopReason := WorkBudgetReached), Return;
      }
      r := TakeAscii(input, r0);
      flow := Next;
    }

    method TurnDiscard(input: bytes, r0: SubmitResult) returns (r: SubmitResult, flow: Flow)
      requires Valid() && state == DiscardUntilCrlf
      requires r0.apiStatus == Ok && r0.bytesConsumed <= |input| && r0.workUnitsUsed <= maxWorkUnits
      modifies this, buffer
      ensures Valid()
      ensures Turn(profile, maxWorkUnits, input, old(Look()), r0, Look(), r, [], flow)
      ensures flow == Return ==> Spent(input, r)
    {
      hide Accounts, Priced, Sound, Find, Longest;
      Stands();
      RecordByte(profile, Pending(), 0);
      TurnStops(profile, maxWorkUnits, input, Look(), r0);
      if r0.bytesConsumed == |input| {
        return r0, Exhausted;
      }
      if !CanCharge(r0, 2) {
        return r0.(stopReason := WorkBudgetReached), Return;
      }
      r := TakeDiscarding(input, r0);
      flow := Next;
    }

    method TurnCollect(input: bytes, r0: SubmitResult) returns (r: SubmitResult, flow: Flow)
      requires Valid() && (state == CollectFixed || state == CollectDeclared)
      requires r0.apiStatus == Ok && r0.bytesConsumed <= |input| && r0.workUnitsUsed <= maxWorkUnits
      modifies this, buffer
      ensures Valid()
      ensures Turn(profile, maxWorkUnits, input, old(Look()), r0, Look(), r, [], flow)
      ensures flow == Return ==> Spent(input, r)
    {
      hide Accounts, Priced, Sound, Find, Longest;
      if bufferedSize == targetSize {
        CompleteCollected(input, r0);
        return r0, Next;
      }
      Stands();
      TurnStops(profile, maxWorkUnits, input, Look(), r0);
      if r0.bytesConsumed == |input| {
        return r0, Exhausted;
      }
      if !CanCharge(r0, 2) {
        return r0.(stopReason := WorkBudgetReached), Return;
      }
      r := TakeCollected(input, r0);
      flow := Next;
    }

    method TurnReadLength(input: bytes, r0: SubmitResult) returns (r: SubmitResult, flow: Flow)
      requires Valid() && state == ReadLength
      requires r0.apiStatus == Ok && r0.bytesConsumed <= |input| && r0.workUnitsUsed <= maxWorkUnits
      modifies this, buffer
      ensures Valid()
      ensures Turn(profile, maxWorkUnits, input, old(Look()), r0, Look(), r, [], flow)
      ensures flow == Return ==> Spent(input, r)
    {
      hide Accounts, Priced, Sound, Find, Longest;
      Stands();
      TurnStops(profile, maxWorkUnits, input, Look(), r0);
      if bufferedSize < profile.HeaderEnd() {
        if r0.bytesConsumed == |input| {
          return r0, Exhausted;
        }
        if !CanCharge(r0, 2) {
          return r0.(stopReason := WorkBudgetReached), Return;
        }
        r := TakeHeader(input, r0);
        return r, Next;
      }
      if !CanCharge(r0, profile.lengthWidth) {
        return r0.(stopReason := WorkBudgetReached), Return;
      }
      r := SettleLength(input, r0);
      flow := Next;
    }

    /**
     * A byte of the search. Set off against the partial match in hand, at two units a byte, the
     * charges of any stretch of the search sum to at most four units a byte.
     */
    method TurnSearchSync(input: bytes, r0: SubmitResult) returns (r: SubmitResult, flow: Flow)
      requires Valid() && state == SearchSync
      requires r0.apiStatus == Ok && r0.bytesConsumed <= |input| && r0.workUnitsUsed <= maxWorkUnits
      modifies this, buffer
      ensures Valid()
      ensures Turn(profile, maxWorkUnits, input, old(Look()), r0, Look(), r, [], flow)
      ensures flow == Return ==> Spent(input, r)
      ensures r.workUnitsUsed + 2 * |Pending()|
              <= r0.workUnitsUsed + 2 * |old(Pending())| + 4 * (r.bytesConsumed - r0.bytesConsumed)
    {
      hide Accounts, Priced, Sound, Find, Longest;
      Stands();
      TurnStops(profile, maxWorkUnits, input, Look(), r0);
      if r0.bytesConsumed == |input| {
        return r0, Exhausted;
      }
      var nextMatch, units := SearchStep(input[r0.bytesConsumed]);
      if !CanCharge(r0, units) {
        return r0.(stopReason := WorkBudgetReached), Return;
      }
      r := TakeSync(input, r0, nextMatch, units);
      flow := Next;
    }

    /** The fallback loop on the next input byte; nothing is stored before it is charged. */
    method SearchStep(b: byte) returns (nextMatch: nat, units: nat)
      requires Valid() && state == SearchSync
      ensures 2 <= units <= 2 * |profile.sync|
      ensures units + 2 * nextMatch <= 4 + 2 * syncMatch
      ensures units == StepPrice(profile.sync, syncMatch, b)
      ensures nextMatch == Matched(profile, profile.sync[..syncMatch] + [b])
      ensures nextMatch <= syncMatch + 1 && nextMatch <= |profile.sync|
      ensures SyncAdvanced(profile, profile.sync[..syncMatch] + [b], nextMatch)
    {
      PrefixOverlap(profile.sync, syncMatch);
      nextMatch, units :=
        Kmp.Advance(profile.sync, profile.prefixTable, profile.sync[..syncMatch], syncMatch, b);
      SyncAdvances(profile, syncMatch, b);
    }

    method TurnCompact(input: bytes, r0: SubmitResult) returns (r: SubmitResult, flow: Flow)
      requires Valid() && state == CompactInvalid
      requires r0.apiStatus == Ok && r0.bytesConsumed <= |input| && r0.workUnitsUsed <= maxWorkUnits
      modifies this, buffer
      ensures Valid()
      ensures Turn(profile, maxWorkUnits, input, old(Look()), r0, Look(), r, [], flow)
      ensures flow == Return ==> Spent(input, r)
    {
      hide Simulates, Priced, Sound, Decide, Valid, Pending, Held, Left;
      HalfFrameIsPending();
      ghost var v0 := Look();
      var complete;
      r, complete := CompactSlice(input, r0);
      if !complete {
        r := r.(stopReason := WorkBudgetReached);
        Stands();
        return r, Return;
      }
      ghost var v1, r1 := Look(), r;
      r := FinishCompaction(input, r);
      AccountsThen(profile, input, v0, r0, v1, r1, [], Look(), r, []);
      flow := Next;
    }

    lemma CopyingSync()
      requires Valid() && state == CopySync
      ensures Frozen(profile) && copySyncIndex <= |profile.sync| && maxWorkUnits >= 4
    {
      hide Frozen;
    }

    method TurnCopySync(input: bytes, r0: SubmitResult) returns (r: SubmitResult, flow: Flow)
      requires Valid() && state == CopySync
      requires r0.apiStatus == Ok && r0.bytesConsumed <= |input| && r0.workUnitsUsed <= maxWorkUnits
      modifies this, buffer
      ensures Valid()
      ensures Turn(profile, maxWorkUnits, input, old(Look()), r0, Look(), r, [], flow)
      ensures flow == Return ==> Spent(input, r)
    {
      hide Accounts, Simulates, Priced, Sound, Valid, Pending, Held;
      CopyingSync();
      ghost var v0 := Look();
      Stands();
      r := r0;
      SimulatesSelf(profile, v0.pending);
      while copySyncIndex < |profile.sync|
        invariant Valid() && state == CopySync && copySyncIndex <= |profile.sync|
        invariant r == r0.(workUnitsUsed := r.workUnitsUsed)
        invariant r0.workUnitsUsed <= r.workUnitsUsed <= maxWorkUnits
        invariant Look() == v0.(left := Left(), stage := StageNow()) && Left() <= v0.left
        invariant r.workUnitsUsed - r0.workUnitsUsed == v0.left - Left()
        decreases |profile.sync| - copySyncIndex
      {
        if !CanCharge(r, 1) {
          r := r.(stopReason := WorkBudgetReached);
          CopyPriced(profile, At(v0), Left());
          AccountsStill(profile, input, v0, r0, Look(), r, v0.pending);
          Stands();
          return r, Return;
        }
        r := CopySyncByte(r);
      }
      CopyPriced(profile, At(v0), 0);
      ghost var at := At(Look());
      StartCandidate();
      PricedStill(profile, At(v0), r.workUnitsUsed - r0.workUnitsUsed, at, 0, At(Look()));
      AccountsStill(profile, input, v0, r0, Look(), r, v0.pending);
      flow := Next;
    }

    /**
     * The rest of the buffer, as far as the budget goes, up to the next header. The whole stretch
     * costs at most four units a byte, once the partial match in hand is set off at two units a byte.
     */
    method ScanBuffer(r0: SubmitResult)
      returns (r: SubmitResult, outcome: ScanOutcome, ghost found: nat)
      requires Valid() && state == RescanInvalid && r0.workUnitsUsed <= maxWorkUnits
      modifies this`rescanMatch, this`rescanIndex
      ensures Valid()
      ensures r == r0.(workUnitsUsed := r.workUnitsUsed)
      ensures r0.workUnitsUsed <= r.workUnitsUsed <= maxWorkUnits
      ensures Look() == old(Look()).(left := Left(), stage := StageNow()) && Left() <= old(Left())
      ensures Priced(profile, old(At(Look())), [], r.workUnitsUsed - r0.workUnitsUsed - found,
                     At(Look()))
      ensures outcome == Interrupted ==>
                && rescanIndex < bufferedSize && found == 0
                && !CanCharge(r, StepPrice(profile.sync, rescanMatch, buffer[rescanIndex]))
                && !CanCharge(r, MinimumProgressBudget(profile))
                && (if r == r0 then Look() == old(Look()) else Left() < old(Left()))
      ensures outcome == HeaderFound ==>
                && |profile.sync| <= rescanIndex < bufferedSize
                && found == StepPrice(profile.sync, rescanMatch, buffer[rescanIndex])
                && Longest(profile.sync, buffer[1..rescanIndex + 1]) == |profile.sync|
                && Relocates(profile, buffer[..], bufferedSize, rescanIndex + 1 - |profile.sync|)
      ensures outcome == NoHeader ==> rescanIndex == bufferedSize && found == 0
      ensures r.workUnitsUsed + 2 * (if outcome == HeaderFound then |profile.sync| else rescanMatch)
              <= r0.workUnitsUsed + 2 * old(rescanMatch)
                 + 4 * (rescanIndex - old(rescanIndex) + if outcome == HeaderFound then 1 else 0)
    {
      hide Valid, Pending, Held, PartlyMoved, Relocates, Longest, Priced, Sound, StepPrice;
      RescanFacts();
      r, found := r0, 0;
      ghost var at := At(Look());
      Stands();
      PricedSelf(profile, at);
      while rescanIndex < bufferedSize
        invariant Valid() && rescanIndex <= bufferedSize
        invariant r == r0.(workUnitsUsed := r.workUnitsUsed)
        invariant r0.workUnitsUsed <= r.workUnitsUsed <= maxWorkUnits
        invariant Look() == old(Look()).(left := Left(), stage := StageNow()) && Left() <= old(Left())
        invariant Priced(profile, at, [], r.workUnitsUsed - r0.workUnitsUsed, At(Look()))
        invariant if r == r0 then Look() == old(Look()) else Left() < old(Left())
        invariant r.workUnitsUsed + 2 * rescanMatch
                  <= r0.workUnitsUsed + 2 * old(rescanMatch) + 4 * (rescanIndex - old(rescanIndex))
        decreases bufferedSize - rescanIndex
      {
        var nextMatch, units := RescanStep();
        RescanFacts();
        if !CanCharge(r, units) {
          return r, Interrupted, 0;
        }
        r := r.(workUnitsUsed := r.workUnitsUsed + units);
        if nextMatch == |profile.sync| {
          return r, HeaderFound, units;
        }
        ghost var v := Look();
        KeepScanning(nextMatch);
        PricedStill(profile, at, r.workUnitsUsed - units - r0.workUnitsUsed, At(v), units,
                    At(Look()));
      }
      outcome := NoHeader;
    }

    method TurnRescan(input: bytes, r0: SubmitResult) returns (r: SubmitResult, flow: Flow)
      requires Valid() && state == RescanInvalid
      requires r0.apiStatus == Ok && r0.bytesConsumed <= |input| && r0.workUnitsUsed <= maxWorkUnits
      modifies this, buffer
      ensures Valid()
      ensures Turn(profile, maxWorkUnits, input, old(Look()), r0, Look(), r, [], flow)
      ensures flow == Return ==> Spent(input, r)
    {
      hide Simulates, Priced, Sound, NextPrice, Decide, Valid, Pending, Held, Relocates, Longest,
           StepPrice;
      RescanFacts();
      ghost var v0 := Look();
      SimulatesSelf(profile, v0.pending);
      var outcome;
      ghost var found;
      r, outcome, found := ScanBuffer(r0);
      ghost var at := At(Look());
      ghost var paid := r.workUnitsUsed - r0.workUnitsUsed - found;
      match outcome {
        case Interrupted =>
          r := r.(stopReason := WorkBudgetReached);
          ScanStops(input, r);
          flow := Return;
        case HeaderFound =>
          RescanFacts();
          StartCompaction();
          PricedStill(profile, At(v0), paid, at, found, At(Look()));
          flow := Next;
        case NoHeader =>
          r := AbandonCandidate(r);
          PricedStill(profile, At(v0), paid, at, 0, At(Look()));
          flow := Next;
      }
      AccountsStill(profile, input, v0, r0, Look(), r, Pending());
    }

    /** The rescan stops exactly when what is left does not pay for the next buffered byte. */
    lemma ScanStops(input: bytes, r: SubmitResult)
      requires Valid() && state == RescanInvalid && rescanIndex < bufferedSize
      requires r.stopReason == WorkBudgetReached && r.bytesConsumed <= |input|
      requires r.workUnitsUsed <= maxWorkUnits
      requires !CanCharge(r, StepPrice(profile.sync, rescanMatch, buffer[rescanIndex]))
      ensures Spent(input, r)
    {
      hide StepPrice, Longest, Find, Decide, Malformed;
      Stands();
      assert buffer[..bufferedSize][1..rescanIndex] == buffer[1..rescanIndex];
    }

    /** Shows the pending frame to the sink; the candidate is gone whatever the sink answers. */
    method Deliver(input: bytes, r0: SubmitResult, sink: FrameSink)
      returns (r: SubmitResult, frame: bytes, action: FrameSinkAction)
      requires Valid() && state == DeliverPending
      requires r0.apiStatus == Ok && r0.bytesConsumed <= |input|
      modifies this
      ensures Valid()
      ensures r == r0.(framesDelivered := r0.framesDelivered + 1)
      ensures frame == old(Pending()) && action == sink(r0.framesDelivered, frame)
      ensures Accounts(profile, input, old(Look()), r0, Look(), r, [frame])
      ensures Closer(old(Look()), r0.bytesConsumed, Look(), r.bytesConsumed)
      ensures Settled(profile, Look())
    {
      hide Priced, Longest;
      ghost var v0 := Look();
      Stands();
      frame := buffer[..bufferedSize];
      DecisionSize(profile, frame);
      EmitSimulates(profile, frame);
      action := sink(r0.framesDelivered, frame);
      r := r0.(framesDelivered := r0.framesDelivered + 1);
      ResetCandidate();
      DecisionSize(profile, []);
      Stands();
      DeliveredPriced(profile, At(v0), At(Look()));
      AccountsFrame(profile, input, v0, r0, Look(), r, frame);
    }

    /** One turn of the loop in any state that does not deliver. */
    method TurnState(input: bytes, r0: SubmitResult) returns (r: SubmitResult, flow: Flow)
      requires Valid() && state != DeliverPending
      requires r0.apiStatus == Ok && r0.bytesConsumed <= |input| && r0.workUnitsUsed <= maxWorkUnits
      modifies this, buffer
      ensures Valid()
      ensures Turn(profile, maxWorkUnits, input, old(Look()), r0, Look(), r, [], flow)
      ensures flow == Return ==> Spent(input, r)
    {
      if state == CollectAscii {
        r, flow := TurnCollectAscii(input, r0);
      } else if state == DiscardUntilCrlf {
        r, flow := TurnDiscard(input, r0);
      } else if state == CopySync {
        r, flow := TurnCopySync(input, r0);
      } else if state == RescanInvalid {
        r, flow := TurnRescan(input, r0);
      } else if state == CompactInvalid {
        r, flow := TurnCompact(input, r0);
      } else if state == ReadLength {
        r, flow := TurnReadLength(input, r0);
      } else if state == SearchSync {
        r, flow := TurnSearchSync(input, r0);
      } else {
        r, flow := TurnCollect(input, r0);
      }
    }

    /** One turn of the loop: at most one delivery. */
    method TurnAny(input: bytes, r0: SubmitResult, sink: FrameSink)
      returns (r: SubmitResult, frames: seq<bytes>, flow: Flow)
      requires Valid()
      requires r0.apiStatus == Ok && r0.bytesConsumed <= |input| && r0.workUnitsUsed <= maxWorkUnits
      requires r0.framesDelivered <= maxFramesPerSubmit
      modifies this, buffer
      ensures Valid()
      ensures TurnOfCall(profile, maxWorkUnits, maxFramesPerSubmit, sink, input,
                         old(Look()), r0, Look(), r, frames, flow)
    {
      hide Simulates, Priced, Sound, NextPrice, Decide, Valid, Pending, Held;
      HalfFrameIsPending();
      Stands();
      if state == DeliverPending {
        if r0.framesDelivered >= maxFramesPerSubmit {
          TurnStops(profile, maxWorkUnits, input, Look(), r0);
          return r0.(stopReason := WorkBudgetReached), [], Return;
        }
        ghost var v0 := Look();
        var frame, action;
        r, frame, action := Deliver(input, r0, sink);
        frames := [frame];
        flow := if action == Stop then Return else Next;
        if action == Stop {
          r := r.(stopReason := SinkStop);
        }
      } else {
        r, flow := TurnState(input, r0);
        frames := [];
      }
    }

    /** The loop of a call that passed its entry checks. */
    method Loop(input: bytes, sink: FrameSink)
      returns (r: SubmitResult, delivered: seq<bytes>, flow: Flow)
      requires Valid()
      modifies this, buffer
      ensures Valid() && flow != Next
      ensures CallSoFar(profile, maxWorkUnits, maxFramesPerSubmit, sink, input,
                        old(Look()), Look(), r, delivered, flow)
    {
      hide Priced, Sound, NextPrice;
      ghost var v0 := Look();
      Stands();
      flow := Next;
      r := EMPTY_RESULT;
      delivered := [];
      AccountsSelf(profile, input, v0, r);
      while flow == Next
        invariant Valid()
        invariant CallSoFar(profile, maxWorkUnits, maxFramesPerSubmit, sink, input,
                            v0, Look(), r, delivered, flow)
        decreases flow == Next, |input| - r.bytesConsumed, |Pending()|, Phase(), Left()
      {
        ghost var v1, r1, f1 := Look(), r, delivered;
        var frames;
        r, frames, flow := TurnAny(input, r, sink);
        delivered := delivered + frames;
        CallGoesOn(profile, maxWorkUnits, maxFramesPerSubmit, sink, input, v0, v1, r1, f1,
                   Look(), r, frames, flow);
      }
    }

    /** A submission that passed its entry checks. */
    method Submit(input: bytes, sink: FrameSink) returns (r: SubmitResult, delivered: seq<bytes>)
      requires Valid()
      modifies this, buffer
      ensures Valid()
      ensures Submitted(profile, maxWorkUnits, maxFramesPerSubmit, sink, input,
                        old(Look()), Look(), r, delivered)
    {
      hide Accounts, CallSoFar, Settled, Valid;
      ghost var v0 := Look();
      var flow;
      r, delivered, flow := Loop(input, sink);
      ghost var r1 := r;
      HalfFrameIsPending();
      if flow == Exhausted {
        r := r.(stopReason :=
          if HasInternalWork() then WorkBudgetReached
          else if HasHalfFrame() then NeedMore
          else InputExhausted);
      }
      CallEnds(profile, maxWorkUnits, maxFramesPerSubmit, sink, input, v0, Look(), r1, delivered,
               flow, r.stopReason);
    }

    lemma HalfFrameIsPending()
      requires Valid()
      ensures Configured()
      ensures !HasInternalWork() ==> (HasHalfFrame() <==> Pending() != [])
    {
      hide Decide, Find, Longest;
    }

    /**
     * One submission. Only a prefix of the input may be consumed; the host submits the rest again.
     * The frames shown to the sink are returned in order. Refused calls change nothing, and
     * INTERNAL_ERROR does not happen.
     */
    method PushStreamChunk(planScope: nat, pipeline: nat, input: bytes, sink: FrameSink)
      returns (r: SubmitResult, delivered: seq<bytes>)
      requires Valid()
      modifies this, buffer, inUse
      ensures Valid() && inUse.taken == old(inUse.taken)
      ensures r.apiStatus ==
                if plan != planScope || pipelineIndex != pipeline then WorkspacePlanMismatch
                else if old(inUse.taken) then WorkspaceBusy
                else if |input| > maxSubmitBytes then LimitExceeded
                else Ok
      ensures r.apiStatus != Ok ==>
                delivered == [] && r == EMPTY_RESULT.(apiStatus := r.apiStatus)
                && Look() == old(Look())
      ensures r.apiStatus == Ok ==>
                Submitted(profile, maxWorkUnits, maxFramesPerSubmit, sink, input,
                          old(Look()), Look(), r, delivered)
    {
      r := EMPTY_RESULT;
      delivered := [];
      if plan != planScope || pipelineIndex != pipeline {
        r := r.(apiStatus := WorkspacePlanMismatch);
      } else if inUse.taken {
        r := r.(apiStatus := WorkspaceBusy);
      } else if |input| > maxSubmitBytes {
        r := r.(apiStatus := LimitExceeded);
      } else {
        r, delivered := SubmitGuarded(input, sink);
      }
    }

    /** Holds the use flag for the duration of the submission. */
    method SubmitGuarded(input: bytes, sink: FrameSink)
      returns (r: SubmitResult, delivered: seq<bytes>)
      requires Valid() && !inUse.taken
      modifies this, buffer, inUse
      ensures Valid() && !inUse.taken
      ensures Submitted(profile, maxWorkUnits, maxFramesPerSubmit, sink, input,
                        old(Look()), Look(), r, delivered)
    {
      inUse.taken := true;
      Undisturbed();
      r, delivered := Submit(input, sink);
      label done:
      inUse.taken := false;
      Undisturbed@done();
    }

    /** The use flag is not part of the framing state. */
    twostate lemma Undisturbed()
      requires unchanged(this) && unchanged(buffer) && old(Valid())
      ensures Valid() && Look() == old(Look())
    {
      assert buffer[..] == old(buffer[..]);
    }

    /** A half frame is dropped, not delivered; the lifetime totals stay. */
    method Reset(planScope: nat, pipeline: nat) returns (status: SubmitApiStatus)
      requires Valid()
      modifies this
      ensures Valid()
      ensures status ==
                if plan != planScope || pipelineIndex != pipeline then WorkspacePlanMismatch
                else if old(inUse.taken) then WorkspaceBusy
                else Ok
      ensures status != Ok ==> Look() == old(Look())
      ensures status == Ok ==>
                Pending() == [] && Held() == 0 && !HasInternalWork() && !HasHalfFrame()
                && totalDiscardedBytes == old(totalDiscardedBytes)
                && totalMalformedCandidates == old(totalMalformedCandidates)
    {
      if plan != planScope || pipelineIndex != pipeline {
        status := WorkspacePlanMismatch;
      } else if inUse.taken {
        status := WorkspaceBusy;
      } else {
        ResetCandidate();
        status := Ok;
      }
    }
  }

  /** Whether a workspace for a profile can be created under the requested limits. */
  function CreationStatus(p: Profile, overhead: nat, default: Limits, requested: Limits)
    : SubmitApiStatus
  {
    var limits := Select(requested, default);
    if !WithinHardLimits(limits) || p.FrameCapacity() > MAX_FRAME_BYTES
       || |p.sync| > limits.syncBytes then InvalidPlan
    else if overhead + p.FrameCapacity() > limits.sessionBytes
            || limits.workUnits < MinimumProgressBudget(p) then LimitExceeded
    else Ok
  }

  /**
   * Creation of a workspace, refused unless the limits can hold the profile's frames and the
   * budget can always pay for at least one step. `overhead` is the size of the object itself.
   */
  method CreateStreamFramingWorkspace(planScope: nat, pipeline: nat, p: Profile, overhead: nat,
                                      default: Limits, requested: Limits)
    returns (status: SubmitApiStatus, workspace: StreamFramingWorkspace?)
    requires Frozen(p)
    ensures status == CreationStatus(p, overhead, default, requested)
    // without the words of this module: what may be asked for, and what must fit
    ensures var submit := if requested.submitBytes != 0 then requested.submitBytes
                          else default.submitBytes;
            var frames := if requested.framesPerSubmit != 0 then requested.framesPerSubmit
                          else default.framesPerSubmit;
            var work := if requested.workUnits != 0 then requested.workUnits else default.workUnits;
            var sync := if requested.syncBytes != 0 then requested.syncBytes else default.syncBytes;
            var memory := if requested.sessionBytes != 0 then requested.sessionBytes
                          else default.sessionBytes;
            var capacity := if p.strategy == SyncLengthField || p.strategy == AsciiCrlf
                            then p.maximum else p.frameLength;
            && (status == InvalidPlan <==>
                  !(&& 1 <= submit <= 4 * 1024 * 1024 && 1 <= frames <= 4096
                    && 1 <= work <= 16 * 1024 * 1024 && 1 <= sync <= 64
                    && 1 <= memory <= 2 * 1024 * 1024
                    && capacity <= 1024 * 1024 && |p.sync| <= sync))
            && (status == Ok ==>
                  overhead + capacity <= memory && 4 <= work && 1 + 2 * |p.sync| <= work)
            && (status == LimitExceeded ==>
                  overhead + capacity > memory || work < 4 || work < 1 + 2 * |p.sync|)
            && status in {Ok, InvalidPlan, LimitExceeded}
            && (workspace != null ==>
                  && workspace.maxSubmitBytes == submit && workspace.maxFramesPerSubmit == frames
                  && workspace.maxWorkUnits == work && workspace.buffer.Length == capacity)
    ensures (status == Ok) == (workspace != null)
    ensures workspace != null ==>
              && fresh(workspace) && fresh(workspace.buffer) && fresh(workspace.inUse)
              && workspace.Valid() && !workspace.inUse.taken
              && workspace.profile == p && workspace.plan == planScope
              && workspace.pipelineIndex == pipeline
              && workspace.Pending() == [] && workspace.Held() == 0
              && !workspace.HasInternalWork()
  {
    workspace := null;
    var limits := Select(requested, default);
    if !WithinHardLimits(limits) || p.FrameCapacity() == 0 || p.FrameCapacity() > MAX_FRAME_BYTES
       || |p.sync| > limits.syncBytes || |p.prefixTable| != |p.sync| {
      return InvalidPlan, null;
    }
    if overhead + p.FrameCapacity() > limits.sessionBytes
       || limits.workUnits < MinimumProgressBudget(p) {
      return LimitExceeded, null;
    }
    workspace := new StreamFramingWorkspace(planScope, pipeline, p, limits);
    status := Ok;
  }
}
