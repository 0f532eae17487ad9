/**
 * The host's session over one plan: named channels, each with its own framer, fault mark and
 * generation, and operations that drive framer and codec and call the host back.
 */
module Session {
  import opened Bytes
  import opened FramingSpec
  import Framing = StreamFramer

  const MAX_GENERATION: nat := 0xFFFF_FFFF_FFFF_FFFF
  const MAX_CHANNELS: nat := 64

  datatype Action = Decode | Encode

  datatype Status =
    | Ok
    | InvalidArgument
    | InvalidBinding
    | Unsupported
    | LimitExceeded
    | Busy
    | WrongInputKind
    | CodecFailed
    | FramingFailed
    | CallbackFailed
    | ResetRequired

  datatype CodecStatus = CodecOk | CodecError(code: nat)

  /** How a host callback ends. */
  datatype Reaction = Continue | Stop | Throw

  /** The host's callbacks in one operation, by candidate: an optional observer, and the sink. */
  datatype Callbacks = Callbacks(
    observe: Option<(nat, bytes) -> Reaction>,
    deliver: (nat, bytes) -> Reaction)

  datatype Result = Result(
    status: Status,
    generation: nat,
    codecAttempted: bool,
    codecStatus: CodecStatus,
    successfulOutputs: nat,
    decodeSuccesses: nat,
    observedCandidates: nat,
    decodeFailures: nat,
    framingAttempted: bool,
    framing: Framing.SubmitResult)

  const NOTHING_DONE :=
    Result(InvalidArgument, 0, false, CodecError(0), 0, 0, 0, 0, false, Framing.EMPTY_RESULT)

  // ---------------------------------------------------------------- candidates

  datatype Tally = Tally(result: Result, faulted: bool, goesOn: bool)

  /** One candidate: decoded once, shown to the observer, and delivered if it decoded. */
  function Candidate(decode: bytes -> CodecStatus, host: Callbacks, k: nat, frame: bytes,
                     r: Result): Tally
  {
    var codec := decode(frame);
    var decoded :=
      if codec == CodecOk
      then r.(codecAttempted := true, codecStatus := codec, decodeSuccesses := r.decodeSuccesses + 1)
      else r.(codecAttempted := true, codecStatus := codec, decodeFailures := r.decodeFailures + 1,
              status := CodecFailed);
    var seen := if host.observe == None then Continue else host.observe.value(k, frame);
    if seen == Throw then Tally(decoded.(status := CallbackFailed), true, false)
    else
      var observed := if host.observe == None then decoded
                      else decoded.(observedCandidates := decoded.observedCandidates + 1);
      if codec != CodecOk then Tally(observed, false, seen == Continue)
      else
        var action := host.deliver(k, frame);
        if action == Throw then Tally(observed.(status := CallbackFailed), true, false)
        else
          Tally(observed.(successfulOutputs := observed.successfulOutputs + 1), false,
                action == Continue && seen == Continue)
  }

  /** The candidates of one operation, in order. */
  function Process(decode: bytes -> CodecStatus, host: Callbacks, frames: seq<bytes>,
                   r: Result): Tally
  {
    if frames == [] then Tally(r, false, true)
    else
      var n := |frames| - 1;
      var before := Process(decode, host, frames[..n], r);
      var last := Candidate(decode, host, n, frames[n], before.result);
      last.(faulted := before.faulted || last.faulted)
  }

  /** What the framer is told about each candidate. */
  function Answer(decode: bytes -> CodecStatus, host: Callbacks): Framing.FrameSink {
    (k: nat, frame: bytes) =>
      if Candidate(decode, host, k, frame, NOTHING_DONE).goesOn then Framing.Continue else Framing.Stop
  }

  function Decoded(decode: bytes -> CodecStatus, frames: seq<bytes>): seq<bytes> {
    if frames == [] then []
    else
      var n := |frames| - 1;
      Decoded(decode, frames[..n]) + if decode(frames[n]) == CodecOk then [frames[n]] else []
  }

  /** Which callback threw, if any, on a candidate. */
  predicate ObserverThrows(host: Callbacks, k: nat, frame: bytes) {
    host.observe.Some? && host.observe.value(k, frame) == Throw
  }

  predicate SinkThrows(decode: bytes -> CodecStatus, host: Callbacks, k: nat, frame: bytes) {
    !ObserverThrows(host, k, frame) && decode(frame) == CodecOk && host.deliver(k, frame) == Throw
  }

  /**
   * What the counters of an operation mean: every delivered frame is one success or one failure,
   * every success is one output unless a callback threw, only the last candidate can have thrown,
   * and the status is the worst that happened, in that order.
   */
  ghost predicate Counted(decode: bytes -> CodecStatus, host: Callbacks, frames: seq<bytes>,
                          r: Result, faulted: bool)
  {
    var n := |frames| - 1;
    && r.decodeSuccesses == |Decoded(decode, frames)|
    && r.decodeSuccesses + r.decodeFailures == |frames|
    && faulted == (frames != [] && (|| ObserverThrows(host, n, frames[n])
                                      || SinkThrows(decode, host, n, frames[n])))
    && r.successfulOutputs
       == r.decodeSuccesses - (if faulted && decode(frames[n]) == CodecOk then 1 else 0)
    && r.observedCandidates
       == (if host.observe == None then 0
           else if faulted && ObserverThrows(host, n, frames[n]) then n
           else |frames|)
    && r.status == (if faulted then CallbackFailed
                    else if r.decodeFailures > 0 then CodecFailed
                    else Ok)
    && r.codecAttempted == (frames != [])
    && r.codecStatus == (if frames == [] then CodecError(0) else decode(frames[n]))
  }

  lemma CandidateCounts(decode: bytes -> CodecStatus, host: Callbacks, frames: seq<bytes>,
                        r: Result, frame: bytes)
    requires Counted(decode, host, frames, r, false)
    ensures var last := Candidate(decode, host, |frames|, frame, r);
            Counted(decode, host, frames + [frame], last.result, last.faulted)
  {
    hide Decoded;
    DecodedNext(decode, frames, frame);
    var all := frames + [frame];
    assert |all| - 1 == |frames| && all[|frames|] == frame;
  }

  lemma DecodedNext(decode: bytes -> CodecStatus, frames: seq<bytes>, frame: bytes)
    ensures |Decoded(decode, frames + [frame])|
            == |Decoded(decode, frames)| + if decode(frame) == CodecOk then 1 else 0
  {
    assert (frames + [frame])[..|frames|] == frames;
  }

  /** The answer to a candidate depends on the candidate alone, and a throwing one ends the call. */
  lemma AnswerIs(decode: bytes -> CodecStatus, host: Callbacks, k: nat, frame: bytes, r: Result)
    ensures Candidate(decode, host, k, frame, r).goesOn
            == (Answer(decode, host)(k, frame) == Framing.Continue)
    ensures Candidate(decode, host, k, frame, r).goesOn ==>
              !Candidate(decode, host, k, frame, r).faulted
    ensures var after := Candidate(decode, host, k, frame, r).result;
            && after.framing == r.framing && after.framingAttempted == r.framingAttempted
            && after.generation == r.generation && after.codecAttempted
  {
  }

  lemma {:induction false} ProcessCounts(decode: bytes -> CodecStatus, host: Callbacks,
                                         frames: seq<bytes>, stopped: bool, r: Result)
    requires Framing.SinkObeyed(Answer(decode, host), frames, stopped)
    requires r == NOTHING_DONE.(status := Ok, generation := r.generation,
                                framingAttempted := r.framingAttempted, framing := r.framing)
    ensures var t := Process(decode, host, frames, r);
            Counted(decode, host, frames, t.result, t.faulted)
    ensures Process(decode, host, frames, r).goesOn == !stopped
    ensures Process(decode, host, frames, r).result.framing == r.framing
    ensures Process(decode, host, frames, r).result.framingAttempted == r.framingAttempted
    ensures Process(decode, host, frames, r).result.generation == r.generation
    ensures !stopped ==> !Process(decode, host, frames, r).faulted
  {
    hide Candidate, ObserverThrows, SinkThrows, Answer;
    if frames != [] {
      var n := |frames| - 1;
      var front := frames[..n];
      assert Framing.SinkObeyed(Answer(decode, host), front, false);
      ProcessCounts(decode, host, front, false, r);
      var before := Process(decode, host, front, r);
      CandidateCounts(decode, host, front, before.result, frames[n]);
      assert front + [frames[n]] == frames;
      AnswerIs(decode, host, n, frames[n], before.result);
    }
  }

  // ---------------------------------------------------------------- channels

  type Generation = n: nat | n <= MAX_GENERATION

  /** One logical stream: an independent framer, unless its pipeline takes complete records. */
  class Channel {
    const binding: nat
    const framer: Framing.StreamFramingWorkspace?
    var generation: Generation
    var faulted: bool

    constructor (owner: nat, workspace: Framing.StreamFramingWorkspace?)
      ensures binding == owner && framer == workspace && generation == 0 && !faulted
    {
      binding := owner;
      framer := workspace;
      generation := 0;
      faulted := false;
    }
  }

  /** `first` and `count` delimit the binding's channels; streams are numbered within it. */
  datatype Binding = Binding(endpoint: string, action: Action, pipeline: nat, first: nat, count: nat)

  /** What a channel remembers between operations. */
  datatype Memory = Memory(generation: nat, faulted: bool, framing: Option<Framing.View>)

  type Snapshot = map<nat, Memory>

  /** A handle names a channel of one session; one without a session is expired. */
  datatype Handle = Handle(scope: Session?, channel: nat)

  datatype Operation =
    | DecodeRecord(handle: Handle, input: bytes, host: Option<Callbacks>)
    | PushChunk(handle: Handle, input: bytes, host: Option<Callbacks>)
    | EncodeRecord(handle: Handle, request: EncodeRequest)
    | Reset(handle: Handle)

  /** How an encoding fares before and in the codec, and how the sink then ends. */
  datatype EncodeRequest = EncodeRequest(prepared: Status, encoded: CodecStatus, reaction: Reaction)

  /** Bindings are contiguous, apart, and differ in endpoint or action. */
  ghost predicate WellBound(bindings: seq<Binding>) {
    forall i, j | 0 <= i < j < |bindings| ::
      && bindings[i].first + bindings[i].count <= bindings[j].first
      && (bindings[i].endpoint != bindings[j].endpoint || bindings[i].action != bindings[j].action)
  }

  predicate Matches(b: Binding, endpoint: string, action: Action, stream: nat) {
    b.endpoint == endpoint && b.action == action && stream < b.count
  }

  /** Key and channel belong together. */
  ghost predicate Names(bindings: seq<Binding>, endpoint: string, action: Action, stream: nat,
                        channel: nat)
  {
    exists i | 0 <= i < |bindings| ::
      Matches(bindings[i], endpoint, action, stream) && channel == bindings[i].first + stream
  }

  /** Keys map injectively to channels, and each key to one channel at most. */
  lemma KeysAreInjective(bindings: seq<Binding>, endpoint: string, action: Action, stream: nat,
                         channel: nat, endpoint': string, action': Action, stream': nat,
                         channel': nat)
    requires WellBound(bindings)
    requires Names(bindings, endpoint, action, stream, channel)
    requires Names(bindings, endpoint', action', stream', channel')
    ensures channel == channel' <==>
              endpoint == endpoint' && action == action' && stream == stream'
  {
    var i :| 0 <= i < |bindings| && Matches(bindings[i], endpoint, action, stream)
             && channel == bindings[i].first + stream;
    var j :| 0 <= j < |bindings| && Matches(bindings[j], endpoint', action', stream')
             && channel' == bindings[j].first + stream';
    if i < j {
      assert bindings[i].first + bindings[i].count <= bindings[j].first;
    } else if j < i {
      assert bindings[j].first + bindings[j].count <= bindings[i].first;
    }
  }

  ghost function Parts(c: Channel): set<object> {
    {c} + if c.framer == null then {} else {c.framer, c.framer.buffer, c.framer.inUse}
  }

  ghost predicate Apart(channels: seq<Channel>) {
    forall i, j | 0 <= i < j < |channels| :: Parts(channels[i]) !! Parts(channels[j])
  }

  ghost predicate Within(channels: seq<Channel>, repr: set<object>) {
    forall k | 0 <= k < |channels| :: Parts(channels[k]) <= repr
  }

  ghost function MemoryOf(c: Channel): Memory
    reads Parts(c)
  {
    Memory(c.generation, c.faulted, if c.framer == null then None else Some(c.framer.Look()))
  }

  /** The framer of a channel belongs to the channel's pipeline and is idle between operations. */
  ghost predicate Ready(c: Channel, plan: nat, bindings: seq<Binding>)
    reads Parts(c)
  {
    && c.binding < |bindings|
    && (c.framer != null ==>
          && bindings[c.binding].action == Action.Decode
          && c.framer.Valid() && !c.framer.inUse.taken
          && c.framer.plan == plan && c.framer.pipelineIndex == bindings[c.binding].pipeline)
  }

  // ---------------------------------------------------------------- what operations may do

  predicate Attempted(r: Result) {
    r.codecAttempted || r.framingAttempted
  }

  /** Everything an operation may do to the channels of its session. */
  ghost predicate Steps(actions: map<nat, Action>, before: Snapshot, after: Snapshot, op: Operation,
                        r: Result)
  {
    var c := op.handle.channel;
    && before.Keys == after.Keys == actions.Keys
    // other channels never change, and a refusal changes nothing
    && (forall k | k in before && k != c :: after[k] == before[k])
    && (c !in before ==> !Attempted(r))
    && (c in before ==> StepsOn(actions[c], before[c], after[c], op, r))
  }

  /** Nothing of the stream is left in a framer but its lifetime totals. */
  predicate Emptied(before: Framing.View, after: Framing.View) {
    && after.pending == [] && after.held == 0 && !after.internal
    && after.totalDiscarded == before.totalDiscarded
    && after.totalMalformed == before.totalMalformed
  }

  ghost predicate StepsOn(action: Action, before: Memory, after: Memory, op: Operation, r: Result) {
    if op.Reset? then
      && !Attempted(r)
      && (r.status != Ok ==> after == before)
      && (r.status == Ok ==>
            && action == Action.Decode && !after.faulted && after.generation == before.generation + 1
            && after.framing.Some? == before.framing.Some?
            && (after.framing.Some? && before.framing.Some? ==>
                  Emptied(before.framing.value, after.framing.value)))
    else
      && after.generation == before.generation
      && (!Attempted(r) ==> after == before && r.status != Ok)
      && (before.faulted ==> !Attempted(r))
      && (Attempted(r) ==>
            after.faulted == (r.status == CallbackFailed || r.status == FramingFailed))
  }

  /** A run: the channels before, between and after the operations. */
  ghost predicate IsRun(actions: map<nat, Action>, ops: seq<Operation>, results: seq<Result>,
                        trace: seq<Snapshot>)
  {
    && |results| == |ops| && |trace| == |ops| + 1
    && forall i | 0 <= i < |ops| :: Steps(actions, trace[i], trace[i + 1], ops[i], results[i])
  }

  ghost predicate ResetBy(ops: seq<Operation>, results: seq<Result>, i: nat, c: nat)
    requires i < |ops| == |results|
  {
    ops[i].Reset? && ops[i].handle.channel == c && results[i].status == Ok
  }

  /**
   * A fault gates its channel: until it is reset, whatever is asked of the session, nothing on the
   * channel runs and nothing of it changes.
   */
  lemma {:induction false} FaultGates(actions: map<nat, Action>, ops: seq<Operation>,
                                      results: seq<Result>, trace: seq<Snapshot>, c: nat, i: nat,
                                      j: nat)
    requires IsRun(actions, ops, results, trace) && i <= j <= |ops|
    requires c in trace[i] && trace[i][c].faulted
    requires forall k: nat | i <= k < j :: !ResetBy(ops, results, k, c)
    ensures c in trace[j] && trace[j][c] == trace[i][c]
    ensures forall k: nat | i <= k < j && ops[k].handle.channel == c ::
              !Attempted(results[k]) && results[k].status != Ok
    decreases j - i
  {
    if i < j {
      assert Steps(actions, trace[i], trace[i + 1], ops[i], results[i]);
      assert !ResetBy(ops, results, i, c);
      FaultGates(actions, ops, results, trace, c, i + 1, j);
    }
  }

  /** Only a decode channel can be reset, so a faulted encode channel is lost. */
  lemma {:induction false} EncodeFaultsStay(actions: map<nat, Action>, ops: seq<Operation>,
                                            results: seq<Result>, trace: seq<Snapshot>, c: nat,
                                            i: nat)
    requires IsRun(actions, ops, results, trace) && i <= |ops|
    requires c in trace[i] && trace[i][c].faulted && c in actions && actions[c] == Encode
    ensures forall k: nat | i <= k < |ops| && ops[k].handle.channel == c ::
              !Attempted(results[k]) && results[k].status != Ok
  {
    forall k: nat | i <= k < |ops|
      ensures !ResetBy(ops, results, k, c)
    {
      assert Steps(actions, trace[k], trace[k + 1], ops[k], results[k]);
    }
    FaultGates(actions, ops, results, trace, c, i, |ops|);
  }

  function ResetsOf(ops: seq<Operation>, results: seq<Result>, c: nat): nat
    requires |ops| == |results|
  {
    if ops == [] then 0
    else
      var n := |ops| - 1;
      ResetsOf(ops[..n], results[..n], c)
      + if ops[n].Reset? && ops[n].handle.channel == c && results[n].status == Ok then 1 else 0
  }

  /** A channel's generation counts its successful resets and nothing else. */
  lemma {:induction false} GenerationCountsResets(actions: map<nat, Action>, ops: seq<Operation>,
                                                  results: seq<Result>, trace: seq<Snapshot>,
                                                  c: nat)
    requires IsRun(actions, ops, results, trace) && c in trace[0]
    ensures c in trace[|ops|]
    ensures trace[|ops|][c].generation == trace[0][c].generation + ResetsOf(ops, results, c)
  {
    if ops != [] {
      var n := |ops| - 1;
      assert IsRun(actions, ops[..n], results[..n], trace[..n + 1]);
      GenerationCountsResets(actions, ops[..n], results[..n], trace[..n + 1], c);
      assert Steps(actions, trace[n], trace[n + 1], ops[n], results[n]);
    }
  }

  /** Operations that name other channels leave a channel as it was. */
  lemma {:induction false} ChannelsAreIsolated(actions: map<nat, Action>, ops: seq<Operation>,
                                               results: seq<Result>, trace: seq<Snapshot>, c: nat)
    requires IsRun(actions, ops, results, trace) && c in trace[0]
    requires forall op | op in ops :: op.handle.channel != c
    ensures c in trace[|ops|] && trace[|ops|][c] == trace[0][c]
  {
    if ops != [] {
      var n := |ops| - 1;
      assert IsRun(actions, ops[..n], results[..n], trace[..n + 1]);
      ChannelsAreIsolated(actions, ops[..n], results[..n], trace[..n + 1], c);
      assert Steps(actions, trace[n], trace[n + 1], ops[n], results[n]);
      assert ops[n] in ops;
    }
  }

  // ---------------------------------------------------------------- the session

  class Session {
    const plan: nat
    const bindings: seq<Binding>
    const channels: seq<Channel>
    /** The codec of a pipeline, by the verdict on a complete record. */
    const codec: (nat, bytes) -> CodecStatus
    /** The bytes that the session was charged with when it was opened. */
    const accounted: nat
    var busy: bool
    /** The channels and their framers. */
    ghost const repr: set<object>

    constructor (plan: nat, codec: (nat, bytes) -> CodecStatus, bindings: seq<Binding>,
                 channels: seq<Channel>, accounted: nat, ghost repr: set<object>)
      requires WellBound(bindings) && Apart(channels) && Within(channels, repr)
      requires forall k | 0 <= k < |channels| :: Ready(channels[k], plan, bindings)
      ensures Valid() && !busy
      ensures this.plan == plan && this.codec == codec
      ensures this.bindings == bindings && this.channels == channels && this.repr == repr
      ensures this.accounted == accounted
    {
      this.plan, this.codec, this.bindings, this.channels := plan, codec, bindings, channels;
      this.accounted, this.repr := accounted, repr;
      busy := false;
    }

    ghost predicate Valid()
      reads this, repr
    {
      && WellBound(bindings) && Apart(channels) && Within(channels, repr)
      && this !in repr && Bound()
      && forall k | 0 <= k < |channels| :: Ready(channels[k], plan, bindings)
    }

    ghost function Look(): Snapshot
      requires Within(channels, repr)
      reads this, repr
    {
      map k: nat | k < |channels| :: MemoryOf(channels[k])
    }

    ghost predicate Bound() {
      forall k | 0 <= k < |channels| :: channels[k].binding < |bindings|
    }

    /** Which way each channel works. */
    ghost function Actions(): map<nat, Action>
      requires Bound()
    {
      map k: nat | k < |channels| :: bindings[channels[k].binding].action
    }

    predicate Has(h: Handle) {
      h.scope == this && h.channel < |channels|
    }

    /** Finds the channel of a key, if there is one. */
    method Find(endpoint: string, action: Action, stream: nat) returns (h: Handle)
      requires Valid()
      ensures busy ==> h.scope == null
      ensures !busy ==>
                (h.scope != null <==>
                   exists channel :: Names(bindings, endpoint, action, stream, channel))
      ensures h.scope != null ==>
                h.scope == this && Names(bindings, endpoint, action, stream, h.channel)
    {
      h := Handle(null, 0);
      if busy {
        return;
      }
      for i := 0 to |bindings|
        invariant h.scope == null
        invariant forall k | 0 <= k < i :: !Matches(bindings[k], endpoint, action, stream)
      {
        if Matches(bindings[i], endpoint, action, stream) {
          assert Names(bindings, endpoint, action, stream, bindings[i].first + stream);
          return Handle(this, bindings[i].first + stream);
        }
      }
    }

    /** Why a decode channel's operation is refused at once, if it is. */
    function Refused(h: Handle, stream: bool): Option<Status>
      requires Bound()
      reads this, channels
    {
      if busy then Some(Busy)
      else if !Has(h) || bindings[channels[h.channel].binding].action != Action.Decode
      then Some(InvalidBinding)
      else if (channels[h.channel].framer != null) != stream then Some(WrongInputKind)
      else if channels[h.channel].faulted then Some(ResetRequired)
      else None
    }

    function Decoder(c: Channel): bytes -> CodecStatus
      requires c.binding < |bindings|
    {
      frame => codec(bindings[c.binding].pipeline, frame)
    }

    /** Channels other than `k` are as they were. */
    ghost predicate OthersKept(k: nat, before: Snapshot)
      reads repr
      requires Within(channels, repr)
    {
      && (forall j: nat :: j in before <==> j < |channels|)
      && forall j: nat | j < |channels| && j != k ::
           Ready(channels[j], plan, bindings) && MemoryOf(channels[j]) == before[j]
    }

    /** An operation on channel `k` alone is a step of the session. */
    lemma OneStepped(k: nat, before: Snapshot, op: Operation, r: Result)
      requires WellBound(bindings) && Apart(channels) && Within(channels, repr) && this !in repr
      requires Bound()
      requires k < |channels| && Ready(channels[k], plan, bindings) && op.handle.channel == k
      requires OthersKept(k, before)
      requires StepsOn(bindings[channels[k].binding].action, before[k], MemoryOf(channels[k]), op, r)
      ensures Valid() && Steps(Actions(), before, Look(), op, r)
    {
      hide StepsOn, Ready, MemoryOf, WellBound, Apart, Parts;
    }

    /** A refusal is a step that changes nothing. */
    lemma RefusalSteps(op: Operation, r: Result)
      requires Valid() && !Attempted(r) && r.status != Ok
      ensures Steps(Actions(), Look(), Look(), op, r)
    {
    }

    method ResetChannel(h: Handle) returns (status: Status)
      requires Valid()
      modifies this`busy, repr
      ensures Valid() && busy == old(busy)
      ensures status ==
                if old(busy) then Busy
                else if !Has(h) || bindings[channels[h.channel].binding].action != Action.Decode
                then InvalidBinding
                else if old(channels[h.channel].generation) == MAX_GENERATION then LimitExceeded
                else Ok
      ensures Steps(Actions(), old(Look()), Look(), Operation.Reset(h),
                    NOTHING_DONE.(status := status))
    {
      hide Steps, StepsOn, MemoryOf, WellBound, Ready;
      ghost var before := Look();
      if busy {
        status := Busy;
      } else if !Has(h) || bindings[channels[h.channel].binding].action != Action.Decode {
        status := InvalidBinding;
      } else if channels[h.channel].generation == MAX_GENERATION {
        status := LimitExceeded;
      } else {
        busy := true;
        Restart(channels[h.channel], Operation.Reset(h));
        busy := false;
        OneStepped(h.channel, before, Operation.Reset(h), NOTHING_DONE.(status := Ok));
        return Ok;
      }
      RefusalSteps(Operation.Reset(h), NOTHING_DONE.(status := status));
    }

    method Restart(c: Channel, ghost op: Operation)
      requires Ready(c, plan, bindings) && bindings[c.binding].action == Action.Decode
      requires c.generation < MAX_GENERATION && op.Reset?
      modifies Parts(c)
      ensures Ready(c, plan, bindings)
      ensures StepsOn(Action.Decode, old(MemoryOf(c)), MemoryOf(c), op, NOTHING_DONE.(status := Ok))
    {
      if c.framer != null {
        var reset := c.framer.Reset(plan, bindings[c.binding].pipeline);
        assert reset == Framing.Ok;
      }
      c.generation := c.generation + 1;
      c.faulted := false;
    }

    /** One candidate through codec, observer and sink; a throwing callback marks the channel. */
    method DecodeCandidate(c: Channel, host: Callbacks, k: nat, frame: bytes, r0: Result)
      returns (r: Result, goesOn: bool)
      requires c.binding < |bindings|
      modifies c`faulted
      ensures var t := Candidate(Decoder(c), host, k, frame, r0);
              r == t.result && goesOn == t.goesOn && c.faulted == (old(c.faulted) || t.faulted)
    {
      var status := codec(bindings[c.binding].pipeline, frame);
      r := r0.(codecAttempted := true, codecStatus := status);
      if status != CodecOk {
        r := r.(decodeFailures := r.decodeFailures + 1, status := CodecFailed);
      } else {
        r := r.(decodeSuccesses := r.decodeSuccesses + 1);
      }
      goesOn := true;
      if host.observe != None {
        var seen := host.observe.value(k, frame);
        if seen == Throw {
          c.faulted := true;
          return r.(status := CallbackFailed), false;
        }
        goesOn := seen == Continue;
        r := r.(observedCandidates := r.observedCandidates + 1);
      }
      if status != CodecOk {
        return r, goesOn;
      }
      var action := host.deliver(k, frame);
      if action == Throw {
        c.faulted := true;
        return r.(status := CallbackFailed), false;
      }
      r := r.(successfulOutputs := r.successfulOutputs + 1);
      goesOn := action == Continue && goesOn;
    }

    /** A complete record on a channel without a framer. */
    method Decode(h: Handle, input: bytes, host: Option<Callbacks>) returns (r: Result)
      requires Valid()
      modifies this`busy, repr
      ensures Valid() && busy == old(busy)
      ensures var refused := old(Refused(h, false));
              if refused.Some? || host == None then
                r == NOTHING_DONE.(status := if refused.Some? then refused.value
                                             else InvalidArgument)
              else
                && Counted(Decoder(channels[h.channel]), host.value, [input], r,
                           channels[h.channel].faulted)
                && r.codecStatus == codec(bindings[channels[h.channel].binding].pipeline, input)
                && r.generation == channels[h.channel].generation
                && !r.framingAttempted && r.framing == Framing.EMPTY_RESULT
      ensures Steps(Actions(), old(Look()), Look(), DecodeRecord(h, input, host), r)
    {
      hide Steps, StepsOn, MemoryOf, Counted, WellBound, Ready;
      ghost var before := Look();
      ghost var op := DecodeRecord(h, input, host);
      r := NOTHING_DONE;
      var refused := Refused(h, false);
      if refused != None {
        r := r.(status := refused.value);
      } else if host != None {
        busy := true;
        r := DecodeOn(channels[h.channel], input, host.value, op);
        busy := false;
        OneStepped(h.channel, before, op, r);
        return;
      }
      RefusalSteps(op, r);
    }

    method DecodeOn(c: Channel, input: bytes, host: Callbacks, ghost op: Operation)
      returns (r: Result)
      requires Ready(c, plan, bindings) && !c.faulted && !op.Reset?
      modifies c
      ensures Ready(c, plan, bindings)
      ensures Counted(Decoder(c), host, [input], r, c.faulted)
      ensures r.codecStatus == codec(bindings[c.binding].pipeline, input) && r.codecAttempted
      ensures r.generation == c.generation
      ensures !r.framingAttempted && r.framing == Framing.EMPTY_RESULT
      ensures StepsOn(bindings[c.binding].action, old(MemoryOf(c)), MemoryOf(c), op, r)
    {
      hide Counted;
      r := NOTHING_DONE.(status := Ok, generation := c.generation);
      var goesOn;
      NothingCounted(Decoder(c), host, r);
      CandidateCounts(Decoder(c), host, [], r, input);
      assert [] + [input] == [input];
      r, goesOn := DecodeCandidate(c, host, 0, input, r);
      CountedStatus(Decoder(c), host, [input], r, c.faulted);
    }

    /**
     * A chunk on a stream channel: one framer submission, with every frame decoded and delivered
     * as it comes. A chunk the framer refuses marks the channel, too.
     */
    method Push(h: Handle, input: bytes, host: Option<Callbacks>)
      returns (r: Result, delivered: seq<bytes>)
      requires Valid()
      modifies this`busy, repr
      ensures Valid() && busy == old(busy)
      ensures var refused := old(Refused(h, true));
              if refused.Some? then r == NOTHING_DONE.(status := refused.value)
              else if host == None
                      || (input == [] && !old(channels[h.channel].framer.HasInternalWork()))
              then r == NOTHING_DONE
              else
                && Pushed(channels[h.channel], host.value, input, old(Look())[h.channel], r,
                          delivered)
                && (if |input| > channels[h.channel].framer.maxSubmitBytes then
                      r.framing.apiStatus == Framing.LimitExceeded && r.status == FramingFailed
                      && channels[h.channel].faulted && delivered == []
                    else r.framing.apiStatus == Framing.Ok && r.status != FramingFailed)
      ensures Steps(Actions(), old(Look()), Look(), PushChunk(h, input, host), r)
    {
      hide Valid, Steps, StepsOn, MemoryOf, Pushed, WellBound, Ready;
      Opened();
      ghost var op := PushChunk(h, input, host);
      r, delivered := NOTHING_DONE, [];
      var refused := Refused(h, true);
      if refused != None {
        r := r.(status := refused.value);
      } else if host != None
                && (input != [] || channels[h.channel].framer.HasInternalWork()) {
        ghost var before := Look()[h.channel];
        r, delivered := PushAccepted(h, input, host.value, op);
        PushedLimit(channels[h.channel], host.value, input, before, r, delivered);
        return;
      }
      RefusalSteps(op, r);
    }

    /** What a valid session lets its operations look at. */
    lemma Opened()
      requires Valid()
      ensures Bound() && Within(channels, repr)
      ensures forall k | 0 <= k < |channels| :: MemoryOf(channels[k]) == Look()[k]
    {
    }

    /** A push that nothing stands in the way of; the session is busy while it lasts. */
    method PushAccepted(h: Handle, input: bytes, host: Callbacks, ghost op: Operation)
      returns (r: Result, delivered: seq<bytes>)
      requires Valid() && Refused(h, true) == None && !op.Reset? && op.handle == h
      modifies this`busy, repr
      ensures Valid() && busy == old(busy)
      ensures Pushed(channels[h.channel], host, input, old(Look())[h.channel], r, delivered)
      ensures Steps(Actions(), old(Look()), Look(), op, r)
    {
      hide Steps, StepsOn, MemoryOf, Pushed, WellBound, Ready, Framing.StreamFramingWorkspace.Valid,
           Framing.StreamFramingWorkspace.Look;
      ghost var before := Look();
      busy := true;
      r, delivered := PushOn(channels[h.channel], input, host, op);
      busy := false;
      OneStepped(h.channel, before, op, r);
    }

    /** What an accepted push owes, given what its channel remembered before. */
    ghost predicate Pushed(c: Channel, host: Callbacks, input: bytes, before: Memory, r: Result,
                           delivered: seq<bytes>)
      reads Parts(c)
    {
      && c.binding < |bindings| && before.framing.Some? && c.framer != null
      && ValidateStreamFramingLocal(c.framer.profile)
      && r.framingAttempted && r.framing.framesDelivered == |delivered|
      && r.generation == c.generation
      && if |input| > c.framer.maxSubmitBytes then
           && r.framing.apiStatus == Framing.LimitExceeded
           && r.status == FramingFailed && c.faulted && delivered == []
           && !r.codecAttempted && r.decodeSuccesses == r.decodeFailures == 0
           && c.framer.Look() == before.framing.value
         else
           && r.framing.apiStatus == Framing.Ok && r.status != FramingFailed
           && Counted(Decoder(c), host, delivered, r, c.faulted)
           && Framing.Submitted(c.framer.profile, c.framer.maxWorkUnits,
                                c.framer.maxFramesPerSubmit, Answer(Decoder(c), host), input,
                                before.framing.value, c.framer.Look(), r.framing, delivered)
    }

    lemma PushedLimit(c: Channel, host: Callbacks, input: bytes, before: Memory, r: Result,
                      delivered: seq<bytes>)
      requires Pushed(c, host, input, before, r, delivered)
      ensures c.framer != null
      ensures if |input| > c.framer.maxSubmitBytes then
                r.framing.apiStatus == Framing.LimitExceeded && r.status == FramingFailed
                && c.faulted && delivered == []
              else r.framing.apiStatus == Framing.Ok && r.status != FramingFailed
    {
      hide Counted, Framing.Submitted;
    }

    lemma ReadyProfile(c: Channel)
      requires Ready(c, plan, bindings) && c.framer != null
      ensures ValidateStreamFramingLocal(c.framer.profile)
    {
    }

    /** The candidates of a submission, as the framer hands them over. */
    method DecodeAll(c: Channel, host: Callbacks, delivered: seq<bytes>, r0: Result)
      returns (r: Result)
      requires c.binding < |bindings| && !c.faulted
      modifies c`faulted
      ensures var t := Process(Decoder(c), host, delivered, r0);
              r == t.result && c.faulted == t.faulted
    {
      hide Candidate;
      r := r0;
      var goesOn;
      for k := 0 to |delivered|
        invariant var t := Process(Decoder(c), host, delivered[..k], r0);
                  r == t.result && c.faulted == t.faulted
      {
        assert delivered[..k + 1][..k] == delivered[..k];
        r, goesOn := DecodeCandidate(c, host, k, delivered[k], r);
      }
      assert delivered[..|delivered|] == delivered;
    }

    method PushOn(c: Channel, input: bytes, host: Callbacks, ghost op: Operation)
      returns (r: Result, delivered: seq<bytes>)
      requires Ready(c, plan, bindings) && c.framer != null && !c.faulted && !op.Reset?
      modifies Parts(c)
      ensures Ready(c, plan, bindings)
      ensures Pushed(c, host, input, old(MemoryOf(c)), r, delivered)
      ensures StepsOn(bindings[c.binding].action, old(MemoryOf(c)), MemoryOf(c), op, r)
    {
      hide Counted, Framing.Submitted, Process, Answer;
      hide Framing.StreamFramingWorkspace.Valid, Framing.StreamFramingWorkspace.Look;
      ReadyProfile(c);
      r := NOTHING_DONE.(status := Ok, generation := c.generation, framingAttempted := true);
      ghost var r0, before := r, c.framer.Look();
      var framing;
      framing, delivered :=
        c.framer.PushStreamChunk(plan, bindings[c.binding].pipeline, input, Answer(Decoder(c), host));
      if framing.apiStatus != Framing.Ok {
        c.faulted := true;
        return r.(framing := framing, status := FramingFailed), delivered;
      }
      PushCounts(c.framer.profile, c.framer.maxWorkUnits, c.framer.maxFramesPerSubmit,
                 Decoder(c), host, input, before, c.framer.Look(), framing, delivered, r0);
      r := DecodeAll(c, host, delivered, r);
      r := r.(framing := framing);
    }

    /** Encoding, on an encode channel: the sink sees the record only if the codec made one. */
    method Encode(h: Handle, request: EncodeRequest) returns (r: Result)
      requires Valid()
      modifies this`busy, repr
      ensures Valid() && busy == old(busy)
      ensures r.status ==
                if old(busy) then Busy
                else if !Has(h) || bindings[channels[h.channel].binding].action != Action.Encode
                then InvalidBinding
                else if old(channels[h.channel].faulted) then ResetRequired
                else if request.prepared != Ok then request.prepared
                else if request.encoded != CodecOk then CodecFailed
                else if request.reaction == Throw then CallbackFailed
                else Ok
      ensures r.successfulOutputs == if r.status == Ok then 1 else 0
      ensures r.codecAttempted
              <==> && !old(busy) && Has(h) && request.prepared == Ok
                   && bindings[channels[h.channel].binding].action == Action.Encode
                   && !old(channels[h.channel].faulted)
      ensures r.codecAttempted ==>
                && r.codecStatus == request.encoded
                && r.generation == channels[h.channel].generation
      ensures !r.codecAttempted ==> r == NOTHING_DONE.(status := r.status)
      ensures Steps(Actions(), old(Look()), Look(), EncodeRecord(h, request), r)
    {
      hide Steps, StepsOn, MemoryOf, WellBound, Ready;
      ghost var before := Look();
      ghost var op := EncodeRecord(h, request);
      r := NOTHING_DONE;
      if busy {
        r := r.(status := Busy);
      } else if !Has(h) || bindings[channels[h.channel].binding].action != Action.Encode {
        r := r.(status := InvalidBinding);
      } else if channels[h.channel].faulted {
        r := r.(status := ResetRequired);
      } else if request.prepared != Ok {
        r := r.(status := request.prepared);
      } else {
        busy := true;
        r := EncodeOn(channels[h.channel], request, op);
        busy := false;
        OneStepped(h.channel, before, op, r);
        return;
      }
      RefusalSteps(op, r);
    }

    method EncodeOn(c: Channel, request: EncodeRequest, ghost op: Operation) returns (r: Result)
      requires Ready(c, plan, bindings) && !c.faulted && !op.Reset?
      modifies c
      ensures Ready(c, plan, bindings)
      ensures r.status == if request.encoded != CodecOk then CodecFailed
                          else if request.reaction == Throw then CallbackFailed
                          else Ok
      ensures r.successfulOutputs == if r.status == Ok then 1 else 0
      ensures r.codecAttempted && r.codecStatus == request.encoded
      ensures r.generation == c.generation
      ensures StepsOn(bindings[c.binding].action, old(MemoryOf(c)), MemoryOf(c), op, r)
    {
      r := NOTHING_DONE.(generation := c.generation, codecAttempted := true,
                         codecStatus := request.encoded);
      if request.encoded != CodecOk {
        return r.(status := CodecFailed);
      }
      if request.reaction == Throw {
        c.faulted := true;
        return r.(status := CallbackFailed);
      }
      r := r.(status := Ok, successfulOutputs := 1);
    }

    method Perform(op: Operation) returns (r: Result)
      requires Valid()
      modifies this`busy, repr
      ensures Valid() && busy == old(busy)
      ensures Steps(Actions(), old(Look()), Look(), op, r)
    {
      hide Steps, Ready, WellBound, Apart, Within;
      match op
      case DecodeRecord(h, input, host) =>
        r := Decode(h, input, host);
      case PushChunk(h, input, host) =>
        var delivered;
        r, delivered := Push(h, input, host);
      case EncodeRecord(h, request) =>
        r := Encode(h, request);
      case Reset(h) =>
        var status := ResetChannel(h);
        r := NOTHING_DONE.(status := status);
    }

    /** Any sequence of operations is a run. */
    method PerformAll(ops: seq<Operation>) returns (results: seq<Result>, ghost trace: seq<Snapshot>)
      requires Valid()
      modifies this`busy, repr
      ensures Valid() && busy == old(busy)
      ensures IsRun(Actions(), ops, results, trace)
      ensures trace[0] == old(Look()) && trace[|ops|] == Look()
    {
      hide Steps, Ready, WellBound, Apart;
      results, trace := [], [Look()];
      for n := 0 to |ops|
        invariant Valid() && busy == old(busy)
        invariant IsRun(Actions(), ops[..n], results, trace)
        invariant trace[0] == old(Look()) && trace[n] == Look()
      {
        var r := Perform(ops[n]);
        RunGoesOn(Actions(), ops[..n], results, trace, ops[n], r, Look());
        assert ops[..n + 1] == ops[..n] + [ops[n]];
        results, trace := results + [r], trace + [Look()];
      }
      assert ops[..|ops|] == ops;
    }
  }

  lemma RunGoesOn(actions: map<nat, Action>, ops: seq<Operation>, results: seq<Result>,
                  trace: seq<Snapshot>, op: Operation, r: Result, after: Snapshot)
    requires IsRun(actions, ops, results, trace)
    requires Steps(actions, trace[|ops|], after, op, r)
    ensures IsRun(actions, ops + [op], results + [r], trace + [after])
  {
    hide Steps;
    var ops', results', trace' := ops + [op], results + [r], trace + [after];
    forall i | 0 <= i < |ops'|
      ensures Steps(actions, trace'[i], trace'[i + 1], ops'[i], results'[i])
    {
      if i < |ops| {
        assert Steps(actions, trace[i], trace[i + 1], ops[i], results[i]);
      }
    }
  }

  lemma PushCounts(p: Profile, limit: nat, quota: nat, decode: bytes -> CodecStatus,
                   host: Callbacks, input: bytes, v0: Framing.View, v: Framing.View,
                   framing: Framing.SubmitResult, delivered: seq<bytes>, r0: Result)
    requires ValidateStreamFramingLocal(p)
    requires Framing.Submitted(p, limit, quota, Answer(decode, host), input, v0, v, framing,
                               delivered)
    requires r0 == NOTHING_DONE.(status := Ok, generation := r0.generation,
                                 framingAttempted := r0.framingAttempted, framing := r0.framing)
    ensures framing.framesDelivered == |delivered|
    ensures var t := Process(decode, host, delivered, r0);
            && t.result.framingAttempted == r0.framingAttempted
            && t.result.generation == r0.generation
            && t.faulted == (t.result.status == CallbackFailed)
            && t.result.status in {Ok, CodecFailed, CallbackFailed}
            && Counted(decode, host, delivered, t.result.(framing := framing), t.faulted)
  {
    hide Process, Decoded, ObserverThrows, SinkThrows, Answer, Framing.Closer, Framing.Settled;
    ProcessCounts(decode, host, delivered, framing.stopReason == Framing.SinkStop, r0);
  }

  lemma NothingCounted(decode: bytes -> CodecStatus, host: Callbacks, r: Result)
    requires r == NOTHING_DONE.(status := Ok, generation := r.generation,
                                framingAttempted := r.framingAttempted, framing := r.framing)
    ensures Counted(decode, host, [], r, false)
  {
  }

  lemma CountedStatus(decode: bytes -> CodecStatus, host: Callbacks, frames: seq<bytes>, r: Result,
                      faulted: bool)
    requires Counted(decode, host, frames, r, faulted)
    ensures faulted == (r.status == CallbackFailed)
    ensures r.status in {Ok, CodecFailed, CallbackFailed}
  {
  }
}
