/**
 * What a session's definitions say case by case: how a candidate is counted and answered, why an
 * operation is refused, and what opening a session checks and charges.
 */
module SessionMeaning {
  import opened Arithmetic
  import opened Bytes
  import opened FramingSpec
  import opened Session
  import opened SessionCreation
  import Framing = StreamFramer

  // ---------------------------------------------------------------- candidates

  lemma NothingDoneMeans()
    ensures NOTHING_DONE
            == Result(InvalidArgument, 0, false, CodecError(0), 0, 0, 0, 0, false,
                      Framing.SubmitResult(Framing.Ok, Framing.InputExhausted, 0, 0, 0, 0,
                                           Framing.NoIssue, 0))
  {
  }

  /**
   * A candidate is decoded, then observed, then, if it decoded, delivered. A callback that throws
   * ends it there and marks the channel; one that says Stop ends the call behind it.
   */
  lemma CandidateMeans(decode: bytes -> CodecStatus, host: Callbacks, k: nat, frame: bytes,
                       r: Result)
    ensures var t := Candidate(decode, host, k, frame, r);
            var good := decode(frame) == CodecOk;
            var seen := if host.observe == None then Reaction.Continue
                        else host.observe.value(k, frame);
            var action := host.deliver(k, frame);
            && t.result.codecAttempted && t.result.codecStatus == decode(frame)
            && t.result.generation == r.generation && t.result.framing == r.framing
            && t.result.framingAttempted == r.framingAttempted
            && t.result.decodeSuccesses == r.decodeSuccesses + (if good then 1 else 0)
            && t.result.decodeFailures == r.decodeFailures + (if good then 0 else 1)
            && t.result.observedCandidates
               == r.observedCandidates + (if host.observe == None || seen == Throw then 0 else 1)
            && t.result.successfulOutputs
               == r.successfulOutputs + (if good && seen != Throw && action != Throw then 1 else 0)
            && t.faulted == (seen == Throw || (good && action == Throw))
            && t.result.status == (if t.faulted then CallbackFailed
                                   else if good then r.status else CodecFailed)
            && t.goesOn == (seen == Reaction.Continue && (good ==> action == Reaction.Continue))
            && (Answer(decode, host)(k, frame) == Framing.Continue <==> t.goesOn)
  {
  }

  /** Several candidates: one after the other, each as the `k`-th of its call. */
  lemma ProcessMeans(decode: bytes -> CodecStatus, host: Callbacks, frames: seq<bytes>,
                     frame: bytes, r: Result)
    ensures Process(decode, host, [], r) == Tally(r, false, true)
    ensures var before := Process(decode, host, frames, r);
            var last := Candidate(decode, host, |frames|, frame, before.result);
            Process(decode, host, frames + [frame], r)
            == Tally(last.result, before.faulted || last.faulted, last.goesOn)
    ensures Decoded(decode, []) == []
    ensures Decoded(decode, frames + [frame])
            == if decode(frame) == CodecOk then Decoded(decode, frames) + [frame]
               else Decoded(decode, frames)
  {
    hide Candidate;
    assert (frames + [frame])[..|frames|] == frames;
  }

  // ---------------------------------------------------------------- refusals

  /** The first that applies. */
  lemma RefusedMeans(s: Session, h: Handle, stream: bool)
    requires s.Bound()
    ensures s.busy ==> s.Refused(h, stream) == Some(Busy)
    ensures !s.busy && (h.scope != s || h.channel >= |s.channels|) ==>
              s.Refused(h, stream) == Some(InvalidBinding)
    ensures !s.busy && h.scope == s && h.channel < |s.channels| ==>
              var c := s.channels[h.channel];
              s.Refused(h, stream)
              == if s.bindings[c.binding].action == Action.Encode then Some(InvalidBinding)
                 else if stream && c.framer == null then Some(WrongInputKind)
                 else if !stream && c.framer != null then Some(WrongInputKind)
                 else if c.faulted then Some(ResetRequired)
                 else None
  {
  }

  /** A key names the channel at its stream's place behind its binding's first. */
  lemma NamesMeans(bindings: seq<Binding>, endpoint: string, action: Action, stream: nat,
                   channel: nat)
    ensures Names(bindings, endpoint, action, stream, channel)
            <==> exists b | b in bindings ::
                   b.endpoint == endpoint && b.action == action && stream < b.count
                   && channel == b.first + stream
  {
    if b :| b in bindings && b.endpoint == endpoint && b.action == action && stream < b.count
            && channel == b.first + stream {
      var i :| 0 <= i < |bindings| && bindings[i] == b;
      assert Matches(bindings[i], endpoint, action, stream);
    }
  }

  // ---------------------------------------------------------------- opening: the rules

  lemma StreamsMean(specs: seq<BindingSpec>, spec: BindingSpec)
    ensures TotalStreams([]) == 0
    ensures TotalStreams(specs + [spec]) == TotalStreams(specs) + spec.streams
  {
    assert (specs + [spec])[..|specs|] == specs;
  }

  lemma LimitsMean(limits: Limits, specs: seq<BindingSpec>)
    ensures WithinLimits(limits, specs)
            <==> && |specs| <= limits.bindings && limits.bindings <= 64 && limits.channels <= 64
                 && limits.identityBytes <= 256 && limits.accountedBytes <= 0x400_0000
                 && (forall spec | spec in specs :: spec.streams >= 1)
                 && TotalStreams(specs) <= limits.channels
  {
    hide TotalStreams;
  }

  /** Why a binding is refused before anything is opened for it. */
  lemma KeyMeans(setup: Setup, earlier: seq<BindingSpec>, spec: BindingSpec, p: PipelineInfo)
    requires p in setup.pipelines && p.id == spec.pipeline
    requires forall q | q in setup.pipelines && q.id == spec.pipeline :: q == p
    ensures KeyStatus(setup, earlier, spec)
            == if spec.endpoint == "" || spec.pipeline == "" then InvalidBinding
               else if spec.action == Action.Encode && spec.streams != 1 then InvalidBinding
               else if |spec.endpoint| > setup.limits.identityBytes then LimitExceeded
               else if |spec.pipeline| > setup.limits.identityBytes then LimitExceeded
               else if exists e | e in earlier ::
                         e.endpoint == spec.endpoint && e.action == spec.action
               then InvalidBinding
               else if spec.action == Action.Decode && !p.decodes then Unsupported
               else if spec.action == Action.Encode && !p.encodes then Unsupported
               else Ok
    ensures PipelineNamed(setup.pipelines, spec.pipeline).Some?
            && PipelineOf(setup, spec) == p
  {
    hide PipelineNamed;
    var named := PipelineNamed(setup.pipelines, spec.pipeline);
    assert named.Some?;
    assert setup.pipelines[named.value] in setup.pipelines;
  }

  /** And when its pipeline is unknown. */
  lemma UnknownPipeline(setup: Setup, earlier: seq<BindingSpec>, spec: BindingSpec)
    requires forall q | q in setup.pipelines :: q.id != spec.pipeline
    ensures PipelineNamed(setup.pipelines, spec.pipeline) == None
    ensures KeyStatus(setup, earlier, spec)
            == if spec.endpoint != "" && spec.pipeline != ""
                  && (spec.action == Action.Encode ==> spec.streams == 1)
                  && (|spec.endpoint| > setup.limits.identityBytes
                      || |spec.pipeline| > setup.limits.identityBytes)
               then LimitExceeded else InvalidBinding
  {
    hide PipelineNamed;
  }

  /** Whether a framer can be made with `bytes` of memory. */
  lemma FramerMeans(setup: Setup, spec: BindingSpec, profile: Profile, bytes: nat)
    requires bytes > 0
    ensures var asked, default := spec.framingLimits, setup.framerDefaults;
            var submit := if asked.submitBytes != 0 then asked.submitBytes
                          else default.submitBytes;
            var frames := if asked.framesPerSubmit != 0 then asked.framesPerSubmit
                          else default.framesPerSubmit;
            var work := if asked.workUnits != 0 then asked.workUnits else default.workUnits;
            var sync := if asked.syncBytes != 0 then asked.syncBytes else default.syncBytes;
            var capacity :=
              if profile.strategy == SyncLengthField || profile.strategy == AsciiCrlf
              then profile.maximum else profile.frameLength;
            FramerStatus(setup, spec, profile, bytes)
            == if asked.sessionBytes > 0x20_0000 then LimitExceeded
               else if 1 <= submit <= 0x40_0000 && 1 <= frames <= 0x1000
                       && 1 <= work <= 0x100_0000 && 1 <= sync <= 0x40 && bytes <= 0x20_0000
                       && capacity <= 0x10_0000 && |profile.sync| <= sync
               then if setup.framerOverhead + capacity <= bytes && 4 <= work
                       && 1 + 2 * |profile.sync| <= work
                    then Ok else LimitExceeded
               else Unsupported
  {
  }

  /** The memory a framer may have by itself: what is asked for, or the default up to 2 MiB. */
  lemma EngineMeans(setup: Setup, spec: BindingSpec)
    ensures spec.framingLimits.sessionBytes != 0 ==>
              EngineLimit(setup, spec) == spec.framingLimits.sessionBytes
    ensures spec.framingLimits.sessionBytes == 0 ==>
              EngineLimit(setup, spec)
              == if setup.framerDefaults.sessionBytes <= 0x20_0000
                 then setup.framerDefaults.sessionBytes else 0x20_0000
  {
  }

  /** What stands in the way of a binding's channels, memory of the session apart. */
  lemma ChannelMeans(setup: Setup, spec: BindingSpec, pipeline: PipelineInfo)
    ensures ChannelStatus(setup, spec, pipeline)
            == if spec.action == Action.Decode && pipeline.profile.Some?
               then FramerStatus(setup, spec, pipeline.profile.value, EngineLimit(setup, spec))
               else Ok
  {
    hide FramerStatus, EngineLimit;
  }

  lemma PermittedMeans(setup: Setup, specs: seq<BindingSpec>, spec: BindingSpec)
    ensures Permitted(setup, [])
    ensures Permitted(setup, specs + [spec])
            <==> && Permitted(setup, specs) && KeyStatus(setup, specs, spec) == Ok
                 && ChannelStatus(setup, spec, PipelineOf(setup, spec)) == Ok
  {
    hide KeyStatus, ChannelStatus;
    assert (specs + [spec])[..|specs|] == specs;
  }

  // ---------------------------------------------------------------- opening: the cost

  /** What one channel costs. */
  lemma ChannelCostMeans(setup: Setup, spec: BindingSpec, pipeline: PipelineInfo)
    ensures var z := setup.sizes;
            ChannelCost(setup, spec, pipeline)
            == z.workspace + z.workspaceBuffers
               + if spec.action == Action.Encode
                 then z.maxFrame + z.fieldsPerMessage * z.encodedField
                 else if pipeline.profile == None then z.fieldsPerMessage * z.decodedField
                 else z.fieldsPerMessage * z.decodedField + setup.framerOverhead
                      + if pipeline.profile.value.strategy == SyncLengthField
                           || pipeline.profile.value.strategy == AsciiCrlf
                        then pipeline.profile.value.maximum
                        else pipeline.profile.value.frameLength
  {
  }

  /** What a session costs, binding by binding. */
  lemma CostMeans(setup: Setup, specs: seq<BindingSpec>, spec: BindingSpec)
    ensures SessionCost(setup, []) == setup.sizes.base
    ensures PipelineNamed(setup.pipelines, spec.pipeline).Some? ==>
              SessionCost(setup, specs + [spec])
              == SessionCost(setup, specs) + setup.sizes.binding
                 + spec.streams * setup.sizes.channel + |spec.endpoint| + 1
                 + spec.streams * ChannelCost(setup, spec, PipelineOf(setup, spec))
  {
    hide ChannelCost;
    StreamsMean(specs, spec);
    assert (specs + [spec])[..|specs|] == specs;
    Distribute(|specs|, 1, setup.sizes.binding);
    Distribute(TotalStreams(specs), spec.streams, setup.sizes.channel);
  }

  /** Opening, step by step: the first refusal ends it. */
  lemma AccountMeans(setup: Setup, specs: seq<BindingSpec>, spec: BindingSpec, start: nat)
    ensures CreateAccount(setup, []).status == InvalidArgument
    ensures specs != [] && !WithinLimits(setup.limits, specs) ==>
              CreateAccount(setup, specs).status == LimitExceeded
    ensures specs != [] && WithinLimits(setup.limits, specs) ==>
              var tables := setup.sizes.base + |specs| * setup.sizes.binding
                            + TotalStreams(specs) * setup.sizes.channel;
              if tables > setup.limits.accountedBytes
              then CreateAccount(setup, specs).status == LimitExceeded
              else CreateAccount(setup, specs) == BindingsAccount(setup, tables, specs)
    ensures BindingsAccount(setup, start, []) == Account(Ok, start)
    ensures var before := BindingsAccount(setup, start, specs);
            BindingsAccount(setup, start, specs + [spec])
            == if before.status != Ok then before
               else BindingAccount(setup, specs, spec, before.used)
  {
    hide BindingAccount, TotalStreams, WithinLimits;
    assert (specs + [spec])[..|specs|] == specs;
    NonNegative(|specs|, setup.sizes.binding);
    NonNegative(TotalStreams(specs), setup.sizes.channel);
  }

  /** One binding, and one channel of it. */
  lemma BindingMeans(setup: Setup, earlier: seq<BindingSpec>, spec: BindingSpec, used: nat, n: nat,
                     pipeline: PipelineInfo)
    ensures KeyStatus(setup, earlier, spec) != Ok ==>
              BindingAccount(setup, earlier, spec, used).status == KeyStatus(setup, earlier, spec)
    ensures KeyStatus(setup, earlier, spec) == Ok
            && used + |spec.endpoint| + 1 > setup.limits.accountedBytes ==>
              BindingAccount(setup, earlier, spec, used).status == LimitExceeded
    ensures KeyStatus(setup, earlier, spec) == Ok
            && used + |spec.endpoint| + 1 <= setup.limits.accountedBytes ==>
              BindingAccount(setup, earlier, spec, used)
              == StreamsAccount(setup, spec, PipelineOf(setup, spec), used + |spec.endpoint| + 1,
                                spec.streams)
    ensures StreamsAccount(setup, spec, pipeline, used, 0) == Account(Ok, used)
    ensures var before := StreamsAccount(setup, spec, pipeline, used, n);
            StreamsAccount(setup, spec, pipeline, used, n + 1)
            == if before.status != Ok then before
               else ChannelAccount(setup, spec, pipeline, before.used)
  {
    hide KeyStatus, ChannelAccount;
  }

  /** A channel's own account: a framer gets at most what the rest has left over. */
  lemma ChannelAccountMeans(setup: Setup, spec: BindingSpec, pipeline: PipelineInfo, used: nat)
    ensures var z, limit := setup.sizes, setup.limits.accountedBytes;
            var plain := used + z.workspace + z.workspaceBuffers
                         + if spec.action == Action.Encode
                           then z.maxFrame + z.fieldsPerMessage * z.encodedField
                           else z.fieldsPerMessage * z.decodedField;
            var a := ChannelAccount(setup, spec, pipeline, used);
            if plain > limit then a.status == LimitExceeded
            else if spec.action == Action.Encode || pipeline.profile == None
            then a == Account(Ok, plain)
            else if plain == limit then a.status == LimitExceeded
            else
              var profile := pipeline.profile.value;
              var own := EngineLimit(setup, spec);
              var bytes := if own < limit - plain then own else limit - plain;
              var status := FramerStatus(setup, spec, profile, bytes);
              if status != Ok then a.status == status
              else if plain + setup.framerOverhead + profile.FrameCapacity() > limit
              then a.status == LimitExceeded
              else a == Account(Ok, plain + setup.framerOverhead + profile.FrameCapacity())
  {
    hide FramerStatus, EngineLimit;
    NonNegative(setup.sizes.fieldsPerMessage, setup.sizes.encodedField);
    NonNegative(setup.sizes.fieldsPerMessage, setup.sizes.decodedField);
  }
}
