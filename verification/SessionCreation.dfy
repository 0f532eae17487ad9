/**
 * Opening a session: bindings are checked one by one, and each gets its own channels.
 */
module SessionCreation {
  import opened Arithmetic
  import opened Bytes
  import opened FramingSpec
  import opened Session
  import Framing = StreamFramer

  datatype BindingSpec = BindingSpec(
    endpoint: string,
    action: Action,
    pipeline: string,
    streams: nat,
    framingLimits: Framing.Limits)

  /** A pipeline of the plan; without a profile it takes complete records. */
  datatype PipelineInfo = PipelineInfo(
    id: string,
    profile: Option<Profile>,
    decodes: bool,
    encodes: bool)

  datatype Limits = Limits(bindings: nat, channels: nat, identityBytes: nat, accountedBytes: nat)

  /** What the parts of a session are charged with: sizes of objects, and the plan's layout. */
  datatype Sizes = Sizes(
    base: nat,
    binding: nat,
    channel: nat,
    workspace: nat,
    workspaceBuffers: nat,
    fieldsPerMessage: nat,
    decodedField: nat,
    encodedField: nat,
    maxFrame: nat)

  /** What a session is opened with, apart from its bindings. */
  datatype Setup = Setup(
    plan: nat,
    codec: (nat, bytes) -> CodecStatus,
    pipelines: seq<PipelineInfo>,
    limits: Limits,
    sizes: Sizes,
    framerOverhead: nat,
    framerDefaults: Framing.Limits)

  ghost predicate AllFrozen(pipelines: seq<PipelineInfo>) {
    forall p | p in pipelines :: p.profile.Some? ==> Frozen(p.profile.value)
  }

  function TotalStreams(specs: seq<BindingSpec>): nat {
    if specs == [] then 0
    else TotalStreams(specs[..|specs| - 1]) + specs[|specs| - 1].streams
  }

  /** The pipeline of that name. */
  function PipelineNamed(pipelines: seq<PipelineInfo>, id: string): (r: Option<nat>)
    ensures r.Some? ==> r.value < |pipelines| && pipelines[r.value].id == id
    ensures r == None ==> forall p | p in pipelines :: p.id != id
  {
    if pipelines == [] then None
    else if pipelines[|pipelines| - 1].id == id then Some(|pipelines| - 1)
    else PipelineNamed(pipelines[..|pipelines| - 1], id)
  }

  // ---------------------------------------------------------------- the rules, memory apart

  function Smaller(a: nat, b: nat): nat {
    if a < b then a else b
  }

  /** The memory a framer may have, whatever the session has left. */
  function EngineLimit(setup: Setup, spec: BindingSpec): nat {
    if spec.framingLimits.sessionBytes == 0
    then Smaller(setup.framerDefaults.sessionBytes, Framing.HARD_LIMITS.sessionBytes)
    else spec.framingLimits.sessionBytes
  }

  function FramerStatus(setup: Setup, spec: BindingSpec, profile: Profile, bytes: nat): Status {
    if spec.framingLimits.sessionBytes > Framing.HARD_LIMITS.sessionBytes then LimitExceeded
    else
      match Framing.CreationStatus(profile, setup.framerOverhead, setup.framerDefaults,
                                   spec.framingLimits.(sessionBytes := bytes))
      case Ok => Ok
      case LimitExceeded => LimitExceeded
      case _ => Unsupported
  }

  /** Why a channel of a binding cannot be opened, if it cannot. */
  function ChannelStatus(setup: Setup, spec: BindingSpec, pipeline: PipelineInfo): Status {
    if spec.action.Encode? || pipeline.profile == None then Ok
    else FramerStatus(setup, spec, pipeline.profile.value, EngineLimit(setup, spec))
  }

  /** Why a binding is refused before its channels are opened, if it is. */
  function KeyStatus(setup: Setup, earlier: seq<BindingSpec>, spec: BindingSpec): (s: Status)
    ensures s == Ok ==> PipelineNamed(setup.pipelines, spec.pipeline).Some?
  {
    var named := PipelineNamed(setup.pipelines, spec.pipeline);
    if spec.endpoint == [] || spec.pipeline == [] || (spec.action.Encode? && spec.streams != 1)
    then InvalidBinding
    else if |spec.endpoint| > setup.limits.identityBytes
            || |spec.pipeline| > setup.limits.identityBytes
    then LimitExceeded
    else if exists e | e in earlier :: e.endpoint == spec.endpoint && e.action == spec.action
    then InvalidBinding
    else if named == None then InvalidBinding
    else
      var pipeline := setup.pipelines[named.value];
      if !(if spec.action.Decode? then pipeline.decodes else pipeline.encodes) then Unsupported
      else Ok
  }

  /** The pipeline of an accepted binding. */
  function PipelineOf(setup: Setup, spec: BindingSpec): PipelineInfo
    requires PipelineNamed(setup.pipelines, spec.pipeline).Some?
  {
    setup.pipelines[PipelineNamed(setup.pipelines, spec.pipeline).value]
  }

  /** Nothing but memory can stand in the way of the bindings. */
  predicate Permitted(setup: Setup, specs: seq<BindingSpec>) {
    specs == [] ||
    var n := |specs| - 1;
    && Permitted(setup, specs[..n]) && KeyStatus(setup, specs[..n], specs[n]) == Ok
    && ChannelStatus(setup, specs[n], PipelineOf(setup, specs[n])) == Ok
  }

  predicate WithinLimits(limits: Limits, specs: seq<BindingSpec>) {
    && |specs| <= limits.bindings <= 64 && limits.channels <= MAX_CHANNELS
    && limits.identityBytes <= 256 && limits.accountedBytes <= 64 * 1024 * 1024
    && (forall spec | spec in specs :: spec.streams > 0) && TotalStreams(specs) <= limits.channels
  }

  // ---------------------------------------------------------------- the account

  /** How far opening has come: the first refusal, or what has been charged. */
  datatype Account = Account(status: Status, used: nat)

  function Afford(setup: Setup, a: Account, amount: nat): Account {
    if a.status != Ok then a
    else if a.used + amount > setup.limits.accountedBytes then Account(LimitExceeded, a.used)
    else Account(Ok, a.used + amount)
  }

  /** A framer gets at most what is left of the session's memory. */
  function FramerAccount(setup: Setup, spec: BindingSpec, pipeline: PipelineInfo, a: Account)
    : Account
  {
    if a.status != Ok || pipeline.profile == None then a
    else if a.used >= setup.limits.accountedBytes then Account(LimitExceeded, a.used)
    else
      var remaining := setup.limits.accountedBytes - a.used;
      var status := FramerStatus(setup, spec, pipeline.profile.value,
                                 Smaller(EngineLimit(setup, spec), remaining));
      if status != Ok then Account(status, a.used)
      else Afford(setup, a, setup.framerOverhead + pipeline.profile.value.FrameCapacity())
  }

  function ChannelAccount(setup: Setup, spec: BindingSpec, pipeline: PipelineInfo, used: nat)
    : Account
  {
    var z := setup.sizes;
    var a := Afford(setup, Afford(setup, Account(Ok, used), z.workspace), z.workspaceBuffers);
    if spec.action.Encode?
    then Afford(setup, Afford(setup, a, z.maxFrame), z.fieldsPerMessage * z.encodedField)
    else FramerAccount(setup, spec, pipeline, Afford(setup, a, z.fieldsPerMessage * z.decodedField))
  }

  function StreamsAccount(setup: Setup, spec: BindingSpec, pipeline: PipelineInfo, used: nat, n: nat)
    : Account
  {
    if n == 0 then Account(Ok, used)
    else
      var before := StreamsAccount(setup, spec, pipeline, used, n - 1);
      if before.status != Ok then before
      else ChannelAccount(setup, spec, pipeline, before.used)
  }

  /** A binding after the earlier ones. */
  function BindingAccount(setup: Setup, earlier: seq<BindingSpec>, spec: BindingSpec, used: nat)
    : Account
  {
    var refusal := KeyStatus(setup, earlier, spec);
    if refusal != Ok then Account(refusal, used)
    else
      var a := Afford(setup, Account(Ok, used), |spec.endpoint| + 1);
      if a.status != Ok then a
      else StreamsAccount(setup, spec, PipelineOf(setup, spec), a.used, spec.streams)
  }

  /** The first refusal among the bindings, or the whole account. */
  function BindingsAccount(setup: Setup, start: nat, specs: seq<BindingSpec>): Account {
    if specs == [] then Account(Ok, start)
    else
      var n := |specs| - 1;
      var before := BindingsAccount(setup, start, specs[..n]);
      if before.status != Ok then before
      else BindingAccount(setup, specs[..n], specs[n], before.used)
  }

  /** The session object itself, and the tables of bindings and channels. */
  function TablesAccount(setup: Setup, specs: seq<BindingSpec>): Account {
    var bindings := Afford(setup, Account(Ok, setup.sizes.base), |specs| * setup.sizes.binding);
    Afford(setup, bindings, TotalStreams(specs) * setup.sizes.channel)
  }

  function CreateAccount(setup: Setup, specs: seq<BindingSpec>): Account {
    if specs == [] then Account(InvalidArgument, 0)
    else if !WithinLimits(setup.limits, specs) then Account(LimitExceeded, 0)
    else
      var tables := TablesAccount(setup, specs);
      if tables.status != Ok then tables else BindingsAccount(setup, tables.used, specs)
  }

  // ---------------------------------------------------------------- what a session costs

  function ChannelCost(setup: Setup, spec: BindingSpec, pipeline: PipelineInfo): nat {
    var z := setup.sizes;
    z.workspace + z.workspaceBuffers
    + if spec.action.Encode? then z.maxFrame + z.fieldsPerMessage * z.encodedField
      else
        z.fieldsPerMessage * z.decodedField
        + match pipeline.profile
          case None => 0
          case Some(profile) => setup.framerOverhead + profile.FrameCapacity()
  }

  function BindingCost(setup: Setup, spec: BindingSpec): nat {
    |spec.endpoint| + 1
    + match PipelineNamed(setup.pipelines, spec.pipeline)
      case None => 0
      case Some(p) => spec.streams * ChannelCost(setup, spec, setup.pipelines[p])
  }

  function BindingsCost(setup: Setup, specs: seq<BindingSpec>): nat {
    if specs == [] then 0
    else BindingsCost(setup, specs[..|specs| - 1]) + BindingCost(setup, specs[|specs| - 1])
  }

  function SessionCost(setup: Setup, specs: seq<BindingSpec>): nat {
    setup.sizes.base
    + |specs| * setup.sizes.binding + TotalStreams(specs) * setup.sizes.channel
    + BindingsCost(setup, specs)
  }

  /** A framer that gets what is left is created exactly if it may be and fits what is left. */
  lemma FramerAffordable(setup: Setup, spec: BindingSpec, pipeline: PipelineInfo, a: Account)
    requires AllFrozen(setup.pipelines) && pipeline in setup.pipelines && a.status == Ok
    requires pipeline.profile.Some?
    ensures var bytes := setup.framerOverhead + pipeline.profile.value.FrameCapacity();
            var b := FramerAccount(setup, spec, pipeline, a);
            && (b.status == Ok <==>
                  FramerStatus(setup, spec, pipeline.profile.value, EngineLimit(setup, spec)) == Ok
                  && a.used + bytes <= setup.limits.accountedBytes)
            && (b.status == Ok ==> b.used == a.used + bytes)
  {
    var profile := pipeline.profile.value;
    assert Frozen(profile);
    assert profile.FrameCapacity() >= 1;
  }

  lemma ChannelAffordable(setup: Setup, spec: BindingSpec, pipeline: PipelineInfo, used: nat)
    requires AllFrozen(setup.pipelines) && pipeline in setup.pipelines
    ensures var a := ChannelAccount(setup, spec, pipeline, used);
            && (a.status == Ok <==>
                  ChannelStatus(setup, spec, pipeline) == Ok
                  && used + ChannelCost(setup, spec, pipeline) <= setup.limits.accountedBytes)
            && (a.status == Ok ==> a.used == used + ChannelCost(setup, spec, pipeline))
  {
    hide FramerAccount, FramerStatus, AllFrozen;
    var z := setup.sizes;
    NonNegative(z.fieldsPerMessage, z.encodedField);
    NonNegative(z.fieldsPerMessage, z.decodedField);
    if spec.action.Decode? {
      var a := Afford(setup, Afford(setup, Account(Ok, used), z.workspace), z.workspaceBuffers);
      var b := Afford(setup, a, z.fieldsPerMessage * z.decodedField);
      if pipeline.profile.Some? && b.status == Ok {
        FramerAffordable(setup, spec, pipeline, b);
      } else {
        FramerPasses(setup, spec, pipeline, b);
      }
    }
  }

  lemma FramerPasses(setup: Setup, spec: BindingSpec, pipeline: PipelineInfo, a: Account)
    requires a.status != Ok || pipeline.profile == None
    ensures FramerAccount(setup, spec, pipeline, a) == a
  {
  }

  lemma {:induction false} StreamsAffordable(setup: Setup, spec: BindingSpec,
                                             pipeline: PipelineInfo, used: nat, n: nat)
    requires AllFrozen(setup.pipelines) && pipeline in setup.pipelines && n > 0
    ensures var a := StreamsAccount(setup, spec, pipeline, used, n);
            && (a.status == Ok <==>
                  ChannelStatus(setup, spec, pipeline) == Ok
                  && used + n * ChannelCost(setup, spec, pipeline) <= setup.limits.accountedBytes)
            && (a.status == Ok ==> a.used == used + n * ChannelCost(setup, spec, pipeline))
  {
    hide ChannelAccount, ChannelStatus, ChannelCost, AllFrozen;
    var cost := ChannelCost(setup, spec, pipeline);
    var before := StreamsAccount(setup, spec, pipeline, used, n - 1);
    if n > 1 {
      StreamsAffordable(setup, spec, pipeline, used, n - 1);
    }
    Distribute(n - 1, 1, cost);
    ChannelAffordable(setup, spec, pipeline, before.used);
  }

  lemma BindingAffordable(setup: Setup, earlier: seq<BindingSpec>, spec: BindingSpec, used: nat)
    requires AllFrozen(setup.pipelines) && spec.streams > 0
    ensures var a := BindingAccount(setup, earlier, spec, used);
            && (a.status == Ok <==>
                  && KeyStatus(setup, earlier, spec) == Ok
                  && ChannelStatus(setup, spec, PipelineOf(setup, spec)) == Ok
                  && used + BindingCost(setup, spec) <= setup.limits.accountedBytes)
            && (a.status == Ok ==> a.used == used + BindingCost(setup, spec))
  {
    hide KeyStatus, ChannelStatus, ChannelCost, StreamsAccount, AllFrozen;
    if KeyStatus(setup, earlier, spec) == Ok {
      var a := Afford(setup, Account(Ok, used), |spec.endpoint| + 1);
      var pipeline := PipelineOf(setup, spec);
      NonNegative(spec.streams, ChannelCost(setup, spec, pipeline));
      StreamsAffordable(setup, spec, pipeline, a.used, spec.streams);
    }
  }

  lemma {:induction false} BindingsAffordable(setup: Setup, start: nat, specs: seq<BindingSpec>)
    requires AllFrozen(setup.pipelines) && forall spec | spec in specs :: spec.streams > 0
    requires start <= setup.limits.accountedBytes
    ensures var a := BindingsAccount(setup, start, specs);
            && (a.status == Ok <==>
                  Permitted(setup, specs)
                  && start + BindingsCost(setup, specs) <= setup.limits.accountedBytes)
            && (a.status == Ok ==> a.used == start + BindingsCost(setup, specs))
  {
    hide BindingAccount, KeyStatus, ChannelStatus, BindingCost, AllFrozen;
    if specs != [] {
      var n := |specs| - 1;
      BindingsAffordable(setup, start, specs[..n]);
      BindingAffordable(setup, specs[..n], specs[n],
                        BindingsAccount(setup, start, specs[..n]).used);
    }
  }

  /**
   * The running account, with its many places to fail, comes to one comparison: a session is
   * opened exactly if the rules permit it and its cost is within the limit, and it is charged
   * with exactly that cost.
   */
  lemma OpensIfAffordable(setup: Setup, specs: seq<BindingSpec>)
    requires AllFrozen(setup.pipelines)
    ensures var a := CreateAccount(setup, specs);
            && (a.status == Ok <==>
                  && specs != [] && WithinLimits(setup.limits, specs) && Permitted(setup, specs)
                  && SessionCost(setup, specs) <= setup.limits.accountedBytes)
            && (a.status == Ok ==> a.used == SessionCost(setup, specs))
  {
    hide BindingsAccount, Permitted, BindingsCost, AllFrozen;
    NonNegative(|specs|, setup.sizes.binding);
    NonNegative(TotalStreams(specs), setup.sizes.channel);
    if specs != [] && WithinLimits(setup.limits, specs) && TablesAccount(setup, specs).status == Ok {
      BindingsAffordable(setup, TablesAccount(setup, specs).used, specs);
    }
  }

  lemma {:induction false} FirstRefusalStands(setup: Setup, start: nat, specs: seq<BindingSpec>,
                                              n: nat)
    requires n <= |specs| && BindingsAccount(setup, start, specs[..n]).status != Ok
    ensures BindingsAccount(setup, start, specs) == BindingsAccount(setup, start, specs[..n])
  {
    hide BindingAccount;
    if n < |specs| {
      var front := specs[..|specs| - 1];
      assert front[..n] == specs[..n];
      FirstRefusalStands(setup, start, front, n);
    } else {
      assert specs[..n] == specs;
    }
  }

  lemma {:induction false} StreamRefusalStands(setup: Setup, spec: BindingSpec,
                                               pipeline: PipelineInfo, used: nat, n: nat, m: nat)
    requires n <= m && StreamsAccount(setup, spec, pipeline, used, n).status != Ok
    ensures StreamsAccount(setup, spec, pipeline, used, m)
            == StreamsAccount(setup, spec, pipeline, used, n)
  {
    hide ChannelAccount;
    if n < m {
      StreamRefusalStands(setup, spec, pipeline, used, n, m - 1);
    }
  }

  // ---------------------------------------------------------------- opening

  /** The bindings say what was asked for, and divide the channels among them in order. */
  ghost predicate Mirrors(setup: Setup, specs: seq<BindingSpec>, bindings: seq<Binding>) {
    && |bindings| == |specs|
    && forall i | 0 <= i < |specs| ::
         && bindings[i].endpoint == specs[i].endpoint && bindings[i].action == specs[i].action
         && bindings[i].count == specs[i].streams
         && bindings[i].first == TotalStreams(specs[..i])
         && PipelineNamed(setup.pipelines, specs[i].pipeline) == Some(bindings[i].pipeline)
  }

  predicate AllLimited(setup: Setup, specs: seq<BindingSpec>, channels: seq<Channel>) {
    forall k | 0 <= k < |channels| ::
      channels[k].binding < |specs| && Limited(setup, specs[channels[k].binding], channels[k])
  }

  /** A channel as opened: its own binding's, not faulted, and with nothing received. */
  ghost predicate Opened(setup: Setup, bindings: seq<Binding>, c: Channel, k: nat)
    reads Parts(c)
  {
    && Ready(c, setup.plan, bindings) && !c.faulted && c.generation == 0
    && bindings[c.binding].first <= k < bindings[c.binding].first + bindings[c.binding].count
    && bindings[c.binding].pipeline < |setup.pipelines|
    && var profile := setup.pipelines[bindings[c.binding].pipeline].profile;
       if bindings[c.binding].action.Decode? && profile.Some? then
         c.framer != null && c.framer.profile == profile.value && c.framer.Look().pending == []
         && c.framer.Look().held == 0 && !c.framer.HasInternalWork()
       else
         c.framer == null
  }

  /** The framer has the limits that its binding asked for, and the defaults where it did not ask. */
  predicate Limited(setup: Setup, spec: BindingSpec, c: Channel) {
    c.framer != null ==>
      var asked, default := spec.framingLimits, setup.framerDefaults;
      && c.framer.maxSubmitBytes
         == (if asked.submitBytes != 0 then asked.submitBytes else default.submitBytes)
      && c.framer.maxFramesPerSubmit
         == (if asked.framesPerSubmit != 0 then asked.framesPerSubmit else default.framesPerSubmit)
      && c.framer.maxWorkUnits
         == (if asked.workUnits != 0 then asked.workUnits else default.workUnits)
  }

  ghost predicate AllOpened(setup: Setup, bindings: seq<Binding>, channels: seq<Channel>,
                            repr: set<object>)
    requires Within(channels, repr)
    reads repr
  {
    forall k: nat | k < |channels| :: Opened(setup, bindings, channels[k], k)
  }

  method Charge(used: nat, count: nat, width: nat, limit: nat) returns (ok: bool, total: nat)
    ensures ok <==> used + count * width <= limit
    ensures total == if ok then used + count * width else used
  {
    NonNegative(count, width);
    if used > limit {
      return false, used;
    }
    if width != 0 {
      Fits(count, width, limit - used);
      if count > (limit - used) / width {
        return false, used;
      }
    }
    return true, used + count * width;
  }

  lemma Fits(count: nat, width: nat, room: nat)
    requires width > 0
    ensures count <= room / width <==> count * width <= room
  {
    DivMod(room, width);
    if count <= room / width {
      MulMono(count, room / width, width);
    } else {
      MulMono(room / width + 1, count, width);
      Distribute(room / width, 1, width);
    }
  }

  /** One charge of an account. */
  method ChargeTo(setup: Setup, a: Account, count: nat, width: nat) returns (b: Account)
    ensures b == Afford(setup, a, count * width)
  {
    NonNegative(count, width);
    if a.status != Ok {
      return a;
    }
    var ok, total := Charge(a.used, count, width, setup.limits.accountedBytes);
    b := if ok then Account(Ok, total) else Account(LimitExceeded, a.used);
  }

  method OpenFramer(setup: Setup, spec: BindingSpec, p: nat, a: Account)
    returns (b: Account, framer: Framing.StreamFramingWorkspace?)
    requires AllFrozen(setup.pipelines) && p < |setup.pipelines|
    requires a.status == Ok && setup.pipelines[p].profile.Some?
    ensures b.status == FramerAccount(setup, spec, setup.pipelines[p], a).status
    ensures b.status == Ok ==> b == FramerAccount(setup, spec, setup.pipelines[p], a)
    ensures b.status == Ok ==>
              && framer != null && fresh(framer) && fresh(framer.buffer) && fresh(framer.inUse)
              && framer.Valid() && !framer.inUse.taken && framer.plan == setup.plan
              && framer.pipelineIndex == p && framer.profile == setup.pipelines[p].profile.value
              && framer.Pending() == [] && framer.Held() == 0 && !framer.HasInternalWork()
    ensures b.status == Ok ==>
              var asked, default := spec.framingLimits, setup.framerDefaults;
              && framer.maxSubmitBytes
                 == (if asked.submitBytes != 0 then asked.submitBytes else default.submitBytes)
              && framer.maxFramesPerSubmit
                 == (if asked.framesPerSubmit != 0 then asked.framesPerSubmit
                     else default.framesPerSubmit)
              && framer.maxWorkUnits
                 == (if asked.workUnits != 0 then asked.workUnits else default.workUnits)
  {
    hide Framing.CreationStatus, Framing.StreamFramingWorkspace.Valid,
         Framing.StreamFramingWorkspace.Pending, Framing.StreamFramingWorkspace.HasInternalWork;
    b, framer := a, null;
    if a.used >= setup.limits.accountedBytes {
      return Account(LimitExceeded, a.used), null;
    }
    var remaining := setup.limits.accountedBytes - a.used;
    if spec.framingLimits.sessionBytes > Framing.HARD_LIMITS.sessionBytes {
      return Account(LimitExceeded, a.used), null;
    }
    assert setup.pipelines[p] in setup.pipelines;
    var profile := setup.pipelines[p].profile.value;
    var overrides :=
      spec.framingLimits.(sessionBytes := Smaller(EngineLimit(setup, spec), remaining));
    var created;
    created, framer := Framing.CreateStreamFramingWorkspace(
      setup.plan, p, profile, setup.framerOverhead, setup.framerDefaults, overrides);
    if created != Framing.Ok {
      return Account(if created == Framing.LimitExceeded then LimitExceeded else Unsupported, a.used),
             framer;
    }
    b := ChargeTo(setup, a, 1, setup.framerOverhead + profile.FrameCapacity());
  }

  method OpenChannel(setup: Setup, spec: BindingSpec, bindings: seq<Binding>, k: nat, used: nat)
    returns (account: Account, channel: Channel?)
    requires AllFrozen(setup.pipelines) && bindings != []
    requires var b := bindings[|bindings| - 1];
             && b.action == spec.action && b.pipeline < |setup.pipelines|
             && b.first <= k < b.first + b.count
    ensures var expected :=
              ChannelAccount(setup, spec, setup.pipelines[bindings[|bindings| - 1].pipeline], used);
            account.status == expected.status && (account.status == Ok ==> account == expected)
    ensures account.status == Ok <==> channel != null
    ensures channel != null ==> fresh(Parts(channel)) && Opened(setup, bindings, channel, k)
    ensures channel != null ==>
              channel.binding == |bindings| - 1 && Limited(setup, spec, channel)
  {
    hide FramerAccount, Framing.StreamFramingWorkspace.Valid,
         Framing.StreamFramingWorkspace.HasInternalWork;
    var b, z := bindings[|bindings| - 1], setup.sizes;
    var framer: Framing.StreamFramingWorkspace? := null;
    channel := null;
    account := ChargeTo(setup, Account(Ok, used), 1, z.workspace);
    account := ChargeTo(setup, account, 1, z.workspaceBuffers);
    if spec.action.Decode? {
      account := ChargeTo(setup, account, z.fieldsPerMessage, z.decodedField);
      if account.status == Ok && setup.pipelines[b.pipeline].profile.Some? {
        account, framer := OpenFramer(setup, spec, b.pipeline, account);
      } else {
        FramerPasses(setup, spec, setup.pipelines[b.pipeline], account);
      }
    } else {
      account := ChargeTo(setup, account, z.maxFrame, 1);
      account := ChargeTo(setup, account, z.fieldsPerMessage, z.encodedField);
    }
    if account.status == Ok {
      channel := new Channel(|bindings| - 1, framer);
    }
  }

  /** The streams of the last binding. */
  method OpenStreams(setup: Setup, spec: BindingSpec, bindings: seq<Binding>,
                     before: seq<Channel>, used: nat, ghost repr: set<object>)
    returns (account: Account, channels: seq<Channel>, ghost repr': set<object>)
    requires AllFrozen(setup.pipelines) && bindings != [] && spec.streams > 0
    requires var b := bindings[|bindings| - 1];
             && b.action == spec.action && b.pipeline < |setup.pipelines|
             && b.first == |before| && b.count == spec.streams
    requires Within(before, repr) && Apart(before) && AllOpened(setup, bindings, before, repr)
    ensures var expected :=
              StreamsAccount(setup, spec, setup.pipelines[bindings[|bindings| - 1].pipeline], used,
                             spec.streams);
            account.status == expected.status && (account.status == Ok ==> account == expected)
    ensures fresh(repr' - repr) && repr <= repr'
    ensures account.status == Ok ==>
              && Within(channels, repr') && Apart(channels)
              && AllOpened(setup, bindings, channels, repr')
              && |channels| == |before| + spec.streams && before <= channels
              && forall k | |before| <= k < |channels| ::
                   channels[k].binding == |bindings| - 1 && Limited(setup, spec, channels[k])
  {
    hide Opened, ChannelAccount, Limited;
    ghost var pipeline := setup.pipelines[bindings[|bindings| - 1].pipeline];
    channels, repr', account := before, repr, Account(Ok, used);
    for n := 0 to spec.streams
      invariant Within(channels, repr') && Apart(channels) && |channels| == |before| + n
      invariant before <= channels
      invariant forall k | |before| <= k < |channels| ::
                  channels[k].binding == |bindings| - 1 && Limited(setup, spec, channels[k])
      invariant AllOpened(setup, bindings, channels, repr')
      invariant fresh(repr' - repr) && repr <= repr'
      invariant account.status == Ok && account == StreamsAccount(setup, spec, pipeline, used, n)
    {
      var channel;
      account, channel := OpenChannel(setup, spec, bindings, |channels|, account.used);
      if channel == null {
        StreamRefusalStands(setup, spec, pipeline, used, n + 1, spec.streams);
        return;
      }
      AppendApart(channels, channel, repr');
      channels, repr' := channels + [channel], repr' + Parts(channel);
    }
  }

  lemma AppendApart(channels: seq<Channel>, c: Channel, repr: set<object>)
    requires Within(channels, repr) && Apart(channels) && Parts(c) !! repr
    ensures Within(channels + [c], repr + Parts(c)) && Apart(channels + [c])
  {
    hide Parts;
  }

  lemma StillOpened(setup: Setup, bindings: seq<Binding>, b: Binding, channels: seq<Channel>,
                    repr: set<object>)
    requires Within(channels, repr) && AllOpened(setup, bindings, channels, repr)
    ensures AllOpened(setup, bindings + [b], channels, repr)
  {
    hide Framing.StreamFramingWorkspace.Valid, Framing.StreamFramingWorkspace.Look;
    forall k: nat | k < |channels|
      ensures Opened(setup, bindings + [b], channels[k], k)
    {
      assert Opened(setup, bindings, channels[k], k);
      assert (bindings + [b])[channels[k].binding] == bindings[channels[k].binding];
    }
  }

  lemma {:induction false} StreamsGrow(specs: seq<BindingSpec>, i: nat, j: nat)
    requires i <= j <= |specs|
    ensures TotalStreams(specs[..i]) <= TotalStreams(specs[..j])
    decreases j
  {
    if i < j {
      assert specs[..j][..j - 1] == specs[..j - 1];
      StreamsGrow(specs, i, j - 1);
    }
  }

  /** Mirrored bindings lie one after another. */
  lemma MirrorsBind(setup: Setup, specs: seq<BindingSpec>, bindings: seq<Binding>)
    requires Mirrors(setup, specs, bindings)
    requires forall i, j | 0 <= i < j < |specs| ::
               specs[i].endpoint != specs[j].endpoint || specs[i].action != specs[j].action
    ensures WellBound(bindings)
  {
    forall i, j | 0 <= i < j < |bindings|
      ensures bindings[i].first + bindings[i].count <= bindings[j].first
    {
      assert specs[..i + 1][..i] == specs[..i];
      StreamsGrow(specs, i + 1, j);
    }
  }

  /** Accepted bindings have different keys and known pipelines. */
  lemma {:induction false} AcceptedDiffer(setup: Setup, specs: seq<BindingSpec>)
    requires Permitted(setup, specs)
    ensures forall i, j | 0 <= i < j < |specs| ::
              specs[i].endpoint != specs[j].endpoint || specs[i].action != specs[j].action
  {
    if specs != [] {
      var n := |specs| - 1;
      AcceptedDiffer(setup, specs[..n]);
      forall i | 0 <= i < n
        ensures specs[i].endpoint != specs[n].endpoint || specs[i].action != specs[n].action
      {
        assert specs[i] in specs[..n];
      }
    }
  }

  method FindPipeline(pipelines: seq<PipelineInfo>, id: string) returns (r: Option<nat>)
    ensures r == PipelineNamed(pipelines, id)
  {
    r := None;
    for p := 0 to |pipelines|
      invariant r == PipelineNamed(pipelines[..p], id)
    {
      assert pipelines[..p + 1][..p] == pipelines[..p];
      if pipelines[p].id == id {
        r := Some(p);
      }
    }
    assert pipelines[..|pipelines|] == pipelines;
  }

  /** A binding, before its channels are opened. */
  method Bind(setup: Setup, earlier: seq<BindingSpec>, bindings: seq<Binding>, spec: BindingSpec,
              first: nat)
    returns (status: Status, binding: Binding)
    requires Mirrors(setup, earlier, bindings)
    ensures status == KeyStatus(setup, earlier, spec)
    ensures status == Ok ==>
              && PipelineNamed(setup.pipelines, spec.pipeline) == Some(binding.pipeline)
              && binding == Binding(spec.endpoint, spec.action, binding.pipeline, first, spec.streams)
  {
    hide PipelineNamed;
    binding := Binding(spec.endpoint, spec.action, 0, first, spec.streams);
    if spec.endpoint == [] || spec.pipeline == [] || (spec.action.Encode? && spec.streams != 1) {
      return InvalidBinding, binding;
    }
    if |spec.endpoint| > setup.limits.identityBytes
       || |spec.pipeline| > setup.limits.identityBytes {
      return LimitExceeded, binding;
    }
    for i := 0 to |bindings|
      invariant forall j | 0 <= j < i ::
                  earlier[j].endpoint != spec.endpoint || earlier[j].action != spec.action
    {
      if bindings[i].endpoint == spec.endpoint && bindings[i].action == spec.action {
        assert earlier[i] in earlier;
        return InvalidBinding, binding;
      }
    }
    var named := FindPipeline(setup.pipelines, spec.pipeline);
    if named == None {
      return InvalidBinding, binding;
    }
    var pipeline := setup.pipelines[named.value];
    if !(if spec.action.Decode? then pipeline.decodes else pipeline.encodes) {
      return Unsupported, binding;
    }
    status, binding := Ok, binding.(pipeline := named.value);
  }

  /** Binding by binding: the channels so far, or the first refusal. */
  method OpenBindings(setup: Setup, specs: seq<BindingSpec>, start: nat)
    returns (account: Account, bindings: seq<Binding>, channels: seq<Channel>,
             ghost repr: set<object>)
    requires AllFrozen(setup.pipelines) && forall spec | spec in specs :: spec.streams > 0
    ensures account.status == BindingsAccount(setup, start, specs).status
    ensures account.status == Ok ==> account == BindingsAccount(setup, start, specs)
    ensures fresh(repr) && Within(channels, repr)
    ensures account.status == Ok ==>
              && Mirrors(setup, specs, bindings) && |channels| == TotalStreams(specs)
              && Apart(channels) && AllOpened(setup, bindings, channels, repr)
              && AllLimited(setup, specs, channels)
  {
    hide Limited, AllLimited, AllOpened, KeyStatus, StreamsAccount, PipelineNamed, Apart, Mirrors;
    bindings, channels, repr, account := [], [], {}, Account(Ok, start);
    NothingOpened(setup);
    for n := 0 to |specs|
      invariant account.status == Ok && account == BindingsAccount(setup, start, specs[..n])
      invariant fresh(repr) && Within(channels, repr) && Apart(channels)
      invariant Mirrors(setup, specs[..n], bindings) && |bindings| == n
      invariant |channels| == TotalStreams(specs[..n])
      invariant AllOpened(setup, bindings, channels, repr)
      invariant AllLimited(setup, specs[..n], channels)
    {
      var spec := specs[n];
      assert spec in specs && specs[..n + 1][..n] == specs[..n];
      var status, binding := Bind(setup, specs[..n], bindings, spec, |channels|);
      if status != Ok {
        FirstRefusalStands(setup, start, specs, n + 1);
        account := Account(status, account.used);
        return;
      }
      account := ChargeTo(setup, account, |spec.endpoint| + 1, 1);
      if account.status != Ok {
        FirstRefusalStands(setup, start, specs, n + 1);
        return;
      }
      StillOpened(setup, bindings, binding, channels, repr);
      ghost var mirrored, before := bindings, channels;
      bindings := bindings + [binding];
      account, channels, repr :=
        OpenStreams(setup, spec, bindings, channels, account.used, repr);
      if account.status != Ok {
        FirstRefusalStands(setup, start, specs, n + 1);
        channels := [];
        return;
      }
      MirrorsMore(setup, specs, n, mirrored, binding);
      LimitedMore(setup, specs, n, before, channels);
    }
    assert specs[..|specs|] == specs;
  }

  lemma LimitedMore(setup: Setup, specs: seq<BindingSpec>, n: nat, before: seq<Channel>,
                    channels: seq<Channel>)
    requires n < |specs| && AllLimited(setup, specs[..n], before) && before <= channels
    requires forall k | |before| <= k < |channels| ::
               channels[k].binding == n && Limited(setup, specs[n], channels[k])
    ensures AllLimited(setup, specs[..n + 1], channels)
  {
    hide Limited;
    forall k | 0 <= k < |channels|
      ensures channels[k].binding < n + 1
              && Limited(setup, specs[..n + 1][channels[k].binding], channels[k])
    {
      if k < |before| {
        assert channels[k] == before[k];
      }
    }
  }

  lemma NothingOpened(setup: Setup)
    ensures Apart([]) && Within([], {}) && Mirrors(setup, [], []) && AllOpened(setup, [], [], {})
    ensures AllLimited(setup, [], [])
  {
  }

  lemma MirrorsMore(setup: Setup, specs: seq<BindingSpec>, n: nat, bindings: seq<Binding>,
                    b: Binding)
    requires n < |specs| && Mirrors(setup, specs[..n], bindings)
    requires PipelineNamed(setup.pipelines, specs[n].pipeline) == Some(b.pipeline)
    requires b == Binding(specs[n].endpoint, specs[n].action, b.pipeline,
                          TotalStreams(specs[..n]), specs[n].streams)
    ensures Mirrors(setup, specs[..n + 1], bindings + [b])
  {
    hide PipelineNamed, TotalStreams;
    var all := specs[..n + 1];
    assert all[..n] == specs[..n];
    forall i | 0 <= i < n
      ensures all[..i] == specs[..n][..i] && all[i] == specs[..n][i]
    {
    }
  }

  /**
   * Opening a session. It succeeds exactly when nothing is refused and its cost is within the
   * limit; then every requested key names its own channel, every channel has a key, no channel has
   * seen anything yet, and the session accounts for exactly its cost.
   */
  method CreateSession(setup: Setup, specs: seq<BindingSpec>)
    returns (status: Status, session: Session?)
    requires AllFrozen(setup.pipelines)
    ensures status == CreateAccount(setup, specs).status
    ensures status == Ok <==>
            && specs != [] && WithinLimits(setup.limits, specs) && Permitted(setup, specs)
            && SessionCost(setup, specs) <= setup.limits.accountedBytes
    ensures status == Ok <==> session != null
    ensures session != null ==>
              && fresh(session) && fresh(session.repr) && session.Valid() && !session.busy
              && session.plan == setup.plan && session.codec == setup.codec
              && session.accounted == SessionCost(setup, specs)
              && Mirrors(setup, specs, session.bindings)
              && |session.channels| == TotalStreams(specs)
              && AllOpened(setup, session.bindings, session.channels, session.repr)
    // every framer has what its binding asked for, or the default
    ensures session != null ==> AllLimited(setup, specs, session.channels)
    ensures session != null ==>
              forall k | 0 <= k < |session.channels| && session.channels[k].framer != null ::
                && session.channels[k].binding < |specs|
                && var asked := specs[session.channels[k].binding].framingLimits;
                   var default, framer := setup.framerDefaults, session.channels[k].framer;
                   && framer.maxSubmitBytes
                      == (if asked.submitBytes != 0 then asked.submitBytes else default.submitBytes)
                   && framer.maxFramesPerSubmit
                      == (if asked.framesPerSubmit != 0 then asked.framesPerSubmit
                          else default.framesPerSubmit)
                   && framer.maxWorkUnits
                      == (if asked.workUnits != 0 then asked.workUnits else default.workUnits)
  {
    hide Opened, BindingsAccount, Apart, WellBound, Permitted, SessionCost, Mirrors;
    OpensIfAffordable(setup, specs);
    session := null;
    if specs == [] {
      return InvalidArgument, null;
    }
    var total := CountStreams(specs, setup.limits.channels);
    if |specs| > setup.limits.bindings || setup.limits.bindings > 64
       || setup.limits.channels > MAX_CHANNELS || setup.limits.identityBytes > 256
       || setup.limits.accountedBytes > 64 * 1024 * 1024 || !total {
      return LimitExceeded, null;
    }
    var account := ChargeTo(setup, Account(Ok, setup.sizes.base), |specs|,
                             setup.sizes.binding);
    account := ChargeTo(setup, account, TotalStreams(specs), setup.sizes.channel);
    if account.status != Ok {
      return account.status, null;
    }
    var bindings, channels;
    ghost var repr;
    account, bindings, channels, repr := OpenBindings(setup, specs, account.used);
    status := account.status;
    if status == Ok {
      AcceptedDiffer(setup, specs);
      MirrorsBind(setup, specs, bindings);
      OpenedReady(setup, bindings, channels, repr);
      session := new Session(setup.plan, setup.codec, bindings, channels, account.used, repr);
    }
  }

  /**
   * In a session opened for `specs`, a chunk is refused exactly if it is longer than its binding's
   * submit limit: the one asked for, or the default.
   */
  method PushOpened(setup: Setup, specs: seq<BindingSpec>, s: Session, h: Handle, input: bytes,
                    host: Callbacks)
    returns (r: Result, delivered: seq<bytes>)
    requires s.Valid() && AllLimited(setup, specs, s.channels)
    requires s.Refused(h, true) == None
    requires input != [] || s.channels[h.channel].framer.HasInternalWork()
    modifies s`busy, s.repr
    ensures s.Valid() && h.channel < |s.channels| && s.channels[h.channel].binding < |specs|
    ensures var asked := specs[s.channels[h.channel].binding].framingLimits.submitBytes;
            var limit := if asked != 0 then asked else setup.framerDefaults.submitBytes;
            if |input| > limit then
              r.status == FramingFailed && r.framing.apiStatus == Framing.LimitExceeded
              && s.channels[h.channel].faulted && delivered == []
            else r.status != FramingFailed && r.framing.apiStatus == Framing.Ok
  {
    hide Ready, WellBound, Apart, Steps;
    r, delivered := s.Push(h, input, Some(host));
  }

  lemma OpenedReady(setup: Setup, bindings: seq<Binding>, channels: seq<Channel>,
                    repr: set<object>)
    requires Within(channels, repr) && AllOpened(setup, bindings, channels, repr)
    ensures forall k | 0 <= k < |channels| :: Ready(channels[k], setup.plan, bindings)
  {
    hide Ready;
    forall k | 0 <= k < |channels|
      ensures Ready(channels[k], setup.plan, bindings)
    {
      assert Opened(setup, bindings, channels[k], k);
    }
  }

  /** No binding without streams, and no more streams than allowed. */
  method CountStreams(specs: seq<BindingSpec>, limit: nat) returns (ok: bool)
    ensures ok == ((forall spec | spec in specs :: spec.streams > 0) && TotalStreams(specs) <= limit)
  {
    var total := 0;
    for n := 0 to |specs|
      invariant total == TotalStreams(specs[..n]) <= limit
      invariant forall spec | spec in specs[..n] :: spec.streams > 0
    {
      assert specs[n] in specs && specs[..n + 1][..n] == specs[..n];
      assert specs[..n + 1] == specs[..n] + [specs[n]];
      if specs[n].streams == 0 || specs[n].streams > limit - total {
        StreamsGrow(specs, n + 1, |specs|);
        assert specs[..|specs|] == specs;
        return false;
      }
      total := total + specs[n].streams;
    }
    assert specs[..|specs|] == specs;
    ok := true;
  }

  /** Every requested key names a channel, and only the requested ones do. */
  lemma RequestedAreNamed(setup: Setup, specs: seq<BindingSpec>, bindings: seq<Binding>,
                          endpoint: string, action: Action, stream: nat)
    requires Mirrors(setup, specs, bindings)
    ensures (exists channel :: Names(bindings, endpoint, action, stream, channel))
            <==> (exists spec | spec in specs ::
                    spec.endpoint == endpoint && spec.action == action && stream < spec.streams)
  {
    if channel :| Names(bindings, endpoint, action, stream, channel) {
      var i :| 0 <= i < |bindings| && Matches(bindings[i], endpoint, action, stream)
               && channel == bindings[i].first + stream;
      assert specs[i] in specs;
    }
    if spec :| spec in specs && spec.endpoint == endpoint && spec.action == action
               && stream < spec.streams {
      var i :| 0 <= i < |specs| && specs[i] == spec;
      assert Matches(bindings[i], endpoint, action, stream);
      assert Names(bindings, endpoint, action, stream, bindings[i].first + stream);
    }
  }

  /** Every channel has a key. */
  lemma OpenedNames(setup: Setup, bindings: seq<Binding>, channels: seq<Channel>,
                    repr: set<object>, k: nat)
    requires Within(channels, repr) && AllOpened(setup, bindings, channels, repr)
    requires k < |channels|
    ensures exists endpoint, action, stream: nat :: Names(bindings, endpoint, action, stream, k)
  {
    assert Opened(setup, bindings, channels[k], k);
    var b := bindings[channels[k].binding];
    assert Matches(b, b.endpoint, b.action, k - b.first);
    assert Names(bindings, b.endpoint, b.action, k - b.first, k);
  }
}
