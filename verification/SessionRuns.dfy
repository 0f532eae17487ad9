/**
 * A whole stream through a session: framer and codec together give what the naive parser and the
 * codec give, however the host cuts the stream.
 */
module SessionRuns {
  import opened Bytes
  import opened FramingSpec
  import opened Session
  import Framing = StreamFramer
  import FramerRuns

  /** A host whose callbacks always return; they may stop the submission. */
  ghost predicate Returns(host: Callbacks) {
    && (host.observe.Some? ==> forall k: nat, frame: bytes :: host.observe.value(k, frame) != Throw)
    && forall k: nat, frame: bytes :: host.deliver(k, frame) != Throw
  }

  lemma {:induction false} DecodedSum(decode: bytes -> CodecStatus, f: seq<bytes>, g: seq<bytes>)
    ensures Decoded(decode, f + g) == Decoded(decode, f) + Decoded(decode, g)
  {
    if g == [] {
      assert f + g == f;
    } else {
      var n := |g| - 1;
      assert (f + g)[..|f + g| - 1] == f + g[..n];
      DecodedSum(decode, f, g[..n]);
    }
  }

  /** A push to a host that returns leaves the channel sound and loses no decoded frame. */
  lemma NoFault(decode: bytes -> CodecStatus, host: Callbacks, frames: seq<bytes>, r: Result,
                faulted: bool)
    requires Returns(host) && Counted(decode, host, frames, r, faulted)
    ensures !faulted && r.successfulOutputs == |Decoded(decode, frames)|
  {
  }

  /** The stream channel `h`, between submissions. */
  ghost predicate Listening(s: Session, h: Handle, p: Profile)
    reads s, s.repr
  {
    && s.Valid() && !s.busy && s.Has(h) && !s.channels[h.channel].faulted
    && s.bindings[s.channels[h.channel].binding].action == Action.Decode
    && s.channels[h.channel].framer != null && s.channels[h.channel].framer.profile == p
    && ValidateStreamFramingLocal(p)
  }

  /** Where a stream stands: everything so far is parsed, decoded and accounted for. */
  ghost predicate Standing(s: Session, h: Handle, p: Profile, v0: Framing.View, consumed: bytes,
                           frames: seq<bytes>, outputs: nat, v: Framing.View)
    requires ValidateStreamFramingLocal(p)
    reads s, s.repr
  {
    && Listening(s, h, p)
    && var c := s.channels[h.channel];
       && v == c.framer.Look()
       && FramerRuns.Ran(p, v0, consumed, frames, v) && Framing.Settled(p, v)
       && outputs == |Decoded(s.Decoder(c), frames)|
  }

  /** One submission that the framer accepts. */
  method PushPiece(s: Session, h: Handle, piece: bytes, host: Callbacks, ghost p: Profile)
    returns (n: nat, delivered: seq<bytes>, outputs: nat, internal: bool)
    requires Listening(s, h, p) && Returns(host)
    requires |piece| <= s.channels[h.channel].framer.maxSubmitBytes
    requires piece != [] || s.channels[h.channel].framer.HasInternalWork()
    modifies s, s.repr
    ensures Listening(s, h, p) && n <= |piece|
    ensures var before, after :=
              old(s.channels[h.channel].framer.Look()), s.channels[h.channel].framer.Look();
            && FramerRuns.Ran(p, before, piece[..n], delivered, after)
            && Framing.Settled(p, after) && Framing.Closer(before, 0, after, n)
            && internal == after.internal
    ensures outputs == |Decoded(s.Decoder(s.channels[h.channel]), delivered)|
  {
    hide FramerRuns.Ran, Framing.Settled, Framing.Closer, Counted, Steps, Ready, Returns, Apart;
    hide Framing.Accounts, Framing.SinkObeyed;
    ghost var c := s.channels[h.channel];
    ghost var before := c.framer.Look();
    var r;
    r, delivered := s.Push(h, piece, Some(host));
    var framer := s.channels[h.channel].framer;
    NoFault(s.Decoder(c), host, delivered, r, c.faulted);
    n, outputs, internal := r.framing.bytesConsumed, r.successfulOutputs, framer.HasInternalWork();
    FramerRuns.SubmittedRan(p, framer.maxWorkUnits, framer.maxFramesPerSubmit,
                            Answer(s.Decoder(c), host), piece, before, c.framer.Look(), r.framing,
                            delivered);
  }

  method Resubmit(s: Session, h: Handle, remaining: bytes, host: Callbacks, ghost p: Profile,
                  ghost v0: Framing.View, ghost consumed: bytes, frames: seq<bytes>,
                  outputs: nat, ghost v: Framing.View)
    returns (n: nat, all: seq<bytes>, outputs': nat, internal: bool, ghost v': Framing.View)
    requires ValidateStreamFramingLocal(p) && Returns(host)
    requires Standing(s, h, p, v0, consumed, frames, outputs, v)
    requires remaining != [] || v.internal
    modifies s, s.repr
    ensures n <= |remaining|
    ensures Standing(s, h, p, v0, consumed + remaining[..n], all, outputs', v')
    ensures Framing.Closer(v, 0, v', n) && internal == v'.internal
  {
    hide FramerRuns.Ran, Framing.Settled, Framing.Closer, Returns, Apart, Ready, WellBound, Decoded;
    var framer := s.channels[h.channel].framer;
    FramerConfigured(s, h, p);
    var piece :=
      if |remaining| <= framer.maxSubmitBytes then remaining else remaining[..framer.maxSubmitBytes];
    var delivered, more;
    n, delivered, more, internal := PushPiece(s, h, piece, host, p);
    v' := framer.Look();
    all, outputs' := frames + delivered, outputs + more;
    DecodedSum(s.Decoder(s.channels[h.channel]), frames, delivered);
    assert piece[..n] == remaining[..n];
    FramerRuns.RanThen(p, v0, consumed, frames, v, piece[..n], delivered, v');
  }

  lemma FramerConfigured(s: Session, h: Handle, p: Profile)
    requires Listening(s, h, p)
    ensures s.channels[h.channel].framer.maxSubmitBytes >= 1
  {
    assert Ready(s.channels[h.channel], s.plan, s.bindings);
  }

  method HasInternalWork(s: Session, h: Handle, ghost p: Profile, ghost v0: Framing.View,
                         ghost consumed: bytes, ghost frames: seq<bytes>, ghost outputs: nat,
                         ghost v: Framing.View)
    returns (internal: bool)
    requires ValidateStreamFramingLocal(p)
    requires Standing(s, h, p, v0, consumed, frames, outputs, v)
    ensures internal == v.internal
  {
    internal := s.channels[h.channel].framer.HasInternalWork();
  }

  /** One chunk, resubmitted until it is consumed and no internal work is left. */
  method ReceiveChunk(s: Session, h: Handle, chunk: bytes, hosts: nat -> Callbacks,
                      ghost p: Profile, ghost v0: Framing.View, ghost before: bytes,
                      frames: seq<bytes>, outputs: nat, ghost v: Framing.View)
    returns (all: seq<bytes>, outputs': nat, ghost v': Framing.View)
    requires ValidateStreamFramingLocal(p) && (forall call :: Returns(hosts(call)))
    requires Standing(s, h, p, v0, before, frames, outputs, v)
    modifies s, s.repr
    ensures Standing(s, h, p, v0, before + chunk, all, outputs', v') && !v'.internal
  {
    hide Standing, Returns;
    var remaining, calls := chunk, 0;
    var internal := HasInternalWork(s, h, p, v0, before, frames, outputs, v);
    ghost var consumed := before;
    all, outputs', v' := frames, outputs, v;
    while remaining != [] || internal
      invariant consumed + remaining == before + chunk
      invariant Standing(s, h, p, v0, consumed, all, outputs', v') && internal == v'.internal
      decreases |remaining|, |v'.pending|, v'.phase, v'.left
    {
      var n;
      n, all, outputs', internal, v' :=
        Resubmit(s, h, remaining, hosts(calls), p, v0, consumed, all, outputs', v');
      consumed, remaining := consumed + remaining[..n], remaining[n..];
      calls := calls + 1;
    }
    assert consumed == before + chunk;
  }

  /**
   * A whole stream into a fresh stream channel: whatever the chunks, and whatever callbacks stop,
   * the candidates are the naive parser's frames, and what the codec accepts of them is delivered,
   * each once.
   */
  method ReceiveStream(s: Session, h: Handle, chunks: seq<bytes>, hosts: (nat, nat) -> Callbacks)
    returns (frames: seq<bytes>, outputs: nat)
    requires Fresh(s, h)
    requires forall i, call :: Returns(hosts(i, call))
    modifies s, s.repr
    ensures s.Valid() && !s.busy && !s.channels[h.channel].faulted
    ensures ValidateStreamFramingLocal(s.channels[h.channel].framer.profile)
    ensures frames == ParseStream(s.channels[h.channel].framer.profile, Concat(chunks))
    ensures outputs == |Decoded(s.Decoder(s.channels[h.channel]), frames)|
  {
    ghost var p, v0 := StartStanding(s, h);
    hide Standing, Returns;
    ghost var v := v0;
    frames, outputs := [], 0;
    for i := 0 to |chunks|
      invariant Standing(s, h, p, v0, Concat(chunks[..i]), frames, outputs, v) && !v.internal
    {
      frames, outputs, v := ReceiveChunk(s, h, chunks[i], (call: nat) => hosts(i, call), p, v0,
                                         Concat(chunks[..i]), frames, outputs, v);
      assert chunks[..i + 1] == chunks[..i] + [chunks[i]];
      ConcatAppend(chunks[..i], chunks[i]);
    }
    assert chunks[..|chunks|] == chunks;
    EndStanding(s, h, p, v0, Concat(chunks), frames, outputs, v);
  }

  /** A stream channel that has seen nothing yet. */
  ghost predicate Fresh(s: Session, h: Handle)
    reads s, s.repr
  {
    && s.Valid() && !s.busy && s.Has(h) && s.channels[h.channel].framer != null
    && !s.channels[h.channel].faulted
    && var v := s.channels[h.channel].framer.Look();
       v.pending == [] && v.held == 0 && !v.internal
  }

  lemma StartStanding(s: Session, h: Handle) returns (p: Profile, v: Framing.View)
    requires Fresh(s, h)
    ensures ValidateStreamFramingLocal(p)
    ensures Standing(s, h, p, v, [], [], 0, v) && !v.internal && v.pending == []
  {
    hide FramerRuns.Ran, Decide;
    assert Ready(s.channels[h.channel], s.plan, s.bindings);
    p, v := s.channels[h.channel].framer.profile, s.channels[h.channel].framer.Look();
    FramerRuns.RanNowhere(p, v);
    FramerRuns.EmptyWaits(p);
  }

  lemma EndStanding(s: Session, h: Handle, p: Profile, v0: Framing.View, stream: bytes,
                    frames: seq<bytes>, outputs: nat, v: Framing.View)
    requires ValidateStreamFramingLocal(p) && v0.pending == [] && !v.internal
    requires Standing(s, h, p, v0, stream, frames, outputs, v)
    ensures s.Valid() && !s.busy && !s.channels[h.channel].faulted
    ensures s.channels[h.channel].framer != null && p == s.channels[h.channel].framer.profile
    ensures frames == ParseStream(p, stream)
    ensures outputs == |Decoded(s.Decoder(s.channels[h.channel]), frames)|
  {
    FramerRuns.Settles(p, stream, frames, FramerRuns.Passed(v0, v), v.pending);
  }
}
