/**
 * What a stream costs: the work units of every step that framing a stream takes, as a function of
 * the stream alone, and what is still owed at any point on the way.
 */
module FramingWork {
  import opened Bytes
  import opened Kmp
  import opened FramingSpec

  // ---------------------------------------------------------------- a whole stream

  /** How much of the sync sequence a text ends with. */
  ghost function Matched(p: Profile, t: bytes): (m: nat)
    ensures m == Longest(p.sync, t) && m <= |t| && m <= |p.sync|
  {
    LongestShort(p.sync, t);
    Longest(p.sync, t)
  }

  /** The search goes on over `s` with `m` bytes of the sync sequence matched. */
  ghost function SearchWork(p: Profile, m: nat, s: bytes): int
    requires ValidateStreamFramingLocal(p) && p.SearchesSync() && m < |p.sync|
    decreases m + |s|, 2, |s|
  {
    if s == [] then 0
    else
      var n := Matched(p, p.sync[..m] + [s[0]]);
      StepPrice(p.sync, m, s[0])
      + if n < |p.sync| then SearchWork(p, n, s[1..])
        else |p.sync| + CandidateWork(p, p.sync + s[1..], |p.sync|)
  }

  /** A candidate starts at the front of `s`; its first `h` bytes are in the buffer. */
  ghost function CandidateWork(p: Profile, s: bytes, h: nat): int
    requires ValidateStreamFramingLocal(p) && p.SearchesSync() && |p.sync| <= |s|
    decreases |s|, 1, 0
  {
    if p.strategy == SyncFixedLength then CollectWork(p, s, h, p.frameLength)
    else if |s| < p.HeaderEnd() then 2 * (|s| - h)
    else
      var declared := DeclaredLength(p, s);
      2 * (p.HeaderEnd() - h) + p.lengthWidth
      + if p.minimum <= declared <= p.maximum then CollectWork(p, s, p.HeaderEnd(), declared)
        else RescanWork(p, s, 1)
  }

  /** A frame of `size` bytes is collected, and the search begins again behind it. */
  ghost function CollectWork(p: Profile, s: bytes, h: nat, size: nat): int
    requires ValidateStreamFramingLocal(p) && p.SearchesSync() && size > 0
    decreases |s|, 0, 0
  {
    if |s| < size then 2 * (|s| - h) else 2 * (size - h) + SearchWork(p, 0, s[size..])
  }

  /** The candidate is no frame: its buffered bytes from `i` on are searched for another header. */
  ghost function RescanWork(p: Profile, s: bytes, i: nat): int
    requires ValidateStreamFramingLocal(p) && p.strategy == SyncLengthField
    requires 1 <= i <= p.HeaderEnd() <= |s| && Matched(p, s[1..i]) < |p.sync|
    decreases |s|, 0, p.HeaderEnd() - i
  {
    hide Longest;
    var m := Matched(p, s[1..i]);
    if i == p.HeaderEnd() then SearchWork(p, m, s[i..])
    else
      StepPrice(p.sync, m, s[i])
      + if Matched(p, s[1..i + 1]) < |p.sync| then RescanWork(p, s, i + 1)
        else
          var start := i + 1 - |p.sync|;
          var size := p.HeaderEnd() - start;
          size + CandidateWork(p, s[start..], size)
  }

  /** A byte of the search costs its step; a completed sync sequence is copied, a unit a byte. */
  lemma SearchCosts(p: Profile, m: nat, b: byte, rest: bytes)
    requires ValidateStreamFramingLocal(p) && p.SearchesSync() && m < |p.sync|
    ensures SearchWork(p, m, []) == 0
    ensures var n := Longest(p.sync, p.sync[..m] + [b]);
            && (n < |p.sync| ==>
                  SearchWork(p, m, [b] + rest)
                  == StepPrice(p.sync, m, b) + SearchWork(p, n, rest))
            && (n >= |p.sync| ==>
                  SearchWork(p, m, [b] + rest)
                  == StepPrice(p.sync, m, b) + |p.sync|
                     + CandidateWork(p, p.sync + rest, |p.sync|))
  {
    hide Longest, StepPrice, CandidateWork;
    assert ([b] + rest)[1..] == rest;
  }

  /** All the work that a stream costs. */
  ghost function StreamWork(p: Profile, s: bytes): int
    requires ValidateStreamFramingLocal(p)
  {
    if p.SearchesSync() then SearchWork(p, 0, s) else 2 * |s|
  }

  // ---------------------------------------------------------------- on the way

  /** What the framer is at with its pending bytes; `left` counts bytes still to be moved. */
  datatype Stage =
    | Plain
    | Searching
    | Copying(left: nat)
    | Reading
    | Collecting(size: nat)
    | Delivering
    | Rescanning(index: nat)
    | Moving(left: nat)

  /** Where a stream stands. */
  datatype Position = Position(pending: bytes, stage: Stage)

  ghost predicate Sound(p: Profile, at: Position) {
    && ValidateStreamFramingLocal(p)
    && match at.stage
       case Plain => !p.SearchesSync()
       case Searching => p.SearchesSync() && |at.pending| < |p.sync|
       case Copying(_) => p.SearchesSync() && at.pending == p.sync
       case Reading =>
         p.strategy == SyncLengthField && |p.sync| <= |at.pending| <= p.HeaderEnd()
       case Collecting(size) => p.SearchesSync() && size > 0 && |at.pending| <= size
       case Delivering => true
       case Rescanning(i) =>
         && p.strategy == SyncLengthField && 1 <= i <= p.HeaderEnd() == |at.pending|
         && Matched(p, at.pending[1..i]) < |p.sync|
       case Moving(_) => p.strategy == SyncLengthField && |p.sync| <= |at.pending| <= p.HeaderEnd()
  }

  /** What is still to be paid when the stream goes on with `rest`. */
  ghost function Owed(p: Profile, at: Position, rest: bytes): int
    requires Sound(p, at)
  {
    var s := at.pending + rest;
    if !p.SearchesSync() then 2 * |rest|
    else match at.stage
    case Searching => SearchWork(p, |at.pending|, rest)
    case Copying(left) => left + CandidateWork(p, s, |at.pending|)
    case Reading => CandidateWork(p, s, |at.pending|)
    case Collecting(size) => CollectWork(p, s, |at.pending|, size)
    case Delivering => SearchWork(p, 0, rest)
    case Rescanning(i) => assert s[1..i] == at.pending[1..i]; RescanWork(p, s, i)
    case Moving(left) => left + CandidateWork(p, s, |at.pending|)
  }

  /** Where only more input can help, nothing is owed for the bytes in hand. */
  lemma NothingOwed(p: Profile, at: Position)
    requires Sound(p, at)
    requires at.stage.Plain? || at.stage.Searching? || at.stage.Collecting?
             || (at.stage.Reading? && |at.pending| < p.HeaderEnd())
    ensures Owed(p, at, []) == 0
  {
    hide Matched, DeclaredLength;
    var s := at.pending + [];
    assert s == at.pending;
    if at.stage.Collecting? && at.stage.size == |s| {
      assert s[|s|..] == [] && SearchWork(p, 0, s[|s|..]) == 0;
    }
  }

  /** What the next step costs, when the stream goes on with `rest`. */
  ghost function NextPrice(p: Profile, at: Position, rest: bytes): nat
    requires Sound(p, at)
  {
    match at.stage
    case Plain => 2
    case Searching => if rest == [] then 0 else StepPrice(p.sync, |at.pending|, rest[0])
    case Copying(_) => 1
    case Reading => if |at.pending| < p.HeaderEnd() then 2 else p.lengthWidth
    case Collecting(_) => 2
    case Delivering => 0
    case Rescanning(i) =>
      if i == |at.pending| then 0
      else StepPrice(p.sync, Matched(p, at.pending[1..i]), at.pending[i])
    case Moving(_) => 1
  }

  /** On the way from `before`, over the bytes `x`, to `after`, exactly `work` was paid. */
  ghost predicate Priced(p: Profile, before: Position, x: bytes, work: int, after: Position) {
    && Sound(p, before) && Sound(p, after)
    && forall rest: bytes {:trigger Future(rest)} ::
         Future(rest) ==> Owed(p, before, x + rest) == work + Owed(p, after, rest)
  }

  lemma PricedSelf(p: Profile, at: Position)
    requires Sound(p, at)
    ensures Priced(p, at, [], 0, at)
  {
    hide Owed, Sound;
    forall rest: bytes | Future(rest)
      ensures Owed(p, at, [] + rest) == Owed(p, at, rest)
    {
      assert [] + rest == rest;
    }
  }

  lemma PricedThen(p: Profile, a: Position, x: bytes, n: int, b: Position, y: bytes, k: int,
                   c: Position)
    requires Priced(p, a, x, n, b) && Priced(p, b, y, k, c)
    ensures Priced(p, a, x + y, n + k, c)
  {
    hide Owed, Sound;
    forall rest: bytes | Future(rest)
      ensures Owed(p, a, (x + y) + rest) == n + k + Owed(p, c, rest)
    {
      assert (x + y) + rest == x + (y + rest);
      assert Future(y + rest);
    }
  }

  lemma PricedStill(p: Profile, a: Position, n: int, b: Position, k: int, c: Position)
    requires Priced(p, a, [], n, b) && Priced(p, b, [], k, c)
    ensures Priced(p, a, [], n + k, c)
  {
    hide Priced;
    PricedThen(p, a, [], n, b, [], k, c);
    var none: bytes := [];
    assert none + none == none;
  }

  /** Work that takes no byte. */
  lemma PricedFree(p: Profile, before: Position, work: int, after: Position)
    requires Sound(p, before) && Sound(p, after)
    requires forall rest: bytes {:trigger Future(rest)} ::
               Future(rest) ==> Owed(p, before, rest) == work + Owed(p, after, rest)
    ensures Priced(p, before, [], work, after)
  {
    hide Owed, Sound;
    forall rest: bytes | Future(rest)
      ensures Owed(p, before, [] + rest) == work + Owed(p, after, rest)
    {
      assert [] + rest == rest;
    }
  }

  /** A byte of a stream that is not searched. */
  lemma PlainPriced(p: Profile, before: Position, b: byte, after: Position)
    requires Sound(p, before) && Sound(p, after) && !p.SearchesSync()
    ensures Priced(p, before, [b], 2, after)
  {
  }

  /** And a step there that takes no byte. */
  lemma PlainStill(p: Profile, before: Position, after: Position)
    requires Sound(p, before) && Sound(p, after) && !p.SearchesSync()
    ensures Priced(p, before, [], 0, after)
  {
  }

  /** A byte of the search: the match grows, falls back, or completes the sync sequence. */
  lemma SearchPriced(p: Profile, before: Position, b: byte, after: Position)
    requires Sound(p, before) && before.stage == Searching
    requires var n := Matched(p, p.sync[..|before.pending|] + [b]);
             if n < |p.sync| then after.stage == Searching && |after.pending| == n
             else after == Position(p.sync, Copying(|p.sync|))
    ensures Priced(p, before, [b], StepPrice(p.sync, |before.pending|, b), after)
  {
    hide Longest, StepPrice, SearchWork, CandidateWork;
    forall rest: bytes | Future(rest)
      ensures Owed(p, before, [b] + rest)
              == StepPrice(p.sync, |before.pending|, b) + Owed(p, after, rest)
    {
      SearchCosts(p, |before.pending|, b, rest);
    }
  }

  /** A sync byte put into the buffer. */
  lemma CopyPriced(p: Profile, at: Position, left: nat)
    requires Sound(p, at) && at.stage.Copying? && left <= at.stage.left
    ensures Priced(p, at, [], at.stage.left - left, at.(stage := Copying(left)))
  {
    hide CandidateWork;
    forall rest: bytes | Future(rest)
      ensures Owed(p, at, [] + rest)
              == at.stage.left - left + Owed(p, at.(stage := Copying(left)), rest)
    {
      assert at.pending + ([] + rest) == at.pending + rest;
    }
  }

  /** The copied header starts a candidate. */
  lemma StartPriced(p: Profile, at: Position, stage: Stage)
    requires Sound(p, at) && at.stage == Copying(0)
    requires stage == if p.strategy == SyncLengthField then Reading
                      else if p.frameLength == |p.sync| then Delivering
                      else Collecting(p.frameLength)
    ensures Priced(p, at, [], 0, at.(stage := stage))
  {
    hide SearchWork, DeclaredLength, RescanWork;
    forall rest: bytes | Future(rest)
      ensures Owed(p, at, [] + rest) == Owed(p, at.(stage := stage), rest)
    {
      var s := at.pending + rest;
      assert at.pending + ([] + rest) == s && s[|p.sync|..] == rest;
      if p.strategy == SyncFixedLength {
        assert CandidateWork(p, s, |p.sync|) == CollectWork(p, s, |p.sync|, p.frameLength);
      }
    }
  }

  /** A byte of a header or of a frame of known length. */
  lemma TakePriced(p: Profile, before: Position, b: byte)
    requires Sound(p, before) && (before.stage == Reading || before.stage.Collecting?)
    requires |before.pending| < if before.stage == Reading then p.HeaderEnd() else before.stage.size
    ensures Priced(p, before, [b], 2, before.(pending := before.pending + [b]))
  {
    hide SearchWork, DeclaredLength, RescanWork;
    var after := before.(pending := before.pending + [b]);
    forall rest: bytes | Future(rest)
      ensures Owed(p, before, [b] + rest) == 2 + Owed(p, after, rest)
    {
      assert before.pending + ([b] + rest) == after.pending + rest;
    }
  }

  /** A complete header settles what becomes of the candidate. */
  lemma SettlePriced(p: Profile, at: Position, stage: Stage)
    requires Sound(p, at) && at.stage == Reading && |at.pending| == p.HeaderEnd()
    requires var declared := DeclaredLength(p, at.pending);
             stage == if !(p.minimum <= declared <= p.maximum) then Rescanning(1)
                      else if declared == |at.pending| then Delivering
                      else Collecting(declared)
    ensures Priced(p, at, [], p.lengthWidth, at.(stage := stage))
  {
    hide SearchWork, DeclaredLength, RescanWork;
    var after := at.(stage := stage);
    LongestShort(p.sync, at.pending[1..1]);
    forall rest: bytes | Future(rest)
      ensures Owed(p, at, [] + rest) == p.lengthWidth + Owed(p, after, rest)
    {
      var s := at.pending + rest;
      assert at.pending + ([] + rest) == s && s[|at.pending|..] == rest;
      DeclaredStable(p, at.pending, rest);
      var declared := DeclaredLength(p, s);
      assert CandidateWork(p, s, |at.pending|)
             == p.lengthWidth
                + if p.minimum <= declared <= p.maximum
                  then CollectWork(p, s, |at.pending|, declared) else RescanWork(p, s, 1);
    }
  }

  /** The frame is complete. */
  lemma CollectedPriced(p: Profile, at: Position)
    requires Sound(p, at) && at.stage == Collecting(|at.pending|)
    ensures Priced(p, at, [], 0, at.(stage := Delivering))
  {
    hide SearchWork;
    forall rest: bytes | Future(rest)
      ensures Owed(p, at, [] + rest) == Owed(p, at.(stage := Delivering), rest)
    {
      var s := at.pending + rest;
      assert at.pending + ([] + rest) == s && s[|at.pending|..] == rest;
    }
  }

  /** Delivering a frame costs nothing. */
  lemma DeliveredPriced(p: Profile, before: Position, after: Position)
    requires Sound(p, before) && Sound(p, after) && before.stage == Delivering
    requires after == Position([], if p.SearchesSync() then Searching else Plain)
    ensures Priced(p, before, [], 0, after)
  {
    hide SearchWork;
    forall rest: bytes | Future(rest)
      ensures Owed(p, before, [] + rest) == Owed(p, after, rest)
    {
      assert [] + rest == rest;
    }
  }

  /** What is buffered stays as the stream goes on. */
  lemma FrontKept(pending: bytes, rest: bytes, i: nat)
    requires 1 <= i < |pending|
    ensures (pending + rest)[1..i] == pending[1..i] && (pending + rest)[i] == pending[i]
    ensures (pending + rest)[1..i + 1] == pending[1..i + 1]
  {
  }

  /** The rescan's work on a byte that completes no header. */
  lemma RescanOn(p: Profile, s: bytes, i: nat)
    requires ValidateStreamFramingLocal(p) && p.strategy == SyncLengthField
    requires 1 <= i < p.HeaderEnd() <= |s| && Matched(p, s[1..i]) < |p.sync|
    requires Matched(p, s[1..i + 1]) < |p.sync|
    ensures RescanWork(p, s, i)
            == StepPrice(p.sync, Matched(p, s[1..i]), s[i]) + RescanWork(p, s, i + 1)
  {
    hide Matched, StepPrice, SearchWork, CandidateWork;
  }

  lemma RescanSound(p: Profile, at: Position, i: nat)
    requires Sound(p, at) && at.stage == Rescanning(i) && i < |at.pending|
    requires Matched(p, at.pending[1..i + 1]) < |p.sync|
    ensures Sound(p, at.(stage := Rescanning(i + 1)))
    ensures ValidateStreamFramingLocal(p) && p.strategy == SyncLengthField
    ensures 1 <= i < p.HeaderEnd() == |at.pending| && Matched(p, at.pending[1..i]) < |p.sync|
  {
    hide Longest;
  }

  lemma RescanOwed(p: Profile, at: Position, i: nat, rest: bytes)
    requires Sound(p, at) && at.stage == Rescanning(i) && i < |at.pending|
    requires Matched(p, at.pending[1..i + 1]) < |p.sync|
    requires Sound(p, at.(stage := Rescanning(i + 1)))
    ensures Owed(p, at, rest)
            == StepPrice(p.sync, Matched(p, at.pending[1..i]), at.pending[i])
               + Owed(p, at.(stage := Rescanning(i + 1)), rest)
  {
    hide Matched, StepPrice, SearchWork, CandidateWork, RescanWork, Sound;
    RescanSound(p, at, i);
    FrontKept(at.pending, rest, i);
    RescanOn(p, at.pending + rest, i);
  }

  /** A buffered byte of the rescan that completes no header. */
  lemma RescanPriced(p: Profile, at: Position, i: nat)
    requires Sound(p, at) && at.stage == Rescanning(i) && i < |at.pending|
    requires Matched(p, at.pending[1..i + 1]) < |p.sync|
    ensures Priced(p, at, [], StepPrice(p.sync, Matched(p, at.pending[1..i]), at.pending[i]),
                   at.(stage := Rescanning(i + 1)))
  {
    hide Matched, StepPrice, Owed, Sound, Priced;
    RescanSound(p, at, i);
    var after := at.(stage := Rescanning(i + 1));
    var price := StepPrice(p.sync, Matched(p, at.pending[1..i]), at.pending[i]);
    forall rest: bytes | Future(rest)
      ensures Owed(p, at, rest) == price + Owed(p, after, rest)
    {
      RescanOwed(p, at, i, rest);
    }
    PricedFree(p, at, price, after);
  }

  lemma FoundWork(p: Profile, s: bytes, i: nat, start: nat)
    requires ValidateStreamFramingLocal(p) && p.strategy == SyncLengthField
    requires 1 <= i < p.HeaderEnd() <= |s| && Matched(p, s[1..i]) < |p.sync|
    requires Matched(p, s[1..i + 1]) == |p.sync| && start + |p.sync| == i + 1
    ensures start >= 1
    ensures RescanWork(p, s, i)
            == StepPrice(p.sync, Matched(p, s[1..i]), s[i]) + (p.HeaderEnd() - start)
               + CandidateWork(p, s[start..], p.HeaderEnd() - start)
  {
    hide Matched, StepPrice, SearchWork, CandidateWork;
  }

  lemma FoundSound(p: Profile, at: Position, i: nat, start: nat, after: Position)
    requires Sound(p, at) && at.stage == Rescanning(i) && i < |at.pending|
    requires Matched(p, at.pending[1..i + 1]) == |p.sync| && start + |p.sync| == i + 1
    requires after == Position(at.pending[start..], Moving(|at.pending| - start))
    ensures 1 <= start && Sound(p, after)
    ensures ValidateStreamFramingLocal(p) && p.strategy == SyncLengthField
    ensures i < p.HeaderEnd() == |at.pending| && Matched(p, at.pending[1..i]) < |p.sync|
  {
    hide Longest;
  }

  lemma FoundOwed(p: Profile, at: Position, i: nat, start: nat, after: Position, rest: bytes)
    requires Sound(p, at) && at.stage == Rescanning(i) && i < |at.pending|
    requires Matched(p, at.pending[1..i + 1]) == |p.sync| && start + |p.sync| == i + 1
    requires after == Position(at.pending[start..], Moving(|at.pending| - start))
    requires Sound(p, after)
    ensures Owed(p, at, rest)
            == StepPrice(p.sync, Matched(p, at.pending[1..i]), at.pending[i])
               + Owed(p, after, rest)
  {
    hide Matched, StepPrice, CandidateWork, RescanWork, Sound, Owed;
    FoundSound(p, at, i, start, after);
    FrontKept(at.pending, rest, i);
    FoundWork(p, at.pending + rest, i, start);
    FrontDropped(at.pending, rest, start);
    OwedRescanning(p, at, rest);
    OwedMoving(p, after, rest);
  }

  lemma OwedRescanning(p: Profile, at: Position, rest: bytes)
    requires Sound(p, at) && at.stage.Rescanning?
    ensures var s, i := at.pending + rest, at.stage.index;
            && p.strategy == SyncLengthField && ValidateStreamFramingLocal(p)
            && 1 <= i <= p.HeaderEnd() == |at.pending| && s[1..i] == at.pending[1..i]
            && Matched(p, at.pending[1..i]) < |p.sync|
            && Owed(p, at, rest) == RescanWork(p, s, i)
  {
    hide Matched, RescanWork;
  }

  lemma OwedMoving(p: Profile, at: Position, rest: bytes)
    requires Sound(p, at) && at.stage.Moving?
    ensures ValidateStreamFramingLocal(p) && p.SearchesSync()
    ensures |p.sync| <= |at.pending|
            && Owed(p, at, rest)
               == at.stage.left + CandidateWork(p, at.pending + rest, |at.pending|)
  {
    hide CandidateWork;
  }

  lemma FrontDropped(pending: bytes, rest: bytes, i: nat)
    requires i <= |pending|
    ensures (pending + rest)[i..] == pending[i..] + rest
  {
  }

  /** One that does: the candidate it starts is to be moved. */
  lemma FoundPriced(p: Profile, at: Position, i: nat, start: nat, after: Position)
    requires Sound(p, at) && at.stage == Rescanning(i) && i < |at.pending|
    requires Matched(p, at.pending[1..i + 1]) == |p.sync| && start + |p.sync| == i + 1
    requires after == Position(at.pending[start..], Moving(|at.pending| - start))
    ensures Priced(p, at, [], StepPrice(p.sync, Matched(p, at.pending[1..i]), at.pending[i]),
                   after)
  {
    hide Matched, StepPrice, Owed, Sound, Priced;
    FoundSound(p, at, i, start, after);
    var price := StepPrice(p.sync, Matched(p, at.pending[1..i]), at.pending[i]);
    forall rest: bytes | Future(rest)
      ensures Owed(p, at, rest) == price + Owed(p, after, rest)
    {
      FoundOwed(p, at, i, start, after, rest);
    }
    PricedFree(p, at, price, after);
  }

  /** None is found: the search goes on with the partial match. */
  lemma AbandonPriced(p: Profile, at: Position, after: Position)
    requires Sound(p, at) && at.stage == Rescanning(|at.pending|)
    requires after.stage == Searching
    requires |after.pending| == Matched(p, at.pending[1..])
    ensures Priced(p, at, [], 0, after)
  {
    hide Matched, SearchWork;
    var i := |at.pending|;
    assert at.pending[1..] == at.pending[1..i];
    forall rest: bytes | Future(rest)
      ensures Owed(p, at, [] + rest) == Owed(p, after, rest)
    {
      var s := at.pending + rest;
      assert at.pending + ([] + rest) == s;
      assert s[1..i] == at.pending[1..i] && s[i..] == rest;
    }
  }

  /** Bytes of a candidate moved to the front. */
  lemma MovePriced(p: Profile, at: Position, left: nat)
    requires Sound(p, at) && at.stage.Moving? && left <= at.stage.left
    ensures Priced(p, at, [], at.stage.left - left, at.(stage := Moving(left)))
    ensures left == 0 ==> Priced(p, at, [], at.stage.left, at.(stage := Reading))
  {
    hide CandidateWork;
    forall rest: bytes | Future(rest)
      ensures Owed(p, at, [] + rest)
              == at.stage.left - left + Owed(p, at.(stage := Moving(left)), rest)
      ensures Owed(p, at, [] + rest) == at.stage.left + Owed(p, at.(stage := Reading), rest)
    {
      assert at.pending + ([] + rest) == at.pending + rest;
    }
  }
}
