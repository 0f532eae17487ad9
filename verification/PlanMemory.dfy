/**
 * The plan arena and its estimator: one bump cursor with padding and accounts per category, used
 * once to estimate and once to hand out blocks.
 */
module PlanMemory {
  import opened Arithmetic
  import opened Bytes

  const SIZE_MAX: nat := 0xFFFF_FFFF_FFFF_FFFF
  const MAX_ALIGN: nat := 16

  datatype Category = Objects | Strings | Matchers | Metadata | Execution | Index | Extension

  datatype Report = Report(
    objects: nat,
    strings: nat,
    matchers: nat,
    metadata: nat,
    execution: nat,
    index: nat,
    extension: nat,
    alignment: nat,
    allocationCount: nat,
    upstreamAllocationCount: nat,
    accountedTotal: nat)
  {
    function Of(c: Category): nat {
      match c
      case Objects => objects
      case Strings => strings
      case Matchers => matchers
      case Metadata => metadata
      case Execution => execution
      case Index => index
      case Extension => extension
    }

    function With(c: Category, n: nat): Report {
      match c
      case Objects => this.(objects := n)
      case Strings => this.(strings := n)
      case Matchers => this.(matchers := n)
      case Metadata => this.(metadata := n)
      case Execution => this.(execution := n)
      case Index => this.(index := n)
      case Extension => this.(extension := n)
    }

    function CategorySum(): nat {
      objects + strings + matchers + metadata + execution + index + extension
    }
  }

  const EMPTY_REPORT := Report(0, 0, 0, 0, 0, 0, 0, 0, 0, 0, 0)

  datatype Request = Request(payload: nat, alignment: nat, category: Category)

  datatype Block = Block(offset: nat, size: nat, alignment: nat)

  predicate IsPowerOfTwo(n: nat) {
    n == 1 || (n > 1 && n % 2 == 0 && IsPowerOfTwo(n / 2))
  }

  function AlignUp(n: nat, alignment: nat): nat
    requires alignment > 0
  {
    if n % alignment == 0 then n else n + (alignment - n % alignment)
  }

  lemma AlignUpFacts(n: nat, alignment: nat)
    requires alignment > 0
    ensures n <= AlignUp(n, alignment) < n + alignment && AlignUp(n, alignment) % alignment == 0
  {
    DivMod(n, alignment);
    Distribute(n / alignment, 1, alignment);
    MultipleDivides(n / alignment + 1, alignment);
  }

  lemma SmallPowers(n: nat)
    requires IsPowerOfTwo(n) && n <= MAX_ALIGN
    ensures n in {1, 2, 4, 8, 16}
  {
    if n > 1 {
      assert IsPowerOfTwo(n / 2);
      if n > 2 {
        assert IsPowerOfTwo(n / 2 / 2);
        if n > 4 {
          assert IsPowerOfTwo(n / 2 / 2 / 2);
          if n > 8 {
            assert IsPowerOfTwo(n / 2 / 2 / 2 / 2);
          }
        }
      }
    }
  }

  // ---------------------------------------------------------------- what an allocation does

  /** The report and the block after a request, if it fits the limit. */
  function Extend(report: Report, limit: nat, r: Request): Option<(Report, Block)> {
    if r.payload == 0 then Some((report, Block(report.accountedTotal, 0, 1)))
    else if !IsPowerOfTwo(r.alignment) || r.alignment > MAX_ALIGN then None
    else
      var offset := AlignUp(report.accountedTotal, r.alignment);
      if offset + r.payload > limit then None
      else
        var charged := report.With(r.category, report.Of(r.category) + r.payload);
        Some((charged.(alignment := report.alignment + (offset - report.accountedTotal),
                       allocationCount := report.allocationCount + 1,
                       upstreamAllocationCount := 1,
                       accountedTotal := offset + r.payload),
              Block(offset, r.payload, r.alignment)))
  }

  function Run(report: Report, limit: nat, requests: seq<Request>): Option<(Report, seq<Block>)> {
    if requests == [] then Some((report, []))
    else
      match Run(report, limit, requests[..|requests| - 1])
      case None => None
      case Some((before, blocks)) =>
        match Extend(before, limit, requests[|requests| - 1])
        case None => None
        case Some((after, block)) => Some((after, blocks + [block]))
  }

  /** One request: refused for its alignment, or for its place, or charged to its category. */
  lemma ExtendMeans(report: Report, limit: nat, r: Request, offset: nat)
    requires report.accountedTotal <= offset < report.accountedTotal + r.alignment
    requires r.alignment in {1, 2, 4, 8, 16} ==> offset % r.alignment == 0
    ensures r.payload == 0 ==>
              Extend(report, limit, r) == Some((report, Block(report.accountedTotal, 0, 1)))
    ensures r.payload > 0 ==>
              (Extend(report, limit, r) == None
               <==> r.alignment !in {1, 2, 4, 8, 16} || offset + r.payload > limit)
    ensures r.payload > 0 && Extend(report, limit, r).Some? ==>
              var (after, block) := Extend(report, limit, r).value;
              && block == Block(offset, r.payload, r.alignment)
              && after.accountedTotal == offset + r.payload
              && after.alignment == report.alignment + offset - report.accountedTotal
              && after.allocationCount == report.allocationCount + 1
              && after.upstreamAllocationCount == 1
              && after.objects == report.objects + (if r.category == Objects then r.payload else 0)
              && after.strings == report.strings + (if r.category == Strings then r.payload else 0)
              && after.matchers
                 == report.matchers + (if r.category == Matchers then r.payload else 0)
              && after.metadata
                 == report.metadata + (if r.category == Metadata then r.payload else 0)
              && after.execution
                 == report.execution + (if r.category == Execution then r.payload else 0)
              && after.index == report.index + (if r.category == Index then r.payload else 0)
              && after.extension
                 == report.extension + (if r.category == Extension then r.payload else 0)
  {
    if IsPowerOfTwo(r.alignment) && r.alignment <= MAX_ALIGN {
      SmallPowers(r.alignment);
    }
    PowersAre();
    if r.alignment in {1, 2, 4, 8, 16} {
      AlignUpFacts(report.accountedTotal, r.alignment);
      SamePlace(offset, AlignUp(report.accountedTotal, r.alignment), r.alignment);
    }
  }

  lemma PowersAre()
    ensures IsPowerOfTwo(1) && IsPowerOfTwo(2) && IsPowerOfTwo(4)
    ensures IsPowerOfTwo(8) && IsPowerOfTwo(16)
  {
    assert IsPowerOfTwo(4) && IsPowerOfTwo(8);
  }

  /** Two multiples less than a multiple apart are one. */
  lemma SamePlace(a: nat, b: nat, d: nat)
    requires d > 0 && a % d == 0 && b % d == 0 && a < b + d && b < a + d
    ensures a == b
  {
    DivMod(a, d);
    DivMod(b, d);
    if a / d < b / d {
      MulMono(a / d + 1, b / d, d);
      Distribute(a / d, 1, d);
    } else if b / d < a / d {
      MulMono(b / d + 1, a / d, d);
      Distribute(b / d, 1, d);
    }
  }

  /** Several requests: one after the other, until one is refused. */
  lemma RunMeans(report: Report, limit: nat, requests: seq<Request>, r: Request)
    ensures Run(report, limit, []) == Some((report, []))
    ensures Run(report, limit, requests) == None ==> Run(report, limit, requests + [r]) == None
    ensures Run(report, limit, requests).Some? ==>
              var (before, blocks) := Run(report, limit, requests).value;
              && (Extend(before, limit, r) == None ==> Run(report, limit, requests + [r]) == None)
              && (Extend(before, limit, r).Some? ==>
                    var (after, block) := Extend(before, limit, r).value;
                    Run(report, limit, requests + [r]) == Some((after, blocks + [block])))
  {
    hide Extend;
    assert (requests + [r])[..|requests|] == requests;
  }

  /** Every byte is accounted for once, and a byte at least for every allocation. */
  predicate Balanced(report: Report) {
    && report.accountedTotal == report.CategorySum() + report.alignment
    && report.allocationCount <= report.CategorySum()
  }

  lemma ExtendBalanced(report: Report, limit: nat, r: Request)
    requires Balanced(report) && Extend(report, limit, r).Some?
    ensures Balanced(Extend(report, limit, r).value.0)
    ensures report.accountedTotal <= Extend(report, limit, r).value.0.accountedTotal
    ensures r.payload > 0 ==> Extend(report, limit, r).value.0.accountedTotal <= limit
  {
    if r.payload > 0 {
      SmallPowers(r.alignment);
      AlignUpFacts(report.accountedTotal, r.alignment);
    }
  }

  lemma {:induction false} RunBalanced(report: Report, limit: nat, requests: seq<Request>)
    requires Balanced(report) && Run(report, limit, requests).Some?
    ensures Balanced(Run(report, limit, requests).value.0)
    ensures report.accountedTotal <= Run(report, limit, requests).value.0.accountedTotal
  {
    hide Extend, Balanced;
    if requests != [] {
      var n := |requests| - 1;
      RunBalanced(report, limit, requests[..n]);
      ExtendBalanced(Run(report, limit, requests[..n]).value.0, limit, requests[n]);
    }
  }

  /** Where a block may lie: aligned, and inside `[from, to)`. */
  predicate Placed(b: Block, from: nat, to: nat) {
    && from <= b.offset && b.offset + b.size <= to
    && (b.size > 0 ==> b.alignment in {1, 2, 4, 8, 16} && b.offset % b.alignment == 0)
  }

  predicate Disjoint(a: Block, b: Block) {
    a.offset + a.size <= b.offset || b.offset + b.size <= a.offset
  }

  /** The blocks of a run are aligned, pairwise disjoint, and below the accounted total. */
  predicate LaidOut(blocks: seq<Block>, from: nat, to: nat) {
    && (forall i | 0 <= i < |blocks| :: Placed(blocks[i], from, to))
    && forall i, j | 0 <= i < j < |blocks| :: Disjoint(blocks[i], blocks[j])
  }

  lemma ExtendPlaced(report: Report, limit: nat, r: Request)
    requires Extend(report, limit, r).Some?
    ensures var (after, block) := Extend(report, limit, r).value;
            && Placed(block, report.accountedTotal, after.accountedTotal)
            && block.size == r.payload
  {
    if r.payload > 0 {
      SmallPowers(r.alignment);
      AlignUpFacts(report.accountedTotal, r.alignment);
    }
  }

  lemma MoreLaidOut(blocks: seq<Block>, from: nat, to: nat, block: Block, to': nat)
    requires LaidOut(blocks, from, to) && from <= to <= to' && Placed(block, to, to')
    ensures LaidOut(blocks + [block], from, to')
  {
  }

  lemma {:induction false} RunLaidOut(report: Report, limit: nat, requests: seq<Request>)
    requires Balanced(report) && Run(report, limit, requests).Some?
    ensures var (after, blocks) := Run(report, limit, requests).value;
            && |blocks| == |requests|
            && LaidOut(blocks, report.accountedTotal, after.accountedTotal)
            && forall i | 0 <= i < |blocks| :: blocks[i].size == requests[i].payload
  {
    hide Extend, Placed, Disjoint, Balanced;
    if requests != [] {
      var n := |requests| - 1;
      RunLaidOut(report, limit, requests[..n]);
      RunBalanced(report, limit, requests[..n]);
      RunBalanced(report, limit, requests);
      var before := Run(report, limit, requests[..n]).value;
      ExtendPlaced(before.0, limit, requests[n]);
      var next := Extend(before.0, limit, requests[n]).value;
      MoreLaidOut(before.1, report.accountedTotal, before.0.accountedTotal, next.1,
                  next.0.accountedTotal);
    }
  }

  lemma ExtendReplays(report: Report, limit: nat, r: Request, limit': nat)
    requires Balanced(report) && Extend(report, limit, r).Some?
    ensures Extend(report, limit, r).value.0.accountedTotal <= limit' ==>
              Extend(report, limit', r) == Extend(report, limit, r)
    ensures r.payload > 0 && Extend(report, limit, r).value.0.accountedTotal > limit' ==>
              Extend(report, limit', r) == None
  {
  }

  /**
   * An estimate fits exactly: the same requests succeed again under every limit from the estimated
   * total on, with the same report and the same blocks.
   */
  lemma {:induction false} RunReplays(report: Report, limit: nat, requests: seq<Request>, limit': nat)
    requires Balanced(report) && Run(report, limit, requests).Some?
    requires Run(report, limit, requests).value.0.accountedTotal <= limit'
    ensures Run(report, limit', requests) == Run(report, limit, requests)
  {
    hide Extend, Balanced;
    if requests != [] {
      var n := |requests| - 1;
      var before := Run(report, limit, requests[..n]).value;
      RunBalanced(report, limit, requests[..n]);
      ExtendBalanced(before.0, limit, requests[n]);
      RunReplays(report, limit, requests[..n], limit');
      ExtendReplays(before.0, limit, requests[n], limit');
    }
  }

  /** And under no smaller one. */
  lemma {:induction false} RunNeedsTotal(limit: nat, requests: seq<Request>, limit': nat)
    requires Run(EMPTY_REPORT, limit, requests).Some?
    requires limit' < Run(EMPTY_REPORT, limit, requests).value.0.accountedTotal
    ensures Run(EMPTY_REPORT, limit', requests) == None
  {
    hide Extend, Balanced;
    if requests != [] {
      var n := |requests| - 1;
      var before := Run(EMPTY_REPORT, limit, requests[..n]).value;
      EmptyBalanced();
      RunBalanced(EMPTY_REPORT, limit, requests[..n]);
      if limit' < before.0.accountedTotal {
        RunNeedsTotal(limit, requests[..n], limit');
      } else {
        RunReplays(EMPTY_REPORT, limit, requests[..n], limit');
        NothingFree(before.0, limit, requests[n]);
        ExtendReplays(before.0, limit, requests[n], limit');
      }
    }
  }

  lemma EmptyBalanced()
    ensures Balanced(EMPTY_REPORT)
  {
  }

  lemma NothingFree(report: Report, limit: nat, r: Request)
    ensures r.payload == 0 ==> Extend(report, limit, r).Some?
                               && Extend(report, limit, r).value.0 == report
  {
  }

  // ---------------------------------------------------------------- the estimator and the arena

  function AddChecked(value: nat, total: nat): Option<nat> {
    if value > SIZE_MAX || total > SIZE_MAX - value then None else Some(total + value)
  }

  class PlanMemoryLayout {
    const limitBytes: nat
    var report: Report

    constructor (limit: nat)
      requires limit <= SIZE_MAX
      ensures Valid() && limitBytes == limit && report == EMPTY_REPORT
    {
      hide Balanced;
      EmptyBalanced();
      limitBytes := limit;
      report := EMPTY_REPORT;
    }

    ghost predicate Valid()
      reads this
    {
      Balanced(report) && report.accountedTotal <= SIZE_MAX && limitBytes <= SIZE_MAX
    }

    /**
     * The overflow checks of the single counters never decide: a request is refused exactly for a
     * bad alignment or for not fitting the limit.
     */
    method AddAllocation(payload: nat, alignment: nat, category: Category)
      returns (ok: bool, alignedOffset: nat)
      requires Valid() && payload <= SIZE_MAX
      modifies this
      ensures Valid()
      ensures match Extend(old(report), limitBytes, Request(payload, alignment, category))
              case Some((after, block)) => ok && report == after && alignedOffset == block.offset
              case None => !ok && report == old(report)
    {
      hide Balanced, Extend, IsPowerOfTwo, AlignUp, Report.With, Report.Of, Report.CategorySum;
      ghost var r := Request(payload, alignment, category);
      if payload == 0 {
        ExtendNothing(report, limitBytes, r);
        return true, report.accountedTotal;
      }
      if !IsPowerOfTwo(alignment) || alignment > MAX_ALIGN {
        ExtendMisaligned(report, limitBytes, r);
        return false, 0;
      }
      ok, alignedOffset := false, 0;
      PowerPositive(alignment);
      var remainder := report.accountedTotal % alignment;
      var padding := if remainder == 0 then 0 else alignment - remainder;
      ExtendAligned(report, limitBytes, r, padding);
      CountersWithin(report, category);
      var padded := AddChecked(padding, report.accountedTotal);
      if padded == None {
        return;
      }
      var total := AddChecked(payload, padded.value);
      if total == None || total.value > limitBytes {
        return;
      }
      var charged := AddChecked(payload, report.Of(category));
      var aligned := AddChecked(padding, report.alignment);
      var counted := AddChecked(1, report.allocationCount);
      if charged == None || aligned == None || counted == None {
        return;
      }
      ExtendBalanced(report, limitBytes, r);
      alignedOffset := report.accountedTotal + padding;
      report := report.With(category, charged.value)
                      .(alignment := aligned.value, allocationCount := counted.value,
                        accountedTotal := total.value, upstreamAllocationCount := 1);
      ok := true;
    }
  }

  lemma ExtendNothing(report: Report, limit: nat, r: Request)
    requires r.payload == 0
    ensures Extend(report, limit, r) == Some((report, Block(report.accountedTotal, 0, 1)))
  {
  }

  lemma ExtendMisaligned(report: Report, limit: nat, r: Request)
    requires r.payload > 0 && (!IsPowerOfTwo(r.alignment) || r.alignment > MAX_ALIGN)
    ensures Extend(report, limit, r) == None
  {
  }

  lemma PowerPositive(n: nat)
    requires IsPowerOfTwo(n)
    ensures n > 0
  {
  }

  lemma ExtendAligned(report: Report, limit: nat, r: Request, padding: nat)
    requires r.payload > 0 && IsPowerOfTwo(r.alignment) && r.alignment <= MAX_ALIGN
    requires padding == var remainder := report.accountedTotal % r.alignment;
                        if remainder == 0 then 0 else r.alignment - remainder
    ensures Extend(report, limit, r)
            == if report.accountedTotal + padding + r.payload > limit then None
               else
                 Some((report.With(r.category, report.Of(r.category) + r.payload)
                             .(alignment := report.alignment + padding,
                               allocationCount := report.allocationCount + 1,
                               upstreamAllocationCount := 1,
                               accountedTotal := report.accountedTotal + padding + r.payload),
                       Block(report.accountedTotal + padding, r.payload, r.alignment)))
  {
    hide Report.With, Report.Of, Report.CategorySum;
  }

  /** No single account exceeds the total, so no single account overflows before the total does. */
  lemma CountersWithin(report: Report, c: Category)
    requires Balanced(report)
    ensures report.Of(c) <= report.accountedTotal && report.alignment <= report.accountedTotal
    ensures report.allocationCount <= report.accountedTotal
  {
  }

  class PlanArena {
    const capacityBytes: nat
    const failAtAllocation: nat
    const layout: PlanMemoryLayout
    var allocationOrdinal: nat
    /** The blocks handed out so far. */
    ghost var blocks: seq<Block>

    constructor (capacity: nat, failAt: nat)
      requires capacity <= SIZE_MAX
      ensures Valid() && fresh(layout) && blocks == [] && layout.report == EMPTY_REPORT
      ensures capacityBytes == capacity && failAtAllocation == failAt
    {
      hide Balanced;
      capacityBytes := capacity;
      failAtAllocation := failAt;
      allocationOrdinal := 1;
      layout := new PlanMemoryLayout(capacity);
      blocks := [];
    }

    ghost predicate Valid()
      reads this, layout
    {
      && layout.Valid() && layout.limitBytes == capacityBytes
      && layout.report.accountedTotal <= capacityBytes
      && LaidOut(blocks, 0, layout.report.accountedTotal)
    }

    /** Every block handed out lies inside the arena, aligned, and apart from all the others. */
    method Allocate(payload: nat, alignment: nat, category: Category) returns (offset: Option<nat>)
      requires Valid() && payload <= SIZE_MAX
      modifies this, layout
      ensures Valid() && LaidOut(blocks, 0, capacityBytes)
      ensures payload == 0 ==> offset == None && blocks == old(blocks)
                               && layout.report == old(layout.report)
      ensures payload > 0 ==>
                var fit := Extend(old(layout.report), capacityBytes,
                                  Request(payload, alignment, category));
                if fit.Some? && failAtAllocation != old(allocationOrdinal) + 1 then
                  && offset == Some(fit.value.1.offset) && layout.report == fit.value.0
                  && blocks == old(blocks) + [fit.value.1]
                else
                  offset == None && blocks == old(blocks) && layout.report == old(layout.report)
      ensures allocationOrdinal == old(allocationOrdinal) + if payload == 0 then 0 else 1
    {
      hide Placed, Disjoint;
      if payload == 0 {
        StillLaidOut(blocks, 0, layout.report.accountedTotal, capacityBytes);
        return None;
      }
      allocationOrdinal := allocationOrdinal + 1;
      StillLaidOut(blocks, 0, layout.report.accountedTotal, capacityBytes);
      if failAtAllocation != 0 && allocationOrdinal == failAtAllocation {
        return None;
      }
      ghost var before := layout.report;
      var ok, at := layout.AddAllocation(payload, alignment, category);
      if !ok {
        return None;
      }
      ghost var r := Request(payload, alignment, category);
      ExtendPlaced(before, capacityBytes, r);
      ExtendBalanced(before, capacityBytes, r);
      PlacedInside(before, capacityBytes, r);
      if at > capacityBytes || payload > capacityBytes - at {
        return None;
      }
      ghost var block := Extend(before, capacityBytes, r).value.1;
      MoreLaidOut(blocks, 0, before.accountedTotal, block, layout.report.accountedTotal);
      blocks := blocks + [block];
      StillLaidOut(blocks, 0, layout.report.accountedTotal, capacityBytes);
      offset := Some(at);
    }
  }

  lemma StillLaidOut(blocks: seq<Block>, from: nat, to: nat, to': nat)
    requires LaidOut(blocks, from, to) && to <= to'
    ensures LaidOut(blocks, from, to')
  {
    hide Disjoint;
  }

  lemma PlacedInside(report: Report, limit: nat, r: Request)
    requires Extend(report, limit, r).Some? && r.payload > 0
    ensures var block := Extend(report, limit, r).value.1;
            block.offset + r.payload <= limit
  {
  }

  /** The arena never sees an empty array: it has no block for one. */
  function NonEmpty(blocks: seq<Block>): seq<Block> {
    if blocks == [] then []
    else
      var last := blocks[|blocks| - 1];
      NonEmpty(blocks[..|blocks| - 1]) + if last.size > 0 then [last] else []
  }

  lemma NoBlocks()
    ensures NonEmpty([]) == []
  {
  }

  lemma OneMoreBlock(blocks: seq<Block>, block: Block)
    ensures NonEmpty(blocks + [block]) == NonEmpty(blocks) + if block.size > 0 then [block] else []
  {
    assert (blocks + [block])[..|blocks|] == blocks;
  }

  /**
   * What plan building does: estimate a list of requests under a limit, then allocate it in an
   * arena of exactly the estimated size, where empty arrays and strings skip the arena. Nothing is
   * refused, the reports agree, and the arena's blocks are the estimated ones.
   */
  method EstimateThenAllocate(requests: seq<Request>, limit: nat)
    returns (estimated: bool, estimate: Report, granted: bool, actual: Report,
             ghost blocks: seq<Block>)
    requires limit <= SIZE_MAX
    requires forall r | r in requests :: r.payload <= SIZE_MAX
    ensures estimated == Run(EMPTY_REPORT, limit, requests).Some?
    ensures estimated ==> granted && actual == estimate && Balanced(actual)
    ensures estimated ==> blocks == NonEmpty(Run(EMPTY_REPORT, limit, requests).value.1)
    ensures estimated ==> LaidOut(blocks, 0, estimate.accountedTotal)
  {
    hide Extend, Balanced, LaidOut, NonEmpty;
    EmptyBalanced();
    blocks, granted := [], true;
    estimated, estimate := Estimate(requests, limit);
    actual := EMPTY_REPORT;
    if !estimated {
      return;
    }
    RunReplays(EMPTY_REPORT, limit, requests, estimate.accountedTotal);
    RunBalanced(EMPTY_REPORT, limit, requests);
    EstimateBounded(requests, limit);
    var arena := new PlanArena(estimate.accountedTotal, 0);
    assert requests[..0] == [];
    NoBlocks();
    for n := 0 to |requests|
      invariant arena.Valid() && fresh(arena) && fresh(arena.layout)
      invariant Run(EMPTY_REPORT, arena.capacityBytes, requests[..n]).Some?
      invariant arena.layout.report
                == Run(EMPTY_REPORT, arena.capacityBytes, requests[..n]).value.0
      invariant arena.blocks
                == NonEmpty(Run(EMPTY_REPORT, arena.capacityBytes, requests[..n]).value.1)
    {
      assert requests[n] in requests;
      RunPrefix(arena.capacityBytes, requests, n);
      var r := requests[n];
      ghost var before := Run(EMPTY_REPORT, arena.capacityBytes, requests[..n]).value;
      ExtendPlaced(before.0, arena.capacityBytes, r);
      OneMoreBlock(before.1, Extend(before.0, arena.capacityBytes, r).value.1);
      if r.payload > 0 {
        var offset := arena.Allocate(r.payload, r.alignment, r.category);
        if offset == None {
          granted := false;
          return;
        }
      } else {
        NothingFree(before.0, arena.capacityBytes, r);
      }
    }
    assert requests[..|requests|] == requests;
    actual, blocks := arena.layout.report, arena.blocks;
  }

  method Estimate(requests: seq<Request>, limit: nat) returns (ok: bool, estimate: Report)
    requires limit <= SIZE_MAX
    requires forall r | r in requests :: r.payload <= SIZE_MAX
    ensures ok == Run(EMPTY_REPORT, limit, requests).Some?
    ensures ok ==> estimate == Run(EMPTY_REPORT, limit, requests).value.0
  {
    hide Extend, Balanced;
    EmptyBalanced();
    var layout := new PlanMemoryLayout(limit);
    assert requests[..0] == [];
    for n := 0 to |requests|
      invariant layout.Valid() && fresh(layout) && layout.limitBytes == limit
      invariant Run(EMPTY_REPORT, limit, requests[..n]).Some?
      invariant layout.report == Run(EMPTY_REPORT, limit, requests[..n]).value.0
    {
      assert requests[n] in requests;
      RunNext(limit, requests, n);
      var r := requests[n];
      var offset;
      ok, offset := layout.AddAllocation(r.payload, r.alignment, r.category);
      if !ok {
        RunFails(limit, requests, n + 1);
        return false, layout.report;
      }
    }
    assert requests[..|requests|] == requests;
    return true, layout.report;
  }

  lemma RunNext(limit: nat, requests: seq<Request>, n: nat)
    requires n < |requests| && Run(EMPTY_REPORT, limit, requests[..n]).Some?
    ensures var before := Run(EMPTY_REPORT, limit, requests[..n]).value;
            Run(EMPTY_REPORT, limit, requests[..n + 1])
            == match Extend(before.0, limit, requests[n])
               case None => None
               case Some((after, block)) => Some((after, before.1 + [block]))
  {
    hide Extend;
    assert requests[..n + 1][..n] == requests[..n];
  }

  lemma {:induction false} RunFails(limit: nat, requests: seq<Request>, n: nat)
    requires n <= |requests| && Run(EMPTY_REPORT, limit, requests[..n]) == None
    ensures Run(EMPTY_REPORT, limit, requests) == None
    decreases |requests|
  {
    hide Extend;
    if n < |requests| {
      assert requests[..|requests| - 1][..n] == requests[..n];
      RunFails(limit, requests[..|requests| - 1], n);
    } else {
      assert requests[..n] == requests;
    }
  }

  lemma RunPrefix(limit: nat, requests: seq<Request>, n: nat)
    requires n < |requests| && Run(EMPTY_REPORT, limit, requests).Some?
    ensures Run(EMPTY_REPORT, limit, requests[..n]).Some?
    ensures var before := Run(EMPTY_REPORT, limit, requests[..n]).value;
            Extend(before.0, limit, requests[n]).Some?
            && Run(EMPTY_REPORT, limit, requests[..n + 1])
               == Some((Extend(before.0, limit, requests[n]).value.0,
                        before.1 + [Extend(before.0, limit, requests[n]).value.1]))
  {
    hide Extend;
    if Run(EMPTY_REPORT, limit, requests[..n]) == None {
      RunFails(limit, requests, n);
    }
    RunNext(limit, requests, n);
    if Run(EMPTY_REPORT, limit, requests[..n + 1]) == None {
      RunFails(limit, requests, n + 1);
    }
  }

  lemma {:induction false} EstimateBounded(requests: seq<Request>, limit: nat)
    requires Run(EMPTY_REPORT, limit, requests).Some?
    ensures Run(EMPTY_REPORT, limit, requests).value.0.accountedTotal <= limit
  {
    hide Extend, Balanced;
    if requests != [] {
      var n := |requests| - 1;
      EmptyBalanced();
      EstimateBounded(requests[..n], limit);
      NothingFree(Run(EMPTY_REPORT, limit, requests[..n]).value.0, limit, requests[n]);
      RunBalanced(EMPTY_REPORT, limit, requests[..n]);
      ExtendBalanced(Run(EMPTY_REPORT, limit, requests[..n]).value.0, limit, requests[n]);
    }
  }
}
