/**
 The two difficulty retargets of `pow.cpp`: the 24-block moving window of
 `GetNextWorkRequired` and the full-epoch `CalculateNextWorkRequired`.
 */
module Retarget {
  import opened Arith
  import opened Compact
  import opened Chain
  import opened Consensus

  const PAST_BLOCKS_MIN: nat := 24
  const PAST_BLOCKS_MAX: nat := 24

  /** The decoded target of a block, flags ignored, as `SetCompact(nBits)` leaves it. */
  function TargetOf(chain: Arena, i: nat): uint256
    requires i < |chain|
  {
    SetCompact(chain[i].bits).value
  }

  predicate InArena(chain: Arena, w: seq<nat>) {
    forall k :: 0 <= k < |w| ==> w[k] < |chain|
  }

  // ---------------------------------------------------------------------------
  // The window the loop visits

  /** The blocks the retarget loop visits from block i with `slots` iterations left, newest first. */
  function WindowFrom(chain: Arena, i: nat, slots: nat): (w: seq<nat>)
    requires WellFormed(chain) && i < |chain|
    ensures |w| <= slots && InArena(chain, w)
    decreases i
  {
    if slots == 0 || chain[i].height == 0 then []
    else if chain[i].parent.None? then [i]
    else [i] + WindowFrom(chain, chain[i].parent.value, slots - 1)
  }

  /**
   The window is a run of consecutive parents starting at i, none of height
   0, and it ends before `slots` blocks only at a block without a parent or
   just before a height-0 block.
   */
  lemma {:induction false} WindowShape(chain: Arena, i: nat, slots: nat)
    requires WellFormed(chain) && i < |chain|
    ensures var w := WindowFrom(chain, i, slots);
            && (forall k :: 0 <= k < |w| ==> chain[w[k]].height > 0)
            && (|w| > 0 <==> slots > 0 && chain[i].height > 0)
            && (|w| > 0 ==> w[0] == i)
            && (forall k :: 0 <= k < |w| - 1 ==> chain[w[k]].parent == Some(w[k + 1]))
            && (0 < |w| < slots ==>
                  chain[w[|w| - 1]].parent.None? || chain[chain[w[|w| - 1]].parent.value].height == 0)
    decreases i
  {
    if slots > 0 && chain[i].height > 0 && chain[i].parent.Some? {
      var p := chain[i].parent.value;
      WindowShape(chain, p, slots - 1);
      var rest := WindowFrom(chain, p, slots - 1);
      var w := WindowFrom(chain, i, slots);
      assert w == [i] + rest;
      assert |rest| > 0 ==> rest[0] == p;
      forall k | 0 <= k < |w| - 1
        ensures chain[w[k]].parent == Some(w[k + 1])
      {
        if k > 0 {
          assert w[k] == rest[k - 1] && w[k + 1] == rest[k];
        }
      }
    }
  }

  function Window(chain: Arena, last: nat): seq<nat>
    requires WellFormed(chain) && last < |chain|
  {
    WindowFrom(chain, last, PAST_BLOCKS_MAX)
  }

  /** One averaging step, 256-bit arithmetic: (prev * count + t) / (count + 1). */
  function AverageStep(prev: uint256, count: nat, t: uint256): (r: uint256)
    requires count <= PAST_BLOCKS_MAX
    ensures var sum := ((prev * count) % TWO256 + t) % TWO256;
            r * (count + 1) <= sum < (r + 1) * (count + 1)
  {
    var sum := ((prev * count) % TWO256 + t) % TWO256;
    QuotientBounds(sum, count + 1);
    sum / (count + 1)
  }

  /** `PastDifficultyAverage` after the loop has visited the blocks of w in order. */
  function RunningAverage(chain: Arena, w: seq<nat>): uint256
    requires InArena(chain, w) && |w| <= PAST_BLOCKS_MAX
    decreases |w|
  {
    if |w| == 0 then 0
    else if |w| == 1 then TargetOf(chain, w[0])
    else AverageStep(RunningAverage(chain, w[..|w| - 1]), |w|, TargetOf(chain, w[|w| - 1]))
  }

  /** The time added for one visited pair; skipped while `LastBlockTime` is 0. */
  function Gap(lastBlockTime: int, time: int): int {
    if lastBlockTime > 0 then lastBlockTime - time else 0
  }

  /** `nActualTimespan` after the loop has visited the blocks of w in order. */
  function ActualTimespan(chain: Arena, w: seq<nat>): int
    requires InArena(chain, w)
    decreases |w|
  {
    if |w| <= 1 then 0
    else ActualTimespan(chain, w[..|w| - 1]) + Gap(chain[w[|w| - 2]].time, chain[w[|w| - 1]].time)
  }

  lemma AverageAppend(chain: Arena, seen: seq<nat>, r: nat)
    requires InArena(chain, seen) && r < |chain| && |seen| < PAST_BLOCKS_MAX
    ensures InArena(chain, seen + [r])
    ensures RunningAverage(chain, seen + [r]) ==
              if |seen| == 0 then TargetOf(chain, r)
              else AverageStep(RunningAverage(chain, seen), |seen| + 1, TargetOf(chain, r))
  {
    var s := seen + [r];
    assert s[..|s| - 1] == seen;
  }

  lemma TimespanAppend(chain: Arena, seen: seq<nat>, r: nat)
    requires InArena(chain, seen) && r < |chain|
    ensures InArena(chain, seen + [r])
    ensures ActualTimespan(chain, seen + [r]) ==
              if |seen| == 0 then 0
              else ActualTimespan(chain, seen) + Gap(chain[seen[|seen| - 1]].time, chain[r].time)
  {
    var s := seen + [r];
    assert s[..|s| - 1] == seen;
  }

  /** What the loop has accumulated after visiting the blocks of `seen`. */
  predicate Scanned(chain: Arena, seen: seq<nat>, average: uint256, actualTimespan: int, lastBlockTime: int)
    requires InArena(chain, seen) && |seen| <= PAST_BLOCKS_MAX
  {
    && average == RunningAverage(chain, seen)
    && actualTimespan == ActualTimespan(chain, seen)
    && lastBlockTime == if |seen| == 0 then 0 else chain[seen[|seen| - 1]].time
  }

  /**
   The loop's state before it reads block `reading`: the blocks visited so
   far are the first `count` of the window w, the rest of w is the window
   from `reading`, and the accumulators match the visited blocks.
   */
  predicate Scanning(chain: Arena, w: seq<nat>, seen: seq<nat>, reading: nat, count: nat,
                     average: uint256, actualTimespan: int, lastBlockTime: int)
  {
    && WellFormed(chain) && reading < |chain| && count <= PAST_BLOCKS_MAX
    && |seen| == count && InArena(chain, seen)
    && w == seen + WindowFrom(chain, reading, PAST_BLOCKS_MAX - count)
    && Scanned(chain, seen, average, actualTimespan, lastBlockTime)
  }

  /** When the loop stops reading, the visited blocks are the whole window. */
  lemma ScanDone(chain: Arena, w: seq<nat>, seen: seq<nat>, reading: nat, count: nat,
                 average: uint256, actualTimespan: int, lastBlockTime: int)
    requires Scanning(chain, w, seen, reading, count, average, actualTimespan, lastBlockTime)
    requires chain[reading].height == 0 || count == PAST_BLOCKS_MAX
    ensures seen == w && Scanned(chain, w, average, actualTimespan, lastBlockTime)
  {
    assert WindowFrom(chain, reading, PAST_BLOCKS_MAX - count) == [];
    assert seen + [] == seen;
  }

  /** The visited prefix after one more block, and the rest of the window after it. */
  lemma AdvanceWindow(chain: Arena, w: seq<nat>, seen: seq<nat>, reading: nat, count: nat)
    requires WellFormed(chain) && reading < |chain| && chain[reading].height > 0
    requires count < PAST_BLOCKS_MAX && |seen| == count && InArena(chain, seen)
    requires w == seen + WindowFrom(chain, reading, PAST_BLOCKS_MAX - count)
    ensures InArena(chain, seen + [reading]) && (seen + [reading])[count] == reading
    ensures chain[reading].parent.None? ==> seen + [reading] == w
    ensures chain[reading].parent.Some? ==>
              w == (seen + [reading]) + WindowFrom(chain, chain[reading].parent.value, PAST_BLOCKS_MAX - (count + 1))
  {
    AppendInArena(chain, seen, reading);
    var tail := if chain[reading].parent.None? then []
                else WindowFrom(chain, chain[reading].parent.value, PAST_BLOCKS_MAX - (count + 1));
    assert WindowFrom(chain, reading, PAST_BLOCKS_MAX - count) == [reading] + tail;
    ConcatAssoc(seen, reading, tail);
  }

  lemma AppendInArena(chain: Arena, seen: seq<nat>, r: nat)
    requires InArena(chain, seen) && r < |chain|
    ensures InArena(chain, seen + [r]) && (seen + [r])[|seen|] == r
  {
  }

  lemma ConcatAssoc(a: seq<nat>, x: nat, b: seq<nat>)
    ensures a + ([x] + b) == (a + [x]) + b
    ensures b == [] ==> a + ([x] + b) == a + [x]
  {
  }

  /**
   One iteration keeps the loop state: given the accumulators the body
   computes for block `reading`, the state holds again at the parent, or
   the whole window has been visited.
   */
  lemma Advance(chain: Arena, w: seq<nat>, seen: seq<nat>, reading: nat, count: nat,
                average: uint256, actualTimespan: int, lastBlockTime: int,
                average': uint256, actualTimespan': int, lastBlockTime': int)
    requires Scanning(chain, w, seen, reading, count, average, actualTimespan, lastBlockTime)
    requires chain[reading].height > 0 && count < PAST_BLOCKS_MAX
    requires average' == if count == 0 then TargetOf(chain, reading)
                         else AverageStep(average, count + 1, TargetOf(chain, reading))
    requires actualTimespan' == actualTimespan + Gap(lastBlockTime, chain[reading].time)
    requires lastBlockTime' == chain[reading].time
    ensures chain[reading].parent.None? ==>
              seen + [reading] == w && Scanned(chain, w, average', actualTimespan', lastBlockTime')
    ensures chain[reading].parent.Some? ==>
              Scanning(chain, w, seen + [reading], chain[reading].parent.value, count + 1,
                       average', actualTimespan', lastBlockTime')
  {
    AdvanceWindow(chain, w, seen, reading, count);
    AverageAppend(chain, seen, reading);
    TimespanAppend(chain, seen, reading);
  }

  /**
   The body of the window loop for one visited block: bump the count, fold
   the block's target into the average and add the gap to the previous
   visited block. The ghost result is the visited prefix after the step.
   */
  method Visit(chain: Arena, ghost w: seq<nat>, ghost seen: seq<nat>, reading: nat, count: nat,
               prevAverage: uint256, actualTimespan: int, lastBlockTime: int)
    returns (count': nat, average': uint256, actualTimespan': int, lastBlockTime': int, ghost seen': seq<nat>)
    requires Scanning(chain, w, seen, reading, count, prevAverage, actualTimespan, lastBlockTime)
    requires chain[reading].height > 0 && count < PAST_BLOCKS_MAX
    ensures count' == count + 1
    ensures chain[reading].parent.None? ==>
              seen' == w && Scanned(chain, w, average', actualTimespan', lastBlockTime')
    ensures chain[reading].parent.Some? ==>
              Scanning(chain, w, seen', chain[reading].parent.value, count', average', actualTimespan', lastBlockTime')
  {
    count' := count + 1;
    average' := prevAverage;
    if count' <= PAST_BLOCKS_MIN {
      if count' == 1 {
        average' := SetCompact(chain[reading].bits).value;
      } else {
        average' := AverageStep(prevAverage, count', SetCompact(chain[reading].bits).value);
      }
    }
    actualTimespan' := actualTimespan;
    if lastBlockTime > 0 {
      actualTimespan' := actualTimespan + (lastBlockTime - chain[reading].time);
    }
    lastBlockTime' := chain[reading].time;
    seen' := seen + [reading];
    Advance(chain, w, seen, reading, count, prevAverage, actualTimespan, lastBlockTime,
            average', actualTimespan', lastBlockTime');
  }

  /**
   The `for` loop of `GetNextWorkRequired`: visits the window, counts it,
   averages its targets and sums its timestamp gaps. `PastDifficultyAverage`
   and `PastDifficultyAveragePrev` are always equal after an iteration
   because every count is within `PastBlocksMin`, so one variable carries
   both.
   */
  method ScanWindow(chain: Arena, last: nat) returns (count: nat, average: uint256, actualTimespan: int)
    requires WellFormed(chain) && last < |chain|
    ensures count == |Window(chain, last)| && count <= PAST_BLOCKS_MAX
    ensures average == RunningAverage(chain, Window(chain, last))
    ensures actualTimespan == ActualTimespan(chain, Window(chain, last))
  {
    ghost var w := Window(chain, last);
    ghost var seen: seq<nat> := [];
    var reading: nat := last;
    var lastBlockTime: int := 0;
    count, average, actualTimespan := 0, 0, 0;
    var i: nat := 1;
    while chain[reading].height > 0
      invariant i == count + 1
      invariant Scanning(chain, w, seen, reading, count, average, actualTimespan, lastBlockTime)
      decreases PAST_BLOCKS_MAX - count
    {
      if PAST_BLOCKS_MAX > 0 && i > PAST_BLOCKS_MAX {
        break;
      }
      count, average, actualTimespan, lastBlockTime, seen :=
        Visit(chain, w, seen, reading, count, average, actualTimespan, lastBlockTime);
      if chain[reading].parent.None? {
        return;
      }
      reading := chain[reading].parent.value;
      i := i + 1;
    }
    ScanDone(chain, w, seen, reading, count, average, actualTimespan, lastBlockTime);
  }

  /**
   On a chain whose heights drop by one along parent links, the window
   from block i holds min(slots, height of i) blocks.
   */
  lemma {:induction false} WindowLength(chain: Arena, i: nat, slots: nat)
    requires WellFormed(chain) && HeightsLinked(chain) && i < |chain|
    ensures |WindowFrom(chain, i, slots)| == if slots < chain[i].height then slots else chain[i].height
    decreases i
  {
    if slots > 0 && chain[i].height > 0 {
      WindowLength(chain, chain[i].parent.value, slots - 1);
    }
  }

  /**
   Past the bootstrap guard on such a chain the loop counts exactly 24
   blocks, so the target timespan is positive.
   */
  lemma WindowFull(chain: Arena, last: nat, params: Params)
    requires WellFormed(chain) && HeightsLinked(chain) && last < |chain| && WindowValid(params)
    requires chain[last].height >= PAST_BLOCKS_MIN
    ensures |Window(chain, last)| == PAST_BLOCKS_MAX
    ensures WindowTargetTimespan(|Window(chain, last)|, params) > 0
  {
    WindowLength(chain, last, PAST_BLOCKS_MAX);
  }

  /** If every visited block has the same target t, the running average is t. */
  lemma {:induction false} UniformAverage(chain: Arena, w: seq<nat>, t: uint256)
    requires InArena(chain, w) && |w| <= PAST_BLOCKS_MAX
    requires forall k :: 0 <= k < |w| ==> TargetOf(chain, w[k]) == t
    requires t * (|w| + 1) < TWO256
    ensures |w| > 0 ==> RunningAverage(chain, w) == t
    decreases |w|
  {
    if |w| >= 2 {
      var n := |w|;
      var p := w[..n - 1];
      assert forall k :: 0 <= k < |p| ==> p[k] == w[k];
      MulMonotone(n, n + 1, t);
      UniformAverage(chain, p, t);
      AverageOfEqual(t, n);
    }
  }

  /** Folding t into an average that is already t leaves t, when nothing wraps. */
  lemma AverageOfEqual(t: uint256, n: nat)
    requires n <= PAST_BLOCKS_MAX && t * (n + 1) < TWO256
    ensures AverageStep(t, n, t) == t
  {
    var a := t * n;
    var b := t * (n + 1);
    assert b == a + t;
    DivModUnique(a, TWO256, 0, a);
    DivModUnique(b, TWO256, 0, b);
    MulDivCancel(t, n + 1);
  }

  /**
   If consecutive visited blocks are exactly s seconds apart and have
   nonzero timestamps, the summed gaps are s per pair.
   */
  lemma {:induction false} UniformTimespan(chain: Arena, w: seq<nat>, s: int)
    requires InArena(chain, w)
    requires forall k :: 0 <= k < |w| - 1 ==>
               chain[w[k]].time > 0 && chain[w[k]].time == chain[w[k + 1]].time + s
    ensures |w| > 0 ==> ActualTimespan(chain, w) == (|w| - 1) * s
    decreases |w|
  {
    if |w| >= 2 {
      var n := |w|;
      var p := w[..n - 1];
      assert forall k :: 0 <= k < |p| ==> p[k] == w[k];
      UniformTimespan(chain, p, s);
      assert chain[w[n - 2]].time > 0 && chain[w[n - 2]].time == chain[w[n - 1]].time + s;
      assert (n - 2) * s + s == (n - 1) * s;
    }
  }

  lemma SharedFactor(a: nat, b: nat, s: nat)
    requires b > 0 && s > 0
    ensures (a * s) / (b * s) == a / b
  {
    DivDiv(a * s, s, b);
    MulDivCancel(a, s);
    assert s * b == b * s;
  }

  /**
   A full window of blocks with one target t, spaced exactly the target
   spacing apart, does not reproduce t: the loop sums 23 gaps against a
   24-block target timespan, so the result is 23/24 of t, capped.
   */
  lemma UniformWindowTarget(chain: Arena, last: nat, params: Params, t: uint256)
    requires WellFormed(chain) && HeightsLinked(chain) && last < |chain| && WindowValid(params)
    requires chain[last].height >= PAST_BLOCKS_MIN
    requires var w := Window(chain, last);
             forall k :: 0 <= k < |w| ==> TargetOf(chain, w[k]) == t
    requires var w := Window(chain, last);
             forall k :: 0 <= k < |w| - 1 ==>
               chain[w[k]].time > 0 && chain[w[k]].time == chain[w[k + 1]].time + params.powTargetSpacing
    requires t * 25 < TWO256 && t * 23 * params.powTargetSpacing < TWO256
    ensures NextTarget(chain, last, params) == Cap((t * 23) / 24, Limit(EraAt(chain[last].height, params), params))
  {
    var w := Window(chain, last);
    var s := params.powTargetSpacing;
    WindowFull(chain, last, params);
    UniformAverage(chain, w, t);
    UniformTimespan(chain, w, s);
    OnePeriodShort(t, params);
  }

  /** The window arithmetic for 23 gaps of one spacing against a 24-block target. */
  lemma OnePeriodShort(t: uint256, params: Params)
    requires WindowValid(params) && t * 23 * params.powTargetSpacing < TWO256
    ensures WindowScaled(24, t, 23 * params.powTargetSpacing, params) == (t * 23) / 24
  {
    var s := params.powTargetSpacing;
    assert WindowTargetTimespan(24, params) == 24 * s;
    assert WindowTimespan(24, 23 * s, params) == 23 * s;
    var x := t * (23 * s);
    assert x == (t * 23) * s;
    DivModUnique(x, TWO256, 0, x);
    SharedFactor(t * 23, 24, s);
  }

  /**
   Once the scaled window target reaches the era ceiling and that ceiling
   is itself a compact value, the returned bits decode to the ceiling
   exactly.
   */
  lemma SaturatedWindow(chain: Arena, last: nat, params: Params, ceiling: uint32)
    requires WellFormed(chain) && last < |chain| && WindowValid(params)
    requires chain[last].height >= PAST_BLOCKS_MIN
    requires Limit(EraAt(chain[last].height, params), params) == SetCompact(ceiling).value
    requires var w := Window(chain, last);
             |w| > 0 &&
             WindowScaled(|w|, RunningAverage(chain, w), ActualTimespan(chain, w), params)
               >= Limit(EraAt(chain[last].height, params), params)
    ensures SetCompact(GetCompact(NextTarget(chain, last, params))) ==
              Decoded(Limit(EraAt(chain[last].height, params), params), false, false)
  {
    DecodeEncodeDecode(ceiling);
  }

  // ---------------------------------------------------------------------------
  // Clamp, scale, cap (shared by both retargets)

  /** The two `if`s that bound the timespan used. */
  function ClampTimespan(actual: int, lo: int, hi: int): (r: int)
    requires lo <= hi
    ensures lo <= r <= hi
    ensures lo <= actual <= hi ==> r == actual
    ensures actual < lo ==> r == lo
    ensures actual > hi ==> r == hi
  {
    var a := if actual < lo then lo else actual;
    if a > hi then hi else a
  }

  /**
   `bn *= timespan; bn /= targetTimespan` on a 256-bit value: the product
   wraps modulo 2^256 and the quotient is truncated.
   */
  function ScaleTarget(target: uint256, timespan: nat, targetTimespan: nat): (r: uint256)
    requires timespan < TWO32 && targetTimespan > 0
    ensures r * targetTimespan <= (target * timespan) % TWO256 < (r + 1) * targetTimespan
  {
    var product := (target * timespan) % TWO256;
    DivTimesAtMost(product, targetTimespan);
    ((target * timespan) % TWO256) / targetTimespan
  }

  /** `if (bnNew > limit) bnNew = limit`: the smaller of the two. */
  function Cap(x: uint256, limit: uint256): (r: uint256)
    ensures r <= x && r <= limit
    ensures r == x || r == limit
  {
    if x > limit then limit else x
  }

  // ---------------------------------------------------------------------------
  // Moving-window retarget

  /** `nTargetTimespan`: what `count` blocks should have taken. */
  function WindowTargetTimespan(count: nat, params: Params): (t: nat)
    requires WindowValid(params) && count <= PAST_BLOCKS_MAX
    ensures count > 0 ==> t > 0
    ensures 3 * t < TWO32
  {
    count * params.powTargetSpacing
  }

  /** The timespan the moving window uses, held to [T/3, 3T]. */
  function WindowTimespan(count: nat, actual: int, params: Params): (ts: nat)
    requires WindowValid(params) && count <= PAST_BLOCKS_MAX
    ensures var t := WindowTargetTimespan(count, params);
            t / 3 <= ts <= 3 * t && ts < TWO32
  {
    var t := WindowTargetTimespan(count, params);
    ClampTimespan(actual, t / 3, t * 3)
  }

  /** `bnNew` before the era cap: the average scaled by the clamped timespan. */
  function WindowScaled(count: nat, average: uint256, actual: int, params: Params): uint256
    requires WindowValid(params) && 1 <= count <= PAST_BLOCKS_MAX
  {
    ScaleTarget(average, WindowTimespan(count, actual, params), WindowTargetTimespan(count, params))
  }

  /** The pre-encoding target of the moving-window retarget for a tip of height >= 24. */
  function NextTarget(chain: Arena, last: nat, params: Params): (r: uint256)
    requires WellFormed(chain) && last < |chain| && WindowValid(params)
    requires chain[last].height >= PAST_BLOCKS_MIN
    ensures r <= Limit(EraAt(chain[last].height, params), params)
  {
    var w := Window(chain, last);
    var scaled := WindowScaled(|w|, RunningAverage(chain, w), ActualTimespan(chain, w), params);
    Cap(scaled, Limit(EraAt(chain[last].height, params), params))
  }

  /**
   `GetNextWorkRequired`. The tip `pindexLast` is a block of the arena (the
   C++ dereferences it before its null test, so a null tip is outside the
   function's domain). A tip of height below 24 gets the proof-of-work
   ceiling; otherwise the window retarget, capped by the era ceiling. The
   result always decodes without flags to at most that ceiling.
   */
  method GetNextWorkRequired(chain: Arena, last: nat, params: Params) returns (nBits: uint32)
    requires WellFormed(chain) && last < |chain|
    requires chain[last].height >= PAST_BLOCKS_MIN ==> WindowValid(params)
    ensures chain[last].height < PAST_BLOCKS_MIN ==> nBits == GetCompact(params.powLimit)
    ensures chain[last].height >= PAST_BLOCKS_MIN ==> nBits == GetCompact(NextTarget(chain, last, params))
    ensures !SetCompact(nBits).negative && !SetCompact(nBits).overflow
    ensures chain[last].height < PAST_BLOCKS_MIN ==> SetCompact(nBits).value <= params.powLimit
    ensures chain[last].height >= PAST_BLOCKS_MIN ==>
              SetCompact(nBits).value <= Limit(EraAt(chain[last].height, params), params)
  {
    var fPoS := chain[last].height >= params.lastPowBlock;
    if chain[last].height == 0 || chain[last].height < PAST_BLOCKS_MIN {
      return GetCompact(params.powLimit);
    }
    var count, average, actualTimespan := ScanWindow(chain, last);
    var bnNew := WindowScaled(count, average, actualTimespan, params);
    var limit := if fPoS then params.posLimit else params.powLimit;
    if bnNew > limit {
      bnNew := limit;
    }
    nBits := GetCompact(bnNew);
  }

  // ---------------------------------------------------------------------------
  // Legacy full-epoch retarget

  /** The legacy pre-encoding target: clamp to [T/4, 4T], scale, cap at the PoW ceiling. */
  function LegacyTarget(previous: uint256, actual: int, params: Params): (r: uint256)
    requires EpochValid(params)
    ensures r <= params.powLimit
  {
    var t := params.powTargetTimespan;
    Cap(ScaleTarget(previous, ClampTimespan(actual, t / 4, t * 4), t), params.powLimit)
  }

  /**
   `CalculateNextWorkRequired`: unchanged bits when retargeting is off;
   otherwise the legacy target of the epoch, which decodes without flags to
   at most the PoW ceiling.
   */
  function CalculateNextWorkRequired(last: BlockIndex, firstBlockTime: int, params: Params): (r: uint32)
    requires !params.powNoRetargeting ==>
               EpochValid(params) && IsInt64(firstBlockTime) && IsInt64(last.time - firstBlockTime)
    ensures params.powNoRetargeting ==> r == last.bits
    ensures !params.powNoRetargeting ==>
              r == GetCompact(LegacyTarget(SetCompact(last.bits).value, last.time - firstBlockTime, params))
    ensures !params.powNoRetargeting ==>
              !SetCompact(r).negative && !SetCompact(r).overflow && SetCompact(r).value <= params.powLimit
  {
    if params.powNoRetargeting then
      last.bits
    else
      GetCompact(LegacyTarget(SetCompact(last.bits).value, last.time - firstBlockTime, params))
  }

  // ---------------------------------------------------------------------------
  // Properties of the scaling step

  /** Without wrap-around, a longer timespan never gives a smaller target. */
  lemma ScaleMonotone(target: uint256, ts1: nat, ts2: nat, t: nat)
    requires ts1 <= ts2 < TWO32 && t > 0 && target * ts2 < TWO256
    ensures ScaleTarget(target, ts1, t) <= ScaleTarget(target, ts2, t)
  {
    MulMonotone(ts1, ts2, target);
    var x1, x2 := target * ts1, target * ts2;
    DivModUnique(x1, TWO256, 0, x1);
    DivModUnique(x2, TWO256, 0, x2);
    DivMonotone(x1, x2, t);
  }

  /** Without wrap-around, scaling by a timespan equal to the target timespan is the identity. */
  lemma ScaleIdentity(target: uint256, t: nat)
    requires 0 < t < TWO32 && target * t < TWO256
    ensures ScaleTarget(target, t, t) == target
  {
    var x := target * t;
    DivModUnique(x, TWO256, 0, x);
    MulDivCancel(target, t);
  }

  lemma ClampMonotone(a1: int, a2: int, lo: int, hi: int)
    requires lo <= hi && a1 <= a2
    ensures ClampTimespan(a1, lo, hi) <= ClampTimespan(a2, lo, hi)
  {
  }

  /**
   The window retarget is monotone in the measured timespan: slower blocks
   never make the next target harder, as long as the scaled product fits in
   256 bits.
   */
  lemma WindowMonotone(count: nat, average: uint256, a1: int, a2: int, params: Params)
    requires WindowValid(params) && 1 <= count <= PAST_BLOCKS_MAX && a1 <= a2
    requires average * (3 * WindowTargetTimespan(count, params)) < TWO256
    ensures WindowScaled(count, average, a1, params) <= WindowScaled(count, average, a2, params)
  {
    var t := WindowTargetTimespan(count, params);
    ClampMonotone(a1, a2, t / 3, t * 3);
    var ts2 := WindowTimespan(count, a2, params);
    MulMonotone(ts2, 3 * t, average);
    ScaleMonotone(average, WindowTimespan(count, a1, params), ts2, t);
  }

  /** A window that took exactly its target timespan keeps its average target. */
  lemma WindowOnSchedule(count: nat, average: uint256, params: Params)
    requires WindowValid(params) && 1 <= count <= PAST_BLOCKS_MAX
    requires average * WindowTargetTimespan(count, params) < TWO256
    ensures WindowScaled(count, average, WindowTargetTimespan(count, params), params) == average
  {
    var t := WindowTargetTimespan(count, params);
    assert WindowTimespan(count, t, params) == t;
    ScaleIdentity(average, t);
  }

  /** The legacy retarget is monotone in the epoch's measured timespan. */
  lemma LegacyMonotone(previous: uint256, a1: int, a2: int, params: Params)
    requires EpochValid(params) && a1 <= a2
    requires previous * (4 * params.powTargetTimespan) < TWO256
    ensures LegacyTarget(previous, a1, params) <= LegacyTarget(previous, a2, params)
  {
    var t := params.powTargetTimespan;
    ClampMonotone(a1, a2, t / 4, t * 4);
    var ts2 := ClampTimespan(a2, t / 4, t * 4);
    MulMonotone(ts2, 4 * t, previous);
    ScaleMonotone(previous, ClampTimespan(a1, t / 4, t * 4), ts2, t);
  }

  /** An epoch that took exactly the target timespan keeps its target, up to the ceiling. */
  lemma LegacyOnSchedule(previous: uint256, params: Params)
    requires EpochValid(params) && previous * params.powTargetTimespan < TWO256
    ensures LegacyTarget(previous, params.powTargetTimespan, params) == Cap(previous, params.powLimit)
  {
    var t := params.powTargetTimespan;
    assert ClampTimespan(t, t / 4, t * 4) == t;
    ScaleIdentity(previous, t);
  }

  /** One legacy retarget at most quadruples the target, as long as nothing wraps. */
  lemma LegacyAtMostFourfold(previous: uint256, actual: int, params: Params)
    requires EpochValid(params) && previous * (4 * params.powTargetTimespan) < TWO256
    ensures LegacyTarget(previous, actual, params) <= 4 * previous
  {
    var t := params.powTargetTimespan;
    var ts := ClampTimespan(actual, t / 4, t * 4);
    ScaleMonotone(previous, ts, 4 * t, t);
    ScaleByMultiple(previous, 4, t);
  }

  lemma ScaleByMultiple(target: uint256, k: nat, t: nat)
    requires 0 < t && k * t < TWO32 && target * (k * t) < TWO256
    ensures ScaleTarget(target, k * t, t) == k * target
  {
    var x := target * (k * t);
    assert x == (k * target) * t;
    DivModUnique(x, TWO256, 0, x);
    MulDivCancel(k * target, t);
  }
}
