/**
 source/audio/Tempo.c: the sample frame of a musical position under a tempo map.  Ticks wrap
 at 64 bits as in the source; double is taken as real, and each segment is truncated.
 */
module Tempo {
  import opened Wire

  const TICKS_PER_BEAT: nat := 960

  datatype TempoPoint = TempoPoint(bar: UInt32, tick: UInt32, bpm: real)

  // ---------------------------------------------------------------- 64-bit arithmetic

  function Wrap(x: int): (u: UInt64) { x % UINT64_LIMIT }

  lemma WrapShift(x: int, k: int)
    ensures Wrap(x + k * UINT64_LIMIT) == Wrap(x)
  {
  }

  lemma WrapSum(x: int, y: int)
    ensures Wrap(Wrap(x) + y) == Wrap(x + y)
  {
    WrapShift(Wrap(x) + y, x / UINT64_LIMIT);
  }

  lemma WrapProduct(x: int, y: int)
    ensures Wrap(Wrap(x) * y) == Wrap(x * y)
  {
    var k := x / UINT64_LIMIT;
    assert x == k * UINT64_LIMIT + Wrap(x);
    assert x * y == Wrap(x) * y + (k * y) * UINT64_LIMIT;
    WrapShift(Wrap(x) * y, k * y);
  }

  /** deltaTicks: every operation is modulo 2^64, and tick - lastTick may be negative. */
  function DeltaTicks(bar: UInt64, tick: UInt64, lastBar: UInt64, lastTick: UInt64, beatsPerBar: UInt32): (d: UInt64)
  {
    Wrap(Wrap(Wrap(Wrap(Wrap(bar - lastBar) * beatsPerBar) * TICKS_PER_BEAT) + tick) - lastTick)
  }

  /** The absolute tick of a position. */
  function Absolute(bar: nat, tick: nat, beatsPerBar: nat): (t: nat)
  {
    bar * beatsPerBar * TICKS_PER_BEAT + tick
  }

  lemma Distribute(x: int, y: int, z: int)
    ensures (x - y) * z == x * z - y * z
  {
  }

  lemma DeltaUnwrapped(bar: UInt64, tick: UInt64, lastBar: UInt64, lastTick: UInt64, beatsPerBar: UInt32)
    ensures DeltaTicks(bar, tick, lastBar, lastTick, beatsPerBar)
         == Wrap((bar - lastBar) * beatsPerBar * TICKS_PER_BEAT + tick - lastTick)
  {
    hide Wrap;
    var d := bar - lastBar;
    WrapProduct(d, beatsPerBar);
    WrapProduct(d * beatsPerBar, TICKS_PER_BEAT);
    var p := d * beatsPerBar * TICKS_PER_BEAT;
    WrapSum(p, tick);
    WrapSum(p + tick, -(lastTick as int));
  }

  lemma WrapSmall(x: int)
    requires 0 <= x < UINT64_LIMIT
    ensures Wrap(x) == x
  {
  }

  /** The distance of two absolute ticks, with the bars' part as one product. */
  lemma DistanceSplits(bar: nat, tick: nat, lastBar: nat, lastTick: nat, beatsPerBar: nat)
    ensures (bar - lastBar) * beatsPerBar * TICKS_PER_BEAT + tick - lastTick
         == Absolute(bar, tick, beatsPerBar) - Absolute(lastBar, lastTick, beatsPerBar)
  {
    Distribute(bar, lastBar, beatsPerBar);
    var a, b := bar * beatsPerBar, lastBar * beatsPerBar;
    assert (a - b) * TICKS_PER_BEAT == a * TICKS_PER_BEAT - b * TICKS_PER_BEAT;
  }

  /** The wrapped delta is the true distance whenever that is a 64-bit number. */
  lemma DeltaIsDistance(bar: UInt32, tick: UInt32, lastBar: UInt32, lastTick: UInt32, beatsPerBar: UInt32)
    requires Absolute(lastBar, lastTick, beatsPerBar) <= Absolute(bar, tick, beatsPerBar)
    requires Absolute(bar, tick, beatsPerBar) < UINT64_LIMIT
    ensures DeltaTicks(bar, tick, lastBar, lastTick, beatsPerBar)
         == Absolute(bar, tick, beatsPerBar) - Absolute(lastBar, lastTick, beatsPerBar)
  {
    hide Wrap;
    hide DeltaTicks;
    hide Absolute;
    DistanceSplits(bar, tick, lastBar, lastTick, beatsPerBar);
    DeltaUnwrapped(bar, tick, lastBar, lastTick, beatsPerBar);
    WrapSmall(Absolute(bar, tick, beatsPerBar) - Absolute(lastBar, lastTick, beatsPerBar));
  }

  /** A tick lies inside its bar, as ClipInstance documents. */
  predicate InBar(tick: nat, beatsPerBar: nat) { tick < beatsPerBar * TICKS_PER_BEAT }

  /** Lexicographic order of (bar, tick) is the order of absolute ticks. */
  lemma LexIsAbsolute(bar1: nat, tick1: nat, bar2: nat, tick2: nat, beatsPerBar: nat)
    requires InBar(tick1, beatsPerBar) && InBar(tick2, beatsPerBar)
    ensures bar1 > bar2 || (bar1 == bar2 && tick1 > tick2)
            <==> Absolute(bar1, tick1, beatsPerBar) > Absolute(bar2, tick2, beatsPerBar)
  {
    var len := beatsPerBar * TICKS_PER_BEAT;
    assert Absolute(bar1, tick1, beatsPerBar) == bar1 * len + tick1;
    assert Absolute(bar2, tick2, beatsPerBar) == bar2 * len + tick2;
    if bar1 > bar2 {
      BarsApart(bar2, bar1, len);
    } else if bar1 < bar2 {
      BarsApart(bar1, bar2, len);
    }
  }

  lemma {:induction false} BarsApart(a: nat, b: nat, len: nat)
    requires a < b
    ensures a * len + len <= b * len
  {
    if a + 1 < b {
      BarsApart(a, b - 1, len);
    }
    Distribute(b, 1, len);
  }

  const MAX_BEATS: nat := 4473924

  /** Exactly up to 4473924 beats per bar, every position has a 64-bit absolute tick. */
  lemma PositionsFitIff(beatsPerBar: nat)
    ensures beatsPerBar <= MAX_BEATS <==>
            forall bar: UInt32, tick: UInt32 :: InBar(tick, beatsPerBar) ==>
              Absolute(bar, tick, beatsPerBar) < UINT64_LIMIT
  {
    var len := beatsPerBar * TICKS_PER_BEAT;
    if beatsPerBar <= MAX_BEATS {
      forall bar: UInt32, tick: UInt32 | InBar(tick, beatsPerBar)
        ensures Absolute(bar, tick, beatsPerBar) < UINT64_LIMIT
      {
        BarsApart(bar, UINT32_LIMIT, len);
        assert Absolute(bar, tick, beatsPerBar) == bar * len + tick;
      }
    } else {
      var bar: UInt32 := UINT32_LIMIT - 1;
      assert InBar(0, beatsPerBar);
      assert Absolute(bar, 0, beatsPerBar) == bar * len;
      assert len >= (MAX_BEATS + 1) * TICKS_PER_BEAT;
      assert bar * len >= bar * ((MAX_BEATS + 1) * TICKS_PER_BEAT);
      var tick: UInt32 := 0;
      assert InBar(tick, beatsPerBar) && Absolute(bar, tick, beatsPerBar) >= UINT64_LIMIT;
    }
  }

  // ---------------------------------------------------------------- the loop

  /** framesPerTick. */
  function Rate(bpm: real, sampleRate: UInt32): (r: real)
    requires bpm > 0.0
    ensures r >= 0.0
  {
    (60.0 * sampleRate as real) / (bpm * TICKS_PER_BEAT as real)
  }

  /** deltaTicks * framesPerTick */
  function Linear(delta: nat, rate: real): (x: real)
    requires rate >= 0.0
    ensures x >= 0.0
  {
    delta as real * rate
  }

  /** (uint64_t)(deltaTicks * framesPerTick) */
  function Frames(delta: nat, rate: real): (f: nat)
    requires rate >= 0.0
    ensures f as real <= Linear(delta, rate) < f as real + 1.0
  {
    Linear(delta, rate).Floor
  }

  predicate Positive(points: seq<TempoPoint>) { forall i :: 0 <= i < |points| ==> points[i].bpm > 0.0 }

  /** Where the loop stands: the frame so far, the last position and the tempo in force. */
  datatype Cursor = Cursor(frame: nat, bar: UInt32, tick: UInt32, bpm: real)

  function Advance(c: Cursor, bar: UInt32, tick: UInt32, sampleRate: UInt32, beatsPerBar: UInt32): (frame: UInt64)
    requires c.bpm > 0.0
  {
    Wrap(c.frame + Frames(DeltaTicks(bar, tick, c.bar, c.tick, beatsPerBar), Rate(c.bpm, sampleRate)))
  }

  /** The rest of the loop and the final segment. */
  function Walk(points: seq<TempoPoint>, c: Cursor, targetBar: UInt32, targetTick: UInt32,
                sampleRate: UInt32, beatsPerBar: UInt32): (frame: UInt64)
    requires Positive(points) && c.bpm > 0.0
  {
    if points == [] || points[0].bar > targetBar || (points[0].bar == targetBar && points[0].tick > targetTick)
    then Advance(c, targetBar, targetTick, sampleRate, beatsPerBar)
    else
      var p := points[0];
      Walk(points[1..], Cursor(Advance(c, p.bar, p.tick, sampleRate, beatsPerBar), p.bar, p.tick, p.bpm),
           targetBar, targetTick, sampleRate, beatsPerBar)
  }

  /** TempoMapToFrame as a function; it reads points[0], so the map is not empty. */
  function ToFrame(points: seq<TempoPoint>, targetBar: UInt32, targetTick: UInt32,
                   sampleRate: UInt32, beatsPerBar: UInt32): (frame: UInt64)
    requires points != [] && Positive(points)
  {
    Walk(points, Cursor(0, 0, 0, points[0].bpm), targetBar, targetTick, sampleRate, beatsPerBar)
  }

  method TempoMapToFrame(points: seq<TempoPoint>, targetBar: UInt32, targetTick: UInt32,
                         sampleRate: UInt32, beatsPerBar: UInt32) returns (frame: UInt64)
    requires points != [] && Positive(points)
    ensures frame == ToFrame(points, targetBar, targetTick, sampleRate, beatsPerBar)
  {
    var c := Cursor(0, 0, 0, points[0].bpm);
    var i := 0;
    while i < |points|
      invariant 0 <= i <= |points| && c.bpm > 0.0
      invariant ToFrame(points, targetBar, targetTick, sampleRate, beatsPerBar)
             == Walk(points[i..], c, targetBar, targetTick, sampleRate, beatsPerBar)
    {
      var p := points[i];
      if p.bar > targetBar || (p.bar == targetBar && p.tick > targetTick) { break; }
      c := Cursor(Advance(c, p.bar, p.tick, sampleRate, beatsPerBar), p.bar, p.tick, p.bpm);
      assert points[i..][1..] == points[i + 1..];
      i := i + 1;
    }
    frame := Advance(c, targetBar, targetTick, sampleRate, beatsPerBar);
  }

  // ---------------------------------------------------------------- the exact map

  /** A tempo change at an absolute tick, with the frames per tick that hold from there. */
  datatype Mark = Mark(at: nat, rate: real)

  predicate Sorted(ms: seq<Mark>, from: nat)
  {
    ms != [] ==> from <= ms[0].at && ms[0].rate >= 0.0 && Sorted(ms[1..], ms[0].at)
  }

  /** Truncated frames from `from` to `target`. */
  function Truncated(ms: seq<Mark>, from: nat, rate: real, target: nat): (f: nat)
    requires rate >= 0.0 && Sorted(ms, from) && from <= target
  {
    if ms == [] || ms[0].at > target then Frames(target - from, rate)
    else Frames(ms[0].at - from, rate) + Truncated(ms[1..], ms[0].at, ms[0].rate, target)
  }

  /** The piecewise-linear position itself. */
  function Exact(ms: seq<Mark>, from: nat, rate: real, target: nat): (f: real)
    requires rate >= 0.0 && Sorted(ms, from) && from <= target
    ensures f >= 0.0
  {
    if ms == [] || ms[0].at > target then Linear(target - from, rate)
    else Linear(ms[0].at - from, rate) + Exact(ms[1..], ms[0].at, ms[0].rate, target)
  }

  /** How many points lie at or before the target. */
  function Applied(ms: seq<Mark>, target: nat): (n: nat)
  {
    if ms == [] || ms[0].at > target then 0 else 1 + Applied(ms[1..], target)
  }

  /** Truncation never overshoots and loses less than one frame per applied point, plus one. */
  lemma {:induction false} TruncationError(ms: seq<Mark>, from: nat, rate: real, target: nat)
    requires rate >= 0.0 && Sorted(ms, from) && from <= target
    ensures var exact, got := Exact(ms, from, rate, target), Truncated(ms, from, rate, target) as real;
            got <= exact < got + Applied(ms, target) as real + 1.0
  {
    hide Linear;
    if ms != [] && ms[0].at <= target {
      TruncationError(ms[1..], ms[0].at, ms[0].rate, target);
    }
  }

  /** The points at or before the target, wherever they stand. */
  function UpTo(ms: seq<Mark>, target: nat): (r: seq<Mark>)
  {
    if ms == [] then []
    else (if ms[0].at <= target then [ms[0]] else []) + UpTo(ms[1..], target)
  }

  lemma {:induction false} NoneLater(ms: seq<Mark>, from: nat, target: nat)
    requires Sorted(ms, from) && from > target
    ensures UpTo(ms, target) == []
  {
    if ms != [] {
      NoneLater(ms[1..], ms[0].at, target);
    }
  }

  /** The early break loses nothing, and points after the target never matter. */
  lemma {:induction false} LaterPointsIrrelevant(ms: seq<Mark>, from: nat, rate: real, target: nat)
    requires rate >= 0.0 && Sorted(ms, from) && from <= target
    ensures Sorted(UpTo(ms, target), from)
    ensures Truncated(ms, from, rate, target) == Truncated(UpTo(ms, target), from, rate, target)
    ensures Applied(ms, target) == |UpTo(ms, target)|
  {
    if ms == [] {
    } else if ms[0].at > target {
      NoneLater(ms[1..], ms[0].at, target);
    } else {
      LaterPointsIrrelevant(ms[1..], ms[0].at, ms[0].rate, target);
      assert UpTo(ms, target)[1..] == UpTo(ms[1..], target);
    }
  }

  lemma FramesMonotone(d1: nat, d2: nat, rate: real)
    requires d1 <= d2 && rate >= 0.0
    ensures Frames(d1, rate) <= Frames(d2, rate)
  {
    assert d2 as real * rate == d1 as real * rate + (d2 - d1) as real * rate;
    assert (d2 - d1) as real * rate >= 0.0;
  }

  /** Cutting a segment in two never gains a frame and loses at most one. */
  lemma FramesSplit(d1: nat, d2: nat, rate: real)
    requires rate >= 0.0
    ensures Linear(d1 + d2, rate) == Linear(d1, rate) + Linear(d2, rate)
    ensures Frames(d1, rate) + Frames(d2, rate) <= Frames(d1 + d2, rate) <= Frames(d1, rate) + Frames(d2, rate) + 1
  {
    assert (d1 + d2) as real * rate == d1 as real * rate + d2 as real * rate;
  }

  /** A later target never has an earlier frame. */
  lemma {:induction false} TruncatedMonotone(ms: seq<Mark>, from: nat, rate: real, t1: nat, t2: nat)
    requires rate >= 0.0 && Sorted(ms, from) && from <= t1 <= t2
    ensures Truncated(ms, from, rate, t1) <= Truncated(ms, from, rate, t2)
  {
    if ms == [] || ms[0].at > t2 {
      FramesMonotone(t1 - from, t2 - from, rate);
    } else if ms[0].at > t1 {
      FramesMonotone(t1 - from, ms[0].at - from, rate);
    } else {
      TruncatedMonotone(ms[1..], ms[0].at, ms[0].rate, t1, t2);
    }
  }

  /** The rate in force just before position `j` of the list. */
  function InForce(ms: seq<Mark>, rate: real, j: nat): (r: real)
    requires j <= |ms|
  {
    if j == 0 then rate else ms[j - 1].rate
  }

  lemma RedundantFirst(ms: seq<Mark>, from: nat, rate: real, target: nat, at: nat)
    requires rate >= 0.0 && Sorted(ms, from) && from <= target && Sorted([Mark(at, rate)] + ms, from)
    ensures var with := [Mark(at, rate)] + ms;
            && Exact(with, from, rate, target) == Exact(ms, from, rate, target)
            && Truncated(with, from, rate, target) <= Truncated(ms, from, rate, target)
                 <= Truncated(with, from, rate, target) + 1
  {
    hide Frames;
    hide Linear;
    var with := [Mark(at, rate)] + ms;
    assert with[1..] == ms;
    if at <= target {
      var end := if ms == [] || ms[0].at > target then target else ms[0].at;
      FramesSplit(at - from, end - at, rate);
      assert (at - from) + (end - at) == end - from;
    }
  }

  /** A point that repeats the tempo in force never raises a frame and lowers it by at most one. */
  lemma {:induction false} RedundantPoint(ms: seq<Mark>, from: nat, rate: real, target: nat, j: nat, at: nat)
    requires rate >= 0.0 && Sorted(ms, from) && from <= target && j <= |ms|
    requires Sorted(ms[..j] + [Mark(at, InForce(ms, rate, j))] + ms[j..], from)
    ensures var with := ms[..j] + [Mark(at, InForce(ms, rate, j))] + ms[j..];
            && Exact(with, from, rate, target) == Exact(ms, from, rate, target)
            && Truncated(with, from, rate, target) <= Truncated(ms, from, rate, target)
                 <= Truncated(with, from, rate, target) + 1
    decreases j
  {
    hide Truncated;
    hide Exact;
    var m := Mark(at, InForce(ms, rate, j));
    var with := ms[..j] + [m] + ms[j..];
    if j == 0 {
      assert with == [m] + ms;
      RedundantFirst(ms, from, rate, target, at);
    } else {
      var first, rest := ms[0], ms[1..];
      var inner := rest[..j - 1] + [m] + rest[j - 1..];
      assert ms == [first] + rest && with == [first] + inner;
      assert m == Mark(at, InForce(rest, first.rate, j - 1));
      hide InForce;
      SortedCons(first, rest, from);
      SortedCons(first, inner, from);
      hide Sorted;
      SameFirst(first, inner, rest, from, rate, target);
      if first.at <= target {
        RedundantPoint(rest, first.at, first.rate, target, j - 1, at);
      }
    }
  }

  lemma SortedCons(m: Mark, rest: seq<Mark>, from: nat)
    ensures Sorted([m] + rest, from) <==> from <= m.at && m.rate >= 0.0 && Sorted(rest, m.at)
  {
    assert ([m] + rest)[1..] == rest;
  }

  /** Two maps with the same first point differ by what comes after it, if that point applies at all. */
  lemma SameFirst(m: Mark, a: seq<Mark>, b: seq<Mark>, from: nat, rate: real, target: nat)
    requires rate >= 0.0 && from <= target && Sorted([m] + a, from) && Sorted([m] + b, from)
    ensures m.at > target ==> Exact([m] + a, from, rate, target) == Exact([m] + b, from, rate, target)
    ensures m.at > target ==> Truncated([m] + a, from, rate, target) == Truncated([m] + b, from, rate, target)
    ensures Sorted(a, m.at) && Sorted(b, m.at) && m.rate >= 0.0
    ensures m.at <= target ==>
              Exact([m] + a, from, rate, target) - Exact([m] + b, from, rate, target)
              == Exact(a, m.at, m.rate, target) - Exact(b, m.at, m.rate, target)
    ensures m.at <= target ==>
              Truncated([m] + a, from, rate, target) - Truncated([m] + b, from, rate, target)
              == Truncated(a, m.at, m.rate, target) - Truncated(b, m.at, m.rate, target)
  {
    hide Frames;
    hide Linear;
    assert ([m] + a)[1..] == a && ([m] + b)[1..] == b;
  }

  // ---------------------------------------------------------------- the loop against the exact map

  /** The marks of a tempo map. */
  function Marks(points: seq<TempoPoint>, sampleRate: UInt32, beatsPerBar: UInt32): (ms: seq<Mark>)
    requires Positive(points)
    ensures |ms| == |points|
  {
    if points == [] then []
    else [Mark(Absolute(points[0].bar, points[0].tick, beatsPerBar), Rate(points[0].bpm, sampleRate))]
         + Marks(points[1..], sampleRate, beatsPerBar)
  }

  predicate AllInBar(points: seq<TempoPoint>, beatsPerBar: nat)
  {
    forall i :: 0 <= i < |points| ==> InBar(points[i].tick, beatsPerBar)
  }

  /** One segment, as long as it ends within 64 bits. */
  lemma AdvanceExact(c: Cursor, bar: UInt32, tick: UInt32, sampleRate: UInt32, beatsPerBar: UInt32)
    requires c.bpm > 0.0
    requires Absolute(c.bar, c.tick, beatsPerBar) <= Absolute(bar, tick, beatsPerBar) < UINT64_LIMIT
    requires c.frame + Frames(Absolute(bar, tick, beatsPerBar) - Absolute(c.bar, c.tick, beatsPerBar),
                              Rate(c.bpm, sampleRate)) < UINT64_LIMIT
    ensures Advance(c, bar, tick, sampleRate, beatsPerBar)
         == c.frame + Frames(Absolute(bar, tick, beatsPerBar) - Absolute(c.bar, c.tick, beatsPerBar),
                             Rate(c.bpm, sampleRate))
  {
    hide Rate;
    hide Frames;
    hide Absolute;
    hide DeltaTicks;
    DeltaIsDistance(bar, tick, c.bar, c.tick, beatsPerBar);
  }

  /** The loop computes the truncated map, as long as positions and frames are 64-bit numbers. */
  lemma {:induction false} WalkIsTruncated(points: seq<TempoPoint>, c: Cursor, targetBar: UInt32, targetTick: UInt32,
                                           sampleRate: UInt32, beatsPerBar: UInt32)
    requires Positive(points) && c.bpm > 0.0 && AllInBar(points, beatsPerBar) && InBar(targetTick, beatsPerBar)
    requires Absolute(targetBar, targetTick, beatsPerBar) < UINT64_LIMIT
    requires Absolute(c.bar, c.tick, beatsPerBar) <= Absolute(targetBar, targetTick, beatsPerBar)
    requires Sorted(Marks(points, sampleRate, beatsPerBar), Absolute(c.bar, c.tick, beatsPerBar))
    requires c.frame as real + Exact(Marks(points, sampleRate, beatsPerBar), Absolute(c.bar, c.tick, beatsPerBar),
                                     Rate(c.bpm, sampleRate), Absolute(targetBar, targetTick, beatsPerBar))
             < UINT64_LIMIT as real
    ensures Walk(points, c, targetBar, targetTick, sampleRate, beatsPerBar)
         == c.frame + Truncated(Marks(points, sampleRate, beatsPerBar), Absolute(c.bar, c.tick, beatsPerBar),
                                Rate(c.bpm, sampleRate), Absolute(targetBar, targetTick, beatsPerBar))
    decreases |points|
  {
    hide Rate;
    hide Frames;
    hide Absolute;
    hide Advance;
    hide InBar;
    var from, target := Absolute(c.bar, c.tick, beatsPerBar), Absolute(targetBar, targetTick, beatsPerBar);
    var ms, rate := Marks(points, sampleRate, beatsPerBar), Rate(c.bpm, sampleRate);
    TruncationError(ms, from, rate, target);
    if points != [] {
      LexIsAbsolute(points[0].bar, points[0].tick, targetBar, targetTick, beatsPerBar);
    }
    if points == [] || ms[0].at > target {
      AdvanceExact(c, targetBar, targetTick, sampleRate, beatsPerBar);
    } else {
      var p := points[0];
      AdvanceExact(c, p.bar, p.tick, sampleRate, beatsPerBar);
      var c' := Cursor(Advance(c, p.bar, p.tick, sampleRate, beatsPerBar), p.bar, p.tick, p.bpm);
      assert ms[1..] == Marks(points[1..], sampleRate, beatsPerBar);
      WalkIsTruncated(points[1..], c', targetBar, targetTick, sampleRate, beatsPerBar);
    }
  }

  /** A tempo map, target and rate for which the source's arithmetic stays within its types. */
  ghost predicate WellFormed(points: seq<TempoPoint>, bar: UInt32, tick: UInt32,
                             sampleRate: UInt32, beatsPerBar: UInt32)
  {
    && points != [] && Positive(points) && AllInBar(points, beatsPerBar) && InBar(tick, beatsPerBar)
    && Absolute(bar, tick, beatsPerBar) < UINT64_LIMIT
    && Sorted(Marks(points, sampleRate, beatsPerBar), 0)
    && Position(points, bar, tick, sampleRate, beatsPerBar) < UINT64_LIMIT as real
  }

  /** The exact frame position of a target. */
  function Position(points: seq<TempoPoint>, bar: UInt32, tick: UInt32,
                    sampleRate: UInt32, beatsPerBar: UInt32): (f: real)
    requires points != [] && Positive(points) && Sorted(Marks(points, sampleRate, beatsPerBar), 0)
  {
    Exact(Marks(points, sampleRate, beatsPerBar), 0, Rate(points[0].bpm, sampleRate), Absolute(bar, tick, beatsPerBar))
  }

  lemma ToFrameIsTruncated(points: seq<TempoPoint>, bar: UInt32, tick: UInt32, sampleRate: UInt32, beatsPerBar: UInt32)
    requires WellFormed(points, bar, tick, sampleRate, beatsPerBar)
    ensures ToFrame(points, bar, tick, sampleRate, beatsPerBar)
         == Truncated(Marks(points, sampleRate, beatsPerBar), 0, Rate(points[0].bpm, sampleRate),
                      Absolute(bar, tick, beatsPerBar))
  {
    hide Rate;
    assert Absolute(0, 0, beatsPerBar) == 0;
    WalkIsTruncated(points, Cursor(0, 0, 0, points[0].bpm), bar, tick, sampleRate, beatsPerBar);
  }

  // ---------------------------------------------------------------- the position on the points themselves

  /** The frames of `ticks` ticks at 960 ticks to the beat, `bpm` beats and 60 seconds to the minute. */
  function Span(ticks: nat, bpm: real, sampleRate: UInt32): (f: real)
    requires bpm > 0.0
  {
    ticks as real * 60.0 * sampleRate as real / (bpm * 960.0)
  }

  /** A position in ticks. */
  function Ticks(bar: nat, tick: nat, beatsPerBar: nat): (t: nat)
  {
    bar * beatsPerBar * 960 + tick
  }

  /** The exact position: the sum over the segments between the points that come before the target. */
  function Elapsed(points: seq<TempoPoint>, from: nat, bpm: real, target: nat, sampleRate: UInt32, beatsPerBar: UInt32)
    : (f: real)
    requires bpm > 0.0 && Positive(points) && from <= target && Ascending(points, from, beatsPerBar)
  {
    if points == [] then Span(target - from, bpm, sampleRate)
    else
      var at := Ticks(points[0].bar, points[0].tick, beatsPerBar);
      if at > target then Span(target - from, bpm, sampleRate)
      else Span(at - from, bpm, sampleRate)
           + Elapsed(points[1..], at, points[0].bpm, target, sampleRate, beatsPerBar)
  }

  predicate Ascending(points: seq<TempoPoint>, from: nat, beatsPerBar: UInt32)
  {
    points != [] ==>
      var at := Ticks(points[0].bar, points[0].tick, beatsPerBar);
      from <= at && Ascending(points[1..], at, beatsPerBar)
  }

  /** How many of the points come at or before the target. */
  function Passed(points: seq<TempoPoint>, target: nat, beatsPerBar: UInt32): (n: nat)
  {
    if points == [] then 0
    else (if Ticks(points[0].bar, points[0].tick, beatsPerBar) <= target then 1 else 0)
         + Passed(points[1..], target, beatsPerBar)
  }

  lemma ScaleQuotient(x: real, a: real, b: real)
    requires b > 0.0
    ensures x * (a / b) == x * a / b
  {
    var q := a / b;
    assert q * b == a;
    assert (x * q) * b == x * (q * b);
    Cancel(x * q, b, x * a);
  }

  lemma Cancel(p: real, b: real, c: real)
    requires b > 0.0 && p * b == c
    ensures p == c / b
  {
  }

  lemma SpanIsLinear(ticks: nat, bpm: real, sampleRate: UInt32)
    requires bpm > 0.0
    ensures Linear(ticks, Rate(bpm, sampleRate)) == Span(ticks, bpm, sampleRate)
  {
    var x, s := ticks as real, sampleRate as real;
    ScaleQuotient(x, 60.0 * s, bpm * 960.0);
    assert x * (60.0 * s) == x * 60.0 * s;
  }

  /** A sorted tempo map is one whose points are ascending, and its exact position is that sum. */
  lemma {:induction false} ElapsedIsExact(points: seq<TempoPoint>, from: nat, bpm: real, target: nat,
                                          sampleRate: UInt32, beatsPerBar: UInt32)
    requires bpm > 0.0 && Positive(points) && from <= target
    requires Sorted(Marks(points, sampleRate, beatsPerBar), from)
    ensures Ascending(points, from, beatsPerBar)
    ensures Exact(Marks(points, sampleRate, beatsPerBar), from, Rate(bpm, sampleRate), target)
         == Elapsed(points, from, bpm, target, sampleRate, beatsPerBar)
    decreases |points|
  {
    hide Rate;
    hide Span;
    hide Linear;
    SpanIsLinear(target - from, bpm, sampleRate);
    if points != [] {
      var at := Ticks(points[0].bar, points[0].tick, beatsPerBar);
      assert at == Absolute(points[0].bar, points[0].tick, beatsPerBar);
      SpanIsLinear(at - from, bpm, sampleRate);
      SortedAscends(points[1..], at, sampleRate, beatsPerBar);
      if at <= target {
        ElapsedIsExact(points[1..], at, points[0].bpm, target, sampleRate, beatsPerBar);
      }
    }
  }

  lemma {:induction false} SortedAscends(points: seq<TempoPoint>, from: nat, sampleRate: UInt32, beatsPerBar: UInt32)
    requires Positive(points) && Sorted(Marks(points, sampleRate, beatsPerBar), from)
    ensures Ascending(points, from, beatsPerBar)
    decreases |points|
  {
    hide Rate;
    if points != [] {
      var at := Ticks(points[0].bar, points[0].tick, beatsPerBar);
      assert at == Absolute(points[0].bar, points[0].tick, beatsPerBar);
      SortedAscends(points[1..], at, sampleRate, beatsPerBar);
    }
  }

  lemma {:induction false} PassedIsApplied(points: seq<TempoPoint>, from: nat, target: nat,
                                           sampleRate: UInt32, beatsPerBar: UInt32)
    requires Positive(points) && Sorted(Marks(points, sampleRate, beatsPerBar), from)
    ensures Passed(points, target, beatsPerBar) == Applied(Marks(points, sampleRate, beatsPerBar), target)
    ensures from > target ==> Passed(points, target, beatsPerBar) == 0
    decreases |points|
  {
    hide Rate;
    if points != [] {
      var at := Ticks(points[0].bar, points[0].tick, beatsPerBar);
      assert at == Absolute(points[0].bar, points[0].tick, beatsPerBar);
      PassedIsApplied(points[1..], at, target, sampleRate, beatsPerBar);
    }
  }

  /**
   Error bound of TempoMapToFrame: never beyond the exact position, and short of it by less
   than one frame per point at or before the target, plus one.
   */
  lemma FrameErrorBound(points: seq<TempoPoint>, bar: UInt32, tick: UInt32, sampleRate: UInt32, beatsPerBar: UInt32)
    requires WellFormed(points, bar, tick, sampleRate, beatsPerBar)
    ensures Ascending(points, 0, beatsPerBar)
    ensures var frame, target := ToFrame(points, bar, tick, sampleRate, beatsPerBar), Ticks(bar, tick, beatsPerBar);
            frame as real <= Elapsed(points, 0, points[0].bpm, target, sampleRate, beatsPerBar)
                          < (frame + Passed(points, target, beatsPerBar) + 1) as real
  {
    hide Rate;
    assert Ticks(bar, tick, beatsPerBar) == Absolute(bar, tick, beatsPerBar);
    ElapsedIsExact(points, 0, points[0].bpm, Ticks(bar, tick, beatsPerBar), sampleRate, beatsPerBar);
    PassedIsApplied(points, 0, Ticks(bar, tick, beatsPerBar), sampleRate, beatsPerBar);
    hide Elapsed;
    hide Passed;
    hide Ticks;
    hide Ascending;
    ToFrameIsTruncated(points, bar, tick, sampleRate, beatsPerBar);
    TruncationError(Marks(points, sampleRate, beatsPerBar), 0, Rate(points[0].bpm, sampleRate),
                    Absolute(bar, tick, beatsPerBar));
  }

  lemma Less(x: real, y: real, b: real)
    requires b > 0.0 && x < y
    ensures x * b < y * b
  {
  }

  lemma QuotientBelow(a: real, y: real, b: real)
    requires b > 0.0 && a / b < y
    ensures a < y * b
  {
    Less(a / b, y, b);
  }

  lemma QuotientAbove(a: real, x: real, b: real)
    requires b > 0.0 && x <= a / b
    ensures x * b <= a
  {
    if x < a / b { Less(x, a / b, b); }
  }

  lemma FloorOfQuotient(x: real, a: real, b: real)
    requires b > 0.0 && x <= a / b < x + 1.0
    ensures x * b <= a && a < (x + 1.0) * b
  {
    QuotientAbove(a, x, b);
    QuotientBelow(a, x + 1.0, b);
  }

  lemma FloorOfSpan(f: nat, ticks: nat, bpm: real, sampleRate: UInt32)
    requires bpm > 0.0 && f as real <= Span(ticks, bpm, sampleRate) < f as real + 1.0
    ensures f as real * (bpm * 960.0) <= ticks as real * 60.0 * sampleRate as real
    ensures ticks as real * 60.0 * sampleRate as real < (f as real + 1.0) * (bpm * 960.0)
  {
    FloorOfQuotient(f as real, ticks as real * 60.0 * sampleRate as real, bpm * 960.0);
  }

  /** One tempo from the start: the frame is exactly the whole part of ticks * 60 * rate / (bpm * 960). */
  lemma SingleTempo(bpm: real, bar: UInt32, tick: UInt32, sampleRate: UInt32, beatsPerBar: UInt32)
    requires WellFormed([TempoPoint(0, 0, bpm)], bar, tick, sampleRate, beatsPerBar)
    ensures var frame := ToFrame([TempoPoint(0, 0, bpm)], bar, tick, sampleRate, beatsPerBar) as real;
            var ticks := Ticks(bar, tick, beatsPerBar) as real;
            frame * (bpm * 960.0) <= ticks * 60.0 * sampleRate as real < (frame + 1.0) * (bpm * 960.0)
  {
    var points := [TempoPoint(0, 0, bpm)];
    assert points[0].bpm > 0.0;
    var rate, t := Rate(bpm, sampleRate), Ticks(bar, tick, beatsPerBar);
    assert t == Absolute(bar, tick, beatsPerBar) && Absolute(0, 0, beatsPerBar) == 0;
    hide ToFrame;
    hide Walk;
    ToFrameIsTruncated(points, bar, tick, sampleRate, beatsPerBar);
    OneMark(points, rate, t, sampleRate, beatsPerBar);
    SpanIsLinear(t, bpm, sampleRate);
    hide Rate;
    hide Frames;
    var f := Frames(t, rate);
    assert f as real <= Span(t, bpm, sampleRate) < f as real + 1.0;
    hide Linear;
    hide Span;
    FloorOfSpan(f, t, bpm, sampleRate);
  }

  lemma OneMark(points: seq<TempoPoint>, rate: real, t: nat, sampleRate: UInt32, beatsPerBar: UInt32)
    requires |points| == 1 && points[0].bar == 0 && points[0].tick == 0 && points[0].bpm > 0.0
    requires Positive(points) && rate == Rate(points[0].bpm, sampleRate)
    ensures Sorted(Marks(points, sampleRate, beatsPerBar), 0)
    ensures Truncated(Marks(points, sampleRate, beatsPerBar), 0, rate, t) == Frames(t, rate)
  {
    var ms := Marks(points, sampleRate, beatsPerBar);
    assert points[1..] == [];
    assert ms[0] == Mark(0, rate) && ms[1..] == [];
    hide Rate;
    NoFrames(rate);
    hide Frames;
    assert Truncated(ms, 0, rate, t) == Frames(0, rate) + Truncated([], 0, rate, t);
  }

  lemma NoFrames(rate: real)
    requires rate >= 0.0
    ensures Frames(0, rate) == 0
  {
  }

  /** A minute has as many beats as the tempo says: so many beats are exactly 60 times the sample rate. */
  lemma Minute(bpm: nat, bar: UInt32, tick: UInt32, sampleRate: UInt32, beatsPerBar: UInt32)
    requires bpm > 0 && WellFormed([TempoPoint(0, 0, bpm as real)], bar, tick, sampleRate, beatsPerBar)
    requires Ticks(bar, tick, beatsPerBar) == bpm * 960
    ensures ToFrame([TempoPoint(0, 0, bpm as real)], bar, tick, sampleRate, beatsPerBar) == 60 * sampleRate
  {
    SingleTempo(bpm as real, bar, tick, sampleRate, beatsPerBar);
    var frame := ToFrame([TempoPoint(0, 0, bpm as real)], bar, tick, sampleRate, beatsPerBar);
    hide ToFrame;
    hide WellFormed;
    assert Ticks(bar, tick, beatsPerBar) as real == bpm as real * 960.0;
    hide Ticks;
    WholeBeats(frame, Ticks(bar, tick, beatsPerBar) as real, bpm as real * 960.0, sampleRate);
  }

  lemma WholeBeats(frame: nat, ticks: real, d: real, sampleRate: UInt32)
    requires d > 0.0 && ticks == d
    requires frame as real * d <= ticks * 60.0 * sampleRate as real < (frame as real + 1.0) * d
    ensures frame == 60 * sampleRate
  {
    Seconds(frame as real, sampleRate as real, ticks, d);
    assert 60.0 * sampleRate as real == (60 * sampleRate) as real;
  }

  lemma Seconds(f: real, s: real, ticks: real, d: real)
    requires d > 0.0 && ticks == d && f * d <= ticks * 60.0 * s && ticks * 60.0 * s < (f + 1.0) * d
    ensures f <= 60.0 * s && 60.0 * s < f + 1.0
  {
    Reorder(ticks, d, s);
    CancelAtMost(f, 60.0 * s, d);
    CancelBelow(60.0 * s, f + 1.0, d);
  }

  lemma Reorder(ticks: real, d: real, s: real)
    requires ticks == d
    ensures ticks * 60.0 * s == (60.0 * s) * d
  {
  }

  lemma CancelAtMost(x: real, y: real, b: real)
    requires b > 0.0 && x * b <= y * b
    ensures x <= y
  {
    if x > y { Less(y, x, b); }
  }

  lemma CancelBelow(x: real, y: real, b: real)
    requires b > 0.0 && x * b < y * b
    ensures x < y
  {
    if x > y { Less(y, x, b); }
  }

  /** TempoMapToFrame is monotone in the target. */
  lemma FrameMonotone(points: seq<TempoPoint>, bar1: UInt32, tick1: UInt32, bar2: UInt32, tick2: UInt32,
                      sampleRate: UInt32, beatsPerBar: UInt32)
    requires WellFormed(points, bar1, tick1, sampleRate, beatsPerBar)
    requires WellFormed(points, bar2, tick2, sampleRate, beatsPerBar)
    requires bar1 < bar2 || (bar1 == bar2 && tick1 <= tick2)
    ensures ToFrame(points, bar1, tick1, sampleRate, beatsPerBar)
         <= ToFrame(points, bar2, tick2, sampleRate, beatsPerBar)
  {
    hide Rate;
    hide Walk;
    ToFrameIsTruncated(points, bar1, tick1, sampleRate, beatsPerBar);
    ToFrameIsTruncated(points, bar2, tick2, sampleRate, beatsPerBar);
    LexIsAbsolute(bar1, tick1, bar2, tick2, beatsPerBar);
    TruncatedMonotone(Marks(points, sampleRate, beatsPerBar), 0, Rate(points[0].bpm, sampleRate),
                      Absolute(bar1, tick1, beatsPerBar), Absolute(bar2, tick2, beatsPerBar));
  }

  /** Two maps that agree up to the target, and start at the same tempo, give the same frame. */
  lemma FrameIgnoresLater(a: seq<TempoPoint>, b: seq<TempoPoint>, bar: UInt32, tick: UInt32,
                          sampleRate: UInt32, beatsPerBar: UInt32)
    requires WellFormed(a, bar, tick, sampleRate, beatsPerBar) && WellFormed(b, bar, tick, sampleRate, beatsPerBar)
    requires a[0].bpm == b[0].bpm
    requires UpTo(Marks(a, sampleRate, beatsPerBar), Absolute(bar, tick, beatsPerBar))
          == UpTo(Marks(b, sampleRate, beatsPerBar), Absolute(bar, tick, beatsPerBar))
    ensures ToFrame(a, bar, tick, sampleRate, beatsPerBar) == ToFrame(b, bar, tick, sampleRate, beatsPerBar)
  {
    hide Rate;
    hide Walk;
    hide Absolute;
    var rate, target := Rate(a[0].bpm, sampleRate), Absolute(bar, tick, beatsPerBar);
    ToFrameIsTruncated(a, bar, tick, sampleRate, beatsPerBar);
    ToFrameIsTruncated(b, bar, tick, sampleRate, beatsPerBar);
    LaterPointsIrrelevant(Marks(a, sampleRate, beatsPerBar), 0, rate, target);
    LaterPointsIrrelevant(Marks(b, sampleRate, beatsPerBar), 0, rate, target);
  }

  lemma MarksCons(p: TempoPoint, rest: seq<TempoPoint>, sampleRate: UInt32, beatsPerBar: UInt32)
    requires p.bpm > 0.0 && Positive(rest)
    ensures Positive([p] + rest)
    ensures Marks([p] + rest, sampleRate, beatsPerBar)
         == [Mark(Absolute(p.bar, p.tick, beatsPerBar), Rate(p.bpm, sampleRate))] + Marks(rest, sampleRate, beatsPerBar)
  {
    hide Rate;
    hide Absolute;
    assert ([p] + rest)[1..] == rest;
  }

  lemma {:induction false} MarksConcat(a: seq<TempoPoint>, b: seq<TempoPoint>, sampleRate: UInt32, beatsPerBar: UInt32)
    requires Positive(a) && Positive(b)
    ensures Positive(a + b)
    ensures Marks(a + b, sampleRate, beatsPerBar)
         == Marks(a, sampleRate, beatsPerBar) + Marks(b, sampleRate, beatsPerBar)
  {
    hide Rate;
    hide Absolute;
    if a == [] {
      assert a + b == b;
    } else {
      MarksConcat(a[1..], b, sampleRate, beatsPerBar);
      assert a + b == [a[0]] + (a[1..] + b);
      MarksCons(a[0], a[1..] + b, sampleRate, beatsPerBar);
      MarksCons(a[0], a[1..], sampleRate, beatsPerBar);
      assert a == [a[0]] + a[1..];
      hide Marks;
      hide Positive;
    }
  }

  lemma {:induction false} MarkRate(points: seq<TempoPoint>, k: nat, sampleRate: UInt32, beatsPerBar: UInt32)
    requires Positive(points) && k < |points|
    ensures Marks(points, sampleRate, beatsPerBar)[k].rate == Rate(points[k].bpm, sampleRate)
  {
    hide Rate;
    hide Absolute;
    if k > 0 {
      MarkRate(points[1..], k - 1, sampleRate, beatsPerBar);
    }
  }

  lemma MarksInsert(points: seq<TempoPoint>, j: nat, q: TempoPoint, sampleRate: UInt32, beatsPerBar: UInt32)
    requires Positive(points) && points != [] && j <= |points|
    requires q.bpm == points[if j == 0 then 0 else j - 1].bpm
    ensures Positive(points[..j] + [q] + points[j..])
    ensures var ms := Marks(points, sampleRate, beatsPerBar);
            Marks(points[..j] + [q] + points[j..], sampleRate, beatsPerBar)
            == ms[..j] + [Mark(Absolute(q.bar, q.tick, beatsPerBar), InForce(ms, Rate(points[0].bpm, sampleRate), j))]
               + ms[j..]
  {
    hide Rate;
    hide Absolute;
    assert points == points[..j] + points[j..];
    MarksConcat(points[..j], points[j..], sampleRate, beatsPerBar);
    MarksConcat(points[..j], [q], sampleRate, beatsPerBar);
    MarksConcat(points[..j] + [q], points[j..], sampleRate, beatsPerBar);
    if j > 0 {
      MarkRate(points, j - 1, sampleRate, beatsPerBar);
    }
    assert Marks([q], sampleRate, beatsPerBar) == [Mark(Absolute(q.bar, q.tick, beatsPerBar), Rate(q.bpm, sampleRate))];
  }

  /** Inserting a point that repeats the tempo in force: no frame rises, none falls by more than one. */
  lemma FrameRedundantPoint(points: seq<TempoPoint>, j: nat, q: TempoPoint, bar: UInt32, tick: UInt32,
                            sampleRate: UInt32, beatsPerBar: UInt32)
    requires WellFormed(points, bar, tick, sampleRate, beatsPerBar) && j <= |points|
    requires q.bpm == points[if j == 0 then 0 else j - 1].bpm && InBar(q.tick, beatsPerBar)
    requires Positive(points[..j] + [q] + points[j..])
    requires Sorted(Marks(points[..j] + [q] + points[j..], sampleRate, beatsPerBar), 0)
    ensures var with := points[..j] + [q] + points[j..];
            ToFrame(with, bar, tick, sampleRate, beatsPerBar) <= ToFrame(points, bar, tick, sampleRate, beatsPerBar)
              <= ToFrame(with, bar, tick, sampleRate, beatsPerBar) + 1
  {
    hide Rate;
    hide Walk;
    hide Absolute;
    var with := points[..j] + [q] + points[j..];
    var ms, rate := Marks(points, sampleRate, beatsPerBar), Rate(points[0].bpm, sampleRate);
    var target := Absolute(bar, tick, beatsPerBar);
    MarksInsert(points, j, q, sampleRate, beatsPerBar);
    RedundantPoint(ms, 0, rate, target, j, Absolute(q.bar, q.tick, beatsPerBar));
    assert with[0].bpm == points[0].bpm;
    assert AllInBar(with, beatsPerBar);
    ToFrameIsTruncated(points, bar, tick, sampleRate, beatsPerBar);
    ToFrameIsTruncated(with, bar, tick, sampleRate, beatsPerBar);
  }
}
