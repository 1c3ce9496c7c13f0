/** The frame clock: the clock lines at the end of each game-loop iteration.
    The host timestamps (`performance.now()`, in milliseconds) are parameters. */
module Clock {

  datatype TimeInfo = TimeInfo(deltaTime: real, totalTime: real, prevFrameTime: real)

  const SecondsPerMs: real := 0.001
  /** A scaled delta above this is treated as a stall ... */
  const MaxDelta: real := 0.1
  /** ... and replaced by this nominal 60 Hz frame. */
  const FallbackDelta: real := 0.016

  /** Seconds of game time between two timestamps, before clamping. */
  function RawDelta(newTime: real, prevTime: real, timeSpeed: real): real {
    (newTime - prevTime) * SecondsPerMs * timeSpeed
  }

  /** The delta one tick records for a raw scaled delta. */
  function Clamp(raw: real): (d: real)
    ensures d <= MaxDelta
    ensures raw > MaxDelta ==> d == FallbackDelta
    ensures raw <= MaxDelta ==> d == raw
  {
    if raw > MaxDelta then FallbackDelta else raw
  }

  /** One tick at host time `newTime`. */
  function Tick(t: TimeInfo, newTime: real, timeSpeed: real): (r: TimeInfo)
    ensures r.deltaTime <= MaxDelta
    ensures RawDelta(newTime, t.prevFrameTime, timeSpeed) > MaxDelta ==> r.deltaTime == FallbackDelta
    ensures RawDelta(newTime, t.prevFrameTime, timeSpeed) <= MaxDelta ==>
              r.deltaTime == RawDelta(newTime, t.prevFrameTime, timeSpeed)
    ensures r.totalTime == t.totalTime + r.deltaTime
    ensures r.prevFrameTime == newTime
  {
    var d := Clamp(RawDelta(newTime, t.prevFrameTime, timeSpeed));
    TimeInfo(d, t.totalTime + d, newTime)
  }

  /** Ticks at each of `times` in turn. */
  function Run(t: TimeInfo, times: seq<real>, timeSpeed: real): TimeInfo
    decreases |times|
  {
    if times == [] then t else Run(Tick(t, times[0], timeSpeed), times[1..], timeSpeed)
  }

  /** The deltas those ticks record, computed from the timestamps alone. */
  function Deltas(prev: real, times: seq<real>, timeSpeed: real): seq<real>
    decreases |times|
  {
    if times == [] then []
    else [Clamp(RawDelta(times[0], prev, timeSpeed))] + Deltas(times[0], times[1..], timeSpeed)
  }

  function Sum(ds: seq<real>): real
    decreases |ds|
  {
    if ds == [] then 0.0 else ds[0] + Sum(ds[1..])
  }

  predicate NonDecreasing(prev: real, times: seq<real>) {
    && (|times| > 0 ==> prev <= times[0])
    && forall k :: 0 < k < |times| ==> times[k - 1] <= times[k]
  }

  /** `totalTime` is the start plus the sum of every recorded delta, and the
      clock ends at the last timestamp. */
  lemma {:induction false} RunAccumulates(t: TimeInfo, times: seq<real>, timeSpeed: real)
    ensures Run(t, times, timeSpeed).totalTime == t.totalTime + Sum(Deltas(t.prevFrameTime, times, timeSpeed))
    ensures |times| > 0 ==> Run(t, times, timeSpeed).prevFrameTime == times[|times| - 1]
    decreases |times|
  {
    if times != [] {
      var t' := Tick(t, times[0], timeSpeed);
      RunAccumulates(t', times[1..], timeSpeed);
    }
  }

  /** With timestamps that never go back and a non-negative time speed,
      every recorded delta lies in [0, MaxDelta], so `totalTime` never
      decreases and grows by at most MaxDelta per tick. */
  lemma {:induction false} RunMonotone(t: TimeInfo, times: seq<real>, timeSpeed: real)
    requires timeSpeed >= 0.0
    requires NonDecreasing(t.prevFrameTime, times)
    ensures t.totalTime <= Run(t, times, timeSpeed).totalTime
    ensures Run(t, times, timeSpeed).totalTime <= t.totalTime + MaxDelta * (|times| as real)
    decreases |times|
  {
    if times != [] {
      var raw := RawDelta(times[0], t.prevFrameTime, timeSpeed);
      assert (times[0] - t.prevFrameTime) * SecondsPerMs >= 0.0;
      assert raw >= 0.0;
      var t' := Tick(t, times[0], timeSpeed);
      assert 0.0 <= t'.deltaTime <= MaxDelta;
      RunMonotone(t', times[1..], timeSpeed);
    }
  }

  /** A two-second stall records one nominal frame, whatever the time speed
      (as long as it exceeds 0.05, so that the scaled gap exceeds 0.1). */
  lemma StallRecordsNominalFrame(t: TimeInfo, timeSpeed: real)
    requires timeSpeed > 0.05
    ensures Tick(t, t.prevFrameTime + 2000.0, timeSpeed).deltaTime == FallbackDelta
  {
    assert RawDelta(t.prevFrameTime + 2000.0, t.prevFrameTime, timeSpeed) == 2.0 * timeSpeed;
  }
}
