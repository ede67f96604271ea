/**
 The animation loop of the bar meter, one frame at a time.

 Each frame first checks whether to stop (audio paused and every cap at the
 bottom); otherwise it samples one amplitude per bar, updates the caps, draws
 every bar and its cap, and schedules the next frame. The analyser's byte
 array for each frame is an input; animation-frame timing is a sequence of
 steps.
 */
module Frames {
  import opened Sampling
  import opened Caps

  /** The configuration values the frame logic reads. */
  datatype Config = Config(barCount: nat, barWidth: nat, barGap: int)

  /** The defaults: 512 bars, 2 pixels wide, 4 pixels apart. */
  const DefaultConfig := Config(512, 2, 4)

  /** An FFT size of 2048 gives 1024 frequency bins. */
  const DefaultBinCount: nat := 2048 / 2

  /** What one frame decides: stop the loop, or carry these caps to the next frame. */
  datatype Outcome = Stop | Continue(caps: seq<nat>)

  /** One frame of the loop, given the amplitudes sampled for its bars. */
  function Step(paused: bool, caps: seq<nat>, amps: seq<nat>): (o: Outcome)
    requires Seeded(caps, |amps|)
    ensures o.Stop? <==> paused && forall i :: 0 <= i < |caps| ==> caps[i] == 0
    ensures o.Continue? ==> |o.caps| == |amps|
    ensures o.Continue? ==> forall i :: 0 <= i < |amps| ==> o.caps[i] >= amps[i]
    ensures o.Continue? && Bytes(caps) && Bytes(amps) ==> Bytes(o.caps)
  {
    if ShouldStop(paused, caps) then Stop
    else Continue(UpdateCaps(caps, amps))
  }

  /** While the audio plays, a frame always draws and schedules the next one. */
  lemma PlayingNeverStops(caps: seq<nat>, amps: seq<nat>)
    requires Seeded(caps, |amps|)
    ensures Step(false, caps, amps) == Continue(UpdateCaps(caps, amps))
  {}

  /** How a run of frames ends: stopped at a frame (counted from 0), or still
      running with these caps once the frames given are used up. */
  datatype Trace = Stopped(frame: nat) | Running(caps: seq<nat>)

  /** Every frame supplies one amplitude per bar. */
  predicate OnePerBar(frames: seq<seq<nat>>, barCount: nat) {
    forall k :: 0 <= k < |frames| ==> |frames[k]| == barCount
  }

  /** Runs the loop over consecutive frames, `frames[k]` being the amplitudes
      sampled on frame `k`, with the audio's paused state held fixed. */
  function Run(paused: bool, caps: seq<nat>, frames: seq<seq<nat>>, barCount: nat): (t: Trace)
    requires OnePerBar(frames, barCount)
    requires Seeded(caps, barCount)
    ensures t.Stopped? ==> paused && t.frame < |frames|
    ensures !paused ==> t.Running?
    ensures t.Running? ==> Seeded(t.caps, barCount)
    ensures t.Running? && |frames| > 0 ==> |t.caps| == barCount
    decreases |frames|
  {
    if |frames| == 0 then Running(caps)
    else
      var o := Step(paused, caps, frames[0]);
      if o.Stop? then Stopped(0)
      else
        var rest := Run(paused, o.caps, frames[1..], barCount);
        if rest.Stopped? then Stopped(rest.frame + 1) else rest
  }

  /** Dropping the first frame keeps one amplitude per bar. */
  lemma OnePerBarTail(frames: seq<seq<nat>>, barCount: nat)
    requires |frames| > 0 && OnePerBar(frames, barCount)
    ensures OnePerBar(frames[1..], barCount)
  {
    forall k | 0 <= k < |frames| - 1
      ensures |frames[1..][k]| == barCount
    {
      assert frames[1..][k] == frames[k + 1];
    }
  }

  /** Byte-valued amplitudes keep every cap a byte, however many frames run. */
  lemma {:induction false} RunKeepsBytes(paused: bool, caps: seq<nat>, frames: seq<seq<nat>>, barCount: nat)
    requires OnePerBar(frames, barCount)
    requires Seeded(caps, barCount) && Bytes(caps)
    requires forall k :: 0 <= k < |frames| ==> Bytes(frames[k])
    ensures Run(paused, caps, frames, barCount).Running? ==> Bytes(Run(paused, caps, frames, barCount).caps)
    decreases |frames|
  {
    if |frames| > 0 {
      var o := Step(paused, caps, frames[0]);
      if o.Continue? {
        OnePerBarTail(frames, barCount);
        forall k | 0 <= k < |frames| - 1
          ensures Bytes(frames[1..][k])
        {
          assert frames[1..][k] == frames[k + 1];
        }
        RunKeepsBytes(paused, o.caps, frames[1..], barCount);
      }
    }
  }

  /** A frame that draws and is followed by a run stopping on frame `k` makes
      a run stopping on frame `k + 1`. */
  lemma StopsOneFrameLater(paused: bool, caps: seq<nat>, frames: seq<seq<nat>>, barCount: nat, k: nat)
    requires OnePerBar(frames, barCount) && Seeded(caps, barCount)
    requires |frames| > 0 && Step(paused, caps, frames[0]).Continue?
    requires OnePerBar(frames[1..], barCount)
    requires Run(paused, Step(paused, caps, frames[0]).caps, frames[1..], barCount) == Stopped(k)
    ensures Run(paused, caps, frames, barCount) == Stopped(k + 1)
  {}

  /** Every frame's amplitudes are silent. */
  predicate AllSilent(frames: seq<seq<nat>>) {
    forall k :: 0 <= k < |frames| ==> Silent(frames[k])
  }

  /** Dropping the first of silent frames leaves silent frames. */
  lemma SilentTail(frames: seq<seq<nat>>, barCount: nat)
    requires |frames| > 0 && OnePerBar(frames, barCount) && AllSilent(frames)
    ensures OnePerBar(frames[1..], barCount) && AllSilent(frames[1..])
  {
    forall k | 0 <= k < |frames| - 1
      ensures |frames[1..][k]| == barCount && Silent(frames[1..][k])
    {
      assert frames[1..][k] == frames[k + 1];
    }
  }

  /** Paused with every cap at the bottom, the very first frame stops. */
  lemma PausedAtBottomStops(caps: seq<nat>, frames: seq<seq<nat>>, barCount: nat)
    requires OnePerBar(frames, barCount) && Seeded(caps, barCount)
    requires |frames| > 0 && MaxCap(caps) == 0
    ensures Run(true, caps, frames, barCount) == Stopped(0)
  {
    ShouldStopIffPeakZero(true, caps);
    assert Step(true, caps, frames[0]).Stop?;
  }

  /** A paused frame with silent amplitudes and a positive peak draws, and
      lowers the peak by exactly one. */
  lemma SilentFrameLowersPeak(caps: seq<nat>, amps: seq<nat>)
    requires Seeded(caps, |amps|)
    requires Silent(amps) && MaxCap(caps) > 0
    ensures Step(true, caps, amps).Continue?
    ensures MaxCap(Step(true, caps, amps).caps) == MaxCap(caps) - 1
  {
    ShouldStopIffPeakZero(true, caps);
    SilentUpdateLowersPeak(caps, amps);
  }

  /** Liveness: paused, with silent amplitudes, the loop stops on exactly
      frame `MaxCap(caps)` (as soon as the highest cap has fallen to the
      bottom) provided that many frames are run. */
  lemma {:induction false} PausedSilenceStops(caps: seq<nat>, frames: seq<seq<nat>>, barCount: nat)
    requires OnePerBar(frames, barCount)
    requires Seeded(caps, barCount)
    requires AllSilent(frames)
    requires |frames| > MaxCap(caps)
    ensures Run(true, caps, frames, barCount) == Stopped(MaxCap(caps))
    decreases |frames|
  {
    if MaxCap(caps) == 0 {
      PausedAtBottomStops(caps, frames, barCount);
    } else {
      SilentFrameLowersPeak(caps, frames[0]);
      var next := Step(true, caps, frames[0]).caps;
      var rest := frames[1..];
      SilentTail(frames, barCount);
      PausedSilenceStops(next, rest, barCount);
      StopsOneFrameLater(true, caps, frames, barCount, MaxCap(caps) - 1);
    }
  }

  /** A trace seen from `n` frames earlier: a stop happens `n` frames later. */
  function Delay(t: Trace, n: nat): (d: Trace)
    ensures d.Stopped? <==> t.Stopped?
    ensures d.Stopped? ==> d.frame == t.frame + n
    ensures d.Running? ==> d == t
  {
    if t.Stopped? then Stopped(t.frame + n) else t
  }

  /** Running `a` then `b` is running `a + b`: a stop in `a` ends the run,
      otherwise `b` continues from the caps `a` left, `|a|` frames later. */
  lemma {:induction false} RunConcat(paused: bool, caps: seq<nat>, a: seq<seq<nat>>, b: seq<seq<nat>>, barCount: nat)
    requires OnePerBar(a, barCount) && OnePerBar(b, barCount) && Seeded(caps, barCount)
    ensures OnePerBar(a + b, barCount)
    ensures var t := Run(paused, caps, a, barCount);
      Run(paused, caps, a + b, barCount) == if t.Stopped? then t else Delay(Run(paused, t.caps, b, barCount), |a|)
    decreases |a|
  {
    var ab := a + b;
    forall k | 0 <= k < |ab|
      ensures |ab[k]| == barCount
    {
      if k < |a| { assert ab[k] == a[k]; } else { assert ab[k] == b[k - |a|]; }
    }
    if |a| == 0 {
      assert ab == b;
    } else {
      assert ab[0] == a[0];
      assert ab[1..] == a[1..] + b;
      var o := Step(paused, caps, a[0]);
      if o.Continue? {
        OnePerBarTail(a, barCount);
        RunConcat(paused, o.caps, a[1..], b, barCount);
      }
    }
  }

  /** Whatever amplitudes the paused frames before the silence carried, once
      the input is silent the loop stops exactly `MaxCap` frames after the
      silence starts, the highest cap counted when the silence begins. (A
      playing stretch before the pause is covered by `PausedSilenceStops`,
      which holds from any seeded caps.) */
  lemma SilenceAfterAnyPrefixStops(caps: seq<nat>, a: seq<seq<nat>>, b: seq<seq<nat>>, barCount: nat)
    requires OnePerBar(a, barCount) && OnePerBar(b, barCount) && Seeded(caps, barCount)
    requires Run(true, caps, a, barCount).Running?
    requires AllSilent(b) && |b| > MaxCap(Run(true, caps, a, barCount).caps)
    ensures Run(true, caps, a + b, barCount) == Stopped(|a| + MaxCap(Run(true, caps, a, barCount).caps))
  {
    RunConcat(true, caps, a, b, barCount);
    PausedSilenceStops(Run(true, caps, a, barCount).caps, b, barCount);
  }

  /** Byte-valued caps never exceed 255, so 256 paused, silent frames always
      end the loop. */
  lemma {:induction false} StopsWithin256SilentFrames(caps: seq<nat>, frames: seq<seq<nat>>, barCount: nat)
    requires OnePerBar(frames, barCount) && Seeded(caps, barCount)
    requires Bytes(caps) && AllSilent(frames) && |frames| >= 256
    ensures Run(true, caps, frames, barCount).Stopped?
    ensures Run(true, caps, frames, barCount).frame < 256
  {
    if |caps| > 0 {
      MaxCapAttained(caps);
    }
    PausedSilenceStops(caps, frames, barCount);
  }

  /** The left edge of bar `i`. */
  function BarX(i: nat, cfg: Config): (x: int) {
    i * (cfg.barWidth + cfg.barGap)
  }

  /** The first bar starts at 0 and each next bar one width plus one gap
      further right. */
  lemma BarSpacing(cfg: Config, i: nat)
    ensures BarX(0, cfg) == 0
    ensures BarX(i + 1, cfg) == BarX(i, cfg) + cfg.barWidth + cfg.barGap
  {
    MulDistrib(i, 1, cfg.barWidth + cfg.barGap);
  }

  /** With a non-negative gap, a bar ends at or before the next one starts. */
  lemma BarsDoNotOverlap(cfg: Config, i: nat, j: nat)
    requires i < j && cfg.barGap >= 0
    ensures BarX(i, cfg) + cfg.barWidth <= BarX(j, cfg)
  {
    var w := cfg.barWidth + cfg.barGap;
    assert BarX(j, cfg) - BarX(i, cfg) == (j - i) * w;
    MulMonotone(1, j - i, w);
  }

  /** With a positive pitch, bar positions strictly increase. */
  lemma BarsIncrease(cfg: Config, i: nat, j: nat)
    requires i < j && cfg.barWidth + cfg.barGap > 0
    ensures BarX(i, cfg) < BarX(j, cfg)
  {
    var w := cfg.barWidth + cfg.barGap;
    assert BarX(j, cfg) - BarX(i, cfg) == (j - i) * w;
    MulMonotone(1, j - i, w);
  }

  /** What is painted for one bar: its left edge, the bar's level (the
      amplitude) and the cap's level. */
  datatype BarDraw = BarDraw(x: int, bar: nat, cap: nat)

  /** One bar's cap update inside a frame: when the amplitude is below the
      cap, the cap is lowered by one and the lowered cap is the one drawn;
      otherwise the cap is drawn at the amplitude and set to it. */
  method UpdateBar(caps: seq<nat>, i: nat, amplitude: nat) returns (updated: seq<nat>, drawnCap: nat)
    requires i < |caps|
    ensures |updated| == |caps|
    ensures updated[i] == NextCap(caps[i], amplitude)
    ensures drawnCap == updated[i]
    ensures forall j :: 0 <= j < |caps| && j != i ==> updated[j] == caps[j]
  {
    if amplitude < caps[i] {
      updated := caps[i := caps[i] - 1];
      drawnCap := updated[i];
    } else {
      drawnCap := amplitude;
      updated := caps[i := amplitude];
    }
  }

  /** The cap work for bar `i`: on the first frame the list is one short and
      the amplitude is pushed as the bar's first cap; then the cap is updated. */
  method CapBar(list: seq<nat>, i: nat, amplitude: nat, barCount: nat) returns (updated: seq<nat>, drawnCap: nat)
    requires i < barCount && (|list| == i || |list| == barCount)
    ensures |updated| == if |list| == i then i + 1 else barCount
    ensures updated[i] == NextCap(if |list| == i then amplitude else list[i], amplitude)
    ensures drawnCap == updated[i]
    ensures forall j :: 0 <= j < |list| && j != i ==> updated[j] == list[j]
  {
    var seeded := list;
    if |seeded| < barCount {
      seeded := seeded + [amplitude];
    }
    updated, drawnCap := UpdateBar(seeded, i, amplitude);
  }

  /** The per-frame callback, step by step: the stop test, then for every bar
      read its bin, push a first cap when the list is still short, and either
      lower the cap by one (drawing the lowered cap) or raise it to the
      amplitude (drawing the cap at the amplitude). */
  method DrawBar(cfg: Config, paused: bool, caps: seq<nat>, bins: seq<nat>)
    returns (stopped: bool, next: seq<nat>, drawn: seq<BarDraw>)
    requires InRange(|bins|, cfg.barCount)
    requires Seeded(caps, cfg.barCount)
    ensures stopped <==> Step(paused, caps, Sample(bins, cfg.barCount)).Stop?
    ensures stopped ==> next == caps && drawn == []
    ensures !stopped ==> next == UpdateCaps(caps, Sample(bins, cfg.barCount))
    ensures !stopped ==> |drawn| == cfg.barCount
    ensures !stopped ==> forall i :: 0 <= i < cfg.barCount ==>
      drawn[i] == BarDraw(BarX(i, cfg), Sample(bins, cfg.barCount)[i], next[i])
  {
    if paused {
      var allCapsReachBottom := forall i | 0 <= i < |caps| :: caps[i] == 0;
      if allCapsReachBottom {
        return true, caps, [];
      }
    }
    var barCount := cfg.barCount;
    var step := if barCount > 0 then Stride(|bins|, barCount) else 0;
    ghost var amps := Sample(bins, barCount);
    ghost var target := UpdateCaps(caps, amps);
    var list := caps;
    drawn := [];
    var i := 0;
    while i < barCount
      invariant 0 <= i <= barCount
      invariant |list| == if |caps| == 0 then i else barCount
      invariant forall j :: 0 <= j < i ==> list[j] == target[j]
      invariant forall j :: i <= j < |list| ==> list[j] == caps[j]
      invariant |drawn| == i
      invariant forall j :: 0 <= j < i ==> drawn[j] == BarDraw(BarX(j, cfg), amps[j], target[j])
    {
      assert step == Stride(|bins|, barCount);
      assert i * step == BinIndex(|bins|, barCount, i);
      var amplitude := bins[i * step];
      assert amplitude == amps[i];
      var capLevel;
      list, capLevel := CapBar(list, i, amplitude, barCount);
      drawn := drawn + [BarDraw(i * (cfg.barWidth + cfg.barGap), amplitude, capLevel)];
      i := i + 1;
    }
    return false, list, drawn;
  }

  /** The default configuration reads bins 0, 2, ..., 1022 of 1024. */
  lemma DefaultConfigInRange()
    ensures Stride(DefaultBinCount, DefaultConfig.barCount) == 2
    ensures InRange(DefaultBinCount, DefaultConfig.barCount)
  {
    DivisibleInRange(DefaultBinCount, DefaultConfig.barCount);
  }
}
