/**
 The falling caps of the bar meter.

 Each bar carries a cap: a marker that jumps up to the bar's amplitude and
 then falls back one unit per frame while the amplitude stays below it. The
 caps of one playback session live in one list that starts empty; the first
 frame seeds it with one cap per bar.
 */
module Caps {
  import opened Sampling

  function Max(a: int, b: int): (m: int) {
    if a < b then b else a
  }

  /** A single bar's cap after one frame: one unit lower when the amplitude is
      below the cap, otherwise raised (or held) to the amplitude. */
  function NextCap(cap: nat, amp: nat): (r: nat)
    ensures r >= amp
    ensures r + 1 >= cap
    ensures r == amp || r + 1 == cap
    ensures r < cap ==> amp < cap && r + 1 == cap
  {
    if amp < cap then cap - 1 else amp
  }

  /** The cap is the running peak of the amplitude with a decay of one unit
      per frame: the larger of the decayed old cap and the new amplitude. */
  lemma NextCapIsDecayedPeak(cap: nat, amp: nat)
    ensures NextCap(cap, amp) == Max(cap - 1, amp)
  {}

  /** A well-formed cap list: empty before the first frame, one cap per bar after. */
  predicate Seeded(caps: seq<nat>, barCount: nat) {
    |caps| == 0 || |caps| == barCount
  }

  /** One frame's update of the whole cap list. An empty list first receives
      each bar's amplitude, which the update then leaves in place. */
  function UpdateCaps(caps: seq<nat>, amps: seq<nat>): (next: seq<nat>)
    requires Seeded(caps, |amps|)
    ensures |next| == |amps|
    ensures |caps| == 0 ==> next == amps
    ensures forall i :: 0 <= i < |amps| ==> next[i] >= amps[i]
    ensures |caps| > 0 ==> forall i :: 0 <= i < |amps| ==> next[i] + 1 >= caps[i]
    ensures |caps| > 0 ==> forall i :: 0 <= i < |amps| && next[i] > caps[i] ==> next[i] == amps[i]
    ensures |caps| > 0 ==> forall i :: 0 <= i < |amps| && next[i] > amps[i] ==> next[i] + 1 == caps[i]
  {
    var seed := if |caps| == 0 then amps else caps;
    seq(|amps|, i requires 0 <= i < |amps| => NextCap(seed[i], amps[i]))
  }

  /** Byte-valued caps and amplitudes give byte-valued caps. */
  lemma UpdateKeepsBytes(caps: seq<nat>, amps: seq<nat>)
    requires Seeded(caps, |amps|)
    requires Bytes(caps) && Bytes(amps)
    ensures Bytes(UpdateCaps(caps, amps))
  {}

  /** The highest cap; 0 for an empty list. */
  function MaxCap(caps: seq<nat>): (m: nat)
    ensures forall i :: 0 <= i < |caps| ==> caps[i] <= m
    ensures |caps| == 0 ==> m == 0
  {
    if |caps| == 0 then 0
    else
      var rest := MaxCap(caps[1..]);
      if caps[0] >= rest then caps[0] else rest
  }

  /** The highest cap is one of the caps. */
  lemma {:induction false} MaxCapAttained(caps: seq<nat>)
    requires |caps| > 0
    ensures exists i :: 0 <= i < |caps| && caps[i] == MaxCap(caps)
  {
    if |caps| > 1 && caps[0] < MaxCap(caps[1..]) {
      MaxCapAttained(caps[1..]);
      var j :| 0 <= j < |caps| - 1 && caps[1..][j] == MaxCap(caps[1..]);
      assert caps[j + 1] == MaxCap(caps);
    } else {
      assert caps[0] == MaxCap(caps);
    }
  }

  /** The stop test at the head of every frame: the audio is paused and every
      cap has reached the bottom (an empty list counts as all at the bottom). */
  predicate ShouldStop(paused: bool, caps: seq<nat>) {
    paused && forall i :: 0 <= i < |caps| ==> caps[i] == 0
  }

  /** Stopping is the same as being paused with the highest cap at 0. */
  lemma ShouldStopIffPeakZero(paused: bool, caps: seq<nat>)
    ensures ShouldStop(paused, caps) <==> paused && MaxCap(caps) == 0
  {}

  /** Under silence every cap falls by one (or stays at 0), so a positive peak
      falls by exactly one. */
  lemma {:induction false} SilentUpdateLowersPeak(caps: seq<nat>, amps: seq<nat>)
    requires Seeded(caps, |amps|) && Silent(amps)
    ensures MaxCap(UpdateCaps(caps, amps)) == if MaxCap(caps) == 0 then 0 else MaxCap(caps) - 1
  {
    var next := UpdateCaps(caps, amps);
    var m := MaxCap(caps);
    if |caps| == 0 {
      if |next| > 0 {
        MaxCapAttained(next);
        var k :| 0 <= k < |next| && next[k] == MaxCap(next);
        assert next[k] == amps[k] == 0;
      }
    } else {
      assert forall i :: 0 <= i < |next| ==> next[i] == if caps[i] == 0 then 0 else caps[i] - 1;
      MaxCapAttained(caps);
      MaxCapAttained(next);
      var top :| 0 <= top < |caps| && caps[top] == m;
      var k :| 0 <= k < |next| && next[k] == MaxCap(next);
      assert next[top] <= MaxCap(next);
      if m == 0 {
        assert next[k] == 0;
      } else {
        assert next[k] <= m - 1;
        assert next[top] == m - 1;
      }
    }
  }
}
