/**
 Picking one amplitude per bar out of the analyser's frequency bins.

 The analyser fills a byte array of `binCount` entries each frame; the bar
 meter shows `barCount` bars and bar `i` reads bin `i * step`, where `step` is
 `binCount / barCount` rounded to the nearest integer (halves rounded up, as
 JavaScript's `Math.round` does for non-negative numbers).
 */
module Sampling {

  /** Every value fits in an unsigned byte, as in a `Uint8Array`. */
  predicate Bytes(s: seq<nat>) {
    forall i :: 0 <= i < |s| ==> s[i] < 256
  }

  /** Every value is zero: the analyser reports silence. */
  predicate Silent(s: seq<nat>) {
    forall i :: 0 <= i < |s| ==> s[i] == 0
  }

  /** The bin stride `Math.round(binCount / barCount)`: the integer nearest to
      the quotient, a quotient exactly halfway between two integers going up. */
  function Stride(binCount: nat, barCount: nat): (step: nat)
    requires barCount > 0
    ensures barCount * (2 * step - 1) <= 2 * binCount < barCount * (2 * step + 1)
  {
    var n, d := 2 * binCount + barCount, 2 * barCount;
    var q, rem := n / d, n % d;
    assert n == d * q + rem && 0 <= rem < d;
    assert barCount * (2 * q - 1) == 2 * binCount - rem;
    assert barCount * (2 * q + 1) == 2 * binCount - rem + d;
    q
  }

  /** Whether every bar's bin index lies inside the analyser's array. When it
      does not, the last bars would read `undefined` past the array's end. */
  predicate InRange(binCount: nat, barCount: nat) {
    barCount == 0 || (barCount - 1) * Stride(binCount, barCount) < binCount
  }

  lemma MulMonotone(i: nat, j: nat, k: nat)
    requires i <= j
    ensures i * k <= j * k
  {}

  /** The index of the bin bar `i` reads. */
  function BinIndex(binCount: nat, barCount: nat, i: nat): (k: nat)
    requires InRange(binCount, barCount) && i < barCount
    ensures k < binCount
    ensures k == i * Stride(binCount, barCount)
  {
    MulMonotone(i, barCount - 1, Stride(binCount, barCount));
    i * Stride(binCount, barCount)
  }

  /** One amplitude per bar, read at evenly spaced bins. */
  function Sample(bins: seq<nat>, barCount: nat): (amps: seq<nat>)
    requires InRange(|bins|, barCount)
    ensures |amps| == barCount
    ensures forall i :: 0 <= i < barCount ==> amps[i] == bins[BinIndex(|bins|, barCount, i)]
    ensures Bytes(bins) ==> Bytes(amps)
    ensures Silent(bins) ==> Silent(amps)
  {
    seq(barCount, i requires 0 <= i < barCount => bins[BinIndex(|bins|, barCount, i)])
  }

  /** A sufficient condition for the bin indices to stay inside the array:
      `barCount * (barCount - 1) < 2 * binCount`. */
  lemma SmallBarCountInRange(binCount: nat, barCount: nat)
    requires barCount * (barCount - 1) < 2 * binCount
    ensures InRange(binCount, barCount)
  {
    if barCount > 1 {
      var n, b, s := binCount, barCount, Stride(binCount, barCount);
      var c := b - 1;
      // Rounding to nearest gives 2 * b * s <= 2 * n + b; multiplied by
      // b - 1 and with b * (b - 1) < 2 * n this gives (b - 1) * s * b < n * b.
      RoundedBound(n, b, s);
      if c * s >= n {
        MulMonotone(n, c * s, b);
        assert false;
      }
    }
  }

  lemma RoundedBound(n: nat, b: nat, s: nat)
    requires b > 1 && b * (b - 1) < 2 * n
    requires b * (2 * s - 1) <= 2 * n
    ensures ((b - 1) * s) * b < n * b
  {
    var c := b - 1;
    var p := b * s;
    assert b * (2 * s - 1) == 2 * p - b;
    MulMonotone(2 * p, 2 * n + b, c);
    MulDistrib(2 * n, b, c);
    MulAssoc(2, n, c);
    MulAssoc(2, p, c);
    MulPred(n, b);
    MulSwap(c, s, b);
  }

  lemma MulPred(n: int, b: int)
    ensures n * b == n * (b - 1) + n
  {}

  lemma MulDistrib(x: int, y: int, z: int)
    ensures (x + y) * z == x * z + y * z
  {}

  lemma MulAssoc(x: int, y: int, z: int)
    ensures (x * y) * z == x * (y * z)
  {}

  lemma MulSwap(x: int, y: int, z: int)
    ensures (x * y) * z == (z * y) * x
  {}

  /** When the bar count divides the (non-empty) bin count the stride is exact
      and every index is in range. */
  lemma DivisibleInRange(binCount: nat, barCount: nat)
    requires 0 < barCount && 0 < binCount && binCount % barCount == 0
    ensures InRange(binCount, barCount)
    ensures Stride(binCount, barCount) * barCount == binCount
  {
    var q := binCount / barCount;
    assert binCount == barCount * q;
    var s := Stride(binCount, barCount);
    ExactQuotient(barCount, q, s);
    MulPred(q, barCount);
  }

  /** The only integer within half a step of an exact quotient `q` is `q`. */
  lemma ExactQuotient(b: nat, q: nat, s: nat)
    requires b > 0
    requires b * (2 * s - 1) <= 2 * (b * q) < b * (2 * s + 1)
    ensures s == q
  {
    if s > q {
      MulMonotone(2 * q + 1, 2 * s - 1, b);
      MulDistrib(2 * q, 1, b);
      MulAssoc(2, q, b);
    }
    if s < q {
      MulMonotone(2 * s + 1, 2 * q, b);
      MulAssoc(2, q, b);
    }
  }

  /** With rounding to nearest, a bar count below the bin count can still
      overrun: the default 1024 bins (FFT size 2048) and 600 bars give stride 2,
      so bars 512 to 599 read bins 1024 to 1198, past the array. */
  lemma RoundingOverrun()
    ensures Stride(1024, 600) == 2
    ensures !InRange(1024, 600)
    ensures 511 * Stride(1024, 600) < 1024 <= 512 * Stride(1024, 600)
  {}
}
