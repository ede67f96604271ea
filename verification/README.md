# Falling-cap bar meter, modelled in Dafny

The repository draws a live audio spectrum as vertical bars on a canvas. Every
animation frame reads the Web Audio analyser's byte array of frequency bins,
picks one amplitude per bar, and draws each bar with a small "cap" above it.
A cap jumps up to its bar's amplitude and then falls back one unit per frame
while the amplitude stays below it. The loop ends once the audio is paused and
every cap has fallen to the bottom.

This project lifts that per-frame logic (the `drawBar` callback in
`src/App.js`) out of the canvas code and states it over natural numbers:

- `Sampling` — the bin stride `Math.round(binCount / barCount)`, the condition
  under which every bar's bin index lies inside the analyser's array, and the
  sampled amplitudes.
- `Caps` — the per-bar cap rule, the per-frame cap-list update (seeding the
  list on the first frame), the highest cap, and the stop test.
- `Frames` — one frame as a step function, a run of frames, the per-frame
  callback written as a loop in the source's own order (push, compare,
  decrement or raise, draw), bar x-positions, and the liveness of the stop
  condition.

Sequences of `nat` stand for the analyser's `Uint8Array` and for the cap list;
`Bytes` states the 0..255 range where it matters. `Math.round` of a
non-negative quotient is written as `(2 * binCount + barCount) div (2 * barCount)`
and its contract is the nearest-integer property with halves rounded up.

Reading past the analyser's array yields `undefined` in JavaScript; the model
makes this a precondition (`InRange`). It is not automatic: with rounding to
nearest, the default 1024 bins (FFT size 2048) and 600 bars give stride 2, so
bars 512 to 599 read bins 1024 to 1198, past the array
(`Sampling.RoundingOverrun`). The source then pushes `undefined` as those bars'
caps (src/App.js:88-90). `undefined < undefined` is false, so every frame
re-assigns them `undefined` (src/App.js:106-108). The stop test
`every(cap => cap === 0)` (src/App.js:70) can then never hold, so once paused
the loop keeps running instead of stopping. The model does not represent
`undefined` caps; it proves the stop behaviour only for configurations in
range. The defaults (1024 bins and 512 bars) are in range
(`Frames.DefaultConfigInRange`).

The cap list is local to one `drawSpectrum` call and starts empty, so the model
only admits lists that are empty or hold one cap per bar (`Caps.Seeded`).

## Model

| member | source | states |
|---|---|---|
| `Sampling.InRange` | src/App.js:79-86 | every bar's bin index (bar count - 1) * stride lies below the bin count; with zero bars nothing is read |
| `Sampling.Stride` | src/App.js:79 | the stride is the integer nearest to binCount / barCount, a quotient halfway between two integers rounding up |
| `Sampling.BinIndex` | src/App.js:85-86 | bar i reads bin i * stride, and that index is inside the array whenever the last bar's is |
| `Sampling.Sample` | src/App.js:79-86 | one amplitude per bar, bar i taking bin i * stride; byte-valued and silent bins give byte-valued and silent amplitudes |
| `Sampling.SmallBarCountInRange` | src/App.js:79-86 | every bin index is in range when barCount * (barCount - 1) < 2 * binCount |
| `Sampling.DivisibleInRange` | src/App.js:79-86 | when barCount divides a non-empty bin count the stride is exact and every index is in range |
| `Sampling.RoundingOverrun` | src/App.js:79-86 | the default 1024 bins and 600 bars give stride 2; bar 511 reads inside the array and bar 512 reads bin 1024, past it |
| `Caps.NextCap` | src/App.js:99-109 | a bar's new cap is at least the amplitude, at most one below the old cap, equal to either the amplitude or the old cap minus one, and below the old cap only when the amplitude was below it |
| `Caps.NextCapIsDecayedPeak` | src/App.js:99-109 | the new cap equals the larger of the old cap minus one and the amplitude |
| `Caps.UpdateCaps` | src/App.js:85-109 | after a frame there is one cap per bar; the first frame sets each cap to its amplitude; every cap is at or above its amplitude, fell by at most one, rose only to the amplitude, and sits above the amplitude only as the old cap minus one |
| `Caps.UpdateKeepsBytes` | src/App.js:65-109 | byte-valued caps and amplitudes keep the caps within 0..255 |
| `Caps.ShouldStop` | src/App.js:69-72 | the loop stops when paused and every cap is 0, an empty list counting as all 0 |
| `Caps.ShouldStopIffPeakZero` | src/App.js:69-72 | the loop stops exactly when paused with the highest cap at 0, an empty list counting as all at 0 |
| `Caps.SilentUpdateLowersPeak` | src/App.js:99-100 | with silent amplitudes a positive highest cap falls by exactly one per frame and a zero one stays 0 |
| `Frames.Step` | src/App.js:64-116 | a frame stops iff paused with every cap at 0; otherwise it keeps one cap per bar, each at or above its amplitude and within bytes for byte input |
| `Frames.PlayingNeverStops` | src/App.js:69-77 | while playing a frame always draws and carries the updated caps on |
| `Frames.Run` | src/App.js:64-118 | a run only stops while paused and within the frames given; while playing it never stops; a running loop keeps one cap per bar |
| `Frames.RunKeepsBytes` | src/App.js:65-109 | with byte-valued input every cap stays within 0..255 however many frames run |
| `Frames.PausedAtBottomStops` | src/App.js:69-75 | paused with every cap at 0 the next frame stops |
| `Frames.SilentFrameLowersPeak` | src/App.js:99-100 | a paused frame with silent input and a positive highest cap draws and lowers that cap by one |
| `Frames.PausedSilenceStops` | src/App.js:69-115 | paused with silent input the loop stops on exactly frame MaxCap(caps), counted from 0 |
| `Frames.RunConcat` | src/App.js:64-118 | running two stretches of frames back to back is running the first and, unless it stopped, the second from the caps it left, the second's stop frame shifted by the first's length |
| `Frames.SilenceAfterAnyPrefixStops` | src/App.js:69-115 | whatever frames came before, once paused and silent the loop stops exactly MaxCap frames after the silence begins, MaxCap taken over the caps the earlier frames left |
| `Frames.StopsWithin256SilentFrames` | src/App.js:65-115 | from byte-valued caps, 256 paused silent frames always stop the loop, on a frame before the 256th |
| `Frames.BarX` | src/App.js:92 | bar i's left edge is i * (width + gap) |
| `Frames.BarSpacing` | src/App.js:92 | the first bar starts at 0 and each next bar starts one width plus one gap further right |
| `Frames.BarsDoNotOverlap` | src/App.js:92 | with a non-negative gap a bar's right edge is at or left of every later bar's left edge |
| `Frames.BarsIncrease` | src/App.js:92 | with a positive width-plus-gap the bars' x-positions strictly increase |
| `Frames.UpdateBar` | src/App.js:99-109 | one bar's update sets its cap to NextCap, the cap drawn is that new (already lowered) value, and every other bar's cap is unchanged |
| `Frames.CapBar` | src/App.js:88-109 | on the first frame the amplitude is pushed as the bar's cap before the update; the list never grows past barCount |
| `Frames.DrawBar` | src/App.js:64-116 | the callback stops exactly when Step stops and then changes nothing; otherwise its caps equal UpdateCaps of the sampled amplitudes and bar i is drawn at x = i * (width + gap) with its amplitude and its new cap |
| `Frames.DefaultConfigInRange` | src/App.js:11-16 | the default 1024 bins and 512 bars give stride 2 and every index in range |

## Left out

- The Web Audio graph (`AudioContext`, analyser and media-element source creation, `connect`, `getByteFrequencyData`): foreign browser calls; each frame's byte array is an input sequence.
- Canvas drawing, the gradient and its colour stops, and `clearRect`: rendering side effects; `DrawBar` returns what is drawn (x, bar level, cap level) instead.
- The pixel y-mapping `(translateYVector - amplitude) * canvasHeight / translateYVector`: floating-point arithmetic with no contract; bar and cap levels are kept as amplitudes.
- `requestAnimationFrame` / `cancelAnimationFrame`: timing is modelled as one step per frame (`Step`, `Run`); the paused flag is held fixed over a run.
- Two loops running at once (play pressed again before the previous loop stopped starts a second `drawSpectrum` with its own cap list): concurrency between callbacks is not modelled.
- The React hook, refs, the null-ref `ReferenceError` checks and the `App` component: UI wiring.
- The `Object.assign(defaultProps, options)` merge, which mutates the shared defaults: a JavaScript object quirk, not frame logic.
- Out-of-range bin reads and the `undefined` caps they leave: `InRange` is a precondition, so the non-stopping loop described above is recorded but not modelled.
- A non-integer or zero `barCount`: `barCount` is a `nat`; with zero bars the source's stride is `Infinity` or `NaN` but never used, and the model draws nothing.
- Floating-point rounding in `frequencyList.length / props.barCount` before `Math.round`: the quotient is treated as exact.
