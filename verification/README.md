# Brownish noise: a verified model of the bounded random walk

This project models the "brownish" noise node of a small audio synthesis
program. The node produces noise by a bounded random walk. Each sample, it draws
`u` from `fastrand::f32()` in [0, 1), maps it to `r = 2u - 1` and forms the
candidate `previous + scale * r`. A boundary policy brings an out-of-range
candidate back. The result is written at that index of every output channel, and
the last value is carried into `previous_brown_value` for the next block.
A `SetParam(0, Number(s))` message replaces the walk scale.

The node exists in two revisions. Their constructors differ: `new()` in
`src/main.rs` fixes the scale at 0.01, while `new_with_scale(s)` in
`src/sound/brownish_noise.rs` takes it as an argument. Their `process` bodies
differ only in the boundary policy:

- `src/main.rs` uses the **bounce** boundary. Above 1 the excess is reflected
  (`2 - c`). Below -1 the excess is added to 1 (`c + 2`), so -1.3 becomes 0.7.
  This is a wrap, not a mirror image.
- `src/sound/brownish_noise.rs` uses the **clamp** boundary, which saturates at ±1.

The project also models two steps of `render_audio` in `src/main.rs`. The
rendered block is copied from channel-major into frame-major order, and each
16-bit sample is packed into little-endian bytes.

Modules:

- `RandomWalk` (`random_walk.dfy`) holds what both revisions share.
  - The node state and the boundary steps: `BounceStep`, `ClampStep` and the
    corrected `MirrorStep`.
  - The walk over a block of draws (`Walk`) and the block loop (`ProcessBlock`).
  - `SendMsg`. It models `send_msg` in both files, which are identical.
- `BounceNoise` (`bounce_noise.dfy`) covers `src/main.rs`: `new` and the bounce
  `process`. It shows that the range guarantee holds exactly when |scale| <= 2.
- `ClampNoise` (`clamp_noise.dfy`) covers `src/sound/brownish_noise.rs`:
  `new_with_scale` and the clamp `process`, whose range guarantee holds for every
  finite scale, starting value and draw sequence.
- `Render` (`render.dfy`) covers the frame interleave and the byte packing of
  `render_audio`.

Modelling choices:

- The random source is a parameter: a sequence of draws, one per sample. Where
  the source's guarantee depends on it, the draws are required to lie in [0, 1).
- `f32` arithmetic is modelled with `real`.
- The block size `N` (64 in `src/main.rs`) is the number of draws.
- A Rust panic (`todo!()`, an index out of bounds) is the `Panicked` case of
  `Outcome`.

Three facts about the code shape the model:

- The lower branch of the bounce boundary is not the mirror image of the upper
  one: -1.3 gives 0.7.
- The bounce walk stays in [-1, 1] only when |scale| <= 2.
- A message other than `SetParam(0, Number(s))` panics via `todo!()`.

## Model

| member | source | states |
|---|---|---|
| RandomWalk.BounceStep | src/main.rs:81-95 | The result is never above 1. It lies in [-1, 1] exactly when the candidate lies in [-3, 3]. Above 1 it is the reflection about 1; below -1 it is the candidate shifted up by 2, strictly below 1; on [-1, 1], ends included, the candidate is kept |
| RandomWalk.ClampStep | src/sound/brownish_noise.rs:32-41 | The result always lies in [-1, 1]. It equals the candidate exactly when the candidate is in range; otherwise it is 1 above and -1 below |
| RandomWalk.MirrorStep | src/main.rs:84-94 | The corrected boundary: reflection about 1 above and about -1 below. The result is in [-1, 1] exactly when the candidate lies in [-3, 3] |
| RandomWalk.Candidate | src/main.rs:80-82 | For a draw in [0, 1), the candidate lies within abs(scale) of the previous value. The same computation is at src/sound/brownish_noise.rs:31-33 |
| RandomWalk.Walk | src/main.rs:76-100 | A block emits exactly one sample per draw |
| RandomWalk.WalkAppend | src/main.rs:73-101 | The walk continues across blocks: two blocks, the second starting from the value the first carried, emit the same samples as one block over both sets of draws |
| RandomWalk.WriteColumn | src/main.rs:97-99 | Index i of every channel receives the value, and nothing else in any channel changes |
| RandomWalk.ProcessBlock | src/main.rs:67-102 | For every boundary policy, every channel receives the whole walk, so all N indices are overwritten. The scale is unchanged, and `previous` becomes the last sample, or stays unchanged when N = 0 |
| RandomWalk.SendMsg | src/main.rs:104-111 | `SetParam(0, Number(s))` succeeds, sets the scale to s and keeps `previous`; every other message, other slot or other payload panics |
| RandomWalk.SendMsgLastWins | src/sound/brownish_noise.rs:50-57 | After an accepted scale message, a second message has the same outcome as if it had been sent alone |
| BounceNoise.New | src/main.rs:50-55 | The fresh node has scale 0.01 and value 0, which satisfies the bounce walk's range precondition |
| RandomWalk.StepSizeBound | src/main.rs:80 | A single draw moves the walk by at most abs(scale) |
| BounceNoise.SafeStepInRange | src/main.rs:80-95 | From a value in [-1, 1] with abs(scale) <= 2, one bounce or mirror step stays in [-1, 1] |
| BounceNoise.BounceStepSafeIff | src/main.rs:78-95 | Every bounce step from every in-range value and every draw stays in [-1, 1] if and only if abs(scale) <= 2 |
| BounceNoise.BounceWalkBounded | src/main.rs:76-101 | From a value in [-1, 1] with abs(scale) <= 2 and draws in [0, 1), every emitted sample and the carried value lie in [-1, 1] |
| BounceNoise.BounceZeroScaleConstant | src/main.rs:80-94 | With scale 0, a walk starting in [-1, 1] emits its starting value at every index and carries it on |
| BounceNoise.ProcessBounce | src/main.rs:68-102 | The block contract with the bounce boundary. For a node with value in [-1, 1] and abs(scale) <= 2, with valid draws, all output samples are in range and the next node is again safe |
| BounceNoise.UiScaleEscapesRange | src/main.rs:132-139 | The scale 440 that the UI sends is accepted by `send_msg`. From the fresh node the draw 0 then yields -438 |
| BounceNoise.LowerBranchWraps | src/main.rs:88-91 | -1.3 and 1.3 both map to 0.7 under the bounce boundary, while the mirror boundary maps -1.3 to -0.7 |
| BounceNoise.MirrorStepOdd | src/main.rs:84-91 | The corrected boundary is symmetric: negating the candidate negates the result |
| BounceNoise.MirrorWalkBounded | src/main.rs:76-101 | The corrected walk keeps the same range guarantee as the bounce walk under the same precondition |
| ClampNoise.NewWithScale | src/sound/brownish_noise.rs:13-18 | The node has the given scale and value 0 |
| ClampNoise.ClampIsNearestInRange | src/sound/brownish_noise.rs:33-40 | The clamp equals max(-1, min(1, c)) and is the point of [-1, 1] nearest to the candidate |
| ClampNoise.ClampIdempotent | src/sound/brownish_noise.rs:33-40 | Clamping a clamped value changes nothing |
| ClampNoise.ClampMonotone | src/sound/brownish_noise.rs:33-40 | The clamp preserves the order of candidates |
| ClampNoise.ClampWalkBounded | src/sound/brownish_noise.rs:28-47 | For every finite scale, starting value and draws, every sample is in [-1, 1]. The carried value is in range too once a sample was written |
| ClampNoise.ClampZeroScaleConstant | src/sound/brownish_noise.rs:31-41 | With scale 0, every sample equals the clamped starting value |
| ClampNoise.ProcessClamp | src/sound/brownish_noise.rs:22-48 | The block contract with the clamp boundary. For every finite scale, every output sample is in [-1, 1], and so is the carried value when N > 0 |
| Render.Interleave | src/main.rs:245-247 | Frame f, channel c of the playback buffer holds `block[c][f]`, with the requested number of frames and channels. The copy panics exactly when some read falls outside the block |
| Render.InterleaveRoundTrip | src/main.rs:245-247 | Reading the frames back channel by channel gives the first frameCount samples of each channel |
| Render.DeinterleaveRoundTrip | src/main.rs:245-247 | Frames split into channels and interleaved again are the original frames |
| Render.NoiseFramesAreUniform | src/main.rs:245-247 | A block carrying one walk on every channel gives frames whose channels all hold the same walk value |
| Render.PackSample | src/main.rs:250-254 | Bytes 0 and 1 reassemble the value (high byte shifted by 8, or-ed with the low byte); bytes 2 and 3 repeat bytes 0 and 1 |
| Render.PackSampleDigits | src/main.rs:251-252 | byte0 + 256 * byte1 equals the 16-bit value |
| Render.PackRoundTrip | src/main.rs:250-254 | Unpacking the packed bytes gives back the value, and packing an unpacked byte pair gives back those bytes, twice |

## Findings

| source | as written | input that shows it | evidently intended | confidence | as-written member | corrected member |
|---|---|---|---|---|---|---|
| src/main.rs:84-94 | The bounce boundary is meant to keep every sample in [-1, 1], as the comment at lines 78-79 says, but it only does so when abs(scale) <= 2. The UI sends `settings.frequency` as the scale (lines 132-139), and it starts at 440 (line 203) | fresh node, scale 440 via `SetParam(0, Number(440.0))`, draw 0.0: candidate -440, emitted sample -438 | every sample within [-1, 1] for any finite scale, which the later clamp revision provides | high; not executed | BounceNoise.UiScaleEscapesRange | ClampNoise.ProcessClamp |
| src/main.rs:88-91 | The lower branch returns `1 + (c + 1)`: an excursion below -1 wraps to the top half | candidate -1.3 gives 0.7, and so does candidate 1.3 | the mirror image of the upper branch, `-1 - (c + 1)`, giving -0.7 | medium; not executed | BounceNoise.LowerBranchWraps | RandomWalk.MirrorStep |

The range bound for the mirror boundary is `BounceNoise.MirrorWalkBounded`, and its
symmetry is `BounceNoise.MirrorStepOdd`. `ProcessBlock` accepts `Mirror` like the
other two policies. The bounce model itself follows the code as written.

## Left out

- The node graph, `chain`, `next_block`, `add_stereo_node` and the context-level
  `send_msg` belong to the external `glicol_synth` library, which is not part of
  this model. The node's `_inputs` map is ignored by both `process` versions, so it
  is not a parameter.
- The closure sent to the audio thread with `stream.send` (src/main.rs:134-139) is
  cross-thread plumbing. Only the message it carries is modelled, in `UiScaleEscapesRange`.
- Window, egui and nannou UI code and the FFT/spectrum computation are left out.
  They are UI and external floating-point numerics.
- The `f32 -> i16 -> u16` cast at src/main.rs:248 is left out. Packing is modelled
  from the 16-bit value onward. The packed buffer is discarded in the source, so no
  write is modelled.
- `f32` rounding is not modelled. All arithmetic is exact over `real`, so a result
  that relies on exact equality at ±1 may differ in single precision.
- Non-finite scales are outside the model. `send_msg` accepts any
  `Number(scale)`, including NaN and infinities. A NaN scale, or an infinite scale
  with the draw 0.5 (infinity times 0), makes the candidate NaN. Both boundary
  comparisons are then false, so both revisions keep NaN, write it to every
  channel and carry it into the next block (src/main.rs:84-93,
  src/sound/brownish_noise.rs:34-47). The range guarantees hold for finite scales only.
- `fastrand::f32()` is a parameter (the draw sequence). Its distribution is not
  modelled, only its range.
- Render.PackSampleDigits: states `byte0 + 256 * byte1 == value` in 16-bit
  arithmetic, not in unbounded integers, because the solver does not handle the
  bit-vector to integer conversion here. The sum cannot wrap, since it is below 65536.
- src/state.rs and src/sound.rs hold plain data (settings, parameter enums) and no
  operations.
