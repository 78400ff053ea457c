# Free-fall simulator: the motion integrator

This project models `simulate_motion` from the Streamlit free-fall /
horizontal-projection simulator. It proves properties of that model in Dafny.

The function drops a ball of mass `m` from height `h0` under gravity `g`, with
a constant horizontal velocity `vx`. Optionally, a quadratic air drag
`(0.05 / m) * vy * |vy|` acts on the ball. The function:

- samples the times `np.arange(0, t_max, dt)`;
- integrates with a fixed-step explicit-Euler scheme: the velocity first, then
  the height with the new velocity, then the horizontal position;
- stops at the first step that takes the ball below ground. That step's height
  and every later height become 0, and the horizontal position is frozen at
  the value it has at that step.

The model is split into four modules:

- `Ground` (`ground.dfy`): the ground rule on its own.
  - `FirstNegative` / `Touchdown` find the first step from index 1 whose height
    is negative.
  - `Clamp` zeroes the heights from that step on.
  - `Freeze` repeats the horizontal position reached there.
- `Euler` (`euler.dfy`): the explicit-Euler scheme for any acceleration law
  `accel: real -> real`.
  - `VelocityAt` / `Velocities` give the velocity sequence.
  - `Advance` / `Track` give a coordinate advanced by `velocity * dt`.
  - `Step` is one pass of the loop body.
  - `Follows` says that a sequence of states is the sequence of passes.
  - Closed forms for constant velocity and constant acceleration are proved
    here.
- `FreeFall` (`free_fall.dfy`): the arguments (`Config`) and the acceleration
  `Accel` of the program. Its specification functions describe what the
  program returns:
  - `Times`;
  - `Velocities`;
  - `FreeHeights` / `FreeXs`, the values before any clamping;
  - `TouchdownIndex`;
  - `Heights` / `Positions`, the returned arrays.

  It also holds the imperative model: `SimulateMotion` allocates the three
  arrays, and `Integrate` runs the loop with `vy` as a local and `break`s at
  touchdown. `Integrate` is proved to leave exactly `Heights` and `Positions`
  in the arrays.
- `FreeFallProperties` (`properties.dfy`): the properties of the returned
  arrays, stated over the specification functions:
  - length and sample times;
  - the initial sample;
  - no negative height after the first;
  - ground absorption;
  - the per-step recurrences;
  - closed forms;
  - mass independence without drag.

All arithmetic is over exact reals.

## Model

| member | source | states |
|---|---|---|
| FreeFall.SimulateMotion | free_fall_simulator.py:38-59 | Returns fresh arrays `t`, `x`, `y`: `t` holds the `np.arange` sample times, `y` the clamped Euler heights and `x` the frozen horizontal positions, for every argument combination with a positive step and horizon (and a non-zero mass when drag is on). |
| FreeFall.Integrate | free_fall_simulator.py:44-58 | Starting from `y[0] = h0` and `x[0] = 0`, the loop leaves in `y` the Euler heights up to the first negative step and zeros from there on, and in `x` the positions up to that step and that step's position afterwards. It changes only `x` and `y`. |
| FreeFall.FillFrom | free_fall_simulator.py:56-57 | The slice assignment `a[from:] = v` sets every entry from `from` on to `v` and leaves the entries before it unchanged. |
| FreeFall.LandedArrays | free_fall_simulator.py:54-58 | If the loop stops at the first negative step `i`, the arrays are exactly the clamped heights and the frozen positions. |
| FreeFall.FlownArrays | free_fall_simulator.py:47-53 | If the loop runs through every index without a negative step, the arrays are exactly the computed heights and positions. |
| FreeFall.Ceil | free_fall_simulator.py:39 | The result is the least integer not below `q`. |
| FreeFall.CeilingBounds | free_fall_simulator.py:39 | `ceil(t_max / dt)` is at least 1, and it is the number of steps of `dt` with `(n-1)*dt < t_max <= n*dt`. |
| FreeFall.SampleCount | free_fall_simulator.py:39-41 | The number of samples is at least 1, so `y[0]` and `x[0]` exist. |
| FreeFall.Accel | free_fall_simulator.py:48-50 | The vertical acceleration at velocity `vy`: `-g`, minus `(0.05 / m) * vy * abs(vy)` when drag is on. Its contract states that only gravity acts without drag or at rest. |
| FreeFall.Velocities | free_fall_simulator.py:44-51 | The value of `vy` at every sample under the program's law `Accel`: 0 at the start, then each previous value plus `Accel(previous) * dt`; `SampleCount` entries. |
| FreeFall.FreeHeights | free_fall_simulator.py:42-52 | The heights the loop computes before any clamping: `h0`, then each previous height plus the new `vy * dt`; `SampleCount` entries. |
| FreeFall.FreeXs | free_fall_simulator.py:43-53 | The horizontal positions the loop computes before any freezing: 0, then each previous position plus `vx * dt`; `SampleCount` entries. |
| FreeFall.TouchdownIndex | free_fall_simulator.py:54-58 | The index at which the loop breaks, the first negative computed height from index 1 on, or `SampleCount` when there is none; it lies in `1..SampleCount`. |
| FreeFall.Times | free_fall_simulator.py:39 | The array `t`: one entry `i*dt` per sample, `SampleCount` entries. |
| FreeFall.Heights | free_fall_simulator.py:40-58 | The array `y` the program returns: the computed heights clamped from touchdown on, `SampleCount` entries. |
| FreeFall.Positions | free_fall_simulator.py:41-58 | The array `x` the program returns: the computed positions frozen at touchdown, `SampleCount` entries. |
| FreeFall.Abs | free_fall_simulator.py:50 | `abs(vy)` is non-negative and equals `vy` or `-vy`. |
| FreeFallProperties.TimesIsArange | free_fall_simulator.py:39 | Index `i` is a sample exactly when `i*dt < t_max`, and then `t[i] = i*dt`. |
| FreeFallProperties.SameLengths | free_fall_simulator.py:39-41 | `t`, `x` and `y` all have `SampleCount` entries. |
| FreeFallProperties.FirstSample | free_fall_simulator.py:42-43 | `y[0] = h0` and `x[0] = 0`, with no clamp even when `h0` is negative. |
| FreeFallProperties.HeightsNonNegative | free_fall_simulator.py:54-56 | No returned height after index 0 is negative. |
| FreeFallProperties.GroundAbsorption | free_fall_simulator.py:54-58 | If step `i` is the first negative one, then `i` is the touchdown index; earlier heights are returned as computed; positions up to `i` are returned as computed; `y[i]` and every later height are 0; every later position equals `x[i]`. |
| FreeFallProperties.NoTouchdown | free_fall_simulator.py:47-54 | There is no touchdown exactly when no step from 1 on is negative, exactly when the heights come back unclamped; then the positions come back unfrozen. |
| FreeFallProperties.VelocityRecurrence | free_fall_simulator.py:44-51 | `vy` starts at 0, and each velocity is the previous one plus `Accel(previous) * dt`. |
| FreeFallProperties.FreeHeightRecurrence | free_fall_simulator.py:42-52 | The computed heights start at `h0`, and each is the previous plus the new velocity times `dt`. |
| FreeFallProperties.UnclampedBeforeTouchdown | free_fall_simulator.py:54-55 | Before the touchdown index (everywhere if there is none), the returned heights are the computed ones. |
| FreeFallProperties.HeightRecurrence | free_fall_simulator.py:52-55 | Before touchdown, each returned height is the previous returned height plus the new velocity times `dt`. |
| FreeFallProperties.PositionRecurrence | free_fall_simulator.py:53-57 | Up to and including touchdown, each returned position is the previous plus `vx*dt`. |
| FreeFallProperties.FrozenTrackStep | free_fall_simulator.py:53-57 | A steady track frozen at `d` still advances by `v*dt` at every index up to `d`. |
| FreeFallProperties.FreeXsClosedForm | free_fall_simulator.py:43-53 | The computed horizontal position after `i` steps is `i*vx*dt`. |
| FreeFallProperties.FrozenAtTouchdown | free_fall_simulator.py:57 | The returned position at `i` is the computed one at `min(i, d)`, where `d` is the touchdown index. |
| FreeFallProperties.PositionsClosedForm | free_fall_simulator.py:53-57 | The returned position is `i*vx*dt` up to touchdown, and `d*vx*dt` after touchdown at index `d`. |
| FreeFallProperties.DragFreeVelocity | free_fall_simulator.py:48-51 | Without drag, the velocity after `i` steps is `-g*i*dt`. |
| FreeFallProperties.DragFreeTrack | free_fall_simulator.py:48-52 | Without drag, the computed height after `i` steps is `h0 - g*dt^2*i*(i+1)/2`. |
| FreeFallProperties.DragFreeHeight | free_fall_simulator.py:48-55 | Without drag, the returned heights before touchdown are `h0 - g*dt^2*i*(i+1)/2`. |
| FreeFallProperties.ResultIndependentOfMass | free_fall_simulator.py:48-50 | Without drag, any two masses give the same `t`, `x` and `y`. |
| FreeFallProperties.DragOpposesVelocity | free_fall_simulator.py:48-50 | With drag and a positive mass, the acceleration is below `-g` while rising, above `-g` while falling, and `-g` at rest. Without drag it is always `-g`. |
| Ground.FirstNegative | free_fall_simulator.py:47-54 | The result is the first index from `from` on whose height is negative, or the length if there is none. |
| Ground.Touchdown | free_fall_simulator.py:47-54 | The index at which the loop breaks: at least 1, no height in `1..d-1` is negative, and `hs[d] < 0` unless `d` is the length (no touchdown). |
| Ground.Clamp | free_fall_simulator.py:54-56 | The returned heights: the computed ones before touchdown and 0 from touchdown on, same length as the input. |
| Ground.Freeze | free_fall_simulator.py:57 | The returned positions for touchdown at `d`: the computed ones up to `d` and `xs[d]` after it, same length as the input. |
| Ground.TouchdownIsFirstNegative | free_fall_simulator.py:47-54 | The touchdown index is `i` exactly when `hs[i] < 0` and no height in `1..i-1` is negative. |
| Ground.NoTouchdownIffNonNegative | free_fall_simulator.py:47-54 | There is no touchdown exactly when no height from index 1 on is negative. |
| Ground.ClampKeepsFirst | free_fall_simulator.py:42-47 | The first height is never clamped. |
| Ground.ClampNonNegative | free_fall_simulator.py:54-56 | Every clamped height after the first is non-negative. |
| Ground.ClampBeforeTouchdown | free_fall_simulator.py:54 | Heights before touchdown are returned as computed. |
| Ground.GroundAbsorbs | free_fall_simulator.py:55-57 | At the first negative step `i` and after it, the heights are 0, and every later position equals the one at `i`. |
| Ground.ClampIdentityIffNoNegative | free_fall_simulator.py:54-56 | The clamp leaves the heights unchanged exactly when no height from index 1 on is negative. |
| Ground.ClampFromTouchdown | free_fall_simulator.py:54-56 | A sequence that matches the heights before touchdown and is 0 from touchdown on is the clamped sequence. |
| Ground.FreezeFromTouchdown | free_fall_simulator.py:57 | A sequence that matches the positions up to `i` and repeats `xs[i]` afterwards is the sequence frozen at `i`. |
| Ground.FreezeAtEndIsIdentity | free_fall_simulator.py:47-53 | Without touchdown the positions are not frozen. |
| Ground.StoppedAtTouchdown | free_fall_simulator.py:54-58 | Arrays built as the loop builds them up to the first negative step are the clamped heights and the frozen positions. |
| Ground.NeverTouchedDown | free_fall_simulator.py:47-53 | Arrays that match the computed values, with no negative step, are the clamped heights and the frozen positions. |
| Euler.VelocityAt | free_fall_simulator.py:44-51 | The value of `vy` after `i` passes of the loop, as a definition: 0 for `i = 0`, otherwise the previous value plus `accel(previous) * dt`. |
| Euler.Velocities | free_fall_simulator.py:44-51 | The values of `vy` at `n` samples, `VelocityAt` at each index; `n` entries. |
| Euler.Advance | free_fall_simulator.py:52-53 | The coordinate after `i` passes, as a definition: `p0` for `i = 0`, otherwise the previous value plus `vs[i] * dt`. This is the recurrence `y[i] = y[i-1] + vy*dt` and `x[i] = x[i-1] + vx*dt`. |
| Euler.Track | free_fall_simulator.py:52-53 | The coordinate at every sample, `Advance` at each index; one entry per velocity. |
| Euler.VelocityStep | free_fall_simulator.py:51 | Each velocity is the previous one plus `accel(previous) * dt`. |
| Euler.VelocitiesStep | free_fall_simulator.py:51 | Consecutive sampled velocities differ by `accel(earlier) * dt`. |
| Euler.TrackSteps | free_fall_simulator.py:52-53 | A track starts at its initial value, and each entry is the previous one plus `velocity * dt`. |
| Euler.ConstantVelocity | free_fall_simulator.py:53 | Under a constant velocity `v`, the coordinate after `i` steps is `p0 + i*v*dt`. |
| Euler.ConstantAcceleration | free_fall_simulator.py:48-51 | Under a constant acceleration `-a` from rest, the velocity after `i` steps is `-a*i*dt`. |
| Euler.UniformAcceleration | free_fall_simulator.py:52 | With velocities `-a*j*dt`, the coordinate after `i` steps is `p0 - a*dt^2*i*(i+1)/2`. |
| Euler.TriangleStep | free_fall_simulator.py:52 | One more step of `-k*i` takes `-k*(i-1)*i/2` to `-k*i*(i+1)/2`. |
| Euler.UniformlyAcceleratedTrack | free_fall_simulator.py:48-52 | Under a constant acceleration `-a`, the sampled track is `p0 - a*dt^2*i*(i+1)/2`. |
| Euler.SameLawSameVelocity | free_fall_simulator.py:48-51 | Two acceleration laws that agree everywhere give the same velocities. |
| Euler.Step | free_fall_simulator.py:51-53 | One pass of the loop body, as a definition: the new velocity is `vy + accel(vy) * dt`, the new height is the old height plus the new velocity times `dt`, and the new horizontal position is the old one plus `vx * dt`. `Euler.StepMatches` proves that it takes sample `i-1` to sample `i`. |
| Euler.FollowsExtend | free_fall_simulator.py:47-53 | Appending one pass of the loop body keeps the sequence a valid sequence of loop states. |
| Euler.StepMatches | free_fall_simulator.py:51-53 | One pass of the loop body takes sample `i-1` (velocity, position, height) to sample `i`. |
| Euler.FollowsSamples | free_fall_simulator.py:44-53 | Every state the loop passes through is the sample of the velocity and the two tracks at that index. |
| Euler.FollowsTracks | free_fall_simulator.py:52-53 | The heights and positions of the loop states are the two tracks. |

## Left out

- The Streamlit page, the sidebar widgets and the button are not modelled
  (free_fall_simulator.py:1-35, 61-97). They are user-interface plumbing.
- The matplotlib animation, `time.sleep` and the marker test
  `i % int(marker_interval / dt) == 0` are not modelled. They only display the
  arrays and do not affect the trajectory.
- Float64 rounding is not modelled: all arithmetic is over exact reals. The
  program's length of `np.arange` (a float division followed by a ceiling),
  the loop's sums and the `y[i] < 0` test can differ from the exact values by
  rounding.
- Physical-accuracy claims are not modelled. These include the analytic fall
  time `sqrt(2*h0/g)` and how much drag delays the landing. The model states
  what the program computes, not how close that is to the physics.
- FreeFall.SimulateMotion requires `dt > 0` and `t_max > 0`. With a negative
  step and a negative horizon, `np.arange` counts down and the program still
  runs; that case is not modelled. The program's only call site passes the
  module constants `dt = 0.05` and `t_max = 5.0`.
- FreeFall.SimulateMotion requires `m != 0` whenever drag is on. The program
  divides by `m` only inside the loop, so with a single sample and `m == 0` it
  still returns normally.
- FreeFall.SampleCount: its own contract states only that there is at least
  one sample. The exact count `ceil(t_max / dt)` is stated by
  `FreeFall.CeilingBounds` and `FreeFallProperties.TimesIsArange`.
- The number of samples is `ceil(t_max / dt)`, not `floor(t_max / dt)`:
  `np.arange(0, t_max, dt)` includes 0 and excludes `t_max`, so for a positive
  step it yields one sample for every `i` with `i*dt < t_max`.
- `Integrate` is written for any acceleration law `accel`.
  `SimulateMotion` passes it the program's law `Accel`. The loop body's
  arithmetic is the function `Euler.Step`.
- Integer-typed arrays are not modelled. When `dt` and `t_max` are both
  Python ints, `np.arange` (line 39) returns an int64 array. `np.zeros_like`
  (lines 40-41) then makes `x` and `y` int64 as well. Every store at lines 42,
  52-53 and 55-57 then truncates toward zero, and the `y[i] < 0` test at line
  54 sees the truncated height. For example, `simulate_motion(1, 9.8, False,
  20, 0, 1, 5)` returns `y = [20, 10, 0, 0, 0]`, where the model gives
  `[20, 10.2, 0, 0, 0]`. The model treats every argument as a real. The
  program's only calls (lines 66-67) pass the float constants `dt = 0.05` and
  `t_max = 5.0`.
