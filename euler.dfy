/**
  The explicit-Euler scheme of the integrator, independent of the force
  law: the velocity advances by the acceleration times the time step, and
  each coordinate by the velocity of the step times the time step.
 */
module Euler {

  /** The velocity after `i` steps from rest under the acceleration law
      `accel` (acceleration as a function of velocity). */
  function VelocityAt(accel: real -> real, dt: real, i: nat): real
  {
    if i == 0 then 0.0 else VelocityAt(accel, dt, i - 1) + accel(VelocityAt(accel, dt, i - 1)) * dt
  }

  /** The velocity at each of `n` samples. */
  function Velocities(accel: real -> real, dt: real, n: nat): (vs: seq<real>)
    ensures |vs| == n
  {
    seq(n, i requires 0 <= i => VelocityAt(accel, dt, i))
  }

  /** The same velocity at each of `n` samples. */
  function Steady(v: real, n: nat): (vs: seq<real>)
    ensures |vs| == n
  {
    seq(n, _ => v)
  }

  /** The coordinate after `i` steps from `p0`, step `j` moving it by
      `vs[j] * dt` (`vs[0]` is the velocity at the start and is not used). */
  function Advance(p0: real, vs: seq<real>, dt: real, i: nat): real
    requires i < |vs|
  {
    if i == 0 then p0 else Advance(p0, vs, dt, i - 1) + vs[i] * dt
  }

  /** The coordinate at every sample. */
  function Track(p0: real, vs: seq<real>, dt: real): (ps: seq<real>)
    ensures |ps| == |vs|
  {
    seq(|vs|, i requires 0 <= i < |vs| => Advance(p0, vs, dt, i))
  }

  /** One step of the velocity update. */
  lemma VelocityStep(accel: real -> real, dt: real, i: nat, v: real)
    requires i >= 1 && v == VelocityAt(accel, dt, i - 1)
    ensures VelocityAt(accel, dt, i) == v + accel(v) * dt
  {
  }

  /** Consecutive sampled velocities differ by the acceleration `w` at the
      earlier one times `dt`. */
  lemma VelocitiesStep(accel: real -> real, dt: real, n: nat, i: nat, v: real, w: real)
    requires 1 <= i < n
    requires v == Velocities(accel, dt, n)[i - 1] && w == accel(v)
    ensures Velocities(accel, dt, n)[i] == v + w * dt
  {
    VelocityStep(accel, dt, i, v);
  }

  /** The track starts at `p0` and each entry adds one step to the previous. */
  lemma TrackSteps(p0: real, vs: seq<real>, dt: real, i: nat)
    requires 1 <= i < |vs|
    ensures Track(p0, vs, dt)[0] == p0
    ensures Track(p0, vs, dt)[i] == Track(p0, vs, dt)[i - 1] + vs[i] * dt
  {
  }

  /** Under a constant velocity `v` the coordinate after `i` steps is
      `p0 + i * v * dt`. */
  lemma {:induction false} ConstantVelocity(p0: real, vs: seq<real>, dt: real, v: real, i: nat)
    requires i < |vs|
    requires forall j :: 1 <= j <= i ==> vs[j] == v
    ensures Advance(p0, vs, dt, i) == p0 + i as real * v * dt
  {
    if i > 0 {
      ConstantVelocity(p0, vs, dt, v, i - 1);
      var r := i as real;
      assert (r - 1.0) * v * dt + v * dt == r * v * dt;
    }
  }

  /** Under a constant acceleration `-a` the velocity after `i` steps is
      `-a * i * dt`. */
  lemma {:induction false} ConstantAcceleration(accel: real -> real, dt: real, a: real, i: nat)
    requires forall v :: accel(v) == -a
    ensures VelocityAt(accel, dt, i) == -a * i as real * dt
  {
    if i > 0 {
      ConstantAcceleration(accel, dt, a, i - 1);
      var r := i as real;
      assert VelocityAt(accel, dt, i) == VelocityAt(accel, dt, i - 1) - a * dt;
      assert -a * (r - 1.0) * dt - a * dt == -a * r * dt;
    }
  }

  /** Under the velocities `vs[j] = -a * j * dt` of a constant acceleration
      `-a` from rest, the coordinate after `i` steps is
      `p0 - a * dt^2 * i * (i + 1) / 2`. */
  lemma {:induction false} UniformAcceleration(p0: real, vs: seq<real>, dt: real, a: real, i: nat)
    requires i < |vs|
    requires forall j :: 1 <= j <= i ==> vs[j] == -a * j as real * dt
    ensures Advance(p0, vs, dt, i) == p0 - a * dt * dt * (i * (i + 1)) as real / 2.0
  {
    if i > 0 {
      UniformAcceleration(p0, vs, dt, a, i - 1);
      TriangleStep(a * dt * dt, i, vs[i] * dt);
    }
  }

  /** The arithmetic of one step of `UniformAcceleration`: adding the `i`-th
      step `-k * i` to `-k * (i - 1) * i / 2` gives `-k * i * (i + 1) / 2`. */
  lemma TriangleStep(k: real, i: nat, step: real)
    requires i >= 1 && step == -k * i as real
    ensures -k * ((i - 1) * i) as real / 2.0 + step == -k * (i * (i + 1)) as real / 2.0
  {
    var r := i as real;
    assert ((i - 1) * i) as real == (r - 1.0) * r;
    assert (i * (i + 1)) as real == r * (r + 1.0);
  }

  /** Under a constant acceleration `-a` from rest, the track of the
      coordinate from `p0` is `p0 - a * dt^2 * i * (i + 1) / 2` at sample `i`. */
  lemma UniformlyAcceleratedTrack(accel: real -> real, p0: real, dt: real, a: real, n: nat, i: nat)
    requires forall v :: accel(v) == -a
    requires i < n
    ensures Track(p0, Velocities(accel, dt, n), dt)[i] == p0 - a * dt * dt * (i * (i + 1)) as real / 2.0
  {
    var vs := Velocities(accel, dt, n);
    forall j | 1 <= j <= i
      ensures vs[j] == -a * j as real * dt
    {
      ConstantAcceleration(accel, dt, a, j);
    }
    UniformAcceleration(p0, vs, dt, a, i);
  }

  /** Two acceleration laws that agree everywhere give the same velocities. */
  lemma {:induction false} SameLawSameVelocity(a: real -> real, b: real -> real, dt: real, i: nat)
    requires forall v :: a(v) == b(v)
    ensures VelocityAt(a, dt, i) == VelocityAt(b, dt, i)
  {
    if i > 0 {
      SameLawSameVelocity(a, b, dt, i - 1);
      var v := VelocityAt(a, dt, i - 1);
      assert a(v) * dt == b(v) * dt;
    }
  }

  /** The state of the ball between two passes of the loop: vertical
      velocity and the last horizontal and vertical samples. */
  datatype Ball = Ball(vy: real, x: real, y: real)

  /** One pass of the loop body: new velocity, then both coordinates. */
  function Step(accel: real -> real, dt: real, vx: real, b: Ball): Ball
  {
    var vy := b.vy + accel(b.vy) * dt;
    Ball(vy, b.x + vx * dt, b.y + vy * dt)
  }

  /** `run` lists the states of the loop: it starts at rest at `(0, h0)`
      and each state is one pass from the previous one. */
  predicate Follows(accel: real -> real, dt: real, h0: real, vx: real, run: seq<Ball>)
  {
    |run| >= 1 && run[0] == Ball(0.0, 0.0, h0) &&
    forall j :: 1 <= j < |run| ==> run[j] == Step(accel, dt, vx, run[j - 1])
  }

  /** One more pass extends the states of the loop. */
  lemma FollowsExtend(accel: real -> real, dt: real, h0: real, vx: real, run: seq<Ball>)
    requires Follows(accel, dt, h0, vx, run)
    ensures Follows(accel, dt, h0, vx, run + [Step(accel, dt, vx, run[|run| - 1])])
  {
  }

  /** The sample of both coordinates and the velocity at index `i`. */
  function Sample(accel: real -> real, dt: real, h0: real, vx: real, n: nat, i: nat): Ball
    requires i < n
  {
    Ball(Velocities(accel, dt, n)[i], Track(0.0, Steady(vx, n), dt)[i], Track(h0, Velocities(accel, dt, n), dt)[i])
  }

  /** One pass of the loop takes sample `i - 1` to sample `i`. */
  lemma StepMatches(accel: real -> real, dt: real, h0: real, vx: real, n: nat, i: nat)
    requires 1 <= i < n
    ensures Step(accel, dt, vx, Sample(accel, dt, h0, vx, n, i - 1)) == Sample(accel, dt, h0, vx, n, i)
  {
    var vs, us := Velocities(accel, dt, n), Steady(vx, n);
    var b := Sample(accel, dt, h0, vx, n, i - 1);
    VelocityStep(accel, dt, i, b.vy);
    TrackSteps(h0, vs, dt, i);
    TrackSteps(0.0, us, dt, i);
    assert Step(accel, dt, vx, b).vy == vs[i];
    assert Step(accel, dt, vx, b).y == b.y + vs[i] * dt;
  }

  /** The states the loop passes through are the velocities and the two
      tracks, sample by sample. */
  lemma {:induction false} FollowsSamples(accel: real -> real, dt: real, h0: real, vx: real, run: seq<Ball>, n: nat)
    requires Follows(accel, dt, h0, vx, run) && |run| <= n
    ensures forall j :: 0 <= j < |run| ==> run[j] == Sample(accel, dt, h0, vx, n, j)
  {
    var k := |run| - 1;
    if k > 0 {
      var prefix := run[..k];
      assert Follows(accel, dt, h0, vx, prefix) by {
        assert forall j :: 0 <= j < k ==> prefix[j] == run[j];
      }
      FollowsSamples(accel, dt, h0, vx, prefix, n);
      StepMatches(accel, dt, h0, vx, n, k);
    }
  }

  /** The heights and horizontal positions of the states of the loop are
      the two tracks. */
  lemma FollowsTracks(accel: real -> real, dt: real, h0: real, vx: real, run: seq<Ball>, n: nat)
    requires Follows(accel, dt, h0, vx, run) && |run| <= n
    ensures forall j :: 0 <= j < |run| ==>
      run[j].y == Track(h0, Velocities(accel, dt, n), dt)[j] && run[j].x == Track(0.0, Steady(vx, n), dt)[j]
  {
    FollowsSamples(accel, dt, h0, vx, run, n);
  }
}
