/**
  The motion integrator of the free-fall / horizontal-projection simulator:
  a fixed-step explicit-Euler integration of one ball's height, with a
  ground clamp that freezes the ball once a step takes it below zero.

  All arithmetic is exact (`real`); the program itself works in float64.
 */
module FreeFall {

  import Ground
  import Euler

  /** The arguments of `simulate_motion`: mass, gravity, air-resistance flag,
      initial height, horizontal velocity, time step and time horizon. */
  datatype Config = Config(m: real, g: real, air: bool, h0: real, vx: real, dt: real, tMax: real)

  /** The quadratic air-resistance coefficient, fixed in the program. */
  const DragCoefficient: real := 0.05

  /** What the program needs of its arguments without checking them: a
      positive step (its caller passes `dt = 0.05`) and a positive horizon,
      since otherwise `np.arange` yields no sample and `y[0] = h0` fails; with
      drag enabled the mass is a divisor. */
  predicate ValidArgs(c: Config)
  {
    c.dt > 0.0 && c.tMax > 0.0 && (c.air ==> c.m != 0.0)
  }

  function Abs(v: real): (r: real)
    ensures r >= 0.0 && (r == v || r == -v)
  {
    if v < 0.0 then -v else v
  }

  /** The least integer not below `q`. */
  function Ceil(q: real): (k: int)
    ensures (k - 1) as real < q <= k as real
  {
    if q.Floor as real == q then q.Floor else q.Floor + 1
  }

  /** Number of samples of `np.arange(0, t_max, dt)`: the indices `i >= 0`
      with `i * dt < t_max`, that is `ceil(t_max / dt)`. */
  function SampleCount(c: Config): (n: nat)
    requires ValidArgs(c)
    ensures n >= 1
  {
    var k := Ceil(c.tMax / c.dt);
    CeilingBounds(c.tMax, c.dt, k);
    k
  }

  /** `ceil(t_max / dt)` steps of `dt` are the first to reach `t_max`. */
  lemma CeilingBounds(tMax: real, dt: real, k: int)
    requires dt > 0.0 && tMax > 0.0 && k == Ceil(tMax / dt)
    ensures k >= 1
    ensures (k - 1) as real * dt < tMax <= k as real * dt
  {
    var q := tMax / dt;
    assert q * dt == tMax;
    assert (k - 1) as real < q <= k as real;
    ScaleBy(dt, (k - 1) as real, q);
    ScaleBy(dt, q, k as real);
    assert (k - 1) as real * dt < q * dt;
    assert q * dt <= k as real * dt;
  }

  /** Multiplying by a positive factor keeps the order of two reals. */
  lemma ScaleBy(d: real, a: real, b: real)
    requires d > 0.0
    ensures a < b ==> a * d < b * d
    ensures a <= b ==> a * d <= b * d
  {
    assert b * d - a * d == (b - a) * d;
  }

  /** Vertical acceleration for vertical velocity `vy`: gravity, and with
      drag enabled the quadratic term `(k / m) * vy * |vy|` subtracted. */
  function Accel(c: Config, vy: real): (a: real)
    requires c.air ==> c.m != 0.0
    ensures !c.air || vy == 0.0 ==> a == -c.g
  {
    if c.air then -c.g - (DragCoefficient / c.m) * vy * Abs(vy) else -c.g
  }

  /** The acceleration law of a run, as the function of the vertical
      velocity that the loop applies at every step. */
  function Law(c: Config): real -> real
    requires c.air ==> c.m != 0.0
  {
    vy => Accel(c, vy)
  }

  /** The sample times `t[i] = i * dt`. */
  function Times(c: Config): (ts: seq<real>)
    requires ValidArgs(c)
    ensures |ts| == SampleCount(c)
  {
    seq(SampleCount(c), i => i as real * c.dt)
  }

  /** The vertical velocity at every sample. */
  function Velocities(c: Config): (vs: seq<real>)
    requires ValidArgs(c)
    ensures |vs| == SampleCount(c)
  {
    Euler.Velocities(Law(c), c.dt, SampleCount(c))
  }

  /** The heights the loop computes when no ground stops it. */
  function FreeHeights(c: Config): (hs: seq<real>)
    requires ValidArgs(c)
    ensures |hs| == SampleCount(c)
  {
    Euler.Track(c.h0, Velocities(c), c.dt)
  }

  /** The horizontal positions the loop computes when no ground stops it. */
  function FreeXs(c: Config): (xs: seq<real>)
    requires ValidArgs(c)
    ensures |xs| == SampleCount(c)
  {
    Euler.Track(0.0, Euler.Steady(c.vx, SampleCount(c)), c.dt)
  }

  /** Index of the first step that goes below ground; `SampleCount(c)` if
      none does. */
  function TouchdownIndex(c: Config): (d: nat)
    requires ValidArgs(c)
    ensures 1 <= d <= SampleCount(c)
  {
    Ground.Touchdown(FreeHeights(c))
  }

  /** The height array `y` the program returns. */
  function Heights(c: Config): (ys: seq<real>)
    requires ValidArgs(c)
    ensures |ys| == SampleCount(c)
  {
    Ground.Clamp(FreeHeights(c))
  }

  /** The horizontal array `x` the program returns. */
  function Positions(c: Config): (ps: seq<real>)
    requires ValidArgs(c)
    ensures |ps| == SampleCount(c)
  {
    Ground.Freeze(FreeXs(c), TouchdownIndex(c))
  }

  /** The slice assignment `a[from:] = v`. */
  method FillFrom(a: array<real>, from: nat, v: real)
    requires from <= a.Length
    modifies a
    ensures forall j :: 0 <= j < from ==> a[j] == old(a[j])
    ensures forall j :: from <= j < a.Length ==> a[j] == v
  {
    forall j | from <= j < a.Length {
      a[j] := v;
    }
  }

  /** `simulate_motion(m, g, air, h0, vx, dt, t_max)`: allocates the time,
      horizontal and height arrays, places the ball at `(0, h0)` and runs
      the loop with the acceleration law of the arguments. */
  method SimulateMotion(m: real, g: real, air: bool := false, h0: real := 10.0, vx: real := 0.0,
                        dt: real := 0.05, tMax: real := 5.0)
    returns (t: array<real>, x: array<real>, y: array<real>)
    requires ValidArgs(Config(m, g, air, h0, vx, dt, tMax))
    ensures fresh(t) && fresh(x) && fresh(y)
    ensures t[..] == Times(Config(m, g, air, h0, vx, dt, tMax))
    ensures x[..] == Positions(Config(m, g, air, h0, vx, dt, tMax))
    ensures y[..] == Heights(Config(m, g, air, h0, vx, dt, tMax))
  {
    var c := Config(m, g, air, h0, vx, dt, tMax);
    var n := SampleCount(c);
    t := new real[n](i => i as real * dt);
    y := new real[n](_ => 0.0);
    x := new real[n](_ => 0.0);
    y[0] := h0;
    x[0] := 0.0;
    Integrate(Law(c), dt, h0, vx, x, y);
  }

  /** The arrays left by a pass that stops at the first negative step `i`
      are the clamped heights and the frozen positions. */
  lemma LandedArrays(accel: real -> real, dt: real, h0: real, vx: real, run: seq<Euler.Ball>, i: nat,
                     ys: seq<real>, ps: seq<real>)
    requires 1 <= i < |ys| && |ps| == |ys| && |run| == i + 1 && Euler.Follows(accel, dt, h0, vx, run)
    requires forall j :: 1 <= j < i ==> run[j].y >= 0.0
    requires run[i].y < 0.0
    requires forall j :: 0 <= j < i ==> ys[j] == run[j].y
    requires forall j :: i <= j < |ys| ==> ys[j] == 0.0
    requires forall j :: 0 <= j <= i ==> ps[j] == run[j].x
    requires forall j :: i < j < |ps| ==> ps[j] == run[i].x
    ensures ys == Ground.Clamp(Euler.Track(h0, Euler.Velocities(accel, dt, |ys|), dt))
    ensures ps == Ground.Freeze(Euler.Track(0.0, Euler.Steady(vx, |ps|), dt),
                                Ground.Touchdown(Euler.Track(h0, Euler.Velocities(accel, dt, |ys|), dt)))
  {
    var n := |ys|;
    var hs, xs := Euler.Track(h0, Euler.Velocities(accel, dt, n), dt), Euler.Track(0.0, Euler.Steady(vx, n), dt);
    assert forall j :: 0 <= j <= i ==> hs[j] == run[j].y && xs[j] == run[j].x by {
      Euler.FollowsTracks(accel, dt, h0, vx, run, n);
    }
    Ground.StoppedAtTouchdown(hs, xs, i, ys, ps);
  }

  /** The arrays left by a pass that runs out of samples without a negative
      step are the heights and positions as computed. */
  lemma FlownArrays(accel: real -> real, dt: real, h0: real, vx: real, run: seq<Euler.Ball>,
                    ys: seq<real>, ps: seq<real>)
    requires |ps| == |ys| && |run| == |ys| && Euler.Follows(accel, dt, h0, vx, run)
    requires forall j :: 1 <= j < |ys| ==> run[j].y >= 0.0
    requires forall j :: 0 <= j < |ys| ==> ys[j] == run[j].y && ps[j] == run[j].x
    ensures ys == Ground.Clamp(Euler.Track(h0, Euler.Velocities(accel, dt, |ys|), dt))
    ensures ps == Ground.Freeze(Euler.Track(0.0, Euler.Steady(vx, |ps|), dt),
                                Ground.Touchdown(Euler.Track(h0, Euler.Velocities(accel, dt, |ys|), dt)))
  {
    var n := |ys|;
    var hs, xs := Euler.Track(h0, Euler.Velocities(accel, dt, n), dt), Euler.Track(0.0, Euler.Steady(vx, n), dt);
    assert forall j :: 0 <= j < n ==> hs[j] == run[j].y && xs[j] == run[j].x by {
      Euler.FollowsTracks(accel, dt, h0, vx, run, n);
    }
    Ground.NeverTouchedDown(hs, xs, ys, ps);
  }

  /** The loop of `simulate_motion` under the acceleration law `accel`:
      steps the ball from sample 1 on and stops at the first step that goes
      below ground, clamping the rest of the heights to zero and freezing
      the rest of the positions. */
  method Integrate(accel: real -> real, dt: real, h0: real, vx: real, x: array<real>, y: array<real>)
    requires x != y && x.Length == y.Length >= 1
    requires y[0] == h0 && x[0] == 0.0
    modifies x, y
    ensures y[..] == Ground.Clamp(Euler.Track(h0, Euler.Velocities(accel, dt, y.Length), dt))
    ensures x[..] == Ground.Freeze(Euler.Track(0.0, Euler.Steady(vx, x.Length), dt),
                                   Ground.Touchdown(Euler.Track(h0, Euler.Velocities(accel, dt, y.Length), dt)))
  {
    var n := y.Length;
    var vy := 0.0;
    ghost var run := [Euler.Ball(0.0, 0.0, h0)];
    ghost var landed := false;
    var i := 1;
    while i < n
      invariant 1 <= i <= n
      invariant |run| == i && Euler.Follows(accel, dt, h0, vx, run)
      invariant Euler.Ball(vy, x[i - 1], y[i - 1]) == run[i - 1]
      invariant forall j :: 1 <= j < i ==> run[j].y >= 0.0
      invariant forall j :: 0 <= j < i ==> y[j] == run[j].y && x[j] == run[j].x
    {
      var next := Euler.Step(accel, dt, vx, Euler.Ball(vy, x[i - 1], y[i - 1]));
      Euler.FollowsExtend(accel, dt, h0, vx, run);
      run := run + [next];
      vy := next.vy;
      x[i] := next.x;
      y[i] := next.y;
      if y[i] < 0.0 {
        y[i] := 0.0;
        FillFrom(y, i + 1, 0.0);
        FillFrom(x, i + 1, x[i]);
        LandedArrays(accel, dt, h0, vx, run, i, y[..], x[..]);
        landed := true;
        break;
      }
      i := i + 1;
    }
    if !landed {
      FlownArrays(accel, dt, h0, vx, run, y[..], x[..]);
    }
  }
}
