/**
  What the arrays returned by `simulate_motion` satisfy, stated over the
  specification functions the integrator is proved against.
 */
module FreeFallProperties {

  import opened FreeFall
  import Ground
  import Euler

  /** `t` is `np.arange(0, t_max, dt)`: the multiples `i * dt` below `t_max`,
      in order, and no other. */
  lemma TimesIsArange(c: Config, i: nat)
    requires ValidArgs(c)
    ensures i < |Times(c)| <==> i as real * c.dt < c.tMax
    ensures i < |Times(c)| ==> Times(c)[i] == i as real * c.dt
  {
    var n := SampleCount(c);
    CeilingBounds(c.tMax, c.dt, n);
    ScaleBy(c.dt, i as real, (n - 1) as real);
    ScaleBy(c.dt, n as real, i as real);
  }

  /** The three arrays have one entry per sample time. */
  lemma SameLengths(c: Config)
    requires ValidArgs(c)
    ensures |Heights(c)| == |Positions(c)| == |Times(c)| == SampleCount(c)
  {
  }

  /** The first sample is the drop point `(0, h0)`, even when `h0` is
      negative: the ground test starts at index 1. */
  lemma FirstSample(c: Config)
    requires ValidArgs(c)
    ensures Heights(c)[0] == c.h0 && Positions(c)[0] == 0.0
  {
    Ground.ClampKeepsFirst(FreeHeights(c));
  }

  /** No returned height after the first is below ground. */
  lemma HeightsNonNegative(c: Config)
    requires ValidArgs(c)
    ensures forall i :: 1 <= i < |Heights(c)| ==> Heights(c)[i] >= 0.0
  {
    Ground.ClampNonNegative(FreeHeights(c));
  }

  /** Ground absorption: if step `i` is the first to go below zero, the
      result keeps the computed samples before it, puts the ball on the
      ground at `i` and keeps it there, at the position reached at `i`. */
  lemma GroundAbsorption(c: Config, i: nat)
    requires ValidArgs(c) && 1 <= i < SampleCount(c)
    requires FreeHeights(c)[i] < 0.0
    requires forall j :: 1 <= j < i ==> FreeHeights(c)[j] >= 0.0
    ensures TouchdownIndex(c) == i
    ensures forall j :: 0 <= j < i ==> Heights(c)[j] == FreeHeights(c)[j]
    ensures forall j :: 0 <= j <= i ==> Positions(c)[j] == FreeXs(c)[j]
    ensures Heights(c)[i] == 0.0
    ensures forall j :: i < j < SampleCount(c) ==> Heights(c)[j] == 0.0 && Positions(c)[j] == Positions(c)[i]
  {
    Ground.TouchdownIsFirstNegative(FreeHeights(c), i);
    Ground.GroundAbsorbs(FreeHeights(c), FreeXs(c), i);
  }

  /** The ball stays in the air for the whole horizon exactly when no step
      goes below zero, and then the heights and positions are returned as
      computed. */
  lemma NoTouchdown(c: Config)
    requires ValidArgs(c)
    ensures TouchdownIndex(c) == SampleCount(c) <==> forall j :: 1 <= j < SampleCount(c) ==> FreeHeights(c)[j] >= 0.0
    ensures TouchdownIndex(c) == SampleCount(c) <==> Heights(c) == FreeHeights(c)
    ensures TouchdownIndex(c) == SampleCount(c) ==> Positions(c) == FreeXs(c)
  {
    Ground.NoTouchdownIffNonNegative(FreeHeights(c));
    Ground.ClampIdentityIffNoNegative(FreeHeights(c));
    Ground.FreezeAtEndIsIdentity(FreeXs(c));
  }

  /** The velocities follow the loop's update: each adds the acceleration
      at the previous velocity times `dt`. */
  lemma VelocityRecurrence(c: Config, i: nat)
    requires ValidArgs(c) && 1 <= i < SampleCount(c)
    ensures Velocities(c)[0] == 0.0
    ensures Velocities(c)[i] == Velocities(c)[i - 1] + Accel(c, Velocities(c)[i - 1]) * c.dt
  {
    var v := Velocities(c)[i - 1];
    Euler.VelocitiesStep(Law(c), c.dt, SampleCount(c), i, v, Accel(c, v));
  }

  /** Each computed height is the previous one advanced by the new
      velocity. */
  lemma FreeHeightRecurrence(c: Config, i: nat)
    requires ValidArgs(c) && 1 <= i < SampleCount(c)
    ensures FreeHeights(c)[0] == c.h0
    ensures FreeHeights(c)[i] == FreeHeights(c)[i - 1] + Velocities(c)[i] * c.dt
  {
    Euler.TrackSteps(c.h0, Velocities(c), c.dt, i);
  }

  /** Before touchdown, and everywhere when there is none, the returned
      heights are the computed ones. */
  lemma UnclampedBeforeTouchdown(c: Config, i: nat)
    requires ValidArgs(c) && i < TouchdownIndex(c)
    ensures Heights(c)[i] == FreeHeights(c)[i]
  {
    Ground.ClampBeforeTouchdown(FreeHeights(c), i);
  }

  /** Before touchdown, and everywhere when there is none, each returned
      height is the previous one advanced by the new velocity. */
  lemma HeightRecurrence(c: Config, i: nat)
    requires ValidArgs(c) && 1 <= i < TouchdownIndex(c)
    ensures Heights(c)[i] == Heights(c)[i - 1] + Velocities(c)[i] * c.dt
  {
    UnclampedBeforeTouchdown(c, i);
    UnclampedBeforeTouchdown(c, i - 1);
    FreeHeightRecurrence(c, i);
  }

  /** Up to and including touchdown each returned position is the previous
      one advanced by `vx * dt`. */
  lemma PositionRecurrence(c: Config, i: nat)
    requires ValidArgs(c) && 1 <= i <= TouchdownIndex(c) && i < SampleCount(c)
    ensures Positions(c)[i] == Positions(c)[i - 1] + c.vx * c.dt
  {
    FrozenTrackStep(c.vx, c.dt, SampleCount(c), TouchdownIndex(c), i);
  }

  /** Up to the freeze index a frozen steady track still advances by `v * dt`. */
  lemma FrozenTrackStep(v: real, dt: real, n: nat, d: nat, i: nat)
    requires 1 <= i <= d <= n && i < n
    ensures Ground.Freeze(Euler.Track(0.0, Euler.Steady(v, n), dt), d)[i] == Ground.Freeze(Euler.Track(0.0, Euler.Steady(v, n), dt), d)[i - 1] + v * dt
  {
    Euler.TrackSteps(0.0, Euler.Steady(v, n), dt, i);
  }

  /** The returned position is the horizontal motion up to touchdown and
      frozen afterwards: `min(i, d) * vx * dt` for touchdown index `d`. */
  lemma PositionsClosedForm(c: Config, i: nat)
    requires ValidArgs(c) && i < SampleCount(c)
    ensures i <= TouchdownIndex(c) ==> Positions(c)[i] == i as real * c.vx * c.dt
    ensures i > TouchdownIndex(c) ==> Positions(c)[i] == TouchdownIndex(c) as real * c.vx * c.dt
  {
    FrozenAtTouchdown(c, i);
    if i <= TouchdownIndex(c) {
      FreeXsClosedForm(c, i);
    } else {
      FreeXsClosedForm(c, TouchdownIndex(c));
    }
  }

  /** Without a ground the horizontal position after `i` steps is
      `i * vx * dt`. */
  lemma FreeXsClosedForm(c: Config, i: nat)
    requires ValidArgs(c) && i < SampleCount(c)
    ensures FreeXs(c)[i] == i as real * c.vx * c.dt
  {
    Euler.ConstantVelocity(0.0, Euler.Steady(c.vx, SampleCount(c)), c.dt, c.vx, i);
  }

  /** The returned position is the computed one up to touchdown and the one
      computed at touchdown afterwards. */
  lemma FrozenAtTouchdown(c: Config, i: nat)
    requires ValidArgs(c) && i < SampleCount(c)
    ensures Positions(c)[i] == FreeXs(c)[if i <= TouchdownIndex(c) then i else TouchdownIndex(c)]
  {
  }

  /** Without drag the vertical velocity after `i` steps is `-g * i * dt`. */
  lemma DragFreeVelocity(c: Config, i: nat)
    requires ValidArgs(c) && !c.air && i < SampleCount(c)
    ensures Velocities(c)[i] == -c.g * i as real * c.dt
  {
    Euler.ConstantAcceleration(Law(c), c.dt, c.g, i);
  }

  /** Without drag the heights before touchdown are the Euler closed form
      `h0 - g * dt^2 * i * (i + 1) / 2` (the update uses the new velocity,
      hence `i + 1`). */
  lemma DragFreeHeight(c: Config, i: nat)
    requires ValidArgs(c) && !c.air && i < TouchdownIndex(c)
    ensures Heights(c)[i] == c.h0 - c.g * c.dt * c.dt * (i * (i + 1)) as real / 2.0
  {
    Ground.ClampBeforeTouchdown(FreeHeights(c), i);
    DragFreeTrack(c, i);
  }

  /** Without drag and without a ground the height after `i` steps is
      `h0 - g * dt^2 * i * (i + 1) / 2`. */
  lemma DragFreeTrack(c: Config, i: nat)
    requires ValidArgs(c) && !c.air && i < SampleCount(c)
    ensures FreeHeights(c)[i] == c.h0 - c.g * c.dt * c.dt * (i * (i + 1)) as real / 2.0
  {
    Euler.UniformlyAcceleratedTrack(Law(c), c.h0, c.dt, c.g, SampleCount(c), i);
  }

  /** Without drag the returned arrays do not depend on the mass. */
  lemma ResultIndependentOfMass(c: Config, m: real)
    requires ValidArgs(c) && !c.air
    ensures ValidArgs(c.(m := m))
    ensures Times(c.(m := m)) == Times(c)
    ensures Heights(c.(m := m)) == Heights(c)
    ensures Positions(c.(m := m)) == Positions(c)
  {
    var c' := c.(m := m);
    assert SampleCount(c') == SampleCount(c);
    forall i | 0 <= i < SampleCount(c)
      ensures Velocities(c')[i] == Velocities(c)[i]
    {
      Euler.SameLawSameVelocity(Law(c'), Law(c), c.dt, i);
    }
    assert Velocities(c') == Velocities(c);
  }

  /** With drag and a positive mass, the drag term opposes the vertical
      velocity and vanishes at rest; without drag only gravity acts. */
  lemma DragOpposesVelocity(c: Config, vy: real)
    requires c.air ==> c.m > 0.0
    ensures !c.air ==> Accel(c, vy) == -c.g
    ensures c.air && vy > 0.0 ==> Accel(c, vy) < -c.g
    ensures c.air && vy < 0.0 ==> Accel(c, vy) > -c.g
    ensures vy == 0.0 ==> Accel(c, vy) == -c.g
  {
    if c.air {
      var q := DragCoefficient / c.m;
      assert q > 0.0;
      if vy > 0.0 {
        assert vy * Abs(vy) > 0.0;
        assert q * vy * Abs(vy) > 0.0;
      } else if vy < 0.0 {
        assert vy * Abs(vy) < 0.0;
        assert q * (vy * Abs(vy)) < 0.0;
        assert q * vy * Abs(vy) < 0.0;
      }
    }
  }
}
