/**
  The ground rule of the integrator, independent of the physics: given the
  heights the Euler recurrence would produce without a ground, find the
  first step (from index 1) that goes below zero, clamp the heights from
  there on to zero and freeze the horizontal position there.
 */
module Ground {

  /** The first index in `from..|hs|-1` holding a negative height, or `|hs|`
      when there is none. */
  function FirstNegative(hs: seq<real>, from: nat): (d: nat)
    requires from <= |hs|
    ensures from <= d <= |hs|
    ensures forall j :: from <= j < d ==> hs[j] >= 0.0
    ensures d < |hs| ==> hs[d] < 0.0
    decreases |hs| - from
  {
    if from == |hs| then |hs|
    else if hs[from] < 0.0 then from
    else FirstNegative(hs, from + 1)
  }

  /** The touchdown index: the loop starts at index 1, so the initial height
      is never tested; `|hs|` means the ball never touches down. */
  function Touchdown(hs: seq<real>): (d: nat)
    requires |hs| >= 1
    ensures 1 <= d <= |hs|
    ensures forall j :: 1 <= j < d ==> hs[j] >= 0.0
    ensures d < |hs| ==> hs[d] < 0.0
  {
    FirstNegative(hs, 1)
  }

  /** The heights the integrator returns: unclamped before touchdown, zero
      from touchdown on. */
  function Clamp(hs: seq<real>): (ys: seq<real>)
    requires |hs| >= 1
    ensures |ys| == |hs|
  {
    var d := Touchdown(hs);
    seq(|hs|, i requires 0 <= i < |hs| => if i < d then hs[i] else 0.0)
  }

  /** The horizontal positions the integrator returns when it touches down at
      index `d`: advancing up to and including `d`, constant afterwards. */
  function Freeze(xs: seq<real>, d: nat): (ps: seq<real>)
    requires d <= |xs|
    ensures |ps| == |xs|
  {
    seq(|xs|, i requires 0 <= i < |xs| => if i <= d then xs[i] else xs[d])
  }

  /** `Touchdown` is exactly the first index from 1 with a negative height. */
  lemma TouchdownIsFirstNegative(hs: seq<real>, i: nat)
    requires 1 <= i < |hs|
    ensures Touchdown(hs) == i <==> hs[i] < 0.0 && forall j :: 1 <= j < i ==> hs[j] >= 0.0
  {
    var d := Touchdown(hs);
    if hs[i] < 0.0 && forall j :: 1 <= j < i ==> hs[j] >= 0.0 {
      assert d <= i;
      assert hs[d] < 0.0 || d == |hs|;
      assert d >= i;
    }
  }

  /** The ball never touches down exactly when no height after the first is
      negative. */
  lemma NoTouchdownIffNonNegative(hs: seq<real>)
    requires |hs| >= 1
    ensures Touchdown(hs) == |hs| <==> forall j :: 1 <= j < |hs| ==> hs[j] >= 0.0
  {
  }

  /** The first sample is returned as given, never clamped. */
  lemma ClampKeepsFirst(hs: seq<real>)
    requires |hs| >= 1
    ensures Clamp(hs)[0] == hs[0]
  {
  }

  /** Every returned height after the first is non-negative. */
  lemma ClampNonNegative(hs: seq<real>)
    requires |hs| >= 1
    ensures forall i :: 1 <= i < |hs| ==> Clamp(hs)[i] >= 0.0
  {
  }

  /** Before touchdown the heights are returned as computed. */
  lemma ClampBeforeTouchdown(hs: seq<real>, i: nat)
    requires |hs| >= 1 && i < Touchdown(hs)
    ensures Clamp(hs)[i] == hs[i]
  {
  }

  /** Ground absorption: if step `i` is the first to go below zero, its height
      and every later height are zero, and every later position equals the
      position at `i`. */
  lemma GroundAbsorbs(hs: seq<real>, xs: seq<real>, i: nat)
    requires |xs| == |hs| && 1 <= i < |hs|
    requires hs[i] < 0.0 && forall j :: 1 <= j < i ==> hs[j] >= 0.0
    ensures Clamp(hs)[i] == 0.0
    ensures forall j :: i < j < |hs| ==> Clamp(hs)[j] == 0.0
    ensures forall j :: i < j < |hs| ==> Freeze(xs, Touchdown(hs))[j] == Freeze(xs, Touchdown(hs))[i]
  {
    TouchdownIsFirstNegative(hs, i);
  }

  /** Without a negative step nothing is clamped, and conversely a sequence
      the clamp leaves alone has no negative step. */
  lemma ClampIdentityIffNoNegative(hs: seq<real>)
    requires |hs| >= 1
    ensures Clamp(hs) == hs <==> forall j :: 1 <= j < |hs| ==> hs[j] >= 0.0
  {
    NoTouchdownIffNonNegative(hs);
    if forall j :: 1 <= j < |hs| ==> hs[j] >= 0.0 {
      assert forall i :: 0 <= i < |hs| ==> Clamp(hs)[i] == hs[i];
    } else {
      var j :| 1 <= j < |hs| && hs[j] < 0.0;
      assert Clamp(hs)[j] != hs[j];
    }
  }

  /** A height sequence that agrees with `hs` before its touchdown index and
      is zero from there on is the clamped sequence. */
  lemma ClampFromTouchdown(hs: seq<real>, ys: seq<real>, i: nat)
    requires |ys| == |hs| && 1 <= i < |hs| && Touchdown(hs) == i
    requires forall j :: 0 <= j < i ==> ys[j] == hs[j]
    requires forall j :: i <= j < |ys| ==> ys[j] == 0.0
    ensures ys == Clamp(hs)
  {
    assert forall j :: 0 <= j < |ys| ==> ys[j] == Clamp(hs)[j];
  }

  /** A position sequence that agrees with `xs` up to index `i` and repeats
      `xs[i]` afterwards is `xs` frozen at `i`. */
  lemma FreezeFromTouchdown(xs: seq<real>, ps: seq<real>, i: nat)
    requires |ps| == |xs| && i < |xs|
    requires forall j :: 0 <= j <= i ==> ps[j] == xs[j]
    requires forall j :: i < j < |ps| ==> ps[j] == xs[i]
    ensures ps == Freeze(xs, i)
  {
    assert forall j :: 0 <= j < |ps| ==> ps[j] == Freeze(xs, i)[j];
  }

  /** Without touchdown the positions are returned as computed. */
  lemma FreezeAtEndIsIdentity(xs: seq<real>)
    ensures Freeze(xs, |xs|) == xs
  {
  }

  /** Heights and positions that agree with `hs` and `xs` before the first
      negative step `i`, are zero from `i` on and repeat `xs[i]` after it,
      are the clamped heights and the frozen positions. */
  lemma StoppedAtTouchdown(hs: seq<real>, xs: seq<real>, i: nat, ys: seq<real>, ps: seq<real>)
    requires |xs| == |hs| && |ys| == |hs| && |ps| == |hs| && 1 <= i < |hs|
    requires hs[i] < 0.0 && forall j :: 1 <= j < i ==> hs[j] >= 0.0
    requires forall j :: 0 <= j < i ==> ys[j] == hs[j]
    requires forall j :: i <= j < |ys| ==> ys[j] == 0.0
    requires forall j :: 0 <= j <= i ==> ps[j] == xs[j]
    requires forall j :: i < j < |ps| ==> ps[j] == xs[i]
    ensures ys == Clamp(hs) && ps == Freeze(xs, Touchdown(hs))
  {
    TouchdownIsFirstNegative(hs, i);
    ClampFromTouchdown(hs, ys, i);
    FreezeFromTouchdown(xs, ps, i);
  }

  /** Heights and positions that agree with `hs` and `xs` everywhere, when
      no height after the first is negative, are the clamped heights and the
      frozen positions. */
  lemma NeverTouchedDown(hs: seq<real>, xs: seq<real>, ys: seq<real>, ps: seq<real>)
    requires |xs| == |hs| && |ys| == |hs| && |ps| == |hs| && |hs| >= 1
    requires forall j :: 1 <= j < |hs| ==> hs[j] >= 0.0
    requires forall j :: 0 <= j < |hs| ==> ys[j] == hs[j] && ps[j] == xs[j]
    ensures ys == Clamp(hs) && ps == Freeze(xs, Touchdown(hs))
  {
    assert ys == hs && ps == xs;
    ClampIdentityIffNoNegative(hs);
    NoTouchdownIffNonNegative(hs);
    FreezeAtEndIsIdentity(xs);
  }
}
