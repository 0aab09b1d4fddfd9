/**
 * Per-tick motion of one target in polar sweep coordinates: the bearing
 * advances modulo the half circle, the range advances and bounces off the
 * centre and the rim.
 */
module Motion {

  /** `RADIUS`: the sweep's outer rim, in range units. */
  const Radius: real := 250.0

  /** The sweep is a half circle; bearings are reduced modulo this span. */
  const HalfTurn: real := 180.0

  /** A target's entry in `targets`: `(angle, distance)`. */
  datatype Polar = Polar(bearing: real, range: real)

  /** A target's entry in `target_velocities`: `(v_angle, v_distance)`. */
  datatype Velocity = Velocity(angular: real, radial: real)

  /** The domain every stored position lies in. */
  predicate InSweep(p: Polar)
  {
    0.0 <= p.bearing <= HalfTurn && 0.0 <= p.range <= Radius
  }

  /** `d` is a whole number of half turns. */
  predicate WholeHalfTurns(d: real)
  {
    (d / HalfTurn).Floor as real == d / HalfTurn
  }

  /**
   * Python's float `x % 180`: the remainder of floor division, so the result
   * lies in [0, 180) even for negative `x`, and differs from `x` by whole
   * half turns.
   */
  function Mod180(x: real): (r: real)
    ensures 0.0 <= r < HalfTurn
    ensures WholeHalfTurns(x - r)
  {
    x - HalfTurn * (x / HalfTurn).Floor as real
  }

  function Min(a: real, b: real): (r: real) { if a <= b then a else b }
  function Max(a: real, b: real): (r: real) { if a >= b then a else b }

  /**
   * One motion step: the bearing advances by the angular velocity modulo the
   * half circle and the range by the radial velocity; a range that reaches
   * or passes either boundary reverses the radial velocity and is clamped
   * to [0, RADIUS].
   */
  function Move(p: Polar, v: Velocity): (r: (Polar, Velocity))
    ensures InSweep(r.0) && r.0.bearing < HalfTurn
    ensures 0.0 <= p.bearing + v.angular < HalfTurn ==> r.0.bearing == p.bearing + v.angular
    ensures WholeHalfTurns(p.bearing + v.angular - r.0.bearing)
    ensures r.1.angular == v.angular
    ensures p.range + v.radial <= 0.0 ==> r.0.range == 0.0 && r.1.radial == -v.radial
    ensures p.range + v.radial >= Radius ==> r.0.range == Radius && r.1.radial == -v.radial
    ensures 0.0 < p.range + v.radial < Radius ==> r.0.range == p.range + v.radial && r.1 == v
  {
    var bearing := Mod180(p.bearing + v.angular);
    var range := p.range + v.radial;
    if range <= 0.0 || range >= Radius then
      (Polar(bearing, Max(0.0, Min(range, Radius))), Velocity(v.angular, -v.radial))
    else
      (Polar(bearing, range), v)
  }

  /**
   * `x % 180` is the unique value in [0, 180) that differs from `x` by whole
   * half turns; in particular a bearing already in [0, 180) is left alone.
   */
  lemma Mod180Unique(x: real, y: real)
    requires 0.0 <= y < HalfTurn && WholeHalfTurns(x - y)
    ensures Mod180(x) == y
  {
    var k := ((x - y) / HalfTurn).Floor;
    assert x / HalfTurn == k as real + y / HalfTurn;
    assert 0.0 <= y / HalfTurn < 1.0;
    assert (x / HalfTurn).Floor == k;
  }
}
