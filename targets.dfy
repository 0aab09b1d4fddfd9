/**
 * The target registry: what one index of the simulator's parallel lists
 * holds, and the stratified batch of six targets created on the first tick.
 */
module Targets {
  import opened Options
  import opened Motion

  /** `TARGET_AIRCRAFT`, `TARGET_SHIP`, `TARGET_VEHICLE`, `TARGET_UNKNOWN`. */
  datatype Kind = Aircraft | Ship | Vehicle | Unknown

  /**
   * One index across `targets`, `target_velocities`, `target_visibilities`,
   * `target_disappear_times`, `target_names` and `target_types`.
   */
  datatype Target = Target(
    pos: Polar,
    vel: Velocity,
    visible: bool,
    disappearedAt: Option<real>,
    name: string,
    kind: Kind)

  /**
   * What every stored target satisfies: its position lies in the sweep, and
   * it carries a disappear time exactly when it is hidden.
   */
  predicate WellFormed(t: Target)
  {
    InSweep(t.pos) && (t.visible <==> t.disappearedAt.None?)
  }

  const AircraftNames: seq<string> :=
    ["Eagle-1", "Raptor-2", "Falcon-3", "Hawk-4", "Viper-5", "Hornet-6", "Condor-7", "Phoenix-8"]
  const ShipNames: seq<string> :=
    ["Nimbus", "Poseidon", "Triton", "Kraken", "Tempest", "Nautilus", "Aegis", "Trident"]
  const VehicleNames: seq<string> :=
    ["Rover-1", "Chariot-2", "Nomad-3", "Voyager-4", "Pathfinder", "Sentinel", "Guardian", "Vanguard"]
  const UnknownNames: seq<string> :=
    ["Unknown-A", "Unknown-B", "Unknown-C", "Unknown-D", "Unknown-E", "Unknown-F", "Unknown-G", "Unknown-H"]

  /** Every name pool has eight entries. */
  const PoolSize: nat := 8

  function NamePool(k: Kind): (pool: seq<string>)
    ensures |pool| == PoolSize
  {
    match k
    case Aircraft => AircraftNames
    case Ship => ShipNames
    case Vehicle => VehicleNames
    case Unknown => UnknownNames
  }

  /**
   * The outcomes of the `random.random()` calls behind one new target: one
   * per `random.uniform` (bearing, range, angular and radial velocity), each
   * in [0, 1), and the index `random.choice` picks from the name pool.
   */
  datatype TargetDraw = TargetDraw(bearing: real, range: real, angular: real, radial: real, name: nat)

  predicate IsFraction(u: real) { 0.0 <= u < 1.0 }

  predicate ValidDraw(d: TargetDraw)
  {
    IsFraction(d.bearing) && IsFraction(d.range) && IsFraction(d.angular) && IsFraction(d.radial)
    && d.name < PoolSize
  }

  /** `random.uniform(lo, hi)` given the underlying `random.random()` outcome `u`. */
  function Uniform(lo: real, hi: real, u: real): (x: real)
    requires lo <= hi && IsFraction(u)
    ensures lo <= x <= hi
  {
    var width := hi - lo;
    UniformBounds(width, u);
    lo + width * u
  }

  lemma UniformBounds(w: real, u: real)
    requires 0.0 <= w && IsFraction(u)
    ensures 0.0 <= w * u <= w
  {
    assert w * u <= w * 1.0;
  }

  /**
   * Initial range band per kind: far for aircraft, medium for ships, near
   * for vehicles. No `Unknown` target is ever created, so the `Unknown`
   * bands below only make the functions total and are never used.
   */
  function RangeLow(k: Kind): real
  {
    match k
    case Aircraft => Radius * 0.7
    case Ship => Radius * 0.4
    case Vehicle => Radius * 0.1
    case Unknown => 0.0
  }

  function RangeHigh(k: Kind): real
  {
    match k
    case Aircraft => Radius * 0.9
    case Ship => Radius * 0.6
    case Vehicle => Radius * 0.3
    case Unknown => Radius
  }

  /** Half-width of the initial angular velocity band per kind. */
  function AngularSpeed(k: Kind): real
  {
    match k
    case Aircraft => 0.5
    case Ship => 0.3
    case Vehicle => 0.2
    case Unknown => 0.3
  }

  /** Half-width of the initial radial velocity band per kind. */
  function RadialSpeed(k: Kind): real
  {
    match k
    case Aircraft => 1.0
    case Ship => 0.6
    case Vehicle => 0.4
    case Unknown => 0.6
  }

  /**
   * One target as `create_initial_targets` builds it for kind `k`: uniform
   * bearing in [0, 180], uniform range in the kind's band, uniform velocity
   * in the kind's bands, a name from the kind's pool, visible, no disappear
   * time.
   */
  function Spawn(k: Kind, d: TargetDraw): (t: Target)
    requires k != Unknown && ValidDraw(d)
    ensures WellFormed(t) && t.visible && t.disappearedAt == None
    ensures t.kind == k && t.name in NamePool(k)
    ensures 0.0 <= t.pos.bearing <= HalfTurn
    ensures RangeLow(k) <= t.pos.range <= RangeHigh(k)
    ensures -AngularSpeed(k) <= t.vel.angular <= AngularSpeed(k)
    ensures -RadialSpeed(k) <= t.vel.radial <= RadialSpeed(k)
  {
    Target(
      Polar(Uniform(0.0, HalfTurn, d.bearing), Uniform(RangeLow(k), RangeHigh(k), d.range)),
      Velocity(Uniform(-AngularSpeed(k), AngularSpeed(k), d.angular),
               Uniform(-RadialSpeed(k), RadialSpeed(k), d.radial)),
      true, None, NamePool(k)[d.name], k)
  }

  /** How many targets `create_initial_targets` appends. */
  const InitialTargetCount: nat := 6

  predicate ValidBatch(draws: seq<TargetDraw>)
  {
    |draws| == InitialTargetCount && forall i :: 0 <= i < |draws| ==> ValidDraw(draws[i])
  }

  /** The six targets of the first tick, in creation order. */
  function InitialBatch(draws: seq<TargetDraw>): (b: seq<Target>)
    requires ValidBatch(draws)
    ensures |b| == InitialTargetCount
    ensures forall i :: 0 <= i < |b| ==> WellFormed(b[i]) && b[i].visible && b[i].disappearedAt == None
    ensures b[0].kind == Aircraft && b[1].kind == Aircraft
    ensures b[2].kind == Ship && b[3].kind == Ship
    ensures b[4].kind == Vehicle && b[5].kind == Vehicle
    ensures forall i :: 0 <= i < |b| ==> 0.0 <= b[i].pos.bearing <= HalfTurn
    ensures forall i :: 0 <= i < 2 ==> 175.0 <= b[i].pos.range <= 225.0
    ensures forall i :: 2 <= i < 4 ==> 100.0 <= b[i].pos.range <= 150.0
    ensures forall i :: 4 <= i < 6 ==> 25.0 <= b[i].pos.range <= 75.0
    ensures forall i :: 0 <= i < |b| ==>
              -AngularSpeed(b[i].kind) <= b[i].vel.angular <= AngularSpeed(b[i].kind)
              && -RadialSpeed(b[i].kind) <= b[i].vel.radial <= RadialSpeed(b[i].kind)
  {
    [Spawn(Aircraft, draws[0]), Spawn(Aircraft, draws[1]),
     Spawn(Ship, draws[2]), Spawn(Ship, draws[3]),
     Spawn(Vehicle, draws[4]), Spawn(Vehicle, draws[5])]
  }
}
