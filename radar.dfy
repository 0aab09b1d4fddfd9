/**
 * The closed-variant radar simulator: the six parallel target lists and the
 * lock state, updated in place by the first-tick batch creation, the
 * per-target update loop, lock expiry and the space-key lock acquisition.
 */
module Radar {
  import opened Options
  import opened Motion
  import opened Targets
  import opened Visibility
  import opened LockEngine

  /** One iteration of the update loop for one target: motion, then occlusion and reappearance. */
  function StepTarget(t: Target, draw: real, now: real): (r: Target)
    ensures WellFormed(t) ==> WellFormed(r)
    ensures (r.pos, r.vel) == Move(t.pos, t.vel)
    ensures r.name == t.name && r.kind == t.kind
    ensures (r.visible, r.disappearedAt) == (Sight(t, draw, now).visible, Sight(t, draw, now).disappearedAt)
  {
    var (p, v) := Move(t.pos, t.vel);
    Sight(t.(pos := p, vel := v), draw, now)
  }

  /** The whole update loop's effect on the target list. */
  function StepAll(ts: seq<Target>, draws: seq<real>, now: real): (r: seq<Target>)
    requires |draws| == |ts|
    ensures |r| == |ts|
    ensures forall i :: 0 <= i < |ts| ==> r[i] == StepTarget(ts[i], draws[i], now)
  {
    seq(|ts|, i requires 0 <= i < |ts| => StepTarget(ts[i], draws[i], now))
  }

  /** The update loop's effect on `lock_lost_time`: only the locked target's iteration touches it. */
  function LostAfterStep(lost: Option<real>, locked: Option<nat>, ts: seq<Target>, draws: seq<real>, now: real): (r: Option<real>)
    requires |draws| == |ts|
    ensures !(locked.Some? && locked.value < |ts|) ==> r == lost
    ensures r == lost || r == None || r == Some(now)
    ensures lost.Some? && r.Some? ==> r == lost
  {
    if locked.Some? && locked.value < |ts| then LockTimerStep(lost, ts[locked.value], draws[locked.value], now)
    else lost
  }

  /** The target list once the first-tick guard has run: the batch is added only if not yet created. */
  function Populated(ts: seq<Target>, created: bool, batch: seq<TargetDraw>): (r: seq<Target>)
    requires !created ==> ValidBatch(batch)
    ensures created ==> r == ts
    ensures !created ==> |r| == |ts| + InitialTargetCount && r[..|ts|] == ts
    ensures !created ==> r[|ts|..] == InitialBatch(batch)
  {
    if created then ts else ts + InitialBatch(batch)
  }

  /** The first-tick batch is the aircraft pair, then the ship pair, then the vehicle pair. */
  lemma InitialBatchByKind(draws: seq<TargetDraw>)
    requires ValidBatch(draws)
    ensures InitialBatch(draws) ==
              [Spawn(Aircraft, draws[0]), Spawn(Aircraft, draws[1])]
              + [Spawn(Ship, draws[2]), Spawn(Ship, draws[3])]
              + [Spawn(Vehicle, draws[4]), Spawn(Vehicle, draws[5])]
  {
  }

  /**
   * The lock-loss grace period, seen from the tick after the locked target
   * was hidden at `t0`: the lock holds for three seconds and is dropped
   * after that, unless the first tick to look comes more than five seconds
   * later, when the target's reappearance clears the timer before the
   * expiry check and the lock survives.
   */
  lemma LockGraceTimeline(t: Target, k: nat, t0: real, draw: real, now: real)
    requires !t.visible && t.disappearedAt == Some(t0)
    ensures var lost := LockTimerStep(Some(t0), t, draw, now);
            now - t0 <= LockGrace ==> Expire(Some(k), lost, now) == (Some(k), Some(t0))
    ensures var lost := LockTimerStep(Some(t0), t, draw, now);
            LockGrace < now - t0 <= ReappearAfter ==> Expire(Some(k), lost, now) == (None, None)
    ensures var lost := LockTimerStep(Some(t0), t, draw, now);
            now - t0 > ReappearAfter ==> Expire(Some(k), lost, now) == (Some(k), None)
  {
  }

  /**
   * Acquisition leaves the loss timer alone, so a timer left running from an
   * earlier lock expires a fresh lock on a target that is in plain view.
   */
  lemma StaleTimerExpiresFreshLock(t: Target, k: nat, t0: real, draw: real, now: real)
    requires WellFormed(t) && t.visible && draw >= OcclusionChance
    requires now - t0 > LockGrace
    ensures Expire(Some(k), LockTimerStep(Some(t0), t, draw, now), now) == (None, None)
  {
  }

  class Simulator {
    var targets: seq<Polar>
    var velocities: seq<Velocity>
    var visibilities: seq<bool>
    var disappearTimes: seq<Option<real>>
    var names: seq<string>
    var kinds: seq<Kind>
    var lockedIndex: Option<nat>
    var lockTime: Option<real>
    var lockLostTime: Option<real>
    var initialCreated: bool

    /** The parallel lists have one entry per target. */
    ghost predicate Aligned()
      reads this
    {
      |velocities| == |targets| && |visibilities| == |targets| && |disappearTimes| == |targets|
      && |names| == |targets| && |kinds| == |targets|
    }

    /** What the lists hold at index `i`. */
    ghost function Row(i: nat): Target
      reads this
      requires Aligned() && i < |targets|
    {
      Target(targets[i], velocities[i], visibilities[i], disappearTimes[i], names[i], kinds[i])
    }

    /** The target list as a sequence of records. */
    ghost function Rows(): (rows: seq<Target>)
      reads this
      requires Aligned()
      ensures |rows| == |targets|
      ensures forall i :: 0 <= i < |targets| ==> rows[i] == Row(i)
    {
      seq(|targets|, i reads this requires Aligned() && 0 <= i < |targets| => Row(i))
    }

    /**
     * The simulator's invariant: aligned lists, every target in the sweep
     * with a disappear time exactly when hidden, and a lock, if any, naming
     * an existing target.
     */
    ghost predicate Valid()
      reads this
    {
      Aligned()
      && (forall i :: 0 <= i < |targets| ==> WellFormed(Row(i)))
      && (lockedIndex.Some? ==> lockedIndex.value < |targets|)
    }

    /** In the closed variant there are no targets before the first tick and six after it. */
    ghost predicate Closed()
      reads this
    {
      |targets| == if initialCreated then InitialTargetCount else 0
    }

    /** The module-level state at start-up: empty lists, no lock, no timers. */
    constructor ()
      ensures Valid() && Closed()
      ensures Rows() == [] && !initialCreated
      ensures lockedIndex == None && lockTime == None && lockLostTime == None
    {
      targets, velocities, visibilities, disappearTimes, names, kinds := [], [], [], [], [], [];
      lockedIndex, lockTime, lockLostTime := None, None, None;
      initialCreated := false;
    }

    /** Appends one new target to every parallel list. */
    method AppendTarget(t: Target)
      requires Valid() && WellFormed(t)
      modifies this
      ensures Valid()
      ensures Rows() == old(Rows()) + [t]
      ensures lockedIndex == old(lockedIndex) && lockTime == old(lockTime)
      ensures lockLostTime == old(lockLostTime) && initialCreated == old(initialCreated)
    {
      targets := targets + [t.pos];
      velocities := velocities + [t.vel];
      visibilities := visibilities + [t.visible];
      disappearTimes := disappearTimes + [t.disappearedAt];
      names := names + [t.name];
      kinds := kinds + [t.kind];
      assert forall i :: 0 <= i < |targets| - 1 ==> Row(i) == old(Row(i));
      assert Row(|targets| - 1) == t;
    }

    /** One of the two-target loops of `create_initial_targets`: two new targets of kind `k`. */
    method CreatePair(k: Kind, first: TargetDraw, second: TargetDraw)
      requires Valid() && k != Unknown && ValidDraw(first) && ValidDraw(second)
      modifies this
      ensures Valid()
      ensures Rows() == old(Rows()) + [Spawn(k, first), Spawn(k, second)]
      ensures lockedIndex == old(lockedIndex) && lockTime == old(lockTime)
      ensures lockLostTime == old(lockLostTime) && initialCreated == old(initialCreated)
    {
      var draws := [first, second];
      ghost var pair := [Spawn(k, first), Spawn(k, second)];
      for j := 0 to 2
        invariant Valid() && Rows() == old(Rows()) + pair[..j]
        invariant lockedIndex == old(lockedIndex) && lockTime == old(lockTime)
        invariant lockLostTime == old(lockLostTime) && initialCreated == old(initialCreated)
      {
        AppendTarget(Spawn(k, draws[j]));
        assert pair[..j + 1] == pair[..j] + [pair[j]];
      }
      assert pair[..2] == pair;
    }

    /**
     * `create_initial_targets`: two aircraft, two ships, two vehicles,
     * appended in that order, then the creation flag is set.
     */
    method CreateInitialTargets(draws: seq<TargetDraw>)
      requires Valid() && ValidBatch(draws)
      modifies this
      ensures Valid() && initialCreated
      ensures Rows() == old(Rows()) + InitialBatch(draws)
      ensures lockedIndex == old(lockedIndex) && lockTime == old(lockTime)
      ensures lockLostTime == old(lockLostTime)
    {
      ghost var before := Rows();
      assert ValidDraw(draws[0]) && ValidDraw(draws[1]) && ValidDraw(draws[2]);
      assert ValidDraw(draws[3]) && ValidDraw(draws[4]) && ValidDraw(draws[5]);
      CreatePair(Aircraft, draws[0], draws[1]);
      ghost var afterAircraft := Rows();
      CreatePair(Ship, draws[2], draws[3]);
      ghost var afterShips := Rows();
      CreatePair(Vehicle, draws[4], draws[5]);
      InitialBatchByKind(draws);
      assert Rows() == before + InitialBatch(draws) by {
        assert afterAircraft == before + [Spawn(Aircraft, draws[0]), Spawn(Aircraft, draws[1])];
        assert afterShips == afterAircraft + [Spawn(Ship, draws[2]), Spawn(Ship, draws[3])];
        assert Rows() == afterShips + [Spawn(Vehicle, draws[4]), Spawn(Vehicle, draws[5])];
      }
      ghost var created := Rows();
      initialCreated := true;
      assert forall i :: 0 <= i < |targets| ==> Row(i) == created[i];
    }
  
    /** Motion of target `i`, with reflection at the centre and the rim. */
    method MoveTarget(i: nat)
      requires Valid() && i < |targets|
      modifies this
      ensures Valid() && |targets| == old(|targets|)
      ensures (Row(i).pos, Row(i).vel) == Move(old(Row(i)).pos, old(Row(i)).vel)
      ensures Row(i) == old(Row(i)).(pos := Row(i).pos, vel := Row(i).vel)
      ensures forall k :: 0 <= k < |targets| && k != i ==> Row(k) == old(Row(k))
      ensures lockedIndex == old(lockedIndex) && lockTime == old(lockTime)
      ensures lockLostTime == old(lockLostTime) && initialCreated == old(initialCreated)
    {
      ghost var before := Row(i);
      assert WellFormed(before);
      var angle, distance := targets[i].bearing, targets[i].range;
      var vAngle, vDistance := velocities[i].angular, velocities[i].radial;
      var newAngle := Mod180(angle + vAngle);
      var newDistance := distance + vDistance;
      if newDistance <= 0.0 || newDistance >= Radius {
        velocities := velocities[i := Velocity(vAngle, -vDistance)];
        newDistance := Max(0.0, Min(newDistance, Radius));
      }
      targets := targets[i := Polar(newAngle, newDistance)];
      assert forall k :: 0 <= k < |targets| && k != i ==> Row(k) == old(Row(k));
      assert Row(i) == before.(pos := Move(before.pos, before.vel).0, vel := Move(before.pos, before.vel).1);
    }

    /**
     * Occlusion and reappearance of target `i`: hidden when visible and its
     * draw is below the chance, visible again after five seconds hidden; if
     * it is the locked target, the loss timer is started or cleared.
     */
    method SightTarget(i: nat, draw: real, now: real)
      requires Valid() && i < |targets|
      modifies this
      ensures Valid() && |targets| == old(|targets|)
      ensures Row(i) == Sight(old(Row(i)), draw, now)
      ensures forall k :: 0 <= k < |targets| && k != i ==> Row(k) == old(Row(k))
      ensures lockLostTime ==
                if lockedIndex == Some(i) then LockTimerStep(old(lockLostTime), old(Row(i)), draw, now)
                else old(lockLostTime)
      ensures lockedIndex == old(lockedIndex) && lockTime == old(lockTime)
      ensures initialCreated == old(initialCreated)
    {
      if draw < OcclusionChance {
        if visibilities[i] {
          visibilities := visibilities[i := false];
          disappearTimes := disappearTimes[i := Some(now)];
          if lockedIndex == Some(i) && lockLostTime.None? {
            lockLostTime := Some(now);
          }
        }
      }
      if !visibilities[i] && disappearTimes[i].Some? {
        if now - disappearTimes[i].value > ReappearAfter {
          visibilities := visibilities[i := true];
          disappearTimes := disappearTimes[i := None];
          if lockedIndex == Some(i) {
            lockLostTime := None;
          }
        }
      }
      assert forall k :: 0 <= k < |targets| && k != i ==> Row(k) == old(Row(k));
      assert Row(i) == Sight(old(Row(i)), draw, now);
    }

    /** One iteration of the per-target loop of `update_radar`: motion, then visibility. */
    method UpdateTarget(i: nat, draw: real, now: real)
      requires Valid() && i < |targets|
      modifies this
      ensures Valid() && |targets| == old(|targets|)
      ensures Row(i) == StepTarget(old(Row(i)), draw, now)
      ensures forall k :: 0 <= k < |targets| && k != i ==> Row(k) == old(Row(k))
      ensures lockLostTime ==
                if lockedIndex == Some(i) then LockTimerStep(old(lockLostTime), old(Row(i)), draw, now)
                else old(lockLostTime)
      ensures lockedIndex == old(lockedIndex) && lockTime == old(lockTime)
      ensures initialCreated == old(initialCreated)
    {
      MoveTarget(i);
      SightTarget(i, draw, now);
    }

    /**
     * The per-target loop of `update_radar`, one iteration per target in
     * list order, each with its own occlusion draw.
     */
    method UpdateTargets(now: real, occlusionDraws: seq<real>)
      requires Valid() && |occlusionDraws| == |targets|
      modifies this
      ensures Valid()
      ensures Rows() == StepAll(old(Rows()), occlusionDraws, now)
      ensures lockLostTime == LostAfterStep(old(lockLostTime), lockedIndex, old(Rows()), occlusionDraws, now)
      ensures lockedIndex == old(lockedIndex) && lockTime == old(lockTime)
      ensures initialCreated == old(initialCreated)
    {
      ghost var start := Rows();
      for i := 0 to |targets|
        invariant Valid() && |targets| == |start|
        invariant forall k :: 0 <= k < i ==> Row(k) == StepTarget(start[k], occlusionDraws[k], now)
        invariant forall k :: i <= k < |targets| ==> Row(k) == start[k]
        invariant lockLostTime ==
                    if lockedIndex.Some? && lockedIndex.value < i
                    then LockTimerStep(old(lockLostTime), start[lockedIndex.value], occlusionDraws[lockedIndex.value], now)
                    else old(lockLostTime)
        invariant lockedIndex == old(lockedIndex) && lockTime == old(lockTime)
        invariant initialCreated == old(initialCreated)
      {
        UpdateTarget(i, occlusionDraws[i], now);
      }
    }

    /** The expiry check of `update_radar`: a lock lost for more than three seconds is dropped. */
    method ExpireLock(now: real)
      requires Valid()
      modifies this
      ensures Valid()
      ensures (lockedIndex, lockLostTime) == Expire(old(lockedIndex), old(lockLostTime), now)
      ensures Rows() == old(Rows()) && lockTime == old(lockTime) && initialCreated == old(initialCreated)
    {
      if lockedIndex.Some? && lockLostTime.Some? {
        if now - lockLostTime.value > LockGrace {
          lockedIndex := None;
          lockLostTime := None;
        }
      }
      assert forall i :: 0 <= i < |targets| ==> Row(i) == old(Row(i));
    }
  
    /**
     * The arg-min scan of the space key: the first target, in list order,
     * whose projection is nearest the cursor, and its squared distance.
     */
    method ClosestTarget(cursor: Point, project: Polar -> Point) returns (closest: nat, minDistance: real)
      requires |targets| > 0
      ensures closest == FirstArgMin(CursorDistances(cursor, project, targets))
      ensures IsFirstMinimum(CursorDistances(cursor, project, targets), closest)
      ensures minDistance == SquaredDistance(cursor, project(targets[closest]))
    {
      ghost var ds := CursorDistances(cursor, project, targets);
      closest, minDistance := 0, 0.0;
      for i := 0 to |targets|
        invariant i > 0 ==> closest == FirstArgMin(ds[..i]) && minDistance == ds[closest]
      {
        var d := SquaredDistance(cursor, project(targets[i]));
        // The scan starts from an infinite minimum, so the first target always wins.
        if i == 0 || d < minDistance {
          minDistance := d;
          closest := i;
        }
        assert ds[..i + 1][..i] == ds[..i];
      }
      assert ds[..|targets|] == ds;
      FirstArgMinIsFirstMinimum(ds);
    }

    /**
     * The space key: with no targets nothing changes; otherwise the first
     * nearest target is locked, and its lock time stamped, when it lies
     * within the capture radius, and the lock is cleared when it does not.
     * The loss timer is never touched.
     */
    method AcquireLock(now: real, cursor: Point, project: Polar -> Point)
      requires Valid()
      modifies this
      ensures Valid()
      ensures lockedIndex == Acquire(old(lockedIndex), CursorDistances(cursor, project, targets))
      ensures lockTime == if |targets| > 0 && lockedIndex.Some? then Some(now) else old(lockTime)
      ensures lockLostTime == old(lockLostTime)
      ensures Rows() == old(Rows()) && initialCreated == old(initialCreated)
    {
      if |targets| > 0 {
        var closest, minDistance := ClosestTarget(cursor, project);
        if minDistance < CaptureRadius * CaptureRadius {
          lockedIndex := Some(closest);
          lockTime := Some(now);
        } else {
          lockedIndex := None;
        }
      }
      assert forall i :: 0 <= i < |targets| ==> Row(i) == old(Row(i));
    }

    /**
     * The state-changing part of one `update_radar` call: the first-tick
     * batch if not yet created, the per-target loop, then lock expiry.
     */
    method Tick(now: real, batch: seq<TargetDraw>, occlusionDraws: seq<real>)
      requires Valid()
      requires !initialCreated ==> ValidBatch(batch)
      requires |occlusionDraws| == |targets| + if initialCreated then 0 else InitialTargetCount
      modifies this
      ensures Valid() && initialCreated
      ensures Rows() == StepAll(Populated(old(Rows()), old(initialCreated), batch), occlusionDraws, now)
      ensures (lockedIndex, lockLostTime) ==
                Expire(old(lockedIndex),
                       LostAfterStep(old(lockLostTime), old(lockedIndex),
                                     Populated(old(Rows()), old(initialCreated), batch), occlusionDraws, now),
                       now)
      ensures lockTime == old(lockTime)
      ensures old(initialCreated) ==> |targets| == old(|targets|)
      ensures old(Closed()) ==> Closed()
    {
      if !initialCreated {
        CreateInitialTargets(batch);
      }
      UpdateTargets(now, occlusionDraws);
      ExpireLock(now);
    }
  }
}
