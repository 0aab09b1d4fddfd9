/**
 * Per-tick occlusion and reappearance of one target, and the effect of that
 * target's visibility change on the lock-loss timer when it is the locked one.
 */
module Visibility {
  import opened Options
  import opened Targets

  /** A visible target is hidden when its draw falls below this. */
  const OcclusionChance: real := 0.001

  /** A hidden target comes back once it has been hidden longer than this, in seconds. */
  const ReappearAfter: real := 5.0

  /** Occlusion: a visible target whose draw is below the chance is hidden, stamped `now`. */
  function Occlude(t: Target, draw: real, now: real): (r: Target)
    ensures r.pos == t.pos && r.vel == t.vel && r.name == t.name && r.kind == t.kind
    ensures r.visible <==> t.visible && draw >= OcclusionChance
    ensures r.visible ==> r == t
    ensures !t.visible ==> r == t
    ensures t.visible && draw < OcclusionChance ==> r == t.(visible := false, disappearedAt := Some(now))
  {
    if draw < OcclusionChance && t.visible then t.(visible := false, disappearedAt := Some(now))
    else t
  }

  /** Reappearance: a target hidden for more than five seconds becomes visible again. */
  function Reappear(t: Target, now: real): (r: Target)
    ensures r.pos == t.pos && r.vel == t.vel && r.name == t.name && r.kind == t.kind
    ensures r.visible <==> t.visible || (t.disappearedAt.Some? && now - t.disappearedAt.value > ReappearAfter)
    ensures t.visible ==> r == t
    ensures r.visible && !t.visible ==> r.disappearedAt.None?
    ensures !r.visible ==> r == t
  {
    if !t.visible && t.disappearedAt.Some? && now - t.disappearedAt.value > ReappearAfter then
      t.(visible := true, disappearedAt := None)
    else t
  }

  /** Occlusion and then reappearance, as one iteration of the update loop applies them. */
  function Sight(t: Target, draw: real, now: real): (r: Target)
    ensures r.pos == t.pos && r.vel == t.vel && r.name == t.name && r.kind == t.kind
    ensures WellFormed(t) ==> WellFormed(r)
    ensures t.visible && draw < OcclusionChance ==> !r.visible && r.disappearedAt == Some(now)
    ensures t.visible && draw >= OcclusionChance ==> r == t
    ensures !t.visible && t.disappearedAt.Some? && now - t.disappearedAt.value > ReappearAfter ==>
              r.visible && r.disappearedAt == None
    ensures !t.visible && (t.disappearedAt.None? || now - t.disappearedAt.value <= ReappearAfter) ==>
              r == t
  {
    Reappear(Occlude(t, draw, now), now)
  }

  /**
   * `lock_lost_time` after the locked target's iteration of the update loop:
   * started at `now` when the target is hidden and no timer runs, cleared
   * when the target reappears, otherwise left as it was.
   */
  function LockTimerStep(lost: Option<real>, t: Target, draw: real, now: real): (r: Option<real>)
    ensures t.visible && draw < OcclusionChance && lost.None? ==> r == Some(now)
    ensures t.visible && (draw >= OcclusionChance || lost.Some?) ==> r == lost
    ensures !t.visible && t.disappearedAt.Some? && now - t.disappearedAt.value > ReappearAfter ==> r == None
    ensures !t.visible && (t.disappearedAt.None? || now - t.disappearedAt.value <= ReappearAfter) ==> r == lost
  {
    var hidden := Occlude(t, draw, now);
    var started := if t.visible && !hidden.visible && lost.None? then Some(now) else lost;
    var back := Reappear(hidden, now);
    if !hidden.visible && back.visible then None else started
  }
}
