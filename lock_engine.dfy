/**
 * The lock engine's pure decisions: which target the space key locks onto,
 * and when a lock whose target has been lost expires.
 */
module LockEngine {
  import opened Options
  import opened Motion

  /** A point of the canvas: the cursor box, or a target's projection. */
  datatype Point = Point(x: real, y: real)

  /** A target is captured when it lies strictly closer than this to the cursor. */
  const CaptureRadius: real := 50.0

  /** A lock whose target has been lost for longer than this, in seconds, is dropped. */
  const LockGrace: real := 3.0

  /**
   * The square of the Euclidean distance. Square root is monotone on
   * non-negative reals, so comparing squares decides every comparison the
   * code makes between distances, and `d < 50` exactly when `d * d < 2500`.
   */
  function SquaredDistance(a: Point, b: Point): (d: real)
    ensures d >= 0.0
  {
    (a.x - b.x) * (a.x - b.x) + (a.y - b.y) * (a.y - b.y)
  }

  /** Squared distance from the cursor to each target's projection, in list order. */
  function CursorDistances(cursor: Point, project: Polar -> Point, ps: seq<Polar>): (ds: seq<real>)
    ensures |ds| == |ps|
    ensures forall i :: 0 <= i < |ps| ==> ds[i] == SquaredDistance(cursor, project(ps[i]))
  {
    seq(|ps|, i requires 0 <= i < |ps| => SquaredDistance(cursor, project(ps[i])))
  }

  /** `k` is the lowest index holding the least value of `ds`. */
  predicate IsFirstMinimum(ds: seq<real>, k: nat)
  {
    k < |ds|
    && (forall j :: 0 <= j < |ds| ==> ds[k] <= ds[j])
    && (forall j :: 0 <= j < k ==> ds[k] < ds[j])
  }

  /**
   * The index a left-to-right scan ends on when it replaces its candidate
   * only on a strictly smaller value.
   */
  function FirstArgMin(ds: seq<real>): (k: nat)
    requires |ds| > 0
    ensures k < |ds|
    decreases |ds|
  {
    if |ds| == 1 then 0
    else
      var k := FirstArgMin(ds[..|ds| - 1]);
      if ds[|ds| - 1] < ds[k] then |ds| - 1 else k
  }

  lemma {:induction false} FirstArgMinIsFirstMinimum(ds: seq<real>)
    requires |ds| > 0
    ensures IsFirstMinimum(ds, FirstArgMin(ds))
  {
    if |ds| > 1 {
      var front := ds[..|ds| - 1];
      FirstArgMinIsFirstMinimum(front);
      assert forall j :: 0 <= j < |front| ==> front[j] == ds[j];
    }
  }

  /** The scan's result is exactly the lowest index of a minimum. */
  lemma FirstArgMinCharacterized(ds: seq<real>, k: nat)
    requires |ds| > 0
    ensures FirstArgMin(ds) == k <==> IsFirstMinimum(ds, k)
  {
    FirstArgMinIsFirstMinimum(ds);
  }

  /**
   * The lock after the space key, given the squared cursor distance of
   * every target: unchanged when there are no targets; otherwise the first
   * nearest target if it lies within the capture radius, and no lock if not.
   */
  function Acquire(locked: Option<nat>, ds: seq<real>): (r: Option<nat>)
    ensures |ds| == 0 ==> r == locked
    ensures |ds| > 0 && r.Some? ==> r.value < |ds|
  {
    if |ds| == 0 then locked
    else
      var k := FirstArgMin(ds);
      if ds[k] < CaptureRadius * CaptureRadius then Some(k) else None
  }

  /**
   * With at least one target, acquisition locks onto `k` exactly when `k` is
   * the first nearest target and it is within the capture radius, and clears
   * the lock exactly when every target is at or beyond the capture radius.
   */
  lemma AcquireChoosesFirstNearest(locked: Option<nat>, ds: seq<real>, k: nat)
    requires |ds| > 0
    ensures Acquire(locked, ds) == Some(k) <==>
              IsFirstMinimum(ds, k) && ds[k] < CaptureRadius * CaptureRadius
    ensures Acquire(locked, ds) == None <==>
              forall j :: 0 <= j < |ds| ==> ds[j] >= CaptureRadius * CaptureRadius
  {
    FirstArgMinIsFirstMinimum(ds);
  }

  /**
   * Lock expiry: a lock whose loss timer is more than three seconds old is
   * dropped together with the timer; otherwise nothing changes.
   */
  function Expire(locked: Option<nat>, lost: Option<real>, now: real): (r: (Option<nat>, Option<real>))
    ensures locked.Some? && lost.Some? && now - lost.value > LockGrace ==> r.0.None? && r.1.None?
    ensures !(locked.Some? && lost.Some? && now - lost.value > LockGrace) ==> r == (locked, lost)
  {
    if locked.Some? && lost.Some? && now - lost.value > LockGrace then (None, None)
    else (locked, lost)
  }
}
