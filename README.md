# Radar sweep simulator: target tracking and lock engine

This project models the simulation core of a rotating-sweep radar display (`radar_gui.py`).
The display keeps six targets (two aircraft, two ships and two vehicles) in parallel lists. On
every tick each target moves in polar coordinates and bounces off the centre and the rim. A
visible target is occasionally hidden, and comes back after five seconds. The space key locks
the cursor onto the nearest target within 50 units. A lock whose target has been lost for more
than three seconds is dropped. Beside the sweep, a panel lists the nearest visible targets.

Modules:

- `Motion` (motion.dfy): positions, velocities, Python's float `% 180`, and the bounce step.
- `Targets` (targets.dfy): the record one index of the parallel lists holds, the name pools, and
  the stratified first-tick batch (`random.uniform` written out over its `random.random()` draw).
- `Visibility` (visibility.dfy): occlusion, reappearance, and their effect on the lock-loss timer.
- `LockEngine` (lock_engine.dfy): the arg-min acquisition with its 50-unit capture radius, and
  the 3-second expiry.
- `InfoPanel` (info_panel.dfy): the visible targets, stably sorted by range, at most five, and
  the `+ N more` count.
- `Radar` (radar.dfy): class `Simulator`. It owns the six parallel lists (`targets`,
  `target_velocities`, `target_visibilities`, `target_disappear_times`, `target_names`,
  `target_types`) as `seq` fields, plus `locked_target_index`, `lock_time`, `lock_lost_time` and
  `initial_targets_created`. Its methods update these fields in place, and each method is
  specified by the pure functions above through `Rows()`, the list of records the fields hold.

The outside world enters as parameters:

- the clock reading `now` of a tick or key press;
- the random draws: per new target, four `random.random()` fractions behind its `random.uniform`
  calls and the index `random.choice` picks from the name pool; per target per tick, one
  `random.random()` occlusion draw;
- the cursor position;
- the polar-to-canvas projection of a target, a function `Polar -> Point`.

Distances are compared as squares: `d < 50` exactly when `d * d < 2500`, and square root is
monotone, so over exact reals every comparison the code makes between distances comes out the
same.

The model follows the code in these points, some of which a reader might not expect:

- This file never reads the serial port, so there is no telemetry ingestion and no 15-target
  capacity. The only targets are the six created on the first tick.
- Acquisition leaves `lock_lost_time` untouched, on success and on failure. A timer left from an
  earlier lock therefore expires a fresh lock on a target in plain view
  (`StaleTimerExpiresFreshLock`).
- Expiry only checks that a lock exists and that a timer runs. It does not check that the locked
  target is hidden.
- Reappearance clears the loss timer before the expiry check runs. If the first tick after an
  occlusion comes more than five seconds later, the lock survives (`LockGraceTimeline`).
- Acquisition also considers hidden targets. A lock taken on an already-hidden target starts no
  loss timer.

## Model

| member | source | states |
|---|---|---|
| `Motion.Mod180` | radar_gui.py:204 | the bearing after `% 180` lies in [0, 180) and differs from its argument by whole half turns |
| `Motion.Mod180Unique` | radar_gui.py:204 | `% 180` gives the only value in [0, 180) that differs from the argument by whole half turns, so an in-range bearing is left alone |
| `Motion.Move` | radar_gui.py:200-213 | the new range lies in [0, 250] and the new bearing in [0, 180), whatever the old values; at or past 0 the range becomes 0 and at or past 250 it becomes 250, with the radial velocity negated in both cases; strictly inside, range = old range + radial velocity and the velocity is untouched; the angular velocity never changes |
| `Targets.Uniform` | radar_gui.py:145-146 | `random.uniform(lo, hi)` over a draw in [0, 1) lies in [lo, hi] |
| `Targets.Spawn` | radar_gui.py:144-177 | a new target of a kind is visible with no disappear time; its bearing is in [0, 180], its range in the kind's band, its velocities in the kind's bands, and its name comes from the kind's pool |
| `Targets.InitialBatch` | radar_gui.py:140-179 | exactly six targets in the order aircraft, aircraft, ship, ship, vehicle, vehicle; all visible with no disappear time; ranges in [175, 225], [100, 150] and [25, 75] respectively; bearings in [0, 180]; velocities in each kind's bands |
| `Visibility.Occlude` | radar_gui.py:216-226 | a visible target whose draw is below 0.001 is hidden with disappear time `now`; it stays visible, unchanged, exactly when it was visible and the draw is at least 0.001; a hidden target is left alone; position, velocity, name and kind are untouched |
| `Visibility.Reappear` | radar_gui.py:229-236 | a hidden target becomes visible exactly when it has a disappear time more than 5 s before `now`, and its disappear time is then cleared; a visible target is left alone; position, velocity, name and kind are untouched |
| `Visibility.Sight` | radar_gui.py:215-240 | a visible target is hidden, with disappear time `now`, exactly when its draw is below 0.001; a hidden target with disappear time `t` becomes visible with the time cleared exactly when `now - t > 5`, and stays as it is otherwise; position, velocity, name and kind are untouched; a target carries a disappear time exactly when hidden, before and after |
| `Visibility.LockTimerStep` | radar_gui.py:228-240 | for the locked target, the loss timer starts at `now` when the target is hidden and no timer runs; a running timer is never overwritten; the timer is cleared when the target reappears; otherwise it is unchanged |
| `LockEngine.SquaredDistance` | radar_gui.py:118 | squared cursor distance is never negative |
| `LockEngine.CursorDistances` | radar_gui.py:111-118 | one distance per target, in list order: entry `i` is the squared distance from the cursor to target `i`'s projection |
| `LockEngine.FirstArgMin` | radar_gui.py:109-122 | the scan with strict `<` ends on an index inside the list |
| `LockEngine.FirstArgMinIsFirstMinimum` | radar_gui.py:109-122 | the scan ends on a target no farther than any other and strictly nearer than every earlier one, so ties go to the lowest index |
| `LockEngine.FirstArgMinCharacterized` | radar_gui.py:109-122 | the scan's index is exactly the lowest index of a nearest target, in both directions |
| `LockEngine.Acquire` | radar_gui.py:106-134 | with no targets the lock is unchanged; otherwise any lock names an existing target |
| `LockEngine.AcquireChoosesFirstNearest` | radar_gui.py:106-134 | with targets present, the lock becomes `k` exactly when `k` is the lowest-index nearest target and lies strictly within 50 units, and becomes none exactly when every target is 50 units or more away |
| `LockEngine.Expire` | radar_gui.py:242-247 | a lock with a loss timer more than 3 s old is dropped together with the timer; in every other case (no lock, no timer, or a timer at most 3 s old) the lock and timer are unchanged; expiry never creates or moves a lock |
| `InfoPanel.VisibleFrom` | radar_gui.py:355-356 | the comprehension over the list from a given index: no longer than the list, and every entry names a visible target inside it |
| `InfoPanel.VisibleEntries` | radar_gui.py:355-356 | `visible_targets`: no longer than the target list, and every entry names a visible target by its index; `VisibleFromMembers`, `VisibleFromIncreasing` and `VisibleFromCount` give the rest |
| `InfoPanel.VisibleFromMembers` | radar_gui.py:355-356 | an entry is in the visible list exactly when its target is visible, at that target's current position |
| `InfoPanel.VisibleFromIncreasing` | radar_gui.py:355-356 | the visible list keeps list order, with no index twice |
| `InfoPanel.VisibleFromCount` | radar_gui.py:355-356 | the visible list has one entry per visible target |
| `InfoPanel.Insert` | radar_gui.py:359 | inserting adds exactly that entry |
| `InfoPanel.SortByRange` | radar_gui.py:359 | sorting is a permutation of the visible list |
| `InfoPanel.SortByRangeSorted` | radar_gui.py:359 | the sort is stable: nearest first, ties in list order |
| `InfoPanel.PanelListsVisibleNearestFirst` | radar_gui.py:355-362 | the panel lists only visible targets, at their current positions, in non-decreasing range order (ties by list order), at most five of them |
| `InfoPanel.PanelLeavesOffOnlyFarther` | radar_gui.py:355-362 | every visible target left off the panel sorts after every listed one |
| `InfoPanel.PanelOf` | radar_gui.py:355-379 | the panel selection: at most five rows, and a `+ N more` line only when all five rows are used; which rows, in what order and the exact overflow are stated by `PanelListsVisibleNearestFirst`, `PanelLeavesOffOnlyFarther` and `PanelCountsOverflow` |
| `InfoPanel.PanelCountsOverflow` | radar_gui.py:375-379 | the `+ N more` count is the number of visible targets minus 5 when that is positive and 0 otherwise; listed plus overflow equals the visible count |
| `Radar.StepTarget` | radar_gui.py:195-240 | one loop iteration moves a target as `Move` says and then applies `Sight`; name and kind are unchanged, and a well-formed target stays well-formed |
| `Radar.LostAfterStep` | radar_gui.py:228-240 | the loop's effect on the loss timer: unchanged without a lock on a listed target; otherwise it is the old timer, cleared, or started at `now`, and a running timer is never replaced by another time |
| `Radar.StepAll` | radar_gui.py:195-240 | the loop keeps the number of targets and steps each target with its own draw |
| `Radar.Populated` | radar_gui.py:190-192 | the first-tick guard appends exactly `InitialBatch` of the draws behind the unchanged existing targets when no batch was created yet, and changes nothing otherwise |
| `Radar.LockGraceTimeline` | radar_gui.py:228-247 | a lock whose target was hidden at `t0`, with the timer started then, holds until `t0 + 3`; it is dropped at a tick between `t0 + 3` and `t0 + 5`; at a first tick after `t0 + 5` the target reappears, the timer is cleared and the lock survives |
| `Radar.StaleTimerExpiresFreshLock` | radar_gui.py:124-132 | a timer more than 3 s old, left from an earlier lock, drops a lock on a visible target that is not hidden this tick |
| `Radar.Simulator.constructor` | radar_gui.py:36-48 | start-up state: empty lists, no lock, no timers, batch not created |
| `Radar.Simulator.AppendTarget` | radar_gui.py:147-153 | one append to each of the six lists adds exactly that target; the lock state is unchanged |
| `Radar.Simulator.CreatePair` | radar_gui.py:144-177 | one `for _ in range(2)` loop appends two targets of its kind in draw order |
| `Radar.Simulator.CreateInitialTargets` | radar_gui.py:140-179 | the lists become the old lists followed by `InitialBatch`; the creation flag is set; the lock state is unchanged |
| `Radar.Simulator.MoveTarget` | radar_gui.py:200-213 | target `i` moves as `Move` says; visibility, name, kind and every other target are unchanged |
| `Radar.Simulator.SightTarget` | radar_gui.py:215-240 | target `i` changes as `Sight` says; the loss timer changes as `LockTimerStep` says only if `i` is the locked target; every other target is unchanged |
| `Radar.Simulator.UpdateTarget` | radar_gui.py:195-240 | one loop iteration: target `i` becomes `StepTarget` of itself; all other targets are unchanged |
| `Radar.Simulator.UpdateTargets` | radar_gui.py:195-240 | the whole loop: the targets become `StepAll` of the old ones; the loss timer is changed only by the locked target's iteration; lock index and lock time are unchanged; the invariant (aligned lists, positions in the sweep, disappear time exactly when hidden) is kept |
| `Radar.Simulator.ExpireLock` | radar_gui.py:242-247 | the lock and timer become `Expire` of the old ones; the targets are unchanged |
| `Radar.Simulator.ClosestTarget` | radar_gui.py:108-122 | the scan returns the lowest-index target nearest the cursor, with its squared distance |
| `Radar.Simulator.AcquireLock` | radar_gui.py:106-134 | the lock becomes `Acquire` of the cursor distances; the lock time is `now` when a lock is taken and unchanged otherwise; `lock_lost_time` and the targets are never modified |
| `Radar.Simulator.Tick` | radar_gui.py:183-249 | one tick creates the batch only on the first tick, then runs the target loop, then expiry; no later tick adds targets, and the closed-variant count (0 before the first tick, 6 after it) is kept |

## Left out

- Drawing, key binding and scheduling are left out: the canvas, the box and the `root.after` loop (radar_gui.py:9-13, 30-34, 64-73, 89-92, 136-137, 186-188, 251-347, 381-439). They are user interface and a timer. The lock record's three display states ("LOCKED", "TRACKING...", none) are read off `lockedIndex` and the locked target's visibility rather than modelled as a separate function.
- The w/a/s/d branches of `handle_key` and `move_box` (radar_gui.py:76-105) are left out. Their circle clamp is `atan2`/`cos`/`sin` floating point, so the cursor position is a parameter of `AcquireLock`.
- The polar-to-canvas projection (radar_gui.py:113-115, 263-266) is trigonometry. It is a function parameter, so acquisition is proved for every projection.
- Serial port discovery and connection, and the status strings (radar_gui.py:15-28, 330-338), are I/O. This file never reads from the port, so there is no telemetry parsing and no ingestion cap to model.
- `random.random()`, `random.uniform` and `random.choice` draws are parameters, and so is `time.time()`. A tick reads the clock once, as `now`. The code reads it separately for each use, and those readings differ by microseconds within one tick, which can matter only for a timer exactly at the 3 s or 5 s boundary.
- The lazy padding of the parallel lists (radar_gui.py:196-198, 222-226, 253-261) is left out. The model keeps the lists aligned as an invariant, so padding cannot happen. The `Unknown` kind, which only padding produces, is declared but never created.
- Printed messages (radar_gui.py:129, 132, 134, 180, 245) are left out. `lock_time` is stored by `AcquireLock`, but the impact countdown it feeds is display only (radar_gui.py:386-393).
- LockEngine.CursorDistances: distances are exact squared reals. In floats, `sqrt` can round two different squares to the same distance; at such a tie the code keeps the earlier index, while the model can choose the later one.
- Motion.Mod180: angles and ranges are exact reals. Binary floating-point rounding is not modelled: in floats, a tiny negative sum can give `% 180 == 180.0`.
- radar_integrated/main.py is not part of this model. It is microcontroller firmware: GPIO busy-waiting, UART writes and a float time-to-centimetre conversion.
