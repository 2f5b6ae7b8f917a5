# Antlion flinger: the headcrab tracker

This project models the part of the antlion flinger NPC that keeps track of
the headcrabs it flings. The launcher is configured with a headcrab variant
code and a capacity. On activation it clamps the capacity to `[0, 10]` and
sizes its registry of weak handles to that capacity. Each fling stores the new
headcrab at index `count` and raises the count. A headcrab that dies lowers
the count by one. When the launcher dies, it notifies every tracked headcrab
whose handle still resolves. Two pure decisions sit around the tracker. One
maps the configured variant code to a headcrab class. The other is the
launcher's schedule selection in combat.

The project has three modules:

- `Tracker` (`tracker.dfy`) models the tracker state as a value. The
  datatype `State` holds the count, variant code, capacity, registry and
  next-attack time. Each operation is a function from the old state to the
  new one: `Activated`, `Fling`, `HeadcrabKilled`, plus `Live` for the
  notifications of the death walk. The invariant is `Valid`:
  `0 <= count <= capacity == |registry| <= 10`. The module's lemmas state
  what the source promises about these functions.
- `Schedules` (`schedule.dfy`) models `SelectSchedule` as a function.
  Its lemmas relate it to `Fling`. Shooting is chosen only when `Fling`'s
  capacity guard passes (`ShootingPassesCapacityGuard`). The selector does
  not test for an enemy, so the fling still does nothing if no enemy is
  there when the animation event fires. If one is there, the fling succeeds
  (`ShootingFlings`). Shooting is not chosen again until the cooldown has
  run out (`CooldownBlocksShooting`).
- `Flinger` (`flinger.dfy`) holds the class `AntlionFlinger`. Its fields
  are the source's fields, and the registry is an `array<Handle>`. Each
  mutating method is proved to move `Abstract()` exactly as the matching
  `Tracker` function does. `EventKilled` is the death-notification loop,
  proved against `Live`. `ThreeCrabLifecycle` is a client: it flings three
  crabs into a launcher of capacity 3, sees a fourth attempt refused, and
  sees each crab notified once when the launcher dies (with notifications
  that do not call back into the launcher; see "Left out").

Engine inputs are parameters:

- whether `GetEnemy()` returns an entity (`hasEnemy`);
- the entity `CreateEntityByName` creates (`newCrab`, a fresh `EntityId`);
- the current time (`now`);
- the cooldown drawn by `RandomFloat(1, 5)` (`delay`);
- the set of entities still in the world (`alive`), which decides whether a
  weak handle resolves.

Assumptions the model makes explicit:

- The constructor (`npc_antlionflinger.cpp:62-64`) sets no field. The
  model starts the count at 0 and the registry empty, as for a
  zero-initialised engine entity.
- `CUtlVector::SetSize` (line 133) gives a vector of `capacity`
  default-constructed, invalid handles (`Null`). `CUtlVector` is not part of
  this model.
- The argument `COND_SEE_ENEMY && COND_CAN_RANGE_ATTACK1` at line 161
  collapses to one boolean before `HasCondition` sees it. So one condition
  is tested, not two. The model gives that test as one abstract boolean,
  `rangedCond`. Which condition the collapsed id names is not part of this
  model.
- The slot write `m_headcrabs[m_iNumActiveHeadcrabs]` (line 289) has no
  range check. `Fling` and `HeadcrabFling` therefore require the index to be
  in range whenever the write happens (`FlingInBounds`). `ValidFlingInBounds`
  proves that every valid state meets this requirement.

What the model exposes:

- `Event_OnHeadcrabKilled` (header line 41) has no lower bound.
  `KilledAtZeroBreaksTracker` shows that at count 0 it leaves the count at
  -1 and breaks the invariant. The next fling with an enemy then passes the
  capacity guard and would write slot -1.
- Slots are never compacted. `KilledThenFlingReusesTopSlot` shows that after
  any crab dies, the next fling overwrites the slot just below the old count.
  `UntrackedCrabExample` shows the consequence: a crab that is still alive
  can drop out of the registry, and the launcher's death then does not
  notify it. The model keeps this count-only bookkeeping exactly as the code
  has it.
- `Activate` keeps the count but replaces every handle with an invalid one
  (line 133). `ActivateForgetsTracked` shows that if activation runs while
  crabs are tracked (for example after the engine has restored the count
  and handles saved at lines 51-52), the launcher's death then notifies none
  of them. The order in which the engine restores and activates an entity is
  not part of this model.
- Registry handles stay pairwise distinct: activation leaves only invalid
  handles (`ActivatedRefsDistinct`), a crab's death touches no slot
  (`KilledKeepsRefsDistinct`), and a fling stores a newly created entity
  (`FlingKeepsRefsDistinct`). The walked slots inherit this
  (`WalkedKeepsRefsDistinct`), so the death walk notifies each crab at most
  once (`LiveOnce`).

Facts of the code that the model keeps:

- `GetThrowVector` has no rejection outcome: line 367 overwrites both
  zero-vector writes (lines 343 and 363), and `HeadcrabFling` never checks
  the vector.
- The shoot test is a single condition test (line 161).
- Nothing keeps the count non-negative (header line 41).

## Model

| member | source | states |
|---|---|---|
| `Tracker.Clamp` | sp/src/game/server/hl2/npc_antlionflinger.cpp:128-131 | the kept capacity lies in `[0, 10]`, equals an in-range input, and is the value of `[0, 10]` nearest to the configured one |
| `Tracker.ClampCases` | sp/src/game/server/hl2/npc_antlionflinger.cpp:128-131 | above 10 becomes 10, below 0 becomes 0, and clamping twice is clamping once |
| `Tracker.NullSlots` | sp/src/game/server/hl2/npc_antlionflinger.cpp:133 | a resized registry of n slots has exactly n slots, all invalid handles |
| `Tracker.Activated` | sp/src/game/server/hl2/npc_antlionflinger.cpp:128-133 | activation sets the capacity to the clamped value and the registry length to that capacity; count, variant and next-attack time are unchanged |
| `Tracker.ActivateValid` | sp/src/game/server/hl2/npc_antlionflinger.cpp:128-133 | activation yields a valid tracker if and only if the kept count fits the clamped capacity; activating twice equals activating once |
| `Tracker.ActivatePlacedLauncher` | sp/src/game/server/hl2/npc_antlionflinger.cpp:122-136 | a placed launcher with count 0 is valid after activation for every configured capacity, with capacity `Clamp(c)` |
| `Tracker.ActivatedRefsDistinct` | sp/src/game/server/hl2/npc_antlionflinger.cpp:133 | a freshly sized registry has pairwise distinct handles (it holds none) |
| `Tracker.VariantOf` | sp/src/game/server/hl2/npc_antlionflinger.cpp:253-271 | code 1 yields Fast and only 1 does; code 2 yields Poison and only 2 does; every other code yields Classic |
| `Tracker.UnknownVariantIsClassic` | sp/src/game/server/hl2/npc_antlionflinger.cpp:255-260 | any code outside {0, 1, 2} (99, say) behaves as code 0 |
| `Tracker.Fling` | sp/src/game/server/hl2/npc_antlionflinger.cpp:240-310 | outcome AtCapacity iff `count >= capacity`, NoEnemy iff there is room but no enemy; both leave the state unchanged; a fling creates the configured variant; a valid tracker stays valid |
| `Tracker.FlingWritesOneSlot` | sp/src/game/server/hl2/npc_antlionflinger.cpp:286-301 | a fling stores the new crab at the old count and raises the count by exactly one; every other slot, the registry length, capacity and variant are unchanged; the next-attack time becomes `now + delay` |
| `Tracker.ValidFlingInBounds` | sp/src/game/server/hl2/npc_antlionflinger.cpp:242-289 | in a valid tracker the guard `count < capacity` keeps the slot write within the registry |
| `Tracker.FlingAll` | sp/src/game/server/hl2/npc_antlionflinger.cpp:240-310 | any run of fling attempts keeps the tracker valid, so the count never passes the capacity; capacity and variant do not change |
| `Tracker.FlingAllCount` | sp/src/game/server/hl2/npc_antlionflinger.cpp:242-295 | after a run of attempts the count is `min(capacity, count + attempts with an enemy)`; at capacity a further attempt adds nothing |
| `Tracker.FlingKeepsRefsDistinct` | sp/src/game/server/hl2/npc_antlionflinger.cpp:258-289 | flinging a newly created entity keeps the handles in the registry pairwise distinct |
| `Tracker.HeadcrabKilled` | sp/src/game/server/hl2/npc_antlionflinger.h:41 | a crab's death lowers the count by exactly one with no lower bound; registry, capacity, variant and next-attack time are unchanged |
| `Tracker.KilledKeepsRefsDistinct` | sp/src/game/server/hl2/npc_antlionflinger.h:41 | the decrement keeps distinct registry handles distinct, since it touches no slot |
| `Tracker.KilledKeepsValid` | sp/src/game/server/hl2/npc_antlionflinger.h:41 | with at least one crab tracked, the decrement keeps the tracker valid |
| `Tracker.KilledAtZeroBreaksTracker` | sp/src/game/server/hl2/npc_antlionflinger.h:41 | at count 0 the decrement gives count -1 and an invalid tracker, and the next fling with an enemy would write out of range |
| `Tracker.KilledThenFlingReusesTopSlot` | sp/src/game/server/hl2/npc_antlionflinger.cpp:289-295 | after any crab's death the next fling restores the count and overwrites slot `count - 1`, whichever crab died |
| `Tracker.UntrackedCrabExample` | sp/src/game/server/hl2/npc_antlionflinger.cpp:289-295 | concrete run: crabs 1 and 2 flung, crab 1 dies, crab 3 flung; the registry is `[1, 3]`, and the death walk notifies only crab 3 although crab 2 is alive |
| `Tracker.LiveOfNulls` | sp/src/game/server/hl2/npc_antlionflinger.cpp:227-232 | a walk over invalid handles notifies nobody |
| `Tracker.ActivateForgetsTracked` | sp/src/game/server/hl2/npc_antlionflinger.cpp:133 | activation keeps the count but leaves only invalid handles, so the death walk afterwards notifies nobody, whatever the count |
| `Tracker.Resolve` | sp/src/game/server/hl2/npc_antlionflinger.cpp:229-230 | a handle resolves iff it is valid and its entity is still in the world, and then it yields that entity |
| `Tracker.Live` | sp/src/game/server/hl2/npc_antlionflinger.cpp:227-232 | the walk notifies at most one entity per slot |
| `Tracker.Walked` | sp/src/game/server/hl2/npc_antlionflinger.cpp:227 | the walk covers exactly slots `[0, count)`, and none when the count is negative |
| `Tracker.LiveMembership` | sp/src/game/server/hl2/npc_antlionflinger.cpp:227-232 | an entity is notified iff some walked slot holds a handle to it and it is alive: invalid and stale handles are skipped |
| `Tracker.WalkedKeepsRefsDistinct` | sp/src/game/server/hl2/npc_antlionflinger.cpp:227 | distinct handles in the registry stay distinct in the walked slots `[0, count)`, so `LiveOnce` applies to what the death walk notifies |
| `Tracker.LiveOnce` | sp/src/game/server/hl2/npc_antlionflinger.cpp:227-232 | with distinct handles, no entity is notified twice |
| `Tracker.LiveAllAlive` | sp/src/game/server/hl2/npc_antlionflinger.cpp:227-232 | when every walked handle resolves, every tracked entity is notified, in slot order |
| `Schedules.SelectSchedule` | sp/src/game/server/hl2/npc_antlionflinger.cpp:155-177 | in combat: shoot iff `rangedCond && nextAttack < now && count < capacity` (strict); else pounce iff the melee condition holds; else run-random. Outside combat the base class decides |
| `Schedules.ShootingFlings` | sp/src/game/server/hl2/npc_antlionflinger.cpp:161-163 | when shooting is chosen for a valid tracker and the enemy is still there, the fling succeeds with the configured variant |
| `Schedules.ShootingPassesCapacityGuard` | sp/src/game/server/hl2/npc_antlionflinger.cpp:161-163 | when shooting is chosen for a valid tracker, the fling never reports a full registry; it does nothing iff no enemy is there when the animation event fires |
| `Schedules.FullNeverShoots` | sp/src/game/server/hl2/npc_antlionflinger.cpp:161 | a full launcher never chooses to shoot |
| `Schedules.CooldownBlocksShooting` | sp/src/game/server/hl2/npc_antlionflinger.cpp:301 | after a fling, shooting is not chosen at any time up to `now + delay`, whatever the conditions |
| `Flinger.AntlionFlinger.constructor` | sp/src/game/server/hl2/npc_antlionflinger.cpp:62-64 | a placed launcher has count 0, the configured variant and capacity, and an empty registry |
| `Flinger.AntlionFlinger.Activate` | sp/src/game/server/hl2/npc_antlionflinger.cpp:122-136 | the fields become `Activated` of the old state, with a freshly allocated registry |
| `Flinger.AntlionFlinger.HeadcrabFling` | sp/src/game/server/hl2/npc_antlionflinger.cpp:240-310 | the fields and the outcome are `Fling` of the old state; the registry array is written in place and not replaced |
| `Flinger.AntlionFlinger.EventOnHeadcrabKilled` | sp/src/game/server/hl2/npc_antlionflinger.h:41 | only the count field changes, as `HeadcrabKilled` says |
| `Flinger.AntlionFlinger.EventKilled` | sp/src/game/server/hl2/npc_antlionflinger.cpp:224-235 | the loop notifies `Live` of slots `[0, count)`: exactly the alive entities held by a walked slot; count and registry are unchanged, provided no notified crab calls back into the launcher |

## Left out

- `GetThrowVector` (cpp:319-368) is not modelled. It is floating-point and
  gravity arithmetic plus engine traces. Its two rejection writes are
  overwritten at line 367, so it has no rejection outcome to model.
- The cooldown draw `RandomFloat(1.0f, 5.0f)` (line 301) is random. It is
  the parameter `delay`, and `HeadcrabFling` requires it to lie in `[1, 5]`.
  Times are exact `real`s rather than floats.
- Engine side effects of a fling are not modelled. These are
  `CreateEntityByName`, `DispatchSpawn`, `SetAbsOrigin`, `SetAbsAngles`,
  `SetAbsVelocity`, `SetOwnerEntity`, `FlungFromAntlion`, the two
  `AddClassRelationship` calls, the particle effect, the sound and the `Msg`
  log. The created entity is the parameter `newCrab`. A null result from
  `CreateEntityByName` would be dereferenced at line 277; the model does not
  cover that case.
- `GetAttachment` and `BodyTarget` (lines 247-249) only compute positions
  for the throw. They are not modelled.
- The pooled class-name lookups in `Activate` (lines 124-126) are engine
  string pooling. The variant is modelled as the `Kind` the switch selects.
- `Precache`, `Spawn`, `OverrideMoveFacing`, `StartTask`, `RunTask` and
  `HandleAnimEvent` are not modelled. Neither are the schedule definition
  text and the base-class calls. These are framework wiring. The base
  class's schedule choice is the single value `Inherited`.
- The save/restore data description (lines 49-57) is engine persistence. It
  is not modelled.
- The NPC state enumeration is reduced to `Combat` and `NotCombat`. Only
  combat is distinguished at line 157.
- The crab-side reaction `Event_AntlionKilled` is not modelled. The
  notifications are returned as a sequence of entities.
- `Tracker.Fling`: requires the slot index to be in range whenever the
  write at line 289 happens, because an out-of-range write there is
  undefined behaviour in the source.
- `Flinger.AntlionFlinger.HeadcrabFling`: requires the same in-range
  condition, for the same reason.
- `Flinger.AntlionFlinger.EventKilled`: requires `count <= |registry|`,
  because the loop's index is unchecked in the source.
- `Flinger.AntlionFlinger.EventKilled`: assumes that notifying a crab
  never calls back into the launcher. The loop bound at line 227 is re-read
  on every pass. `Event_AntlionKilled` (line 231) is a crab method whose body
  is not part of this model. A crab that died inside that call and reported
  back through `Event_OnHeadcrabKilled` would lower the count during the
  walk and end it early. The model walks the count it had on entry, leaves
  the count unchanged, and does not capture such re-entry.
- `Tracker.HeadcrabKilled`: counts are unbounded integers, so 32-bit
  wrap-around of the `int` count is not modelled. Only a decrement from the
  most negative `int` would wrap.
