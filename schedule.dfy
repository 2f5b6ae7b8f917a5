/** Schedule selection of the antlion flinger: a priority decision over the
    launcher's state, its current conditions and the clock. */
module Schedules {
  import opened Tracker

  /** The launcher's NPC state, as far as the selector distinguishes it. */
  datatype NpcState = Combat | NotCombat

  /** SCHED_ANTLIONFLINGER_SHOOT_CRABS, SCHED_ANTLION_POUNCE,
      SCHED_ANTLION_WORKER_RUN_RANDOM, or whatever the base class selects. */
  datatype Schedule = ShootCrabs | Pounce | RunRandom | Inherited

  /** The schedule chosen in npc state `npc`. `rangedCond` is the one
      condition test the source makes before shooting (its argument is the
      logical and of two condition ids, so a single condition is tested);
      `meleeCond` is COND_CAN_MELEE_ATTACK1. */
  function SelectSchedule(npc: NpcState, t: State, rangedCond: bool, meleeCond: bool, now: real): (s: Schedule)
    ensures s == ShootCrabs <==> npc == Combat && rangedCond && t.nextAttack < now && t.count < t.capacity
    ensures s == Pounce <==> npc == Combat && !(rangedCond && t.nextAttack < now && t.count < t.capacity) && meleeCond
    ensures s == RunRandom <==> npc == Combat && !(rangedCond && t.nextAttack < now && t.count < t.capacity) && !meleeCond
    ensures s == Inherited <==> npc != Combat
  {
    match npc
    case Combat =>
      if rangedCond && t.nextAttack < now && t.count < t.capacity then ShootCrabs
      else if meleeCond then Pounce
      else RunRandom
    case NotCombat => Inherited
  }

  /** When the selector chooses to shoot and the enemy is still there when
      the animation event fires, the fling happens: the guard it passed is
      the guard HeadcrabFling tests. */
  lemma ShootingFlings(npc: NpcState, t: State, rangedCond: bool, meleeCond: bool, now: real, crab: EntityId, delay: real)
    requires Valid(t)
    requires SelectSchedule(npc, t, rangedCond, meleeCond, now) == ShootCrabs
    ensures FlingInBounds(t, true)
    ensures Fling(t, true, crab, now, delay).1 == Flung(VariantOf(t.variant))
  {
  }

  /** The selector does not look for an enemy: when it chooses to shoot,
      the fling passes its capacity guard, and it does nothing exactly when
      no enemy is there by the time the animation event fires. */
  lemma ShootingPassesCapacityGuard(npc: NpcState, t: State, rangedCond: bool, meleeCond: bool, now: real,
                                    hasEnemy: bool, crab: EntityId, delay: real)
    requires Valid(t)
    requires SelectSchedule(npc, t, rangedCond, meleeCond, now) == ShootCrabs
    ensures FlingInBounds(t, hasEnemy)
    ensures Fling(t, hasEnemy, crab, now, delay).1 != AtCapacity
    ensures Fling(t, hasEnemy, crab, now, delay).1 == NoEnemy <==> !hasEnemy
    ensures !hasEnemy ==> Fling(t, hasEnemy, crab, now, delay).0 == t
  {
  }

  /** A launcher that is full never chooses to shoot. */
  lemma FullNeverShoots(npc: NpcState, t: State, rangedCond: bool, meleeCond: bool, now: real)
    requires Valid(t) && t.count == t.capacity
    ensures SelectSchedule(npc, t, rangedCond, meleeCond, now) != ShootCrabs
  {
  }

  /** After a fling, shooting is not chosen again at any time up to the end
      of the cooldown it armed, whatever the conditions. */
  lemma CooldownBlocksShooting(t: State, crab: EntityId, now: real, delay: real,
                               npc: NpcState, rangedCond: bool, meleeCond: bool, later: real)
    requires FlingInBounds(t, true)
    requires Fling(t, true, crab, now, delay).1.Flung?
    requires later <= now + delay
    ensures SelectSchedule(npc, Fling(t, true, crab, now, delay).0, rangedCond, meleeCond, later) != ShootCrabs
  {
  }
}
