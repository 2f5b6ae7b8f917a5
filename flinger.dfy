/** The antlion flinger as an object: the tracker fields of the launcher and
    the operations that update them in place. Each mutating method is proved
    to take the abstract state to the one the matching function of module
    Tracker gives. */
module Flinger {
  import opened Tracker

  class AntlionFlinger {
    var numActiveHeadcrabs: int
    var headcrabType: int
    var headcrabCapacity: int
    var headcrabs: array<Handle>
    /** The next-attack time the launcher inherits from its base class. */
    var nextAttack: real

    /** The tracker state these fields hold. */
    function Abstract(): State
      reads this, headcrabs
    {
      State(numActiveHeadcrabs, headcrabType, headcrabCapacity, headcrabs[..], nextAttack)
    }

    /** A launcher placed in a level, before activation: the two key fields
        hold the configured values, the count is zero (engine entities are
        zero-initialised), the registry is empty and no attack is pending. */
    constructor (typeKey: int, capacityKey: int)
      ensures fresh(headcrabs)
      ensures Abstract() == State(0, typeKey, capacityKey, [], 0.0)
    {
      numActiveHeadcrabs := 0;
      headcrabType := typeKey;
      headcrabCapacity := capacityKey;
      headcrabs := new Handle[0];
      nextAttack := 0.0;
    }

    /** Activate: clamp the capacity to [0, 10] and size the registry to it. */
    method Activate()
      modifies this
      ensures fresh(headcrabs)
      ensures Abstract() == Activated(old(Abstract()))
    {
      if headcrabCapacity > MaxHeadcrabs {
        headcrabCapacity := MaxHeadcrabs;
      } else if headcrabCapacity < 0 {
        headcrabCapacity := 0;
      }
      headcrabs := new Handle[headcrabCapacity](_ => Null);
    }

    /** HeadcrabFling. `hasEnemy` is whether GetEnemy() returns an entity,
        `newCrab` the entity the engine creates, `now` the current time and
        `delay` the cooldown drawn from [1, 5]. */
    method HeadcrabFling(hasEnemy: bool, newCrab: EntityId, now: real, delay: real) returns (outcome: FlingOutcome)
      requires 1.0 <= delay <= 5.0
      requires FlingInBounds(Abstract(), hasEnemy)
      modifies this, headcrabs
      ensures headcrabs == old(headcrabs)
      ensures (Abstract(), outcome) == Fling(old(Abstract()), hasEnemy, newCrab, now, delay)
    {
      if numActiveHeadcrabs < headcrabCapacity {
        if hasEnemy {
          var kind := VariantOf(headcrabType);
          headcrabs[numActiveHeadcrabs] := Ref(newCrab);
          numActiveHeadcrabs := numActiveHeadcrabs + 1;
          nextAttack := now + delay;
          outcome := Flung(kind);
        } else {
          outcome := NoEnemy;
        }
      } else {
        outcome := AtCapacity;
      }
    }

    /** Event_OnHeadcrabKilled: one fewer active crab; the registry keeps
        every handle. */
    method EventOnHeadcrabKilled()
      modifies this`numActiveHeadcrabs
      ensures Abstract() == HeadcrabKilled(old(Abstract()))
    {
      numActiveHeadcrabs := numActiveHeadcrabs - 1;
    }

    /** The notification loop of Event_Killed: walk slots [0, count) and
        notify every crab whose handle still resolves among the entities in
        `alive`. Returns the notified crabs in slot order; the tracker is
        not changed. */
    method EventKilled(alive: set<EntityId>) returns (notified: seq<EntityId>)
      requires numActiveHeadcrabs <= headcrabs.Length
      ensures notified == Live(Walked(Abstract()), alive)
      ensures forall x :: x in notified <==>
                x in alive && exists i :: 0 <= i < numActiveHeadcrabs && headcrabs[i] == Ref(x)
    {
      notified := [];
      var i := 0;
      while i < numActiveHeadcrabs
        invariant 0 <= i <= headcrabs.Length
        invariant i <= numActiveHeadcrabs || i == 0
        invariant notified == Live(headcrabs[..i], alive)
      {
        var crab := Resolve(headcrabs[i], alive);
        if crab.Some? {
          notified := notified + [crab.value];
        }
        assert headcrabs[..i + 1][..i] == headcrabs[..i];
        i := i + 1;
      }
      var walked := Walked(Abstract());
      assert walked == headcrabs[..i];
      forall x
        ensures x in notified <==>
                x in alive && exists k :: 0 <= k < numActiveHeadcrabs && headcrabs[k] == Ref(x)
      {
        LiveMembership(walked, alive, x);
        if x in alive && exists k :: 0 <= k < numActiveHeadcrabs && headcrabs[k] == Ref(x) {
          var k :| 0 <= k < numActiveHeadcrabs && headcrabs[k] == Ref(x);
          assert walked[k] == Ref(x);
        }
      }
    }
  }

  /** A launcher configured for three poison headcrabs flings three, loses
      none, and on its death notifies each of the three once. */
  method ThreeCrabLifecycle()
  {
    var f := new AntlionFlinger(HeadcrabPoison, 3);
    f.Activate();
    ghost var s0 := State(0, HeadcrabPoison, 3, [Null, Null, Null], 0.0);
    assert f.Abstract() == s0;
    ghost var s1 := State(1, HeadcrabPoison, 3, [Ref(11), Null, Null], 2.0);
    assert s0.slots[0 := Ref(11)] == s1.slots;
    assert Fling(s0, true, 11, 1.0, 1.0) == (s1, Flung(Poison));
    var o1 := f.HeadcrabFling(true, 11, 1.0, 1.0);
    assert f.Abstract() == s1;
    ghost var s2 := State(2, HeadcrabPoison, 3, [Ref(11), Ref(12), Null], 4.0);
    assert s1.slots[1 := Ref(12)] == s2.slots;
    assert Fling(s1, true, 12, 3.0, 1.0) == (s2, Flung(Poison));
    var o2 := f.HeadcrabFling(true, 12, 3.0, 1.0);
    assert f.Abstract() == s2;
    ghost var s3 := State(3, HeadcrabPoison, 3, [Ref(11), Ref(12), Ref(13)], 6.0);
    assert s2.slots[2 := Ref(13)] == s3.slots;
    assert Fling(s2, true, 13, 5.0, 1.0) == (s3, Flung(Poison));
    var o3 := f.HeadcrabFling(true, 13, 5.0, 1.0);
    assert f.Abstract() == s3;
    var o4 := f.HeadcrabFling(true, 14, 7.0, 1.0);
    assert o1 == o2 == o3 == Flung(Poison);
    assert o4 == AtCapacity;
    var notified := f.EventKilled({11, 12, 13, 99});
    LiveAllAlive(Walked(s3), {11, 12, 13, 99});
    assert notified == [11, 12, 13];
  }
}
