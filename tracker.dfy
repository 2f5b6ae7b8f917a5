/** The headcrab tracker of the antlion flinger, as values.

    The tracker state is the launcher's count of active headcrabs, its
    configured variant code and capacity, its registry of weak handles and
    the base class's next-attack time. Each operation of the launcher is a
    function from the old state to the new one; the class in module Flinger
    is proved to follow these functions, and the lemmas here say what they
    mean. */
module Tracker {

  /** ANTLION_FLINGER_MAX_HEADCRABS: the largest capacity Activate keeps. */
  const MaxHeadcrabs: int := 10

  /** The eHeadcrabType codes a level designer can configure. */
  const HeadcrabClassic: int := 0
  const HeadcrabFast: int := 1
  const HeadcrabPoison: int := 2

  /** An engine entity. Every entity the engine creates gets an identity no
      earlier entity had (handles carry a serial number). */
  type EntityId = nat

  datatype Option<T> = None | Some(value: T)

  /** A weak handle: the invalid handle, or one naming an entity that may
      since have been removed from the world. */
  datatype Handle = Null | Ref(entity: EntityId)

  /** The three headcrab classes the launcher can create. */
  datatype Kind = Classic | Fast | Poison

  /** The launcher's tracker fields: m_iNumActiveHeadcrabs, m_iHeadcrabType,
      m_iHeadcrabCapacity, m_headcrabs and the inherited m_flNextAttack. */
  datatype State = State(count: int, variant: int, capacity: int, slots: seq<Handle>, nextAttack: real)

  /** What one call of HeadcrabFling did: nothing because the registry is
      full (the source logs a message), nothing because there is no enemy,
      or a headcrab of the given kind was created and flung. */
  datatype FlingOutcome = AtCapacity | NoEnemy | Flung(kind: Kind)

  /** The tracker invariant: the count is within [0, capacity], the registry
      has exactly capacity slots, and the capacity is within [0, 10]. */
  predicate Valid(t: State) {
    && 0 <= t.count <= t.capacity
    && t.capacity == |t.slots|
    && t.capacity <= MaxHeadcrabs
  }

  function Dist(a: int, b: int): int {
    if a <= b then b - a else a - b
  }

  // ---------------------------------------------------------------- Activate

  /** The capacity Activate keeps: the value of [0, 10] nearest to c. */
  function Clamp(c: int): (r: int)
    ensures 0 <= r <= MaxHeadcrabs
    ensures 0 <= c <= MaxHeadcrabs ==> r == c
    ensures forall v :: 0 <= v <= MaxHeadcrabs ==> Dist(r, c) <= Dist(v, c)
  {
    if c > MaxHeadcrabs then MaxHeadcrabs
    else if c < 0 then 0
    else c
  }

  lemma ClampCases(c: int)
    ensures c > MaxHeadcrabs ==> Clamp(c) == MaxHeadcrabs
    ensures c < 0 ==> Clamp(c) == 0
    ensures Clamp(Clamp(c)) == Clamp(c)
  {
  }

  /** A registry of n invalid handles, as a resized vector holds. */
  function NullSlots(n: nat): (s: seq<Handle>)
    ensures |s| == n
    ensures forall i :: 0 <= i < n ==> s[i] == Null
  {
    seq(n, _ => Null)
  }

  /** Activate: clamp the capacity and size the registry to it. Neither the
      count, the variant nor the next-attack time changes. */
  function Activated(t: State): (r: State)
    ensures r.capacity == Clamp(t.capacity) && r.slots == NullSlots(r.capacity)
    ensures r.count == t.count && r.variant == t.variant && r.nextAttack == t.nextAttack
  {
    var c := Clamp(t.capacity);
    t.(capacity := c, slots := NullSlots(c))
  }

  /** Activation establishes the invariant exactly when the count it keeps
      fits the clamped capacity; running it twice is running it once. */
  lemma ActivateValid(t: State)
    ensures Valid(Activated(t)) <==> 0 <= t.count <= Clamp(t.capacity)
    ensures Activated(Activated(t)) == Activated(t)
  {
  }

  /** A freshly placed launcher (count zero, configured variant and
      capacity) is valid after activation, whatever capacity was configured. */
  lemma ActivatePlacedLauncher(variant: int, capacity: int, nextAttack: real)
    ensures var r := Activated(State(0, variant, capacity, [], nextAttack));
            Valid(r) && r.count == 0 && r.capacity == Clamp(capacity)
  {
  }

  // ------------------------------------------------------- variant selection

  /** The switch over m_iHeadcrabType: 1 is Fast, 2 is Poison, and 0 and
      every other code fall to the Classic case. */
  function VariantOf(code: int): (k: Kind)
    ensures k == Fast <==> code == HeadcrabFast
    ensures k == Poison <==> code == HeadcrabPoison
    ensures k == Classic <==> code != HeadcrabFast && code != HeadcrabPoison
  {
    match code
    case 1 => Fast
    case 2 => Poison
    case _ => Classic
  }

  /** An unrecognized code behaves like HeadcrabClassic. */
  lemma UnknownVariantIsClassic(code: int)
    requires code != HeadcrabClassic && code != HeadcrabFast && code != HeadcrabPoison
    ensures VariantOf(code) == VariantOf(HeadcrabClassic) == Classic
  {
  }

  // ----------------------------------------------------------- HeadcrabFling

  /** The source writes m_headcrabs[count] without a range check; the write
      is defined only when that index is inside the registry. */
  predicate FlingInBounds(t: State, hasEnemy: bool) {
    t.count < t.capacity && hasEnemy ==> 0 <= t.count < |t.slots|
  }

  /** HeadcrabFling, given whether there is an enemy, the entity the engine
      creates, the current time and the drawn cooldown delay. */
  function Fling(t: State, hasEnemy: bool, crab: EntityId, now: real, delay: real): (r: (State, FlingOutcome))
    requires FlingInBounds(t, hasEnemy)
    ensures r.1 == AtCapacity <==> t.count >= t.capacity
    ensures r.1 == NoEnemy <==> t.count < t.capacity && !hasEnemy
    ensures !r.1.Flung? ==> r.0 == t
    ensures r.1.Flung? ==> r.1.kind == VariantOf(t.variant)
    ensures Valid(t) ==> Valid(r.0)
  {
    if t.count < t.capacity then
      if hasEnemy then
        var kind := VariantOf(t.variant);
        (t.(slots := t.slots[t.count := Ref(crab)], count := t.count + 1, nextAttack := now + delay),
         Flung(kind))
      else
        (t, NoEnemy)
    else
      (t, AtCapacity)
  }

  /** A fling that happens stores the new crab at the old count, raises the
      count by one, moves the next-attack time to now + delay, and leaves
      every other slot, the capacity and the variant as they were. */
  lemma FlingWritesOneSlot(t: State, crab: EntityId, now: real, delay: real)
    requires t.count < t.capacity && 0 <= t.count < |t.slots|
    ensures var r := Fling(t, true, crab, now, delay).0;
            && r.count == t.count + 1
            && |r.slots| == |t.slots|
            && r.slots[t.count] == Ref(crab)
            && (forall i :: 0 <= i < |t.slots| && i != t.count ==> r.slots[i] == t.slots[i])
            && r.capacity == t.capacity && r.variant == t.variant
            && r.nextAttack == now + delay
  {
  }

  /** In a valid state the slot write is always in range. */
  lemma ValidFlingInBounds(t: State, hasEnemy: bool)
    requires Valid(t)
    ensures FlingInBounds(t, hasEnemy)
  {
  }

  /** One attempt of the animation event that triggers HeadcrabFling. */
  datatype Attempt = Attempt(hasEnemy: bool, crab: EntityId, now: real, delay: real)

  /** The state after a run of fling attempts with no crab dying meanwhile. */
  function FlingAll(t: State, attempts: seq<Attempt>): (r: State)
    requires Valid(t)
    ensures Valid(r)
    ensures r.capacity == t.capacity && r.variant == t.variant
    decreases |attempts|
  {
    if attempts == [] then t
    else
      var a := attempts[0];
      FlingAll(Fling(t, a.hasEnemy, a.crab, a.now, a.delay).0, attempts[1..])
  }

  /** How many attempts had an enemy to aim at. */
  function WithEnemy(attempts: seq<Attempt>): (n: nat)
    ensures n <= |attempts|
  {
    if attempts == [] then 0
    else (if attempts[0].hasEnemy then 1 else 0) + WithEnemy(attempts[1..])
  }

  function Min(a: int, b: int): int {
    if a <= b then a else b
  }

  /** Over any run of attempts the count never passes the capacity: it
      grows by one for each attempt with an enemy until the registry is full
      and then stays there. */
  lemma {:induction false} FlingAllCount(t: State, attempts: seq<Attempt>)
    requires Valid(t)
    ensures FlingAll(t, attempts).count == Min(t.capacity, t.count + WithEnemy(attempts))
    decreases |attempts|
  {
    if attempts != [] {
      var a := attempts[0];
      var t' := Fling(t, a.hasEnemy, a.crab, a.now, a.delay).0;
      FlingAllCount(t', attempts[1..]);
    }
  }

  /** Handles that name an entity are pairwise different. */
  predicate DistinctRefs(s: seq<Handle>) {
    forall i, j :: 0 <= i < j < |s| && s[i].Ref? ==> s[i] != s[j]
  }

  /** A freshly activated registry holds only invalid handles, so its
      handles are trivially distinct. */
  lemma ActivatedRefsDistinct(t: State)
    ensures DistinctRefs(Activated(t).slots)
  {
  }

  /** A fling of a newly created entity keeps the registry's handles distinct. */
  lemma FlingKeepsRefsDistinct(t: State, hasEnemy: bool, crab: EntityId, now: real, delay: real)
    requires FlingInBounds(t, hasEnemy)
    requires DistinctRefs(t.slots) && Ref(crab) !in t.slots
    ensures DistinctRefs(Fling(t, hasEnemy, crab, now, delay).0.slots)
  {
  }

  // -------------------------------------------------- Event_OnHeadcrabKilled

  /** Event_OnHeadcrabKilled: the count goes down by one, with no lower bound;
      no slot is cleared or compacted and nothing else changes. */
  function HeadcrabKilled(t: State): (r: State)
    ensures r.count == t.count - 1
    ensures r.slots == t.slots && r.capacity == t.capacity
    ensures r.variant == t.variant && r.nextAttack == t.nextAttack
  {
    t.(count := t.count - 1)
  }

  /** With at least one crab tracked, the decrement keeps the invariant. */
  lemma KilledKeepsValid(t: State)
    requires Valid(t) && t.count > 0
    ensures Valid(HeadcrabKilled(t))
  {
  }

  /** The decrement leaves the registry as it is, so distinct handles stay
      distinct. */
  lemma KilledKeepsRefsDistinct(t: State)
    requires DistinctRefs(t.slots)
    ensures DistinctRefs(HeadcrabKilled(t).slots)
  {
  }

  /** With no crab tracked, the decrement drives the count negative: the
      invariant is lost, and the next fling with an enemy passes the
      capacity guard and writes slot -1. */
  lemma KilledAtZeroBreaksTracker(t: State)
    requires Valid(t) && t.count == 0
    ensures HeadcrabKilled(t).count == -1 && !Valid(HeadcrabKilled(t))
    ensures !FlingInBounds(HeadcrabKilled(t), true)
  {
  }

  /** Whichever crab died, the next fling reuses the slot just below the old
      count, so the handle stored there is overwritten even if that crab is
      still alive. */
  lemma KilledThenFlingReusesTopSlot(t: State, crab: EntityId, now: real, delay: real)
    requires Valid(t) && t.count > 0
    ensures FlingInBounds(HeadcrabKilled(t), true)
    ensures var r := Fling(HeadcrabKilled(t), true, crab, now, delay).0;
            r.count == t.count && r.slots == t.slots[t.count - 1 := Ref(crab)]
  {
  }

  // ------------------------------------------------------------ Event_Killed

  /** The entity a weak handle resolves to, if it is still in the world. */
  function Resolve(h: Handle, alive: set<EntityId>): (r: Option<EntityId>)
    ensures r.Some? <==> h.Ref? && h.entity in alive
    ensures r.Some? ==> r.value == h.entity
  {
    match h
    case Null => None
    case Ref(e) => if e in alive then Some(e) else None
  }

  /** The entities notified, in slot order, by a walk over the slots s that
      notifies each handle that resolves and skips the others. */
  function Live(s: seq<Handle>, alive: set<EntityId>): (r: seq<EntityId>)
    ensures |r| <= |s|
    decreases |s|
  {
    if s == [] then []
    else
      var last := s[|s| - 1];
      Live(s[..|s| - 1], alive) + (match Resolve(last, alive) case Some(e) => [e] case None => [])
  }

  /** The slots Event_Killed walks: [0, count), none when count is negative. */
  function Walked(t: State): (s: seq<Handle>)
    requires t.count <= |t.slots|
    ensures |s| == if t.count < 0 then 0 else t.count
    ensures forall i :: 0 <= i < |s| ==> s[i] == t.slots[i]
  {
    if t.count < 0 then [] else t.slots[..t.count]
  }

  /** An entity is notified exactly when some walked slot holds a handle to
      it and it is still alive. */
  lemma {:induction false} LiveMembership(s: seq<Handle>, alive: set<EntityId>, x: EntityId)
    ensures x in Live(s, alive) <==> x in alive && exists i :: 0 <= i < |s| && s[i] == Ref(x)
    decreases |s|
  {
    if s != [] {
      var init := s[..|s| - 1];
      LiveMembership(init, alive, x);
      if x in alive && (exists i :: 0 <= i < |s| && s[i] == Ref(x)) {
        var i :| 0 <= i < |s| && s[i] == Ref(x);
        if i < |s| - 1 {
          assert init[i] == Ref(x);
        }
      }
      if x in alive && (exists i :: 0 <= i < |init| && init[i] == Ref(x)) {
        var i :| 0 <= i < |init| && init[i] == Ref(x);
        assert s[i] == Ref(x);
      }
    }
  }

  /** The walked slots keep the registry's distinct handles distinct. */
  lemma WalkedKeepsRefsDistinct(t: State)
    requires t.count <= |t.slots| && DistinctRefs(t.slots)
    ensures DistinctRefs(Walked(t))
  {
  }

  /** Every notified entity is notified once when the handles are distinct. */
  lemma {:induction false} LiveOnce(s: seq<Handle>, alive: set<EntityId>)
    requires DistinctRefs(s)
    ensures forall i, j :: 0 <= i < j < |Live(s, alive)| ==> Live(s, alive)[i] != Live(s, alive)[j]
    decreases |s|
  {
    if s != [] {
      var init := s[..|s| - 1];
      assert DistinctRefs(init) by {
        forall i, j | 0 <= i < j < |init| && init[i].Ref?
          ensures init[i] != init[j]
        {
          assert s[i] == init[i] && s[j] == init[j];
        }
      }
      LiveOnce(init, alive);
      var last := s[|s| - 1];
      if last.Ref? && last.entity in alive {
        var e := last.entity;
        forall k | 0 <= k < |init|
          ensures init[k] != Ref(e)
        {
          assert s[k] == init[k];
        }
        LiveMembership(init, alive, e);
      }
    }
  }

  /** When every walked handle resolves, the walk notifies every entity, in
      slot order. */
  lemma {:induction false} LiveAllAlive(s: seq<Handle>, alive: set<EntityId>)
    requires forall i :: 0 <= i < |s| ==> s[i].Ref? && s[i].entity in alive
    ensures |Live(s, alive)| == |s|
    ensures forall i :: 0 <= i < |s| ==> Live(s, alive)[i] == s[i].entity
    decreases |s|
  {
    if s != [] {
      LiveAllAlive(s[..|s| - 1], alive);
    }
  }

  /** A walk over invalid handles notifies nobody. */
  lemma {:induction false} LiveOfNulls(s: seq<Handle>, alive: set<EntityId>)
    requires forall i :: 0 <= i < |s| ==> s[i] == Null
    ensures Live(s, alive) == []
    decreases |s|
  {
    if s != [] {
      LiveOfNulls(s[..|s| - 1], alive);
    }
  }

  /** Activation keeps the count but replaces every handle with an invalid
      one, so if it runs while crabs are tracked, the launcher's death then
      notifies none of them although the count says they are there. */
  lemma ActivateForgetsTracked(t: State, alive: set<EntityId>)
    requires t.count <= Clamp(t.capacity)
    ensures Activated(t).count == t.count
    ensures Live(Walked(Activated(t)), alive) == []
  {
    LiveOfNulls(Walked(Activated(t)), alive);
  }

  /** A concrete run: capacity 2, crabs 1 and 2 flung, crab 1 dies, crab 3 is
      flung into slot 1. Crab 2 is alive but no longer tracked, so the
      launcher's death notifies only crab 3. */
  lemma UntrackedCrabExample()
    ensures var t0 := Activated(State(0, HeadcrabClassic, 2, [], 0.0));
            var t1 := Fling(t0, true, 1, 1.0, 1.0).0;
            var t2 := Fling(t1, true, 2, 3.0, 1.0).0;
            var t3 := HeadcrabKilled(t2);
            var t4 := Fling(t3, true, 3, 5.0, 1.0).0;
            t4.slots == [Ref(1), Ref(3)] && Live(Walked(t4), {2, 3}) == [3]
  {
  }
}
