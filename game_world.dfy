/** GameWorld.java: the fixed-timestep world loop and the list of physics entities.
    Entities are opaque identities (two list slots may hold the same entity); what an
    entity does when it is cleared, collided or ticked is not part of this model, so
    `OnTick` returns the sequence of calls it makes. Nanoseconds are whole numbers: the
    source keeps the accumulated time in a `float`, whose rounding is not modelled. */
module World {

  import opened Wrappers
  import opened JavaInt
  import opened Vectors

  /** An entity's identity. */
  type EntityId = nat

  /** What one slot's turn in the collision loop does: `collides` with the entity of
      each slot in `checked`, in that order, then `onTick(nanos)`. */
  datatype Row = Row(slot: nat, checked: seq<nat>, nanos: int)

  /** The calls of one fixed-timestep iteration: the collision records of the slots in
      `cleared` are cleared first, then the rows run in order. */
  datatype Iteration = Iteration(cleared: seq<nat>, rows: seq<Row>)

  /** Java's `(int)` cast of a floating-point value, which saturates rather than wraps. */
  function Saturate32(x: int): (r: Int32)
    ensures INT_MIN <= x <= INT_MAX ==> r == x
    ensures x > INT_MAX ==> r == INT_MAX
    ensures x < INT_MIN ==> r == INT_MIN
  {
    if x > INT_MAX then INT_MAX else if x < INT_MIN then INT_MIN else x
  }

  /** `_iters`: the whole number of time steps in the accumulated time, rounded toward zero. */
  function ItersFor(total: int, timestep: int): (n: Int32)
    requires timestep > 0
    ensures 0 <= total && total / timestep <= INT_MAX ==> n == total / timestep
    ensures 0 <= total && total / timestep > INT_MAX ==> n == INT_MAX
    ensures total < 0 ==> n <= 0
  {
    Saturate32(TruncDiv(total, timestep))
  }

  /** The time each entity is told has passed in one sub-step, `nanos / _iters`. */
  function TickNanos(nanos: int, iters: int): (dt: int)
    ensures iters > 0 && nanos >= 0 ==> dt == nanos / iters
    ensures iters > 0 && nanos < 0 ==> dt == -((-nanos) / iters)
    ensures iters <= 0 ==> dt == 0
  {
    if iters > 0 then TruncDiv(nanos, iters) else 0
  }

  /** The accumulated time after a step, as written: `_iters * _timestep` is an `int`
      product, which wraps. */
  function RemainderAsWritten(total: int, timestep: Int32): (rem: int)
    requires timestep > 0
    ensures (rem - Remainder(total, timestep)) % TWO_32 == 0
  {
    total - Wrap32(ItersFor(total, timestep) * timestep)
  }

  /** The accumulated time after a step with the product taken exactly. */
  function Remainder(total: int, timestep: Int32): int
    requires timestep > 0
  {
    total - ItersFor(total, timestep) * timestep
  }

  // ---------------------------------------------------------------------------
  // The calls of one step

  /** The slots `0 .. n-1` in order. */
  function Slots(n: nat): seq<nat> {
    if n == 0 then [] else Slots(n - 1) + [n - 1]
  }

  /** The slots among `i .. j-1` that slot `i` is checked against: those holding a
      different entity. */
  function Checked(es: seq<EntityId>, i: nat, j: nat): seq<nat>
    requires i <= j <= |es|
    decreases j
  {
    if j == i then []
    else Checked(es, i, j - 1) + (if es[i] != es[j - 1] then [j - 1] else [])
  }

  /** The first `n` rows of the collision loop. */
  function RowsUpTo(es: seq<EntityId>, n: nat, dt: int): seq<Row>
    requires n <= |es|
  {
    if n == 0 then [] else RowsUpTo(es, n - 1, dt) + [Row(n - 1, Checked(es, n - 1, |es|), dt)]
  }

  /** One iteration over the entity list `es`. */
  function IterationOf(es: seq<EntityId>, dt: int): Iteration {
    Iteration(Slots(|es|), RowsUpTo(es, |es|, dt))
  }

  /** The first occurrence of `e`. */
  function IndexOf(s: seq<EntityId>, e: EntityId): (k: nat)
    requires e in s
    ensures k < |s| && s[k] == e && e !in s[..k]
  {
    if s[0] == e then 0
    else
      assert e in s[1..] by { var k :| 0 <= k < |s| && s[k] == e; assert s[1..][k - 1] == e; }
      var k := IndexOf(s[1..], e);
      assert s[..k + 1] == [s[0]] + s[1..][..k];
      k + 1
  }

  /** `removeEntity`: drop the first occurrence, if there is one. */
  function RemoveFirst(s: seq<EntityId>, e: EntityId): seq<EntityId> {
    if e in s then s[..IndexOf(s, e)] + s[IndexOf(s, e) + 1..] else s
  }

  /** `removeEntities`: remove one after the other. */
  function RemoveEach(s: seq<EntityId>, toRemove: seq<EntityId>): seq<EntityId>
    decreases |toRemove|
  {
    if toRemove == [] then s
    else RemoveEach(RemoveFirst(s, toRemove[0]), toRemove[1..])
  }

  function Reverse(s: seq<EntityId>): (r: seq<EntityId>)
    ensures |r| == |s|
  {
    if s == [] then [] else Reverse(s[1..]) + [s[0]]
  }

  /** The body of `onTick`'s outer loop: clear every collision record, then for each
      slot check it against every slot from itself on that holds a different entity,
      and tick it. */
  method IterationCalls(es: seq<EntityId>, dt: int) returns (it: Iteration)
    ensures it == IterationOf(es, dt)
  {
    var cleared := [];
    var k := 0;
    while k < |es|
      invariant 0 <= k <= |es|
      invariant cleared == Slots(k)
    {
      cleared := cleared + [k];
      k := k + 1;
    }
    var rows := [];
    var i := 0;
    while i < |es|
      invariant 0 <= i <= |es|
      invariant rows == RowsUpTo(es, i, dt)
    {
      var checked := [];
      var j := i;
      while j < |es|
        invariant i <= j <= |es|
        invariant checked == Checked(es, i, j)
      {
        if es[i] != es[j] {
          checked := checked + [j];
        }
        j := j + 1;
      }
      rows := rows + [Row(i, checked, dt)];
      i := i + 1;
    }
    it := Iteration(cleared, rows);
  }

  /** The source's world, restricted to the state its loop and its entity list use. */
  class GameWorld {
    var timestep: Int32
    var accumulatedTime: int
    var iters: Int32
    var entities: seq<EntityId>

    /** A new world: a 20 ms step, nothing accumulated, no entities. */
    constructor ()
      ensures timestep == 20_000_000 && accumulatedTime == 0 && iters == 1 && entities == []
    {
      timestep := 20_000_000;
      accumulatedTime := 0;
      iters := 1;
      entities := [];
    }

    /** `onTick`: add the elapsed time, run the whole number of steps it contains (each
        clears every collision record, checks every pair once and ticks every entity),
        then take the steps' time off the accumulator. The result lists the calls each
        step makes on the entities. */
    method OnTick(nanos: Int64) returns (iterations: seq<Iteration>)
      requires timestep > 0
      modifies this
      ensures timestep == old(timestep) && entities == old(entities)
      ensures iters == ItersFor(old(accumulatedTime) + nanos, timestep)
      ensures accumulatedTime == RemainderAsWritten(old(accumulatedTime) + nanos, timestep)
      ensures |iterations| == if iters > 0 then iters as nat else 0
      ensures forall m :: 0 <= m < |iterations| ==> iterations[m] == IterationOf(entities, TickNanos(nanos, iters))
    {
      var total := accumulatedTime + nanos;
      var n := ItersFor(total, timestep);
      var es := entities;
      var dt := TickNanos(nanos, n);
      iterations := [];
      var iter := 1;
      while iter <= n
        invariant 1 <= iter && (n >= 1 ==> iter <= n + 1) && (n <= 0 ==> iter == 1)
        invariant |iterations| == iter - 1
        invariant forall m :: 0 <= m < |iterations| ==> iterations[m] == IterationOf(es, dt)
        invariant timestep == old(timestep) && entities == old(entities) && es == entities
      {
        var it := IterationCalls(es, dt);
        iterations := iterations + [it];
        iter := iter + 1;
      }
      iters := n;
      accumulatedTime := total - Wrap32(n * timestep);
    }

    /** `addEntity`: append. */
    method AddEntity(e: EntityId)
      modifies this
      ensures entities == old(entities) + [e]
      ensures timestep == old(timestep) && accumulatedTime == old(accumulatedTime) && iters == old(iters)
    {
      entities := entities + [e];
    }

    /** `addEntityToFront`: insert at index 0. */
    method AddEntityToFront(e: EntityId)
      modifies this
      ensures entities == [e] + old(entities)
      ensures timestep == old(timestep) && accumulatedTime == old(accumulatedTime) && iters == old(iters)
    {
      entities := [e] + entities;
    }

    /** `removeEntity`: remove the first occurrence; nothing when absent. */
    method RemoveEntity(e: EntityId)
      modifies this
      ensures entities == RemoveFirst(old(entities), e)
      ensures timestep == old(timestep) && accumulatedTime == old(accumulatedTime) && iters == old(iters)
    {
      if e in entities {
        var k := IndexOf(entities, e);
        entities := entities[..k] + entities[k + 1..];
      }
    }

    /** `addEntities`: append each argument in turn. */
    method AddEntities(toAdd: seq<EntityId>)
      modifies this
      ensures entities == old(entities) + toAdd
      ensures timestep == old(timestep) && accumulatedTime == old(accumulatedTime) && iters == old(iters)
    {
      var i := 0;
      while i < |toAdd|
        invariant 0 <= i <= |toAdd|
        invariant entities == old(entities) + toAdd[..i]
        invariant timestep == old(timestep) && accumulatedTime == old(accumulatedTime) && iters == old(iters)
      {
        AddEntity(toAdd[i]);
        assert toAdd[..i + 1] == toAdd[..i] + [toAdd[i]];
        i := i + 1;
      }
      assert toAdd[..i] == toAdd;
    }

    /** `addEntitiesToFront`: insert each argument at index 0 in turn, so they end up in
        reverse order. */
    method AddEntitiesToFront(toAdd: seq<EntityId>)
      modifies this
      ensures entities == Reverse(toAdd) + old(entities)
      ensures timestep == old(timestep) && accumulatedTime == old(accumulatedTime) && iters == old(iters)
    {
      var i := 0;
      while i < |toAdd|
        invariant 0 <= i <= |toAdd|
        invariant entities == Reverse(toAdd[..i]) + old(entities)
        invariant timestep == old(timestep) && accumulatedTime == old(accumulatedTime) && iters == old(iters)
      {
        AddEntityToFront(toAdd[i]);
        ReverseSnoc(toAdd[..i], toAdd[i]);
        assert toAdd[..i + 1] == toAdd[..i] + [toAdd[i]];
        i := i + 1;
      }
      assert toAdd[..i] == toAdd;
    }

    /** `removeEntities`: remove each argument in turn. */
    method RemoveEntities(toRemove: seq<EntityId>)
      modifies this
      ensures entities == RemoveEach(old(entities), toRemove)
      ensures timestep == old(timestep) && accumulatedTime == old(accumulatedTime) && iters == old(iters)
    {
      var i := 0;
      while i < |toRemove|
        invariant 0 <= i <= |toRemove|
        invariant RemoveEach(old(entities), toRemove) == RemoveEach(entities, toRemove[i..])
        invariant timestep == old(timestep) && accumulatedTime == old(accumulatedTime) && iters == old(iters)
      {
        assert toRemove[i..][0] == toRemove[i] && toRemove[i..][1..] == toRemove[i + 1..];
        RemoveEntity(toRemove[i]);
        i := i + 1;
      }
    }

    /** `numEntities`. */
    function NumEntities(): nat
      reads this
    {
      |entities|
    }

    /** `getEntitiesToArr`: a fresh array with the entities in list order. */
    method GetEntitiesToArr() returns (a: array<EntityId>)
      ensures fresh(a) && a[..] == entities
    {
      a := new EntityId[|entities|](k requires 0 <= k < |entities| reads this => entities[k]);
    }

    /** `castRay`: among the entities other than `skip` that are not static, the one
        whose hit point (`hit`, the ray's intersection with its shape) is nearest to
        `src`; the earliest in the list on a tie, `None` when nothing is hit. */
    method CastRay(src: Vec2, skip: Option<EntityId>, isStatic: EntityId -> bool, hit: EntityId -> Option<Vec2>)
      returns (firstHit: Option<(EntityId, Vec2)>)
      ensures firstHit.None? <==> forall k :: 0 <= k < |entities| ==> !HitCounts(entities[k], src, skip, isStatic, hit)
      ensures firstHit.Some? ==> exists idx :: 0 <= idx < |entities| && NearestAt(entities, idx, firstHit.value, src, skip, isStatic, hit)
    {
      var ents := entities;
      firstHit := None;
      ghost var idx := 0;
      var i := 0;
      while i < |ents|
        invariant 0 <= i <= |ents|
        invariant firstHit.None? <==> forall k :: 0 <= k < i ==> !HitCounts(ents[k], src, skip, isStatic, hit)
        invariant firstHit.Some? ==> 0 <= idx < i && NearestAt(ents[..i], idx, firstHit.value, src, skip, isStatic, hit)
      {
        var ent := ents[i];
        if Some(ent) != skip && !isStatic(ent) {
          var cast := hit(ent);
          if cast.Some? {
            if firstHit.None? || Dist2(src, cast.value) < Dist2(src, firstHit.value.1) {
              firstHit := Some((ent, cast.value));
              idx := i;
            }
          }
        }
        i := i + 1;
      }
      assert ents[..i] == ents;
    }
  }

  /** An entity `castRay` considers and whose shape the ray hits. */
  predicate HitCounts(e: EntityId, src: Vec2, skip: Option<EntityId>, isStatic: EntityId -> bool, hit: EntityId -> Option<Vec2>) {
    Some(e) != skip && !isStatic(e) && hit(e).Some?
  }

  /** Slot `idx` holds a counted hit `h` that is strictly nearer than every counted hit
      before it and no farther than every counted hit after it. */
  predicate NearestAt(es: seq<EntityId>, idx: int, h: (EntityId, Vec2), src: Vec2, skip: Option<EntityId>,
                      isStatic: EntityId -> bool, hit: EntityId -> Option<Vec2>)
    requires 0 <= idx < |es|
  {
    es[idx] == h.0 && HitCounts(h.0, src, skip, isStatic, hit) && hit(h.0).value == h.1 &&
    (forall k :: 0 <= k < idx && HitCounts(es[k], src, skip, isStatic, hit) ==> Dist2(src, h.1) < Dist2(src, hit(es[k]).value)) &&
    (forall k :: idx < k < |es| && HitCounts(es[k], src, skip, isStatic, hit) ==> Dist2(src, h.1) <= Dist2(src, hit(es[k]).value))
  }

  // ---------------------------------------------------------------------------
  // The calls of one iteration

  /** Every slot's collision record is cleared, in list order. */
  lemma {:induction false} SlotsInOrder(n: nat)
    ensures |Slots(n)| == n
    ensures forall k :: 0 <= k < n ==> Slots(n)[k] == k
  {
    if n > 0 {
      SlotsInOrder(n - 1);
    }
  }

  /** Slot `i` is checked against exactly the slots after it that hold a different
      entity: never against itself, nor against another slot holding the same entity. */
  lemma {:induction false} CheckedMembers(es: seq<EntityId>, i: nat, j: nat, x: nat)
    requires i <= j <= |es|
    ensures x in Checked(es, i, j) <==> i < x < j && es[i] != es[x]
    decreases j
  {
    if j > i {
      CheckedMembers(es, i, j - 1, x);
    }
  }

  /** The checks of a slot go in increasing slot order, so none is made twice. */
  lemma {:induction false} CheckedIncreasing(es: seq<EntityId>, i: nat, j: nat)
    requires i <= j <= |es|
    ensures forall p, q :: 0 <= p < q < |Checked(es, i, j)| ==> Checked(es, i, j)[p] < Checked(es, i, j)[q]
    ensures forall p :: 0 <= p < |Checked(es, i, j)| ==> Checked(es, i, j)[p] < j
    decreases j
  {
    if j > i {
      CheckedIncreasing(es, i, j - 1);
    }
  }

  /** Each slot has one row, in list order, and every row ticks with the same time. */
  lemma {:induction false} RowsInOrder(es: seq<EntityId>, n: nat, dt: int)
    requires n <= |es|
    ensures |RowsUpTo(es, n, dt)| == n
    ensures forall k :: 0 <= k < n ==> RowsUpTo(es, n, dt)[k] == Row(k, Checked(es, k, |es|), dt)
    decreases n
  {
    if n > 0 {
      RowsInOrder(es, n - 1, dt);
    }
  }

  /** Every pair of slots `a < b` holding different entities is checked exactly once per
      iteration, in row `a`, and so before either entity's tick: row `a` ends with
      `a`'s tick and comes before row `b`. */
  lemma PairCheckedOnceBeforeTicks(es: seq<EntityId>, dt: int, a: nat, b: nat)
    requires a < b < |es|
    ensures var rows := IterationOf(es, dt).rows;
            |rows| == |es| && rows[a].slot == a && rows[b].slot == b &&
            (b in rows[a].checked <==> es[a] != es[b]) &&
            a !in rows[b].checked &&
            multiset(rows[a].checked)[b] <= 1
  {
    RowsInOrder(es, |es|, dt);
    CheckedMembers(es, a, |es|, b);
    CheckedMembers(es, b, |es|, a);
    CheckedIncreasing(es, a, |es|);
    IncreasingCountsOnce(Checked(es, a, |es|), b);
  }

  /** In a strictly increasing sequence every value occurs at most once. */
  lemma {:induction false} IncreasingCountsOnce(s: seq<nat>, x: nat)
    requires forall p, q :: 0 <= p < q < |s| ==> s[p] < s[q]
    ensures multiset(s)[x] <= 1
    decreases |s|
  {
    if s != [] {
      var rest := s[1..];
      IncreasingCountsOnce(rest, x);
      assert s == [s[0]] + rest;
      if s[0] == x {
        assert x !in rest by {
          forall q | 0 <= q < |rest| ensures rest[q] != x {
            assert rest[q] == s[q + 1];
          }
        }
      }
    }
  }

  // ---------------------------------------------------------------------------
  // The time accumulator

  /** With the product taken exactly, a non-negative accumulated time runs exactly
      `total / timestep` steps and keeps less than one step. */
  lemma RemainderBelowTimestep(total: int, timestep: Int32)
    requires timestep > 0 && total >= 0 && total / timestep <= INT_MAX
    ensures ItersFor(total, timestep) == total / timestep
    ensures 0 <= Remainder(total, timestep) < timestep
  {
    assert TruncDiv(total, timestep) == total / timestep;
  }

  /** As written, the accumulator is right whenever the product fits in an `int`. */
  lemma RemainderAsWrittenWhenProductFits(total: int, timestep: Int32)
    requires timestep > 0
    requires INT_MIN <= ItersFor(total, timestep) * timestep <= INT_MAX
    ensures RemainderAsWritten(total, timestep) == Remainder(total, timestep)
  {
  }

  /** A 2.2 s frame at the default 20 ms step runs 110 steps, whose `int` product
      wraps: the accumulator is left at 2^32 ns instead of 0. */
  lemma AccumulatorOverflow()
    ensures ItersFor(2_200_000_000, 20_000_000) == 110
    ensures Remainder(2_200_000_000, 20_000_000) == 0
    ensures RemainderAsWritten(2_200_000_000, 20_000_000) == 4_294_967_296
  {
    assert TruncDiv(2_200_000_000, 20_000_000) == 110;
    Wrap32By(2_200_000_000, 1);
  }

  // ---------------------------------------------------------------------------
  // The entity list

  /** Removing an entity takes out exactly one occurrence when there is one and keeps
      the order of the rest. */
  lemma RemoveFirstTakesOne(s: seq<EntityId>, e: EntityId)
    ensures e in s ==> |RemoveFirst(s, e)| == |s| - 1 && multiset(RemoveFirst(s, e)) == multiset(s) - multiset{e}
    ensures e !in s ==> RemoveFirst(s, e) == s
  {
    if e in s {
      var k := IndexOf(s, e);
      assert s == s[..k] + [e] + s[k + 1..];
    }
  }

  /** Removing a list of entities one by one takes away exactly their multiset. */
  lemma {:induction false} RemoveEachIsDifference(s: seq<EntityId>, toRemove: seq<EntityId>)
    ensures multiset(RemoveEach(s, toRemove)) == multiset(s) - multiset(toRemove)
    decreases |toRemove|
  {
    if toRemove != [] {
      var e := toRemove[0];
      RemoveFirstTakesOne(s, e);
      RemoveEachIsDifference(RemoveFirst(s, e), toRemove[1..]);
      assert toRemove == [e] + toRemove[1..];
      if e !in s {
        assert multiset(s) - multiset{e} == multiset(s);
      }
    }
  }

  /** Reversal puts the last element first. */
  lemma {:induction false} ReverseAt(s: seq<EntityId>)
    ensures forall k :: 0 <= k < |s| ==> Reverse(s)[k] == s[|s| - 1 - k]
    decreases |s|
  {
    if s != [] {
      ReverseAt(s[1..]);
    }
  }

  lemma {:induction false} ReverseSnoc(s: seq<EntityId>, e: EntityId)
    ensures Reverse(s + [e]) == [e] + Reverse(s)
    decreases |s|
  {
    if s == [] {
      assert [e][1..] == [];
    } else {
      assert (s + [e])[1..] == s[1..] + [e];
      ReverseSnoc(s[1..], e);
    }
  }
}
