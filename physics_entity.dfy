/** The rigid-body state of the engine's `PhysicsEntity`: force and impulse accumulators,
    linear and angular velocity, the behaviour flags and the per-tick list of collision
    records. The shape is reduced to what the physics reads from it: its area, the offset
    of its centroid from the entity's location and its moment of inertia per unit mass. */
module Physics {

  import opened Wrappers
  import opened JavaInt
  import opened Vectors

  /** An accumulator: the summed vector (`_force` or `_impulse`) together with the summed
      torque about the centroid (`_angularForce` or `_angularImpulse`). */
  datatype Load = Load(linear: Vec2, angular: real)

  const UNLOADED: Load := Load(ZERO, 0.0)

  /** What `applyForce`/`applyImpulse` add to a non-static entity's accumulator for the
      vector `v` applied at offset `r` from the centroid: `v` to the linear part and, for a
      rotatable entity, the torque `r × total` of the UPDATED running total. */
  function AddAt(l: Load, v: Vec2, r: Vec2, rotatable: bool): Load {
    var linear := Add(l.linear, v);
    Load(linear, if rotatable then l.angular + Cross(r, linear) else l.angular)
  }

  /** Several applications in order, each a `(vector, offset)` pair. */
  function AddAll(l: Load, vs: seq<(Vec2, Vec2)>, rotatable: bool): Load {
    if vs == [] then l
    else AddAt(AddAll(l, vs[..|vs| - 1], rotatable), vs[|vs| - 1].0, vs[|vs| - 1].1, rotatable)
  }

  /** The sum of the vectors of several applications. */
  function SumOf(vs: seq<(Vec2, Vec2)>): Vec2 {
    if vs == [] then ZERO else Add(SumOf(vs[..|vs| - 1]), vs[|vs| - 1].0)
  }

  /** Location, velocity, angle and angular velocity: what `symplecticUpdate` integrates. */
  datatype Motion = Motion(location: Vec2, vel: Vec2, angle: real, angularVel: real)

  /** One `symplecticUpdate` step of `time` seconds for a body of mass `mass` and moment
      of inertia `inertia`: the velocities first, from the accumulated force, impulse and
      torques; then location and, for a rotatable body only, angle from the NEW velocities. */
  function Integrate(m: Motion, force: Load, impulse: Load, mass: real, inertia: real,
                     time: real, rotatable: bool): Motion
    requires mass != 0.0 && inertia != 0.0
  {
    var vel := Add(m.vel, Add(Div(Scale(force.linear, time), mass), Div(impulse.linear, mass)));
    var angularVel := m.angularVel + force.angular * (time / inertia) + impulse.angular / inertia;
    Motion(Add(m.location, Scale(vel, time)), vel,
           if rotatable then m.angle + angularVel * time else m.angle, angularVel)
  }

  /** `nanos / 1000000000.0f`: a tick length in seconds. */
  function Seconds(nanos: int): real {
    nanos as real / 1_000_000_000.0
  }

  /** The fraction of its MTV by which `collisionResponse` moves a non-static body: its
      partner's share of the total mass, or all of it against a static partner. */
  function Share(partnerMass: real, ownMass: real, partnerStatic: bool): real
    requires partnerMass > 0.0 && ownMass > 0.0
  {
    if partnerStatic then 1.0 else partnerMass / (partnerMass + ownMass)
  }

  /** Whether `collisionResponse` separates the pair: both shapes carry collision data, the
      shapes have a point of intersection and neither MTV is zero. */
  predicate Separates(thisMtv: Option<Vec2>, otherMtv: Option<Vec2>, poi: Option<Vec2>) {
    thisMtv.Some? && otherMtv.Some? && poi.Some? && thisMtv.value != ZERO && otherMtv.value != ZERO
  }

  /** A `PhysicsCollisionInfo`: the MTV of a collision and the entity collided with. */
  datatype CollisionRecord = CollisionRecord(mtv: Vec2, other: PhysicsEntity)

  /** The null entry appended for a side whose shape carried no collision data. */
  function NullEntry(data: Option<Vec2>): seq<Option<CollisionRecord>> {
    if data.None? then [None] else []
  }

  /** Whether the record list holds a real (non-null) collision. */
  predicate HasRecord(rs: seq<Option<CollisionRecord>>) {
    exists k :: 0 <= k < |rs| && rs[k].Some?
  }

  /** Whether the record list holds a real collision with `other`. */
  predicate HasRecordOf(rs: seq<Option<CollisionRecord>>, other: PhysicsEntity) {
    exists k :: 0 <= k < |rs| && rs[k].Some? && rs[k].value.other == other
  }

  /** The behaviour flags. */
  datatype Flags = Flags(isStatic: bool, isInteractive: bool, isRotatable: bool,
                         isGravitational: bool, freeMoving: bool)

  /** The material and shape data that the physics reads but never changes. */
  datatype Material = Material(area: real, centroidOffset: Vec2, inertiaPerMass: real,
                               density: real, delta: Vec2)

  class PhysicsEntity {
    var location: Vec2
    var angle: real
    var vel: Vec2
    var angularVel: real
    var force: Load
    var impulse: Load
    var collisionInfo: seq<Option<CollisionRecord>>

    var area: real
    var centroidOffset: Vec2
    var inertiaPerMass: real
    var density: real
    /** The per-tick displacement of a free-moving entity (`_dx`, `_dy`). */
    var delta: Vec2

    var isStatic: bool
    var isInteractive: bool
    var isRotatable: bool
    var isGravitational: bool
    var freeMoving: bool

    /** Positive area, density and inertia: the masses the physics divides by are positive. */
    predicate Valid()
      reads this`density, this`area, this`inertiaPerMass
    {
      area > 0.0 && density > 0.0 && inertiaPerMass > 0.0
    }

    /** `getMass()`: density times area. */
    function Mass(): (m: real)
      reads this`density, this`area
      ensures Valid() ==> m > 0.0
    {
      density * area
    }

    /** `getMomentOfInertia(getMass())`. */
    function MomentOfInertia(): (i: real)
      reads this`density, this`area, this`inertiaPerMass
      ensures Valid() ==> i > 0.0
    {
      inertiaPerMass * Mass()
    }

    function Centroid(): Vec2
      reads this`location, this`centroidOffset
    {
      Add(location, centroidOffset)
    }

    function Kinematics(): Motion
      reads this`location, this`vel, this`angle, this`angularVel
    {
      Motion(location, vel, angle, angularVel)
    }

    function FlagsOf(): Flags
      reads this`isStatic, this`isInteractive, this`isRotatable, this`isGravitational, this`freeMoving
    {
      Flags(isStatic, isInteractive, isRotatable, isGravitational, freeMoving)
    }

    function MaterialOf(): Material
      reads this`area, this`centroidOffset, this`inertiaPerMass, this`density, this`delta
    {
      Material(area, centroidOffset, inertiaPerMass, density, delta)
    }

    /** What a collision response leaves alone: everything but the location, the impulse
        accumulator and the record list. */
    twostate predicate KeepsAllButPlacement()
      reads this
    {
      old(vel) == vel && old(angle) == angle && old(angularVel) == angularVel &&
      old(force) == force && old(FlagsOf()) == FlagsOf() && old(MaterialOf()) == MaterialOf()
    }

    /** A new entity at rest with the given shape: density 1, no load, not static,
        interactive, rotatable, gravitational and free-moving, with no collision records. */
    constructor (location: Vec2, area: real, centroidOffset: Vec2, inertiaPerMass: real)
      requires area > 0.0 && inertiaPerMass > 0.0
      ensures Valid()
      ensures Kinematics() == Motion(location, ZERO, 0.0, 0.0)
      ensures force == UNLOADED && impulse == UNLOADED && collisionInfo == []
      ensures FlagsOf() == Flags(false, true, true, true, true)
      ensures MaterialOf() == Material(area, centroidOffset, inertiaPerMass, 1.0, ZERO)
    {
      this.location := location;
      angle := 0.0;
      vel := ZERO;
      angularVel := 0.0;
      force := UNLOADED;
      impulse := UNLOADED;
      collisionInfo := [];
      this.area := area;
      this.centroidOffset := centroidOffset;
      this.inertiaPerMass := inertiaPerMass;
      density := 1.0;
      delta := ZERO;
      isStatic := false;
      isInteractive := true;
      isRotatable := true;
      isGravitational := true;
      freeMoving := true;
    }

    /** `move`: a static entity stays where it is. */
    method Move(d: Vec2)
      modifies this
      ensures location == if isStatic then old(location) else Add(old(location), d)
      ensures vel == old(vel) && angle == old(angle) && angularVel == old(angularVel)
      ensures force == old(force) && impulse == old(impulse) && collisionInfo == old(collisionInfo)
      ensures FlagsOf() == old(FlagsOf()) && MaterialOf() == old(MaterialOf())
    {
      if !isStatic {
        location := Add(location, d);
      }
    }

    /** `applyForce`: a static entity ignores it; otherwise the force joins the force
        accumulator and, when rotatable, its torque joins the angular one. */
    method ApplyForce(f: Vec2, point: Vec2)
      modifies this
      ensures force == if isStatic then old(force)
                       else AddAt(old(force), f, Sub(point, Centroid()), isRotatable)
      ensures Kinematics() == old(Kinematics()) && impulse == old(impulse)
      ensures collisionInfo == old(collisionInfo)
      ensures FlagsOf() == old(FlagsOf()) && MaterialOf() == old(MaterialOf())
    {
      if !isStatic {
        var linear := Add(force.linear, f);
        force := force.(linear := linear);
        if isRotatable {
          var r := Sub(point, Centroid());
          force := force.(angular := force.angular + Cross(r, force.linear));
        }
      }
    }

    /** `applyImpulse`: the same rule for the impulse accumulators. */
    method ApplyImpulse(i: Vec2, point: Vec2)
      modifies this
      ensures impulse == if isStatic then old(impulse)
                         else AddAt(old(impulse), i, Sub(point, Centroid()), isRotatable)
      ensures Kinematics() == old(Kinematics()) && force == old(force)
      ensures collisionInfo == old(collisionInfo)
      ensures FlagsOf() == old(FlagsOf()) && MaterialOf() == old(MaterialOf())
    {
      if !isStatic {
        var linear := Add(impulse.linear, i);
        impulse := impulse.(linear := linear);
        if isRotatable {
          var r := Sub(point, Centroid());
          impulse := impulse.(angular := impulse.angular + Cross(r, impulse.linear));
        }
      }
    }

    /** `symplecticUpdate`: one integration step over `nanos` nanoseconds, after which
        every accumulator is back to zero. */
    method SymplecticUpdate(nanos: Int64)
      requires Valid()
      modifies this
      ensures MaterialOf() == old(MaterialOf()) && Valid()
      ensures Kinematics() == Integrate(old(Kinematics()), old(force), old(impulse), Mass(),
                                        MomentOfInertia(), Seconds(nanos), isRotatable)
      ensures force == UNLOADED && impulse == UNLOADED
      ensures collisionInfo == old(collisionInfo) && FlagsOf() == old(FlagsOf())
    {
      var next := Integrate(Kinematics(), force, impulse, Mass(), MomentOfInertia(),
                            Seconds(nanos), isRotatable);
      location, vel, angle, angularVel := next.location, next.vel, next.angle, next.angularVel;
      force := UNLOADED;
      impulse := UNLOADED;
    }

    /** `onTick`: a free-moving entity first moves by its delta; then gravity, scaled by
        the mass, is applied at the centroid (whether or not the entity is gravitational)
        and the step is integrated. */
    method OnTick(nanos: Int64, gravity: Vec2)
      requires Valid()
      modifies this
      ensures MaterialOf() == old(MaterialOf()) && Valid()
      ensures var start := if freeMoving && !isStatic then Add(old(location), delta) else old(location);
              var load := if isStatic then old(force)
                          else AddAt(old(force), Scale(gravity, Mass()), ZERO, isRotatable);
              Kinematics() == Integrate(old(Kinematics()).(location := start), load, old(impulse),
                                        Mass(), MomentOfInertia(), Seconds(nanos), isRotatable)
      ensures force == UNLOADED && impulse == UNLOADED
      ensures collisionInfo == old(collisionInfo) && FlagsOf() == old(FlagsOf())
    {
      if freeMoving {
        Move(delta);
      }
      ApplyForce(Scale(gravity, Mass()), Centroid());
      SymplecticUpdate(nanos);
    }

    /** This side's outcome of a separating response against `other`: moved out by its
        share of `mtv` unless static, the impulse `j` applied at `point` unless static,
        and the collision with `other` recorded. */
    twostate predicate SeparatedFrom(other: PhysicsEntity, mtv: Vec2, point: Vec2, j: Vec2)
      requires Valid() && other.Valid()
      reads this, other
    {
      location == (if isStatic then old(location)
                   else Add(old(location), Scale(mtv, Share(other.Mass(), Mass(), other.isStatic)))) &&
      impulse == (if isStatic then old(impulse)
                  else AddAt(old(impulse), j, Sub(point, Centroid()), isRotatable)) &&
      collisionInfo == old(collisionInfo) + [Some(CollisionRecord(mtv, other))]
    }

    /** One side of the separating branch of `collisionResponse`: unless static, move out
        by this entity's share of `mtv`; apply `j` at `at` (or, for `None`, at the centroid
        once moved); record the collision with `partner`. */
    method Recoil(partner: PhysicsEntity, mtv: Vec2, at: Option<Vec2>, j: Vec2)
      requires partner != this && Valid() && partner.Valid()
      modifies this
      ensures Valid() && KeepsAllButPlacement()
      ensures SeparatedFrom(partner, mtv, if at.Some? then at.value else Centroid(), j)
    {
      if !isStatic {
        location := Add(location, Scale(mtv, Share(partner.Mass(), Mass(), partner.isStatic)));
      }
      ghost var moved := location;
      var point := if at.Some? then at.value else Centroid();
      ApplyImpulse(j, point);
      assert location == moved && Centroid() == Add(moved, centroidOffset);
      collisionInfo := collisionInfo + [Some(CollisionRecord(mtv, partner))];
    }

    /** The separating branch of `collisionResponse`. The source moves both bodies before
        applying either impulse; as each step touches one body only, running the two sides
        one after the other gives the same result. */
    method Separate(other: PhysicsEntity, thisMtv: Vec2, otherMtv: Vec2, poi: Vec2, j: Vec2)
      requires other != this && Valid() && other.Valid()
      modifies this, other
      ensures Valid() && other.Valid()
      ensures KeepsAllButPlacement() && other.KeepsAllButPlacement()
      ensures SeparatedFrom(other, thisMtv, if isRotatable then poi else Centroid(), j)
      ensures other.SeparatedFrom(this, otherMtv, if isRotatable then poi else other.Centroid(),
                                  Scale(j, -1.0))
    {
      var at := if isRotatable then Some(poi) else None;
      other.Recoil(this, otherMtv, at, Scale(j, -1.0));
      Recoil(other, thisMtv, at, j);
    }

    /** The outcome of `collisionResponse` on both entities, given each shape's MTV, their
        point of intersection and the impulse `j`: when the data is there and both MTVs are
        non-zero, each side is separated from the other (this one by `j`, the partner by
        `-j`, at the point of intersection for a rotatable entity and at its own centroid
        otherwise); else neither entity moves or receives an impulse, each side that lacks
        collision data gets a null record, and with all data present nothing is recorded. */
    twostate predicate Responded(other: PhysicsEntity, thisMtv: Option<Vec2>, otherMtv: Option<Vec2>,
                                 poi: Option<Vec2>, j: Vec2)
      requires Valid() && other.Valid()
      reads this, other
    {
      (Separates(thisMtv, otherMtv, poi) ==>
         SeparatedFrom(other, thisMtv.value, if isRotatable then poi.value else Centroid(), j) &&
         other.SeparatedFrom(this, otherMtv.value, if isRotatable then poi.value else other.Centroid(),
                             Scale(j, -1.0))) &&
      (!Separates(thisMtv, otherMtv, poi) ==>
         location == old(location) && other.location == old(other.location) &&
         impulse == old(impulse) && other.impulse == old(other.impulse)) &&
      (thisMtv.None? || otherMtv.None? || poi.None? ==>
         collisionInfo == old(collisionInfo) + NullEntry(thisMtv) &&
         other.collisionInfo == old(other.collisionInfo) + NullEntry(otherMtv)) &&
      (thisMtv.Some? && otherMtv.Some? && poi.Some? && !Separates(thisMtv, otherMtv, poi) ==>
         collisionInfo == old(collisionInfo) && other.collisionInfo == old(other.collisionInfo))
    }

    /** `collisionResponse` with the shape-level data as parameters: each shape's MTV
        (`None` where the shape holds no collision data), their point of intersection, and
        the impulse `j` that `calculateImpulse` yields for this entity (the partner receives
        `-j`, equal and opposite). A separating response moves each non-static body out,
        applies the impulses and records the collision on both sides; missing data appends
        a null record for each side that lacks it, and changes nothing else. */
    method CollisionResponse(other: PhysicsEntity, thisMtv: Option<Vec2>, otherMtv: Option<Vec2>,
                             poi: Option<Vec2>, j: Vec2)
      requires other != this && Valid() && other.Valid()
      modifies this, other
      ensures Valid() && other.Valid()
      ensures KeepsAllButPlacement() && other.KeepsAllButPlacement()
      ensures Responded(other, thisMtv, otherMtv, poi, j)
    {
      if thisMtv.Some? && otherMtv.Some? && poi.Some? {
        if otherMtv.value != ZERO && thisMtv.value != ZERO {
          Separate(other, thisMtv.value, otherMtv.value, poi.value, j);
        }
      } else {
        if otherMtv.None? {
          other.collisionInfo := other.collisionInfo + [None];
        }
        if thisMtv.None? {
          collisionInfo := collisionInfo + [None];
        }
      }
    }

    /** `collides`: two static entities never collide and get no response; otherwise the
        result is the shapes' own verdict `detected`, and the response runs (whatever that
        verdict) when both entities are interactive. */
    method Collides(other: PhysicsEntity, detected: bool, thisMtv: Option<Vec2>,
                    otherMtv: Option<Vec2>, poi: Option<Vec2>, j: Vec2) returns (collision: bool)
      requires other != this && Valid() && other.Valid()
      modifies this, other
      ensures collision <==> detected && !(isStatic && other.isStatic)
      ensures (isStatic && other.isStatic) || !(isInteractive && other.isInteractive) ==>
                unchanged(this) && unchanged(other)
      ensures Valid() && other.Valid()
      ensures KeepsAllButPlacement() && other.KeepsAllButPlacement()
      ensures !(isStatic && other.isStatic) && isInteractive && other.isInteractive ==>
                Responded(other, thisMtv, otherMtv, poi, j)
    {
      if isStatic && other.isStatic {
        return false;
      }
      collision := detected;
      if isInteractive && other.isInteractive {
        CollisionResponse(other, thisMtv, otherMtv, poi, j);
      }
    }

    /** `didCollide()`: whether any record of the last tick is a real collision. */
    method DidCollide() returns (b: bool)
      ensures b <==> HasRecord(collisionInfo)
    {
      var i := 0;
      while i < |collisionInfo|
        invariant 0 <= i <= |collisionInfo|
        invariant forall k :: 0 <= k < i ==> collisionInfo[k].None?
      {
        if collisionInfo[i].Some? {
          return true;
        }
        i := i + 1;
      }
      return false;
    }

    /** `didCollide(other)`: whether a real record names `other` (by identity). */
    method DidCollideWith(other: PhysicsEntity) returns (b: bool)
      ensures b <==> HasRecordOf(collisionInfo, other)
    {
      var i := 0;
      while i < |collisionInfo|
        invariant 0 <= i <= |collisionInfo|
        invariant forall k :: 0 <= k < i ==> collisionInfo[k].None? || collisionInfo[k].value.other != other
      {
        if collisionInfo[i].Some? && collisionInfo[i].value.other == other {
          return true;
        }
        i := i + 1;
      }
      return false;
    }
  }

  /** The linear accumulator is the plain sum of what was applied, whatever the offsets. */
  lemma {:induction false} LinearIsSum(l: Load, vs: seq<(Vec2, Vec2)>, rotatable: bool)
    ensures AddAll(l, vs, rotatable).linear == Add(l.linear, SumOf(vs))
    decreases |vs|
  {
    if vs != [] {
      LinearIsSum(l, vs[..|vs| - 1], rotatable);
    }
  }

  /** A non-rotatable entity's torque accumulator never changes. */
  lemma {:induction false} NonRotatableKeepsTorque(l: Load, vs: seq<(Vec2, Vec2)>)
    ensures AddAll(l, vs, false).angular == l.angular
    decreases |vs|
  {
    if vs != [] {
      NonRotatableKeepsTorque(l, vs[..|vs| - 1]);
    }
  }

  /** The torque of an application is taken with the running total, not with the vector
      applied: a push along the lever arm, which alone exerts no torque, adds one when
      another load was applied earlier in the same tick. */
  lemma TorqueCountsEarlierLoads()
    ensures AddAll(UNLOADED, [(Vec2(1.0, 0.0), Vec2(1.0, 0.0))], true).angular == 0.0
    ensures AddAll(UNLOADED, [(Vec2(0.0, 1.0), ZERO), (Vec2(1.0, 0.0), Vec2(1.0, 0.0))], true).angular == 1.0
  {
    var first: (Vec2, Vec2) := (Vec2(0.0, 1.0), ZERO);
    var second: (Vec2, Vec2) := (Vec2(1.0, 0.0), Vec2(1.0, 0.0));
    var vs: seq<(Vec2, Vec2)> := [first, second];
    var one: seq<(Vec2, Vec2)> := [first];
    assert vs[..1] == one && one[..0] == [];
    calc {
      AddAll(UNLOADED, vs, true);
      AddAt(AddAll(UNLOADED, one, true), second.0, second.1, true);
      { assert AddAll(UNLOADED, one, true) == AddAt(UNLOADED, first.0, first.1, true); }
      AddAt(AddAt(UNLOADED, first.0, first.1, true), second.0, second.1, true);
      { assert AddAt(UNLOADED, first.0, first.1, true) == Load(Vec2(0.0, 1.0), 0.0); }
      AddAt(Load(Vec2(0.0, 1.0), 0.0), second.0, second.1, true);
      Load(Vec2(1.0, 1.0), 1.0);
    }
  }

  /** What one integration step does: the momentum changes by force times time plus
      impulse, the angular momentum likewise by the torques; the location then advances by
      the NEW velocity times time, and the angle by the new angular velocity times time
      for a rotatable body only. */
  lemma IntegrateStep(m: Motion, force: Load, impulse: Load, mass: real, inertia: real,
                      time: real, rotatable: bool)
    requires mass != 0.0 && inertia != 0.0
    ensures var r := Integrate(m, force, impulse, mass, inertia, time, rotatable);
            Scale(Sub(r.vel, m.vel), mass) == Add(Scale(force.linear, time), impulse.linear) &&
            (r.angularVel - m.angularVel) * inertia == force.angular * time + impulse.angular &&
            r.location == Add(m.location, Scale(r.vel, time)) &&
            r.angle == (if rotatable then m.angle + r.angularVel * time else m.angle)
  {
    var r := Integrate(m, force, impulse, mass, inertia, time, rotatable);
    var fx, fy := force.linear.x * time, force.linear.y * time;
    assert (r.vel.x - m.vel.x) * mass == fx + impulse.linear.x by {
      assert r.vel.x - m.vel.x == fx / mass + impulse.linear.x / mass;
    }
    assert (r.vel.y - m.vel.y) * mass == fy + impulse.linear.y by {
      assert r.vel.y - m.vel.y == fy / mass + impulse.linear.y / mass;
    }
    assert (r.angularVel - m.angularVel) * inertia == force.angular * time + impulse.angular by {
      assert r.angularVel - m.angularVel == force.angular * (time / inertia) + impulse.angular / inertia;
    }
  }

  /** With nothing applied the body coasts: velocities are kept, and location and (if
      rotatable) angle advance uniformly. */
  lemma UnloadedBodyCoasts(m: Motion, mass: real, inertia: real, time: real, rotatable: bool)
    requires mass != 0.0 && inertia != 0.0
    ensures Integrate(m, UNLOADED, UNLOADED, mass, inertia, time, rotatable) ==
            Motion(Add(m.location, Scale(m.vel, time)), m.vel,
                   if rotatable then m.angle + m.angularVel * time else m.angle, m.angularVel)
  {
    var r := Integrate(m, UNLOADED, UNLOADED, mass, inertia, time, rotatable);
    assert r.vel == m.vel;
  }

  /** Between two non-static bodies the MTV shares are their partners' mass fractions:
      each strictly between 0 and 1, the heavier partner pushing further, and together
      they sum to 1. Against a static partner the share is the whole MTV. */
  lemma SharesSplitMtv(m1: real, m2: real)
    requires m1 > 0.0 && m2 > 0.0
    ensures 0.0 < Share(m1, m2, false) < 1.0
    ensures Share(m1, m2, false) + Share(m2, m1, false) == 1.0
    ensures m1 >= m2 ==> Share(m1, m2, false) >= Share(m2, m1, false)
    ensures Share(m1, m2, true) == 1.0
  {
    var total := m1 + m2;
    assert Share(m1, m2, false) * total == m1;
    assert Share(m2, m1, false) * total == m2;
    assert Share(m1, m2, false) + Share(m2, m1, false) == total / total;
  }

  /** A null record never makes `didCollide` or `didCollide(other)` true. */
  lemma NullEntriesAreNotCollisions(rs: seq<Option<CollisionRecord>>, data: Option<Vec2>, other: PhysicsEntity)
    ensures HasRecord(rs + NullEntry(data)) <==> HasRecord(rs)
    ensures HasRecordOf(rs + NullEntry(data), other) <==> HasRecordOf(rs, other)
  {
    var rs' := rs + NullEntry(data);
    assert forall k :: 0 <= k < |rs| ==> rs'[k] == rs[k];
    assert forall k :: |rs| <= k < |rs'| ==> rs'[k].None?;
  }

  /** A recorded collision is found by `didCollide` and by `didCollide(other)` for the
      entity it names, and `didCollide(other)` implies `didCollide()`. */
  lemma RecordedCollisionIsFound(rs: seq<Option<CollisionRecord>>, mtv: Vec2, other: PhysicsEntity)
    ensures HasRecordOf(rs + [Some(CollisionRecord(mtv, other))], other)
    ensures forall o :: HasRecordOf(rs, o) ==> HasRecord(rs)
  {
    var rs' := rs + [Some(CollisionRecord(mtv, other))];
    assert rs'[|rs|].Some? && rs'[|rs|].value.other == other;
    forall o | HasRecordOf(rs, o)
      ensures HasRecord(rs)
    {
      var k :| 0 <= k < |rs| && rs[k].Some? && rs[k].value.other == o;
    }
  }
}
