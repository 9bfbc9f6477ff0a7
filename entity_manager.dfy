/**
 * src/EntityManager.cpp: the collection of entities, which resolves a shot
 * to the closest entity on the ray, advances every entity by one frame, and
 * tests two spheres for overlap.
 */
module Manager {
  import opened Wrappers
  import opened Geometry
  import opened Closest
  import opened Colliders

  /**
   * Entity::Type: what happens to an entity that died. Goner and Mover are
   * the two values the manager acts on; Other stands for any further value.
   */
  datatype EntityType = Goner | Mover | Other

  /** The fields of an entity that the manager reads or writes */
  datatype Entity = Entity(
    kind: EntityType,
    destroyable: bool,
    damagedThisFrame: bool,
    referentialPos: Vec3,
    currentPos: Vec3,
    collision: Option<CollisionObject>)
  {
    /** moveRelative: the current position, and the collider with it, go to referential + offset */
    function MoveRelative(offset: Vec3): (e: Entity)
      ensures e.currentPos == referentialPos.Plus(offset) && e.referentialPos == referentialPos
      ensures e.collision.Some? == collision.Some?
      ensures e.collision.Some? ==> e.collision.value == collision.value.(pos := e.currentPos)
      ensures e.kind == kind && e.destroyable == destroyable && e.damagedThisFrame == damagedThisFrame
    {
      var p := referentialPos.Plus(offset);
      this.(currentPos := p, collision := match collision case None => None case Some(c) => Some(c.MovedTo(p)))
    }
  }

  /** Every entity has a collision object, which updateShotEntities dereferences unconditionally */
  ghost predicate AllCollidable(es: seq<Entity>)
  {
    forall i | 0 <= i < |es| :: es[i].collision.Some?
  }

  /** collisionObject()->isIntersectedByLine(eyePos, eyeDir): the hit distance of each entity, if hit */
  function HitDistances(es: seq<Entity>, eyePos: Vec3, eyeDir: Vec3,
                        intersect: (CollisionObject, Vec3, Vec3) -> Option<real>): (d: seq<Option<real>>)
    requires AllCollidable(es)
  {
    seq(|es|, i requires 0 <= i < |es| && es[i].collision.Some? => intersect(es[i].collision.value, eyePos, eyeDir))
  }

  /**
   * The entity a shot damages: the first of the nearest hit entities, and
   * only when that one is destroyable.
   */
  function ShotTarget(es: seq<Entity>, eyePos: Vec3, eyeDir: Vec3,
                      intersect: (CollisionObject, Vec3, Vec3) -> Option<real>): Option<nat>
    requires AllCollidable(es)
  {
    match FirstMin(HitDistances(es, eyePos, eyeDir, intersect))
    case None => None
    case Some(k) => if es[k].destroyable then Some(k) else None
  }

  /**
   * A shot damages entity k exactly when k is hit, no entity is hit nearer,
   * every entity before k is hit strictly farther or not at all, and k is
   * destroyable; it damages none exactly when nothing is hit or the nearest
   * hit is not destroyable.
   */
  lemma ShotTargetIsFirstNearest(es: seq<Entity>, eyePos: Vec3, eyeDir: Vec3,
                                 intersect: (CollisionObject, Vec3, Vec3) -> Option<real>)
    requires AllCollidable(es)
    ensures var d, r := HitDistances(es, eyePos, eyeDir, intersect), ShotTarget(es, eyePos, eyeDir, intersect);
            && (r.Some? ==> IsFirstMin(d, r.value) && es[r.value].destroyable)
            && (r.None? <==> (forall i | 0 <= i < |es| :: d[i].None?) || exists k: nat :: IsFirstMin(d, k) && !es[k].destroyable)
  {
    var d := HitDistances(es, eyePos, eyeDir, intersect);
    FirstMinCorrect(d);
    forall k | IsFirstMin(d, k) {
      FirstMinUnique(d, k);
    }
  }

  /** The outcome of Entity::update for a frame: the updated entity, and whether it died */
  type Update = (Entity, real) -> (Entity, bool)

  predicate InRange(v: real, lo: real, hi: real)
  {
    lo <= v <= hi
  }

  /** g_rng->getFloatInRange: some value of the closed range, which the model does not fix */
  method GetFloatInRange(leftInclusive: real, rightInclusive: real) returns (v: real)
    requires leftInclusive <= rightInclusive
    ensures leftInclusive <= v <= rightInclusive
  {
    assert InRange(leftInclusive, leftInclusive, rightInclusive);
    v :| InRange(v, leftInclusive, rightInclusive);
    assert InRange(v, leftInclusive, rightInclusive);
  }

  /** After updateEntities, entity e holds what the update left in slot s */
  ghost predicate Settled(s: (Entity, bool), e: Entity)
  {
    if !s.1 then e == s.0
    else
      && s.0.kind == Mover
      && -8.0 <= e.referentialPos.x <= 8.0 && 2.0 <= e.referentialPos.y <= 18.0
      && e == Respawned(s.0, e.referentialPos.x, e.referentialPos.y)
  }

  /** A dead mover re-anchored at (x, y, -8) and placed on its new referential */
  function Respawned(e: Entity, x: real, y: real): (r: Entity)
    ensures r.referentialPos == Vec3(x, y, -8.0) && r.currentPos == r.referentialPos
    ensures r.kind == e.kind && r.destroyable == e.destroyable && r.damagedThisFrame == e.damagedThisFrame
    ensures r.collision.Some? == e.collision.Some?
    ensures r.collision.Some? ==> r.collision.value == e.collision.value.(pos := r.currentPos)
  {
    e.(referentialPos := Vec3(x, y, -8.0)).MoveRelative(Zero)
  }

  /**
   * What survives one frame, in order: each entity updated once and paired with
   * whether it died, except the goners that died, which are gone.
   */
  function Survivors(es: seq<Entity>, t: real, update: Update): seq<(Entity, bool)>
    decreases |es|
  {
    if es == [] then []
    else
      var n := |es| - 1;
      var s := update(es[n], t);
      Survivors(es[..n], t, update) + (if s.1 && s.0.kind == Goner then [] else [s])
  }

  /** One more entity: its slot is appended unless it is a goner that died */
  lemma SurvivorsSnoc(es: seq<Entity>, k: nat, t: real, update: Update)
    requires k < |es|
    ensures var s := update(es[k], t);
            Survivors(es[..k + 1], t, update) ==
              Survivors(es[..k], t, update) + (if s.1 && s.0.kind == Goner then [] else [s])
  {
    assert es[..k + 1][..k] == es[..k];
  }

  /** Entity m of es holds what the update left in slot m, for every m */
  ghost predicate AllSettled(s: seq<(Entity, bool)>, es: seq<Entity>)
  {
    |es| == |s| && forall m | 0 <= m < |s| :: Settled(s[m], es[m])
  }

  /** Appending a settled pair keeps every pair settled */
  lemma SettledSnoc(s: seq<(Entity, bool)>, done: seq<Entity>, x: (Entity, bool), e: Entity)
    requires AllSettled(s, done) && Settled(x, e)
    ensures AllSettled(s + [x], done + [e])
  {
    assert forall m | 0 <= m < |s| :: (s + [x])[m] == s[m] && (done + [e])[m] == done[m];
  }

  /** An entity that did not die stays in its slot as updated and is kept */
  lemma StepKept(olds: seq<Entity>, k: nat, done: seq<Entity>, t: real, update: Update)
    requires k < |olds| && AllSettled(Survivors(olds[..k], t, update), done)
    requires !update(olds[k], t).1
    ensures var u := update(olds[k], t).0;
            && (done + olds[k..])[|done| := u] == done + [u] + olds[k + 1..]
            && AllSettled(Survivors(olds[..k + 1], t, update), done + [u])
  {
    SurvivorsSnoc(olds, k, t, update);
    assert olds[k..] == [olds[k]] + olds[k + 1..];
    SettledSnoc(Survivors(olds[..k], t, update), done, update(olds[k], t), update(olds[k], t).0);
  }

  /** A goner that died is erased from its slot and not kept */
  lemma StepErased(olds: seq<Entity>, k: nat, done: seq<Entity>, t: real, update: Update)
    requires k < |olds| && AllSettled(Survivors(olds[..k], t, update), done)
    requires update(olds[k], t).1 && update(olds[k], t).0.kind == Goner
    ensures var c := (done + olds[k..])[|done| := update(olds[k], t).0];
            && c[..|done|] + c[|done| + 1..] == done + olds[k + 1..]
            && AllSettled(Survivors(olds[..k + 1], t, update), done)
  {
    SurvivorsSnoc(olds, k, t, update);
    var c := (done + olds[k..])[|done| := update(olds[k], t).0];
    assert c[..|done|] == done && c[|done| + 1..] == olds[k + 1..];
  }

  /** A mover that died is kept in its slot in the respawned form e */
  lemma StepRespawned(olds: seq<Entity>, k: nat, done: seq<Entity>, t: real, update: Update, e: Entity)
    requires k < |olds| && AllSettled(Survivors(olds[..k], t, update), done)
    requires Settled(update(olds[k], t), e) && update(olds[k], t).1
    ensures (done + olds[k..])[|done| := update(olds[k], t).0][|done| := e] == done + [e] + olds[k + 1..]
    ensures AllSettled(Survivors(olds[..k + 1], t, update), done + [e])
  {
    SurvivorsSnoc(olds, k, t, update);
    assert olds[k..] == [olds[k]] + olds[k + 1..];
    SettledSnoc(Survivors(olds[..k], t, update), done, update(olds[k], t), e);
  }

  /** Number of goners that die in this frame */
  function GonerDeaths(es: seq<Entity>, t: real, update: Update): nat
    decreases |es|
  {
    if es == [] then 0
    else
      var n := |es| - 1;
      var s := update(es[n], t);
      GonerDeaths(es[..n], t, update) + (if s.1 && s.0.kind == Goner then 1 else 0)
  }

  /** The slots of the entities that stay, as indices into the old collection */
  function SurvivorSlots(es: seq<Entity>, t: real, update: Update): seq<nat>
    decreases |es|
  {
    if es == [] then []
    else
      var n := |es| - 1;
      var s := update(es[n], t);
      SurvivorSlots(es[..n], t, update) + (if s.1 && s.0.kind == Goner then [] else [n])
  }

  /** The collection shrinks by exactly the number of goners that died */
  lemma {:induction false} SurvivorsCount(es: seq<Entity>, t: real, update: Update)
    ensures |Survivors(es, t, update)| == |es| - GonerDeaths(es, t, update)
    decreases |es|
  {
    if es != [] {
      SurvivorsCount(es[..|es| - 1], t, update);
    }
  }

  /**
   * The erase keeps order: survivor i comes from old slot SurvivorSlots[i],
   * those slots strictly increase, and a slot that is skipped held a goner
   * that died.
   */
  lemma {:induction false} SurvivorsInOrder(es: seq<Entity>, t: real, update: Update)
    ensures var s, slots := Survivors(es, t, update), SurvivorSlots(es, t, update);
            && |slots| == |s|
            && (forall i | 0 <= i < |slots| :: slots[i] < |es| && s[i] == update(es[slots[i]], t))
            && (forall i, j | 0 <= i < j < |slots| :: slots[i] < slots[j])
            && (forall k | 0 <= k < |es| && k !in slots :: update(es[k], t).1 && update(es[k], t).0.kind == Goner)
    decreases |es|
  {
    if es != [] {
      var n := |es| - 1;
      SurvivorsInOrder(es[..n], t, update);
      assert forall k | 0 <= k < n :: es[..n][k] == es[k];
    }
  }

  class EntityManager {
    var entities: seq<Entity>

    constructor ()
      ensures entities == []
    {
      entities := [];
    }

    method AddEntity(entity: Entity)
      modifies this
      ensures entities == old(entities) + [entity]
    {
      entities := entities + [entity];
    }

    /**
     * Damages the first nearest entity on the ray when it is destroyable, and
     * says whether it did; no other entity, and nothing on a miss, changes.
     */
    method UpdateShotEntities(eyePos: Vec3, eyeDir: Vec3,
                              intersect: (CollisionObject, Vec3, Vec3) -> Option<real>) returns (hit: bool)
      requires AllCollidable(entities)
      modifies this
      ensures var target := ShotTarget(old(entities), eyePos, eyeDir, intersect);
              && hit == target.Some?
              && entities == if hit then old(entities)[target.value := old(entities)[target.value].(damagedThisFrame := true)]
                             else old(entities)
    {
      ghost var dists := HitDistances(entities, eyePos, eyeDir, intersect);
      var closestEntity: Option<nat> := None;
      var closestDist := 0.0;
      for i := 0 to |entities|
        invariant entities == old(entities)
        invariant closestEntity == FirstMin(dists[..i])
        invariant closestEntity.Some? ==> dists[closestEntity.value] == Some(closestDist)
      {
        FirstMinSnoc(dists, i);
        var intersection := intersect(entities[i].collision.value, eyePos, eyeDir);
        if intersection.Some? {
          if closestEntity.None? || intersection.value < closestDist {
            closestDist := intersection.value;
            closestEntity := Some(i);
          }
        }
      }
      assert dists[..|entities|] == dists;
      if closestEntity.Some? && entities[closestEntity.value].destroyable {
        var k := closestEntity.value;
        entities := entities[k := entities[k].(damagedThisFrame := true)];
        return true;
      }
      return false;
    }

    /**
     * Updates every entity once; a goner that died is erased, a mover that
     * died is re-anchored at a random (x, y, -8) with x in [-8, 8] and y in
     * [2, 18] and placed there, and the rest stay as updated, in order.
     */
    method UpdateEntities(timeElapsedSeconds: real, update: Update)
      requires forall i | 0 <= i < |entities| ::
                 update(entities[i], timeElapsedSeconds).1 ==> update(entities[i], timeElapsedSeconds).0.kind != Other
      modifies this
      ensures AllSettled(Survivors(old(entities), timeElapsedSeconds, update), entities)
    {
      ghost var olds := entities;
      ghost var k := 0;
      ghost var done: seq<Entity> := [];
      var i := 0;
      while i < |entities|
        invariant 0 <= k <= |olds| && i == |done|
        invariant entities == done + olds[k..]
        invariant AllSettled(Survivors(olds[..k], timeElapsedSeconds, update), done)
        decreases |olds| - k
      {
        assert entities[i] == olds[k];
        var (updated, died) := update(entities[i], timeElapsedSeconds);
        assert died ==> updated.kind != Other;
        entities := entities[i := updated];
        if !died {
          StepKept(olds, k, done, timeElapsedSeconds, update);
          done := done + [updated];
          i := i + 1;
          k := k + 1;
          continue;
        }
        if updated.kind == Goner {
          StepErased(olds, k, done, timeElapsedSeconds, update);
          entities := entities[..i] + entities[i + 1..];
          k := k + 1;
        } else if updated.kind == Mover {
          var newX := GetFloatInRange(-8.0, 8.0);
          var newY := GetFloatInRange(2.0, 18.0);
          var newZ := -8.0;
          var moved := updated.(referentialPos := Vec3(newX, newY, newZ));
          moved := moved.MoveRelative(Zero);
          assert moved == Respawned(updated, newX, newY);
          StepRespawned(olds, k, done, timeElapsedSeconds, update, moved);
          entities := entities[i := moved];
          done := done + [moved];
          i := i + 1;
          k := k + 1;
        }
      }
      assert olds[..|olds|] == olds;
    }
  }

  /** CollisionData: how deep two spheres overlap and along which direction */
  datatype CollisionData = CollisionData(penetration: real, normal: Vec3)

  /**
   * areEntitiesColliding, given dist, the distance glm::distance computes
   * between the two centres: only two spheres can collide, and they do when
   * the centres are closer than the sum of the radii.
   */
  function AreEntitiesColliding(e1: Entity, e2: Entity, dist: real): (r: Option<CollisionData>)
    requires e1.collision.Some? && e2.collision.Some?
    requires dist >= 0.0 && dist * dist == DistSq(e1.collision.value.pos, e2.collision.value.pos)
    ensures r.Some? <==>
              && e1.collision.value.Sphere? && e2.collision.value.Sphere?
              && dist < e1.collision.value.radius + e2.collision.value.radius
    ensures r.Some? ==>
              && r.value.penetration > 0.0
              && r.value.penetration == e1.collision.value.radius + e2.collision.value.radius - dist
              && r.value.normal == e2.collision.value.pos.Minus(e1.collision.value.pos)
  {
    var c1, c2 := e1.collision.value, e2.collision.value;
    if c1.Sphere? && c2.Sphere? then
      var penetration := -(dist - c1.radius - c2.radius);
      if penetration > 0.0 then Some(CollisionData(penetration, c2.pos.Minus(c1.pos))) else None
    else None
  }

  /** Without the square root: two spheres collide when the squared distance is below the squared sum of radii */
  lemma CollidingBySquares(e1: Entity, e2: Entity, dist: real)
    requires e1.collision.Some? && e2.collision.Some?
    requires dist >= 0.0 && dist * dist == DistSq(e1.collision.value.pos, e2.collision.value.pos)
    ensures var c1, c2 := e1.collision.value, e2.collision.value;
            AreEntitiesColliding(e1, e2, dist).Some? <==>
              && c1.Sphere? && c2.Sphere? && c1.radius + c2.radius > 0.0
              && DistSq(c1.pos, c2.pos) < (c1.radius + c2.radius) * (c1.radius + c2.radius)
  {
    var c1, c2 := e1.collision.value, e2.collision.value;
    if c1.Sphere? && c2.Sphere? {
      SquareMonotone(dist, c1.radius + c2.radius);
    }
  }

  /** For a non-negative d, d < s exactly when s is positive and d * d < s * s */
  lemma SquareMonotone(d: real, s: real)
    requires d >= 0.0
    ensures d < s <==> s > 0.0 && d * d < s * s
  {
    if d < s {
      assert d * (s - d) >= 0.0;
      assert s * (s - d) > 0.0;
    } else if s > 0.0 {
      assert d * (d - s) >= 0.0;
      assert s * (d - s) >= 0.0;
    }
  }

  /** Swapping the entities gives the same verdict and penetration, with the normal reversed */
  lemma CollidingSymmetric(e1: Entity, e2: Entity, dist: real)
    requires e1.collision.Some? && e2.collision.Some?
    requires dist >= 0.0 && dist * dist == DistSq(e1.collision.value.pos, e2.collision.value.pos)
    ensures dist * dist == DistSq(e2.collision.value.pos, e1.collision.value.pos)
    ensures var r, q := AreEntitiesColliding(e1, e2, dist), AreEntitiesColliding(e2, e1, dist);
            && (r.Some? <==> q.Some?)
            && (r.Some? ==> q.value.penetration == r.value.penetration && q.value.normal == r.value.normal.Neg())
  {
    var a, b := e1.collision.value.pos, e2.collision.value.pos;
    assert DistSq(a, b) == DistSq(b, a);
  }
}
