/**
 * src/Entity.cpp: a unit axis-aligned collision box that a ray can hit, and
 * the entities (obstacles and targets) that carry one and keep it at their
 * current position.
 */
module Entities {
  import opened Wrappers
  import opened Geometry
  import opened Closest

  /** Half the edge of every collision box */
  const Half: Vec3 := Vec3(0.5, 0.5, 0.5)

  /** The two opposite corners aabb_[0] and aabb_[1] of the box around pos */
  function Corners(pos: Vec3): (aabb: seq<Vec3>)
    ensures |aabb| == 2
    ensures forall j | 0 <= j < 3 :: aabb[0].Get(j) == pos.Get(j) - 0.5 && aabb[1].Get(j) == pos.Get(j) + 0.5
  {
    [pos.Minus(Half), pos.Plus(Half)]
  }

  /** isPointInPlaneSection: the inclusive comparisons against both corners */
  predicate InBox(aabb: seq<Vec3>, p: Vec3)
    requires |aabb| == 2
  {
    p.x <= aabb[1].x && p.x >= aabb[0].x &&
    p.y <= aabb[1].y && p.y >= aabb[0].y &&
    p.z <= aabb[1].z && p.z >= aabb[0].z
  }

  /** The box test read axis by axis */
  lemma InBoxAxes(aabb: seq<Vec3>, p: Vec3)
    requires |aabb| == 2
    ensures InBox(aabb, p) <==> forall j | 0 <= j < 3 :: aabb[0].Get(j) <= p.Get(j) <= aabb[1].Get(j)
  {
    assert p.Get(0) == p.x && p.Get(1) == p.y && p.Get(2) == p.z;
    assert aabb[0].Get(0) == aabb[0].x && aabb[0].Get(1) == aabb[0].y && aabb[0].Get(2) == aabb[0].z;
    assert aabb[1].Get(0) == aabb[1].x && aabb[1].Get(1) == aabb[1].y && aabb[1].Get(2) == aabb[1].z;
  }

  /**
   * One pass of the inner loop of isIntersectedByLine: the point where the ray
   * meets the plane through vertex orthogonal to axis j, when it is not behind
   * the eye and lies in the box. A zero direction component gives an infinite
   * or NaN t in floats, which one of the two filters drops, so that axis offers
   * no point.
   */
  function PlaneHit(aabb: seq<Vec3>, vertex: Vec3, j: nat, eye: Vec3, dir: Vec3): Option<Vec3>
    requires |aabb| == 2 && j < 3
  {
    if dir.Get(j) == 0.0 then None
    else
      var t := (vertex.Get(j) - eye.Get(j)) / dir.Get(j);
      if t < 0.0 then None
      else
        var intersection := PointAt(eye, dir, t);
        if !InBox(aabb, intersection) then None else Some(intersection)
  }

  /** The six candidates in enumeration order: corner 0 on axes x, y, z, then corner 1 */
  function Candidates(aabb: seq<Vec3>, eye: Vec3, dir: Vec3): (cands: seq<Option<Vec3>>)
    requires |aabb| == 2
    ensures |cands| == 6
  {
    [PlaneHit(aabb, aabb[0], 0, eye, dir), PlaneHit(aabb, aabb[0], 1, eye, dir), PlaneHit(aabb, aabb[0], 2, eye, dir),
     PlaneHit(aabb, aabb[1], 0, eye, dir), PlaneHit(aabb, aabb[1], 1, eye, dir), PlaneHit(aabb, aabb[1], 2, eye, dir)]
  }

  /** Slot 3 * v + j of the enumeration is corner v, axis j */
  lemma CandidateAt(aabb: seq<Vec3>, eye: Vec3, dir: Vec3, v: nat, j: nat)
    requires |aabb| == 2 && v < 2 && j < 3
    ensures Candidates(aabb, eye, dir)[3 * v + j] == PlaneHit(aabb, aabb[v], j, eye, dir)
  {
  }

  /** The key the loop compares: the squared distance of a candidate from the eye */
  function Key(c: Option<Vec3>, eye: Vec3): Option<real>
  {
    match c
    case None => None
    case Some(p) => Some(DistSq(p, eye))
  }

  /** The keys of the six candidates */
  function Keys(cands: seq<Option<Vec3>>, eye: Vec3): (keys: seq<Option<real>>)
    requires |cands| == 6
    ensures |keys| == 6
    ensures forall k | 0 <= k < 6 :: keys[k] == Key(cands[k], eye)
  {
    [Key(cands[0], eye), Key(cands[1], eye), Key(cands[2], eye), Key(cands[3], eye), Key(cands[4], eye), Key(cands[5], eye)]
  }

  /** What isIntersectedByLine returns: the first candidate of least squared distance, if any */
  function ClosestCandidate(aabb: seq<Vec3>, eye: Vec3, dir: Vec3): (r: Option<Vec3>)
    requires |aabb| == 2
  {
    var cands := Candidates(aabb, eye, dir);
    match FirstMin(Keys(cands, eye))
    case None => None
    case Some(k) => cands[k]
  }

  /** The ray from eye along dir passes through p at a parameter t >= 0 */
  ghost predicate OnRay(eye: Vec3, dir: Vec3, p: Vec3)
  {
    exists t :: t >= 0.0 && p == PointAt(eye, dir, t)
  }

  /** Every candidate is on the ray, ahead of the eye, in the closed box, and on the plane it was taken from */
  lemma PlaneHitSound(aabb: seq<Vec3>, vertex: Vec3, j: nat, eye: Vec3, dir: Vec3)
    requires |aabb| == 2 && j < 3
    ensures var c := PlaneHit(aabb, vertex, j, eye, dir);
            c.Some? ==> InBox(aabb, c.value) && OnRay(eye, dir, c.value) && c.value.Get(j) == vertex.Get(j)
  {
    if PlaneHit(aabb, vertex, j, eye, dir).Some? {
      var t := (vertex.Get(j) - eye.Get(j)) / dir.Get(j);
      var p := PointAt(eye, dir, t);
      assert p.Get(j) == eye.Get(j) + dir.Get(j) * t;
    }
  }

  /** No point is returned exactly when no corner/axis candidate passes both filters */
  lemma ClosestNoneIff(aabb: seq<Vec3>, eye: Vec3, dir: Vec3)
    requires |aabb| == 2
    ensures ClosestCandidate(aabb, eye, dir).None? <==>
              forall v, j | 0 <= v < 2 && 0 <= j < 3 :: PlaneHit(aabb, aabb[v], j, eye, dir).None?
  {
    var cands := Candidates(aabb, eye, dir);
    var keys := Keys(cands, eye);
    FirstMinCorrect(keys);
    forall v, j | 0 <= v < 2 && 0 <= j < 3 {
      CandidateAt(aabb, eye, dir, v, j);
    }
    if ClosestCandidate(aabb, eye, dir).None? {
      assert FirstMin(keys).None?;
    } else {
      var k := FirstMin(keys).value;
      var v := if k < 3 then 0 else 1;
      CandidateAt(aabb, eye, dir, v, k - 3 * v);
    }
  }

  /**
   * A returned point lies on the ray ahead of the eye, in the box, and on the
   * plane of one of the corners orthogonal to one of the axes.
   */
  lemma ClosestOnRayInBox(aabb: seq<Vec3>, eye: Vec3, dir: Vec3)
    requires |aabb| == 2
    ensures var r := ClosestCandidate(aabb, eye, dir);
            r.Some? ==>
              && InBox(aabb, r.value) && OnRay(eye, dir, r.value)
              && exists v, j | 0 <= v < 2 && 0 <= j < 3 :: r.value.Get(j) == aabb[v].Get(j)
  {
    var cands := Candidates(aabb, eye, dir);
    var keys := Keys(cands, eye);
    if FirstMin(keys).Some? {
      var k := FirstMin(keys).value;
      var v := if k < 3 then 0 else 1;
      CandidateAt(aabb, eye, dir, v, k - 3 * v);
      PlaneHitSound(aabb, aabb[v], k - 3 * v, eye, dir);
    }
  }

  /**
   * A returned point is candidate k for some k, no candidate is nearer to the
   * eye, and every candidate enumerated before k is strictly farther.
   */
  lemma ClosestIsFirstNearest(aabb: seq<Vec3>, eye: Vec3, dir: Vec3)
    requires |aabb| == 2
    ensures var r, cands := ClosestCandidate(aabb, eye, dir), Candidates(aabb, eye, dir);
            r.Some? ==>
              exists k | 0 <= k < 6 ::
                && cands[k] == r
                && (forall i | 0 <= i < 6 && cands[i].Some? :: DistSq(r.value, eye) <= DistSq(cands[i].value, eye))
                && (forall i | 0 <= i < k && cands[i].Some? :: DistSq(r.value, eye) < DistSq(cands[i].value, eye))
  {
    var cands := Candidates(aabb, eye, dir);
    var keys := Keys(cands, eye);
    FirstMinCorrect(keys);
    if FirstMin(keys).Some? {
      var k := FirstMin(keys).value;
      assert IsFirstMin(keys, k);
      assert cands[k] == ClosestCandidate(aabb, eye, dir);
    }
  }

  class CollisionBox {
    var pos: Vec3
    var aabb: seq<Vec3>

    /** aabb_ is always pos_ - 0.5 and pos_ + 0.5 on every axis */
    ghost predicate Valid()
      reads this
    {
      aabb == Corners(pos)
    }

    constructor (p: Vec3)
      ensures Valid() && pos == p
    {
      pos := p;
      aabb := Corners(p);
    }

    /** Whether the point lies in the closed box */
    function IsPointInPlaneSection(point: Vec3): (r: bool)
      reads this
      requires Valid()
      ensures r <==> forall j | 0 <= j < 3 :: aabb[0].Get(j) <= point.Get(j) <= aabb[1].Get(j)
      ensures r <==> forall j | 0 <= j < 3 :: pos.Get(j) - 0.5 <= point.Get(j) <= pos.Get(j) + 0.5
    {
      InBoxAxes(aabb, point);
      InBox(aabb, point)
    }

    /** The nearest point where the ray from eyePos along eyeDir meets the box, if any */
    method IsIntersectedByLine(eyePos: Vec3, eyeDir: Vec3) returns (result: Option<Vec3>)
      requires Valid()
      ensures result == ClosestCandidate(aabb, eyePos, eyeDir)
    {
      ghost var cands := Candidates(aabb, eyePos, eyeDir);
      ghost var keys := Keys(cands, eyePos);
      ghost var best: Option<nat> := None;
      result := None;
      var closestDist := 0.0;
      for v := 0 to 2
        invariant best == FirstMin(keys[..3 * v])
        invariant result == if best.None? then None else cands[best.value]
        invariant best.Some? ==> best.value < 6 && keys[best.value] == Some(closestDist)
      {
        var vertex := aabb[v];
        for j := 0 to 3
          invariant best == FirstMin(keys[..3 * v + j])
          invariant result == if best.None? then None else cands[best.value]
          invariant best.Some? ==> best.value < 6 && keys[best.value] == Some(closestDist)
        {
          FirstMinSnoc(keys, 3 * v + j);
          CandidateAt(aabb, eyePos, eyeDir, v, j);
          var intersection := PlaneHit(aabb, vertex, j, eyePos, eyeDir);
          if intersection.None? {
            continue;
          }
          var dist := DistSq(intersection.value, eyePos);
          if result.None? || dist < closestDist {
            closestDist := dist;
            result := intersection;
            best := Some(3 * v + j);
          }
        }
      }
      assert keys[..6] == keys;
    }

    method Move(newPos: Vec3)
      modifies this
      ensures Valid() && pos == newPos
    {
      pos := newPos;
      aabb := Corners(pos);
    }
  }

  /** EntityType: which override of onHit an entity has */
  datatype EntityType = Obstacle | Target

  /** Where a target whose health runs out is sent */
  const Graveyard: Vec3 := Vec3(0.0, 0.0, 15.0)

  /**
   * An entity: a current position, the referential position that relative
   * moves start from, an optional collision box, and for targets a health.
   */
  class Entity {
    const kind: EntityType
    var referentialPos: Vec3
    var currentPos: Vec3
    var collisionBox: CollisionBox?
    var health: int

    /** The box, when there is one, is valid and sits at the current position */
    ghost predicate Valid()
      reads this, collisionBox
    {
      collisionBox != null ==> collisionBox.Valid() && collisionBox.pos == currentPos
    }

    /** An obstacle: both positions at pos, no box */
    constructor Obstacle(pos: Vec3)
      ensures Valid() && kind == EntityType.Obstacle
      ensures referentialPos == pos && currentPos == pos && collisionBox == null
    {
      kind := EntityType.Obstacle;
      referentialPos, currentPos := pos, pos;
      collisionBox := null;
      health := 0;
    }

    /** A target: both positions at pos, health 1 and a box around pos */
    constructor Target(pos: Vec3)
      ensures Valid() && kind == EntityType.Target && health == 1
      ensures referentialPos == pos && currentPos == pos
      ensures collisionBox != null && fresh(collisionBox) && collisionBox.pos == pos
    {
      kind := EntityType.Target;
      referentialPos, currentPos := pos, pos;
      health := 1;
      collisionBox := new CollisionBox(pos);
    }

    /** Gives the entity a box at its current position unless it already has one */
    method AddCollisionBox()
      requires Valid()
      modifies this
      ensures Valid()
      ensures old(collisionBox) != null ==> collisionBox == old(collisionBox)
      ensures old(collisionBox) == null ==> collisionBox != null && fresh(collisionBox)
      ensures referentialPos == old(referentialPos) && currentPos == old(currentPos) && health == old(health)
    {
      if collisionBox != null {
        return;
      }
      collisionBox := new CollisionBox(currentPos);
    }

    method Move(newPos: Vec3)
      requires Valid()
      modifies this, collisionBox
      ensures Valid()
      ensures currentPos == newPos && referentialPos == old(referentialPos)
      ensures collisionBox == old(collisionBox) && health == old(health)
    {
      currentPos := newPos;
      if collisionBox != null {
        collisionBox.Move(newPos);
      }
    }

    method MoveReferential(newPos: Vec3)
      requires Valid()
      modifies this, collisionBox
      ensures Valid()
      ensures referentialPos == newPos && currentPos == newPos
      ensures collisionBox == old(collisionBox) && health == old(health)
    {
      referentialPos := newPos;
      Move(newPos);
    }

    /** Places the entity at offset from its referential position */
    method MoveRelative(offset: Vec3)
      requires Valid()
      modifies this, collisionBox
      ensures Valid()
      ensures currentPos == old(referentialPos).Plus(offset) && referentialPos == old(referentialPos)
      ensures collisionBox == old(collisionBox) && health == old(health)
    {
      Move(referentialPos.Plus(offset));
    }

    /**
     * Obstacles ignore hits. A target loses exactly one health point and, once
     * its health is down to 0 or below, is sent to (0, 0, 15) with its health
     * left as it is.
     */
    method OnHit()
      requires Valid()
      modifies this, collisionBox
      ensures Valid() && collisionBox == old(collisionBox)
      ensures kind == EntityType.Obstacle ==>
                health == old(health) && currentPos == old(currentPos) && referentialPos == old(referentialPos)
                && (collisionBox != null ==> collisionBox.pos == old(collisionBox.pos))
      ensures kind == EntityType.Target ==> health == old(health) - 1
      ensures kind == EntityType.Target && health <= 0 ==> currentPos == Graveyard && referentialPos == Graveyard
      ensures kind == EntityType.Target && health > 0 ==>
                currentPos == old(currentPos) && referentialPos == old(referentialPos)
                && (collisionBox != null ==> collisionBox.pos == old(collisionBox.pos))
    {
      match kind
      case Obstacle =>
      case Target =>
        health := health - 1;
        if health <= 0 {
          MoveReferential(Graveyard);
        }
    }
  }

  /** A unit cube at the origin, hit from (0, 0, 5) looking down -z, is hit on its face z = 0.5 */
  lemma HitFrontFace()
    ensures ClosestCandidate(Corners(Zero), Vec3(0.0, 0.0, 5.0), Vec3(0.0, 0.0, -1.0)) == Some(Vec3(0.0, 0.0, 0.5))
  {
    var aabb, eye, dir := Corners(Zero), Vec3(0.0, 0.0, 5.0), Vec3(0.0, 0.0, -1.0);
    var cands := Candidates(aabb, eye, dir);
    assert cands == [None, None, Some(Vec3(0.0, 0.0, -0.5)), None, None, Some(Vec3(0.0, 0.0, 0.5))];
    var keys := Keys(cands, eye);
    FirstMinSnoc(keys, 0);
    FirstMinSnoc(keys, 1);
    FirstMinSnoc(keys, 2);
    FirstMinSnoc(keys, 3);
    FirstMinSnoc(keys, 4);
    FirstMinSnoc(keys, 5);
    assert keys[..6] == keys;
  }
}
