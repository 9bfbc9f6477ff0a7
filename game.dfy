/**
 * src/Game.cpp, Game::updateShotEntities: a left click shoots along the
 * camera's line of sight; the first nearest entity hit loses one health
 * point if it is destroyable and, once its health is gone, jumps to a random
 * spot; the game counts shots and hits.
 */
module GameModel {
  import opened Wrappers
  import opened Geometry
  import opened Closest
  import opened Colliders
  import opened Input

  const GLFW_MOUSE_BUTTON_LEFT: int := 0

  /** The fields of an entity that updateShotEntities reads or writes */
  datatype GameEntity = GameEntity(destroyable: bool, health: int, currentPos: Vec3, collision: Option<CollisionObject>)
  {
    /** Entity::move: the entity and its collider go to p */
    function Moved(p: Vec3): (e: GameEntity)
      ensures e.currentPos == p && e.destroyable == destroyable && e.health == health
      ensures e.collision.Some? == collision.Some? && (e.collision.Some? ==> e.collision.value == collision.value.(pos := p))
    {
      this.(currentPos := p, collision := match collision case None => None case Some(c) => Some(c.MovedTo(p)))
    }
  }

  ghost predicate AllCollidable(es: seq<GameEntity>)
  {
    forall i | 0 <= i < |es| :: es[i].collision.Some?
  }

  /** The distance along the line of sight at which each entity is hit, if it is */
  function HitDistances(es: seq<GameEntity>, eyePos: Vec3, eyeDir: Vec3,
                        intersect: (CollisionObject, Vec3, Vec3) -> Option<real>): (d: seq<Option<real>>)
    requires AllCollidable(es)
  {
    seq(|es|, i requires 0 <= i < |es| && es[i].collision.Some? => intersect(es[i].collision.value, eyePos, eyeDir))
  }

  /** The entity a click damages: the first nearest hit, when it is destroyable */
  function ClickTarget(es: seq<GameEntity>, eyePos: Vec3, eyeDir: Vec3,
                       intersect: (CollisionObject, Vec3, Vec3) -> Option<real>): Option<nat>
    requires AllCollidable(es)
  {
    match FirstMin(HitDistances(es, eyePos, eyeDir, intersect))
    case None => None
    case Some(k) => if es[k].destroyable then Some(k) else None
  }

  /**
   * The damaged entity has a minimal hit distance, the lowest index wins a
   * tie, and it is destroyable; no entity is damaged exactly when nothing is
   * hit or the nearest hit is not destroyable.
   */
  lemma ClickTargetIsFirstNearest(es: seq<GameEntity>, eyePos: Vec3, eyeDir: Vec3,
                                  intersect: (CollisionObject, Vec3, Vec3) -> Option<real>)
    requires AllCollidable(es)
    ensures var d, r := HitDistances(es, eyePos, eyeDir, intersect), ClickTarget(es, eyePos, eyeDir, intersect);
            && (r.Some? ==> IsFirstMin(d, r.value) && es[r.value].destroyable)
            && (r.None? <==> (forall i | 0 <= i < |es| :: d[i].None?) || exists k: nat :: IsFirstMin(d, k) && !es[k].destroyable)
  {
    var d := HitDistances(es, eyePos, eyeDir, intersect);
    FirstMinCorrect(d);
    forall k: nat | IsFirstMin(d, k) {
      FirstMinUnique(d, k);
    }
  }

  /**
   * What a click does to the entity it damages: one health point less, and
   * at no health left a move to (x, y, -8) with x in [-8, 9] and y in [2, 9];
   * the health is not reset.
   */
  ghost predicate Damaged(before: GameEntity, after: GameEntity)
  {
    var hurt := before.(health := before.health - 1);
    if hurt.health > 0 then after == hurt
    else
      && -8.0 <= after.currentPos.x <= 9.0 && 2.0 <= after.currentPos.y <= 9.0
      && after == hurt.Moved(Vec3(after.currentPos.x, after.currentPos.y, -8.0))
  }

  /** (float)rand() / RAND_MAX: some fraction in [0, 1], which the model does not fix */
  method RandFraction() returns (u: real)
    ensures 0.0 <= u <= 1.0
  {
    assert IsFraction(0.0);
    u :| IsFraction(u);
    assert IsFraction(u);
  }

  predicate IsFraction(u: real)
  {
    0.0 <= u <= 1.0
  }

  class Game {
    const inputManager: InputManager
    var entities: seq<GameEntity>
    var shotsHit: int
    var totalShots: int

    /** The counters never go negative and never count more hits than shots */
    ghost predicate Valid()
      reads this, inputManager
    {
      inputManager.Valid() && 0 <= shotsHit <= totalShots
    }

    constructor (input: InputManager, initial: seq<GameEntity>)
      requires input.Valid()
      ensures Valid() && inputManager == input && entities == initial
      ensures shotsHit == 0 && totalShots == 0
    {
      inputManager := input;
      entities := initial;
      shotsHit := 0;
      totalShots := 0;
    }

    /**
     * Without a fresh left click nothing changes. With one, the shot is
     * counted, and when the first nearest entity hit is destroyable it alone
     * is damaged and the hit is counted too.
     */
    method UpdateShotEntities(eyePos: Vec3, eyeDir: Vec3,
                              intersect: (CollisionObject, Vec3, Vec3) -> Option<real>)
      requires Valid() && (inputManager.IsMouseButtonToggled(GLFW_MOUSE_BUTTON_LEFT) ==> AllCollidable(entities))
      modifies this
      ensures Valid()
      ensures !inputManager.IsMouseButtonToggled(GLFW_MOUSE_BUTTON_LEFT) ==>
                entities == old(entities) && shotsHit == old(shotsHit) && totalShots == old(totalShots)
      ensures inputManager.IsMouseButtonToggled(GLFW_MOUSE_BUTTON_LEFT) ==>
                var target := ClickTarget(old(entities), eyePos, eyeDir, intersect);
                && totalShots == old(totalShots) + 1
                && shotsHit == old(shotsHit) + (if target.Some? then 1 else 0)
                && |entities| == |old(entities)|
                && (forall i | 0 <= i < |entities| && Some(i) != target :: entities[i] == old(entities)[i])
                && (target.Some? ==> Damaged(old(entities)[target.value], entities[target.value]))
    {
      if !inputManager.IsMouseButtonToggled(GLFW_MOUSE_BUTTON_LEFT) {
        return;
      }
      ghost var dists := HitDistances(entities, eyePos, eyeDir, intersect);
      var closestEntity: Option<nat> := None;
      var closestDist := 0.0;
      for i := 0 to |entities|
        invariant entities == old(entities) && shotsHit == old(shotsHit) && totalShots == old(totalShots)
        invariant closestEntity == FirstMin(dists[..i])
        invariant closestEntity.Some? ==> dists[closestEntity.value] == Some(closestDist)
      {
        FirstMinSnoc(dists, i);
        var intersection := intersect(entities[i].collision.value, eyePos, eyeDir);
        if intersection.Some? {
          if closestEntity.None? || intersection.value < closestDist {
            closestDist := intersection.value;
            closestEntity := Some(i);
          }
        }
      }
      assert dists[..|entities|] == dists;
      if closestEntity.Some? && entities[closestEntity.value].destroyable {
        var k := closestEntity.value;
        var hit := entities[k].(health := entities[k].health - 1);
        if hit.health <= 0 {
          var u := RandFraction();
          var newX := u * 17.0 - 8.0;
          u := RandFraction();
          var newY := u * 7.0 + 2.0;
          var newZ := -8.0;
          hit := hit.Moved(Vec3(newX, newY, newZ));
        }
        entities := entities[k := hit];
        shotsHit := shotsHit + 1;
      }
      totalShots := totalShots + 1;
    }
  }
}
