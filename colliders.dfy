/**
 * The collision objects of the later revision that src/EntityManager.cpp and
 * src/Game.cpp are written against: a sphere with a radius, or an
 * axis-aligned box. Only what those two files read of them is kept.
 */
module Colliders {
  import opened Geometry

  datatype CollisionObject = Sphere(pos: Vec3, radius: real) | Box(pos: Vec3)
  {
    /** The object moved to p, as an entity's move pushes its position to its collider */
    function MovedTo(p: Vec3): CollisionObject
    {
      this.(pos := p)
    }
  }
}
