/** glm::vec3, with real coordinates instead of 32-bit floats. */
module Geometry {
  datatype Vec3 = Vec3(x: real, y: real, z: real) {
    /** Coordinate j, as glm's operator[] */
    function Get(j: nat): real
      requires j < 3
    {
      if j == 0 then x else if j == 1 then y else z
    }

    function Plus(o: Vec3): Vec3 { Vec3(x + o.x, y + o.y, z + o.z) }

    function Minus(o: Vec3): Vec3 { Vec3(x - o.x, y - o.y, z - o.z) }

    function Scale(s: real): Vec3 { Vec3(x * s, y * s, z * s) }

    function Neg(): Vec3 { Vec3(-x, -y, -z) }
  }

  const Zero: Vec3 := Vec3(0.0, 0.0, 0.0)

  function Dot(a: Vec3, b: Vec3): real { a.x * b.x + a.y * b.y + a.z * b.z }

  /** The square of glm::distance(a, b); comparing it orders points as the distance does. */
  function DistSq(a: Vec3, b: Vec3): real { Dot(a.Minus(b), a.Minus(b)) }

  /** The point eye + dir * t of the ray from eye along dir */
  function PointAt(eye: Vec3, dir: Vec3, t: real): Vec3 { eye.Plus(dir.Scale(t)) }
}
