/** Optional values and exact (real) vector arithmetic shared by the filters. */
module Geometry {
  datatype Option<+T> = None | Some(value: T)

  datatype Vec2 = Vec2(x: real, y: real)

  datatype Vec3 = Vec3(x: real, y: real, z: real) {
    function Plus(b: Vec3): (r: Vec3) { Vec3(x + b.x, y + b.y, z + b.z) }
    function Minus(b: Vec3): (r: Vec3) { Vec3(x - b.x, y - b.y, z - b.z) }
    function Scale(k: real): (r: Vec3) { Vec3(x * k, y * k, z * k) }
    function Dot(b: Vec3): (r: real) { x * b.x + y * b.y + z * b.z }
  }

  const ZERO := Vec3(0.0, 0.0, 0.0)

  datatype Plane = Plane(normal: Vec3, distance: real) {
    /** Signed distance of a point, up to the length of the normal. */
    function Distance(p: Vec3): (r: real) { normal.Dot(p) + distance }
  }

  function Abs(r: real): (result: real) { if r < 0.0 then -r else r }

  /** A product as one quantity, for linear reasoning about it. */
  function Product(a: real, b: real): (r: real) { a * b }

  /** A common factor may be cancelled; the solver wants this as a separate fact. */
  lemma Cancel(a: real, b: real, d: real)
    requires d != 0.0 && a * d == b * d
    ensures a == b
  {
    assert (a - b) * d == 0.0;
  }
}
