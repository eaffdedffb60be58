/** Two-dimensional vectors (the engine's `Vec2f`) over exact reals: the float rounding of
    the source is not modelled. */
module Vectors {

  datatype Vec2 = Vec2(x: real, y: real)

  const ZERO: Vec2 := Vec2(0.0, 0.0)

  function Add(a: Vec2, b: Vec2): Vec2 {
    Vec2(a.x + b.x, a.y + b.y)
  }

  function Sub(a: Vec2, b: Vec2): Vec2 {
    Vec2(a.x - b.x, a.y - b.y)
  }

  function Scale(a: Vec2, k: real): Vec2 {
    Vec2(a.x * k, a.y * k)
  }

  /** `a.sdiv(k)`: each component divided by `k`. */
  function Div(a: Vec2, k: real): Vec2
    requires k != 0.0
  {
    Vec2(a.x / k, a.y / k)
  }

  function Dot(a: Vec2, b: Vec2): real {
    a.x * b.x + a.y * b.y
  }

  /** The z component of the cross product, `a.cross(b)`. */
  function Cross(a: Vec2, b: Vec2): real {
    a.x * b.y - a.y * b.x
  }

  /** `a.dist2(b)`: the squared distance. */
  function Dist2(a: Vec2, b: Vec2): real {
    (a.x - b.x) * (a.x - b.x) + (a.y - b.y) * (a.y - b.y)
  }
}
