/** Two-dimensional vectors and the helpers that all three programs share
    (addVectors, scaleVector, subtractVectors). The programs compute in
    `double`; this model computes in exact reals. The magnitude helper `mod`
    (a square root) is not modelled here: the physics takes the distance
    between two positions as a parameter instead. */
module Vectors {

  datatype Vec = Vec(x: real, y: real)

  const Zero: Vec := Vec(0.0, 0.0)

  /** addVectors */
  function Add(a: Vec, b: Vec): Vec {
    Vec(a.x + b.x, a.y + b.y)
  }

  /** scaleVector: the factor comes first, as in the C helper. */
  function Scale(k: real, a: Vec): Vec {
    Vec(k * a.x, k * a.y)
  }

  /** subtractVectors */
  function Sub(a: Vec, b: Vec): Vec {
    Vec(a.x - b.x, a.y - b.y)
  }
}
