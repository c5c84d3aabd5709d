/** Integer cell coordinates on the playing field. */
module Vectors {

  /** A cell of the field; (0, 0) is the top-left corner and y grows downwards.
      Equality and addition are component-wise. */
  datatype Vec = Vec(x: int, y: int) {

    function Add(v: Vec): Vec {
      Vec(x + v.x, y + v.y)
    }

    function Neg(): Vec {
      Vec(-x, -y)
    }
  }

  /** True when `v` lies inside [0, size.x) x [0, size.y). */
  predicate InField(size: Vec, v: Vec) {
    0 <= v.x < size.x && 0 <= v.y < size.y
  }

  /** A field with at least one cell. */
  predicate Positive(size: Vec) {
    0 < size.x && 0 < size.y
  }
}
