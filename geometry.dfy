/** Integer grid vectors and the food item of the snake game. */
module Geometry {

  /** A cell position or a velocity on the grid (the `Vec` class). */
  datatype Vec = Vec(x: int, y: int)

  /** `new Vec()`: both components default to zero. */
  const Zero := Vec(0, 0)

  /** The displacement that leads from `from` to `to`. */
  function Sub(to: Vec, from: Vec): Vec
  {
    Vec(to.x - from.x, to.y - from.y)
  }

  /** `Vec.add`: the position `p` translated by the delta `d`.
      `Sub` undoes it: the translated point lies exactly `d` away from `p`. */
  function Add(p: Vec, d: Vec): (r: Vec)
    ensures Sub(r, p) == d
    ensures Sub(r, d) == p
  {
    Vec(p.x + d.x, p.y + d.y)
  }

  /** A piece of food: only its position matters to the simulation. Once
      swallowed, the same item is later appended to the snake's body. */
  datatype Food = Food(pos: Vec)
}
