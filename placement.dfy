/** Food placement by rejection sampling (`getRandomPosition` and the
    candidate test of `World._setFoodLocation`). `Math.random()` is not
    called here: its results are given as a sequence of draws. */
module Placement {
  import opened Geometry

  /** The two results of `Math.random()` that one `getRandomPosition` call
      consumes, for the column and for the row. */
  datatype Draw = Draw(rx: real, ry: real)

  /** What `Math.random()` promises: a number in [0, 1). */
  predicate IsRandom(d: Draw)
  {
    0.0 <= d.rx < 1.0 && 0.0 <= d.ry < 1.0
  }

  predicate AllRandom(draws: seq<Draw>)
  {
    forall i | 0 <= i < |draws| :: IsRandom(draws[i])
  }

  predicate InGrid(xMax: int, yMax: int, p: Vec)
  {
    0 <= p.x < xMax && 0 <= p.y < yMax
  }

  /** `Math.floor(r * max)`: a random number scaled to an index below `max`. */
  function Scaled(r: real, max: int): (n: int)
    ensures 0.0 <= r < 1.0 && max > 0 ==> 0 <= n < max
  {
    assert 0.0 <= r < 1.0 && max > 0 ==> 0.0 <= r * max as real < max as real by {
      if 0.0 <= r < 1.0 && max > 0 {
        assert r * max as real < 1.0 * max as real;
      }
    }
    (r * max as real).Floor
  }

  /** `getRandomPosition(xMax, yMax)` for the draw `d`: a cell of the grid. */
  function RandomPosition(xMax: int, yMax: int, d: Draw): (p: Vec)
    ensures IsRandom(d) && xMax > 0 && yMax > 0 ==> InGrid(xMax, yMax, p)
  {
    Vec(Scaled(d.rx, xMax), Scaled(d.ry, yMax))
  }

  /** The loop condition of `_setFoodLocation`: a candidate is drawn again
      when it shares a column or a row with the head. Only the head is
      compared, not the other segments. */
  predicate Rejected(p: Vec, head: Vec)
  {
    head.x == p.x || head.y == p.y
  }

  /** Some draw of the sequence is accepted, so the rejection loop ends
      within it. */
  predicate Placeable(xMax: int, yMax: int, head: Vec, draws: seq<Draw>)
  {
    exists i | 0 <= i < |draws| :: !Rejected(RandomPosition(xMax, yMax, draws[i]), head)
  }

  /** A rejected first draw leaves an accepted one among the rest. */
  lemma PlaceableAfterRejected(xMax: int, yMax: int, head: Vec, draws: seq<Draw>)
    requires Placeable(xMax, yMax, head, draws)
    requires Rejected(RandomPosition(xMax, yMax, draws[0]), head)
    ensures Placeable(xMax, yMax, head, draws[1..])
  {
    var i :| 0 <= i < |draws| && !Rejected(RandomPosition(xMax, yMax, draws[i]), head);
    assert draws[1..][i - 1] == draws[i];
  }

  /** The cell that the rejection loop settles on. It lies on the grid, off
      the head's row and column. */
  function Placed(xMax: int, yMax: int, head: Vec, draws: seq<Draw>): (p: Vec)
    requires Placeable(xMax, yMax, head, draws)
    ensures !Rejected(p, head)
    ensures AllRandom(draws) && xMax > 0 && yMax > 0 ==> InGrid(xMax, yMax, p)
    decreases |draws|
  {
    var candidate := RandomPosition(xMax, yMax, draws[0]);
    if !Rejected(candidate, head) then
      candidate
    else
      PlaceableAfterRejected(xMax, yMax, head, draws);
      Placed(xMax, yMax, head, draws[1..])
  }

  /** The placed cell is the first draw that is not rejected: every draw
      before it was rejected. */
  lemma {:induction false} PlacedIsFirstAccepted(xMax: int, yMax: int, head: Vec, draws: seq<Draw>)
      returns (k: nat)
    requires Placeable(xMax, yMax, head, draws)
    ensures k < |draws| && Placed(xMax, yMax, head, draws) == RandomPosition(xMax, yMax, draws[k])
    ensures forall j | 0 <= j < k :: Rejected(RandomPosition(xMax, yMax, draws[j]), head)
    decreases |draws|
  {
    if Rejected(RandomPosition(xMax, yMax, draws[0]), head) {
      PlaceableAfterRejected(xMax, yMax, head, draws);
      var k' := PlacedIsFirstAccepted(xMax, yMax, head, draws[1..]);
      k := k' + 1;
      forall j | 0 <= j < k
        ensures Rejected(RandomPosition(xMax, yMax, draws[j]), head)
      {
        if j > 0 {
          assert draws[j] == draws[1..][j - 1];
        }
      }
    } else {
      k := 0;
    }
  }

  /** Every cell of the grid is the outcome of some draw. */
  lemma EveryCellCanBeDrawn(xMax: int, yMax: int, c: Vec)
    requires xMax > 0 && yMax > 0 && InGrid(xMax, yMax, c)
    ensures exists d :: IsRandom(d) && RandomPosition(xMax, yMax, d) == c
  {
    var rx := Fraction(c.x, xMax);
    var ry := Fraction(c.y, yMax);
    assert RandomPosition(xMax, yMax, Draw(rx, ry)) == c;
  }

  /** `n / max` as a draw: it lies in [0, 1) and scales back to `n`. */
  lemma Fraction(n: int, max: int) returns (r: real)
    requires 0 <= n < max
    ensures 0.0 <= r < 1.0 && Scaled(r, max) == n
  {
    r := n as real / max as real;
    assert r * max as real == n as real;
  }

  /** Every draw in `[c / max, (c + 1) / max)` scales to `c`: each index
      below `max` is hit by an interval of draws of width `1 / max`. */
  lemma ScaledCellInterval(r: real, c: int, max: int)
    requires 0 <= c < max
    requires c as real / max as real <= r < (c + 1) as real / max as real
    ensures Scaled(r, max) == c
  {
    UnscaledBounds(c as real, r, (c + 1) as real, max as real);
    FloorWithin(r * max as real, c);
  }

  /** A number between `a / m` and `b / m` times `m` lies between `a` and `b`. */
  lemma UnscaledBounds(a: real, r: real, b: real, m: real)
    requires m > 0.0 && a / m <= r < b / m
    ensures a <= r * m < b
  {
    DividedBack(a, m);
    DividedBack(b, m);
    ScaleBounds(a / m, r, b / m, m);
  }

  /** Dividing by a positive number and multiplying back is the identity. */
  lemma DividedBack(a: real, m: real)
    requires m > 0.0
    ensures (a / m) * m == a
  {
  }

  /** A real in `[c, c + 1)` rounds down to `c`. */
  lemma FloorWithin(x: real, c: int)
    requires c as real <= x < (c + 1) as real
    ensures x.Floor == c
  {
  }

  /** Multiplying by a positive number keeps the order of reals. */
  lemma ScaleBounds(lo: real, r: real, hi: real, m: real)
    requires m > 0.0 && lo <= r < hi
    ensures lo * m <= r * m < hi * m
  {
    assert (r - lo) * m >= 0.0;
    assert (hi - r) * m > 0.0;
  }

  /** On a grid at least two cells wide and two cells high some draw is
      accepted, wherever the head is, so each round of the loop can end it. */
  lemma AcceptedDrawExists(xMax: int, yMax: int, head: Vec)
    requires xMax >= 2 && yMax >= 2
    ensures exists d :: IsRandom(d) && !Rejected(RandomPosition(xMax, yMax, d), head)
  {
    var c := Vec(if head.x == 0 then 1 else 0, if head.y == 0 then 1 else 0);
    EveryCellCanBeDrawn(xMax, yMax, c);
  }
}
