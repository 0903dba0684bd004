/** The game world: a grid, the snake and one piece of food (`World`). */
module Worlds {
  import opened Geometry
  import opened Snakes
  import opened SnakeLaws
  import opened Placement

  class World {
    const xMax: int
    const yMax: int
    var snake: Snake
    var food: Food

    /** The grid has room for food off the head's row and column, the snake
        keeps its invariant, and the food lies on the grid. */
    ghost predicate Valid()
      reads this, snake
    {
      xMax >= 2 && yMax >= 2 && snake.Valid() && InGrid(xMax, yMax, food.pos)
    }

    /** `new World(xMax, yMax)`: a standing one-segment snake in the middle
        of the grid and food placed from the draws. The grid sides are even,
        so that the middle is a cell. */
    constructor (xMax: int, yMax: int, draws: seq<Draw>)
      requires xMax > 0 && yMax > 0 && xMax % 2 == 0 && yMax % 2 == 0
      requires AllRandom(draws) && Placeable(xMax, yMax, Vec(xMax / 2, yMax / 2), draws)
      ensures Valid() && fresh(snake)
      ensures this.xMax == xMax && this.yMax == yMax
      ensures snake.State() == SnakeState([Vec(xMax / 2, yMax / 2)], Zero, [Zero], [])
      ensures food.pos == Placed(xMax, yMax, Vec(xMax / 2, yMax / 2), draws)
    {
      this.xMax := xMax;
      this.yMax := yMax;
      snake := new Snake(xMax / 2, yMax / 2);
      new;
      food := SetFoodLocation(draws);
    }

    /** `_setFoodLocation`: draw candidates until one is off the head's row
        and column; the result is the first such candidate. */
    method SetFoodLocation(draws: seq<Draw>) returns (food: Food)
      requires snake.Valid()
      requires Placeable(xMax, yMax, snake.Pos(), draws)
      ensures food.pos == Placed(xMax, yMax, snake.Pos(), draws)
    {
      var head := snake.Pos();
      food := Food(Zero);
      var i := 0;
      food := food.(pos := RandomPosition(xMax, yMax, draws[i]));
      while Rejected(food.pos, head)
        invariant 0 <= i < |draws|
        invariant Placeable(xMax, yMax, head, draws[i..])
        invariant Placed(xMax, yMax, head, draws) == Placed(xMax, yMax, head, draws[i..])
        invariant food.pos == RandomPosition(xMax, yMax, draws[i])
        decreases |draws| - i
      {
        PlaceableAfterRejected(xMax, yMax, head, draws[i..]);
        assert draws[i..][1..] == draws[i + 1..];
        i := i + 1;
        food := food.(pos := RandomPosition(xMax, yMax, draws[i]));
      }
    }

    /** `update` without the painting: the snake advances once; when its head
        then lies on the food, that food goes into the stomach and new food
        is placed from the draws. */
    method Update(draws: seq<Draw>)
      requires Valid()
      requires AllRandom(draws)
      requires Add(snake.Pos(), snake.vel) == food.pos ==> Placeable(xMax, yMax, food.pos, draws)
      modifies this, snake
      ensures Valid() && snake == old(snake)
      ensures var moved := Advanced(old(snake.State()));
              if moved.body[0] == old(food.pos) then
                snake.State() == moved.(stomach := moved.stomach + [old(food)]) &&
                food.pos == Placed(xMax, yMax, moved.body[0], draws)
              else
                snake.State() == moved && food == old(food)
    {
      AdvanceMovesSegments(snake.State());
      snake.Update();
      if food.pos.x == snake.Pos().x {
        if food.pos.y == snake.Pos().y {
          snake.Swallow(food);
          food := SetFoodLocation(draws);
        }
      }
    }
  }
}
