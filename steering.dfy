/** Keyboard steering of the snake's head velocity (`keyboardSetup`). */
module Steering {
  import opened Geometry
  import opened Snakes

  /** The keys that have an entry in the action map. */
  predicate IsArrow(key: string)
  {
    key == "ArrowDown" || key == "ArrowUp" || key == "ArrowRight" || key == "ArrowLeft"
  }

  /** JavaScript's `a || b` on numbers: `a` unless it is zero. */
  function Or(a: int, b: int): int
  {
    if a != 0 then a else b
  }

  /** A unit step along one axis. */
  predicate IsDirection(v: Vec)
  {
    (v.x == 0 && (v.y == 1 || v.y == -1)) || (v.y == 0 && (v.x == 1 || v.x == -1))
  }

  /** The velocity after the handler has run for `key`.
      - An arrow key zeroes the other axis.
      - A non-zero component on the key's own axis is kept as it is, so a
        key never turns the snake around.
      - A zero component on the key's own axis becomes the key's direction.
      - Any other key changes nothing. */
  function Steered(key: string, v: Vec): (r: Vec)
    ensures key == "ArrowDown" || key == "ArrowUp" ==> r.x == 0 && r.y != 0
    ensures key == "ArrowRight" || key == "ArrowLeft" ==> r.y == 0 && r.x != 0
    ensures (key == "ArrowDown" || key == "ArrowUp") && v.y != 0 ==> r.y == v.y
    ensures (key == "ArrowRight" || key == "ArrowLeft") && v.x != 0 ==> r.x == v.x
    ensures key == "ArrowDown" && v.y == 0 ==> r.y == 1
    ensures key == "ArrowUp" && v.y == 0 ==> r.y == -1
    ensures key == "ArrowRight" && v.x == 0 ==> r.x == 1
    ensures key == "ArrowLeft" && v.x == 0 ==> r.x == -1
    ensures !IsArrow(key) ==> r == v
    ensures IsArrow(key) || v != Zero ==> r != Vec(-v.x, -v.y)
  {
    if key == "ArrowDown" then Vec(0, Or(v.y, 1))
    else if key == "ArrowUp" then Vec(0, Or(v.y, -1))
    else if key == "ArrowRight" then Vec(Or(v.x, 1), 0)
    else if key == "ArrowLeft" then Vec(Or(v.x, -1), 0)
    else v
  }

  /** Starting from rest or from a unit step, any sequence of key presses
      leaves the head velocity a unit step or at rest, so the head advances
      by at most one cell per update; once moving, or once an arrow key was
      pressed, the snake never comes to rest again. */
  lemma {:induction false} KeysKeepUnitSteps(keys: seq<string>, v: Vec)
    requires v == Zero || IsDirection(v)
    ensures PressAll(keys, v) == Zero || IsDirection(PressAll(keys, v))
    ensures IsDirection(v) || (exists k | k in keys :: IsArrow(k)) ==> IsDirection(PressAll(keys, v))
  {
    if keys != [] {
      var next := Steered(keys[0], v);
      assert IsArrow(keys[0]) ==> IsDirection(next);
      if !IsArrow(keys[0]) && (exists k | k in keys :: IsArrow(k)) {
        var k :| k in keys && IsArrow(k);
        assert k in keys[1..];
      }
      KeysKeepUnitSteps(keys[1..], next);
    }
  }

  /** The velocity after the keys were pressed in order. */
  function PressAll(keys: seq<string>, v: Vec): Vec
  {
    if keys == [] then v else PressAll(keys[1..], Steered(keys[0], v))
  }

  /** The handler `keyboardSetup(entity)` returns, called with a key event:
      the action for an arrow key first sets the component on its own axis,
      then clears the other one; other keys are ignored. */
  method OnKeyDown(entity: Snake, key: string)
    modifies entity
    ensures entity.vel == Steered(key, old(entity.vel))
    ensures entity.body == old(entity.body) && entity.velocities == old(entity.velocities)
    ensures entity.stomach == old(entity.stomach)
  {
    if key == "ArrowDown" {
      entity.vel := entity.vel.(y := Or(entity.vel.y, 1));
      entity.vel := entity.vel.(x := 0);
    } else if key == "ArrowUp" {
      entity.vel := entity.vel.(y := Or(entity.vel.y, -1));
      entity.vel := entity.vel.(x := 0);
    } else if key == "ArrowRight" {
      entity.vel := entity.vel.(x := Or(entity.vel.x, 1));
      entity.vel := entity.vel.(y := 0);
    } else if key == "ArrowLeft" {
      entity.vel := entity.vel.(x := Or(entity.vel.x, -1));
      entity.vel := entity.vel.(y := 0);
    }
  }
}
