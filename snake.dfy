/** The snake: a body of segments that follow the head through a history of
    head velocities, and a stomach of swallowed food waiting to become new
    tail segments. */
module Snakes {
  import opened Geometry

  /** The abstract value of a `Snake` object.
      - `body[i]` is the position of segment `i`; `body[0]` is the snake's own
        `pos`, the head.
      - `vel` is the head velocity that steering sets.
      - `velocities[i]` is the velocity segment `i` moved by on the last update.
      - `stomach` holds swallowed food, oldest first. */
  datatype SnakeState = SnakeState(body: seq<Vec>, vel: Vec, velocities: seq<Vec>, stomach: seq<Food>)

  /** What every snake keeps between updates: there is a head, and one
      recorded velocity per segment. */
  predicate Inv(s: SnakeState)
  {
    |s.body| >= 1 && |s.velocities| == |s.body|
  }

  /** `body.filter(b => b.pos.x == p.x && b.pos.y == p.y)`: the segments on `p`. */
  function Matches(body: seq<Vec>, p: Vec): (r: seq<Vec>)
    ensures |r| <= |body|
    ensures forall q | q in r :: q == p
    ensures r == [] <==> p !in body
  {
    if body == [] then []
    else
      assert body == [body[0]] + body[1..];
      (if body[0] == p then [body[0]] else []) + Matches(body[1..], p)
  }

  /** The filter keeps one entry per segment on `p`: its length is the
      number of occurrences of `p` in the body. */
  lemma {:induction false} MatchesCount(body: seq<Vec>, p: Vec)
    ensures |Matches(body, p)| == multiset(body)[p]
  {
    if body != [] {
      MatchesCount(body[1..], p);
      assert body == [body[0]] + body[1..];
    }
  }

  /** `_digest` on values: the oldest swallowed item becomes the new tail
      exactly when the stomach is not empty and no segment sits on the item's
      position; otherwise body and stomach stay as they are. */
  function Digested(body: seq<Vec>, stomach: seq<Food>): (r: (seq<Vec>, seq<Food>))
    ensures stomach != [] && stomach[0].pos !in body ==> r == (body + [stomach[0].pos], stomach[1..])
    ensures stomach == [] || stomach[0].pos in body ==> r == (body, stomach)
  {
    if |stomach| != 0 && |Matches(body, stomach[0].pos)| == 0 then
      (body + [stomach[0].pos], stomach[1..])
    else
      (body, stomach)
  }

  /** `list.splice(n)` for its effect on `list`: everything from index `n` on
      is removed; a list no longer than `n` is left alone. */
  function Spliced(list: seq<Vec>, n: nat): (r: seq<Vec>)
    ensures |r| == if n < |list| then n else |list|
    ensures forall i {:trigger r[i]} | 0 <= i < |r| :: r[i] == list[i]
  {
    if n < |list| then list[..n] else list
  }

  /** The `forEach` of `update` on values: segment `i` is translated by `vs[i]`. */
  function Moved(body: seq<Vec>, vs: seq<Vec>): (r: seq<Vec>)
    requires |vs| == |body|
    ensures |r| == |body|
    ensures forall i {:trigger r[i]} | 0 <= i < |body| :: Sub(r[i], body[i]) == vs[i]
  {
    seq(|body|, i requires 0 <= i < |body| => Add(body[i], vs[i]))
  }

  /** One `update` of the snake on values: digest, push a copy of the head
      velocity to the front of the history, cut the history to the body's
      length, then move every segment by its entry in the history. */
  function Advanced(s: SnakeState): (r: SnakeState)
    requires Inv(s)
    ensures Inv(r)
    ensures |s.body| <= |r.body| <= |s.body| + 1
    ensures |r.body| + |r.stomach| == |s.body| + |s.stomach|
    ensures r.vel == s.vel
  {
    var digested := Digested(s.body, s.stomach);
    var velocities := Spliced([Vec(s.vel.x, s.vel.y)] + s.velocities, |digested.0|);
    SnakeState(Moved(digested.0, velocities), s.vel, velocities, digested.1)
  }

  /** The `Snake` class: its fields are updated in place by `update`,
      `_digest`, `swallow` and by steering. */
  class Snake {
    var body: seq<Vec>
    var vel: Vec
    var velocities: seq<Vec>
    var stomach: seq<Food>

    function State(): SnakeState
      reads this
    {
      SnakeState(body, vel, velocities, stomach)
    }

    ghost predicate Valid()
      reads this
    {
      Inv(State())
    }

    /** The snake's own position, which is the head segment. */
    function Pos(): Vec
      reads this
      requires Valid()
    {
      body[0]
    }

    /** A one-segment snake at `(x, y)` standing still; the history holds the
        (zero) head velocity and the stomach is empty. */
    constructor (x: int, y: int)
      ensures Valid()
      ensures State() == SnakeState([Vec(x, y)], Zero, [Zero], [])
    {
      body := [Vec(x, y)];
      vel := Zero;
      velocities := [Zero];
      stomach := [];
    }

    /** `_digest`: it may append one segment, so right after it the history
        can be one entry short of the body. */
    method Digest()
      requires Valid()
      modifies this
      ensures (body, stomach) == Digested(old(body), old(stomach))
      ensures vel == old(vel) && velocities == old(velocities)
    {
      if |stomach| != 0 {
        if |Matches(body, stomach[0].pos)| == 0 {
          body := body + [stomach[0].pos];
          stomach := stomach[1..];
        }
      }
    }

    /** `update`: one simulation step of the snake. */
    method Update()
      requires Valid()
      modifies this
      ensures Valid()
      ensures State() == Advanced(old(State()))
    {
      ghost var s := old(State());
      Digest();
      ghost var digested := body;
      velocities := [Vec(vel.x, vel.y)] + velocities;
      ghost var unshifted := velocities;
      if |body| < |velocities| {
        velocities := velocities[..|body|];
      }
      ghost var history := velocities;
      assert unshifted == [Vec(s.vel.x, s.vel.y)] + s.velocities;
      assert history == Spliced(unshifted, |digested|);
      var i := 0;
      while i < |velocities|
        invariant 0 <= i <= |velocities| == |body| == |digested|
        invariant forall j | 0 <= j < i :: body[j] == Add(digested[j], velocities[j])
        invariant forall j | i <= j < |body| :: body[j] == digested[j]
        modifies this`body
      {
        body := body[i := Add(body[i], velocities[i])];
        i := i + 1;
      }
      ghost var moved := Moved(digested, velocities);
      assert forall j | 0 <= j < |body| :: body[j] == moved[j];
      assert body == moved;
    }

    /** `swallow`: the food goes to the back of the stomach; the body does
        not change until the item is digested. */
    method Swallow(food: Food)
      requires Valid()
      modifies this
      ensures Valid()
      ensures stomach == old(stomach) + [food]
      ensures body == old(body) && vel == old(vel) && velocities == old(velocities)
    {
      stomach := stomach + [food];
    }
  }
}
