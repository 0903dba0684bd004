/** Properties of one snake update (`Snakes.Advanced`) and of runs of updates. */
module SnakeLaws {
  import opened Geometry
  import opened Snakes

  /** After an update the history starts with a copy of the head velocity and
      every later entry is the entry one place ahead of it before the update. */
  lemma AdvanceShiftsHistory(s: SnakeState)
    requires Inv(s)
    ensures Advanced(s).velocities[0] == s.vel
    ensures forall i | 1 <= i < |Advanced(s).body| :: Advanced(s).velocities[i] == s.velocities[i - 1]
  {
  }

  /** Every segment that existed before the update keeps its index and moves
      by exactly its entry of the new history; the head moves by `vel`; a
      segment appended by digestion starts at the food's frozen position and
      moves, in the same update, by the old tail's last velocity. */
  lemma AdvanceMovesSegments(s: SnakeState)
    requires Inv(s)
    ensures forall i | 0 <= i < |s.body| :: Sub(Advanced(s).body[i], s.body[i]) == Advanced(s).velocities[i]
    ensures Advanced(s).body[0] == Add(s.body[0], s.vel)
    ensures |Advanced(s).body| == |s.body| + 1 ==>
              Advanced(s).body[|s.body|] == Add(s.stomach[0].pos, s.velocities[|s.body| - 1])
  {
    var r := Advanced(s);
    var d := Digested(s.body, s.stomach);
    assert d.0[..|s.body|] == s.body;
    assert Sub(r.body[0], s.body[0]) == s.vel;
  }

  /** Digestion in an update: the body grows exactly when the stomach is not
      empty and no segment sits on the oldest item's position; the item then
      leaves the stomach, and otherwise the stomach is untouched. */
  lemma AdvanceGrowsIff(s: SnakeState)
    requires Inv(s)
    ensures |Advanced(s).body| == |s.body| + 1 <==> s.stomach != [] && s.stomach[0].pos !in s.body
    ensures |Advanced(s).body| == |s.body| + 1 ==> Advanced(s).stomach == s.stomach[1..]
    ensures |Advanced(s).body| == |s.body| ==> Advanced(s).stomach == s.stomach
  {
  }

  /** `n` updates in a row. Over any number of updates the body never
      shrinks, grows by at most one segment per update, and segments plus
      undigested food stay constant. */
  function AdvancedN(s: SnakeState, n: nat): (r: SnakeState)
    requires Inv(s)
    ensures Inv(r)
    ensures |s.body| <= |r.body| <= |s.body| + n
    ensures |r.body| + |r.stomach| == |s.body| + |s.stomach|
    decreases n
  {
    if n == 0 then s else AdvancedN(Advanced(s), n - 1)
  }

  /** Each segment after the head sits where its predecessor was before that
      predecessor's last move: the body traces the head's path. */
  ghost predicate FollowsPath(s: SnakeState)
    requires Inv(s)
  {
    forall i | 0 <= i < |s.body| - 1 :: s.body[i + 1] == Sub(s.body[i], s.velocities[i])
  }

  /** An update keeps the body on the head's path, provided that food which is
      digested in it lies where the tail was before its last move. */
  lemma AdvanceFollowsPath(s: SnakeState)
    requires Inv(s) && FollowsPath(s)
    requires s.stomach != [] && s.stomach[0].pos !in s.body ==>
               s.stomach[0].pos == Sub(s.body[|s.body| - 1], s.velocities[|s.body| - 1])
    ensures FollowsPath(Advanced(s))
  {
    var r := Advanced(s);
    AdvanceMovesSegments(s);
    AdvanceShiftsHistory(s);
    AdvanceGrowsIff(s);
    PathKept(s.body, s.velocities, if |r.body| > |s.body| then s.stomach[0].pos else Zero, r.body, r.velocities);
  }

  /** The step of `AdvanceFollowsPath` on plain sequences: `b`, `vs` before
      the update, `nb`, `nvs` after it, `f` the food appended when the body
      grows. */
  lemma PathKept(b: seq<Vec>, vs: seq<Vec>, f: Vec, nb: seq<Vec>, nvs: seq<Vec>)
    requires 1 <= |b| == |vs| && |nb| == |nvs| && |b| <= |nb| <= |b| + 1
    requires forall i | 0 <= i < |b| - 1 :: b[i + 1] == Sub(b[i], vs[i])
    requires forall i | 0 <= i < |b| :: Sub(nb[i], b[i]) == nvs[i]
    requires forall i | 1 <= i < |nb| :: nvs[i] == vs[i - 1]
    requires |nb| > |b| ==> nb[|b|] == Add(f, vs[|b| - 1]) && f == Sub(b[|b| - 1], vs[|b| - 1])
    ensures forall i | 0 <= i < |nb| - 1 :: nb[i + 1] == Sub(nb[i], nvs[i])
  {
    forall i | 0 <= i < |nb| - 1
      ensures nb[i + 1] == Sub(nb[i], nvs[i])
    {
      assert Sub(nb[i], b[i]) == nvs[i];
      assert nvs[i + 1] == vs[i];
      if i + 1 < |b| {
        assert Sub(nb[i + 1], b[i + 1]) == vs[i];
      }
    }
  }
}
