/** Properties of food placement, the input drain and the per-tick update. */
module StepProperties {
  import opened Vectors
  import opened Directions
  import opened Engine

  /** The placement loop returns the first proposed cell that is off the body:
      if draw k is off the body and every earlier draw is on it, draw k is the
      result. */
  lemma {:induction false} NewFoodFirstFree(rules: GameRules, game: GameState, samples: seq<Sample>, k: nat)
    requires k < |samples| && Candidate(rules.fieldSize, samples[k]) !in game.tail
    requires forall j :: 0 <= j < k ==> Candidate(rules.fieldSize, samples[j]) in game.tail
    ensures NewFood(rules, game, samples) == Some(Candidate(rules.fieldSize, samples[k]))
    decreases k
  {
    if k > 0 {
      assert Candidate(rules.fieldSize, samples[0]) in game.tail;
      assert forall j :: 0 <= j < k - 1 ==> samples[1..][j] == samples[j + 1];
      NewFoodFirstFree(rules, game, samples[1..], k - 1);
    }
  }

  /** On a field with cells, every cell the placement loop returns meets the
      food postcondition. */
  lemma NewFoodIsFoodChoice(rules: GameRules, game: GameState, samples: seq<Sample>)
    requires Positive(rules.fieldSize) && NewFood(rules, game, samples).Some?
    ensures FoodChoice(rules.fieldSize, game.tail, NewFood(rules, game, samples).value)
  {
  }

  /** A later key press never changes what the drain decides about the entries
      already queued: if one of them is taken, the new entry only joins the
      deferred rest; otherwise the new entry is judged on its own. */
  lemma {:induction false} DrainAppend(facing: Direction, queue: seq<Direction>, d: Direction)
    ensures var before := Drain(facing, queue);
            Drain(facing, queue + [d]) ==
              if before.dir != facing then Drained(before.dir, before.rest + [d])
              else if Skipped(facing, d) then Drained(facing, [])
              else Drained(d, [])
    decreases |queue|
  {
    if |queue| == 0 {
      assert queue + [d] == [d];
    } else {
      assert (queue + [d])[0] == queue[0];
      assert (queue + [d])[1..] == queue[1..] + [d];
      if Skipped(facing, queue[0]) {
        DrainAppend(facing, queue[1..], d);
      }
    }
  }

  /** A surviving tick on eating grows the body by one cell and otherwise keeps
      its length; in both cases the new head is the old head moved one step in
      the committed direction. */
  lemma SurvivingStepLength(rules: GameRules, game: GameState, placed: Vec)
    requires |game.tail| > 0
    requires !Update(rules, game, placed).died
    ensures var r := Update(rules, game, placed);
            && |r.game.tail| == |game.tail| + (if r.ate then 1 else 0)
            && Head(r.game.tail) == NextCell(game.tail, r.game.facing)
            && InField(rules.fieldSize, Head(r.game.tail))
  {
  }

  /** On death the colliding cell is never added: the body is the old body
      when eating and the old body without its oldest cell otherwise. */
  lemma DeathStepLength(rules: GameRules, game: GameState, placed: Vec)
    requires |game.tail| > 0
    requires Update(rules, game, placed).died
    ensures var r := Update(rules, game, placed);
            && |r.game.tail| == |game.tail| - (if r.ate then 0 else 1)
            && r.game.tail == game.tail[|game.tail| - |r.game.tail|..]
  {
  }

  /** Moving into the cell the oldest segment leaves this tick is no collision. */
  lemma VacatedCellIsFree(rules: GameRules, game: GameState, placed: Vec)
    requires |game.tail| > 0 && Distinct(game.tail)
    requires var next := NextCell(game.tail, Drain(game.facing, game.inputQueue).dir);
             next == game.tail[0] && game.food != Some(next) && InField(rules.fieldSize, next)
    ensures !Update(rules, game, placed).died
  {
    var next := game.tail[0];
    assert next !in game.tail[1..] by {
      forall i | 0 <= i < |game.tail[1..]|
        ensures game.tail[1..][i] != next
      {
        assert game.tail[1..][i] == game.tail[i + 1];
      }
    }
  }

  /** Reaching food that sits on the oldest segment kills: on eating nothing is
      vacated. */
  lemma EatingOntoOldestCellKills(rules: GameRules, game: GameState, placed: Vec)
    requires |game.tail| > 0
    requires var next := NextCell(game.tail, Drain(game.facing, game.inputQueue).dir);
             next == game.tail[0] && game.food == Some(next)
    ensures Update(rules, game, placed).died
  {
  }

  /** The pair of draws that makes the placement loop propose cell `p`:
      x / width and y / height. */
  function DrawFor(size: Vec, p: Vec): Sample
    requires InField(size, p)
  {
    Sample(Fraction(p.x, size.x), Fraction(p.y, size.y))
  }

  /** Scaling the draw k / size back by size gives k. */
  lemma FloorOfDraw(k: nat, size: nat)
    requires k < size
    ensures Floor(Fraction(k, size), size) == k
  {
    var f := Floor(Fraction(k, size), size);
    assert f * size <= k * size < (f + 1) * size;
    CancelPositive(f, k + 1, size);
    CancelPositive(k, f + 1, size);
  }

  /** Every cell meeting the food postcondition can be returned by the
      placement loop: one suitable draw makes it the result. */
  lemma PlacementReachable(rules: GameRules, game: GameState, p: Vec)
    requires FoodChoice(rules.fieldSize, game.tail, p)
    ensures NewFood(rules, game, [DrawFor(rules.fieldSize, p)]) == Some(p)
  {
    FloorOfDraw(p.x, rules.fieldSize.x);
    FloorOfDraw(p.y, rules.fieldSize.y);
    assert Candidate(rules.fieldSize, DrawFor(rules.fieldSize, p)) == p;
  }

  /** Food is not kept off the body: whenever a tick eats and survives, the
      placement loop, which runs before the head is added, can return the new
      head cell itself, and then the food lies on the body. */
  lemma FoodMayLandOnHead(rules: GameRules, game: GameState, placed: Vec)
    requires |game.tail| > 0
    requires var r := Update(rules, game, placed); r.ate && !r.died
    ensures var r := Update(rules, game, placed);
            && FoodChoice(rules.fieldSize, game.tail, Head(r.game.tail))
            && NewFood(rules, game, [DrawFor(rules.fieldSize, Head(r.game.tail))]) == Some(Head(r.game.tail))
            && (placed == Head(r.game.tail) ==> r.game.food.value in r.game.tail)
  {
    var r := Update(rules, game, placed);
    PlacementReachable(rules, game, Head(r.game.tail));
  }

  lemma SliceKeepsBody(size: Vec, s: seq<Vec>, k: nat)
    requires k <= |s| && Distinct(s) && AllInField(size, s)
    ensures Distinct(s[k..]) && AllInField(size, s[k..])
  {
    assert forall i :: 0 <= i < |s[k..]| ==> s[k..][i] == s[k + i];
  }

  lemma AppendKeepsBody(size: Vec, s: seq<Vec>, v: Vec)
    requires Distinct(s) && AllInField(size, s)
    requires v !in s && InField(size, v)
    ensures Distinct(s + [v]) && AllInField(size, s + [v])
  {
    var t := s + [v];
    forall i, j | 0 <= i < j < |t|
      ensures t[i] != t[j]
    {
      if j == |s| {
        assert t[i] == s[i];
      } else {
        assert t[i] == s[i] && t[j] == s[j];
      }
    }
    forall i | 0 <= i < |t|
      ensures InField(size, t[i])
    {
      if i < |s| {
        assert t[i] == s[i];
      }
    }
  }

  /** A tick keeps the body free of repeated cells and inside the field, dying
      or not, because the new head is added only after passing both tests. */
  lemma UpdateKeepsBody(rules: GameRules, game: GameState, placed: Vec)
    requires |game.tail| > 0 && Distinct(game.tail) && AllInField(rules.fieldSize, game.tail)
    ensures var r := Update(rules, game, placed);
            Distinct(r.game.tail) && AllInField(rules.fieldSize, r.game.tail)
  {
    var r := Update(rules, game, placed);
    var kept := Kept(game.tail, r.ate);
    SliceKeepsBody(rules.fieldSize, game.tail, if r.ate then 0 else 1);
    assert kept == game.tail[(if r.ate then 0 else 1)..];
    if !r.died {
      AppendKeepsBody(rules.fieldSize, kept, NextCell(game.tail, r.game.facing));
    }
  }

  /** The head was reached by moving in the current facing. */
  predicate Aligned(game: GameState) {
    |game.tail| >= 2 ==> Head(game.tail) == game.tail[|game.tail| - 2].Add(game.facing.Value())
  }

  /** A surviving tick leaves the head one step along the committed facing. */
  lemma SurvivingStepAligns(rules: GameRules, game: GameState, placed: Vec)
    requires |game.tail| > 0
    requires !Update(rules, game, placed).died
    ensures Aligned(Update(rules, game, placed).game)
  {
    var r := Update(rules, game, placed);
    if |r.game.tail| >= 2 {
      assert r.game.tail[|r.game.tail| - 2] == Head(game.tail);
    }
  }

  /** With the facing aligned, no tick turns the head back onto the segment
      behind it, since the drain never commits a reversal. */
  lemma NoReversalIntoNeck(rules: GameRules, game: GameState, placed: Vec)
    requires |game.tail| >= 2 && Aligned(game)
    ensures NextCell(game.tail, Update(rules, game, placed).game.facing) != game.tail[|game.tail| - 2]
  {
    var dir := Update(rules, game, placed).game.facing;
    ReversesIsOpposite(game.facing, dir);
    IdsAndValuesDistinct(dir, Opposite(game.facing));
  }

  // Worked examples.

  /** Facing right with [LEFT, UP] queued: LEFT is a reversal and is dropped, UP is taken. */
  lemma ReversalRejected()
    ensures Drain(Right, [Left, Up]) == Drained(Up, [])
  {
  }

  /** Facing right with [UP, DOWN] queued: UP is taken, DOWN waits for the next tick. */
  lemma BufferedDeferral()
    ensures Drain(Right, [Up, Down]) == Drained(Up, [Down])
  {
  }

  /** A five-by-five field whose initial body is two cells on the top row, the
      head on the right edge, heading right; in the game the food lies elsewhere. */
  const EdgeRules: GameRules := GameRules(Vec(5, 5), 1.0, [Vec(3, 0), Vec(4, 0)], Right)
  const EdgeGame: GameState := GameState([Vec(3, 0), Vec(4, 0)], Right, [], Some(Vec(0, 0)), 200.0)

  /** A head on the right edge moving right dies; the body has already lost its
      oldest cell and the out-of-field cell is not added. */
  lemma BoundaryDeath()
    ensures Update(EdgeRules, EdgeGame, Vec(1, 1)).died
    ensures !Update(EdgeRules, EdgeGame, Vec(1, 1)).ate
    ensures Update(EdgeRules, EdgeGame, Vec(1, 1)).game.tail == [Vec(4, 0)]
  {
  }
}
