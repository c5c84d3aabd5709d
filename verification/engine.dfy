/** The game-simulation engine: rules, state, food placement, construction,
    input buffering and the per-tick update. */
module Engine {
  import opened Vectors
  import opened Directions

  datatype Option<T> = None | Some(value: T)

  /** Per-session configuration. `stepDelay` is the initial timing value in
      milliseconds; it is copied into a new game and otherwise not used here. */
  datatype GameRules = GameRules(
    fieldSize: Vec,
    stepDelay: real,
    initialTail: seq<Vec>,
    initialFacing: Direction)

  /** The simulation state. `tail` is the whole body, oldest cell first, so its
      last element is the head. */
  datatype GameState = GameState(
    tail: seq<Vec>,
    facing: Direction,
    inputQueue: seq<Direction>,
    food: Option<Vec>,
    stepDelay: real)

  function Head(tail: seq<Vec>): Vec
    requires |tail| > 0
  {
    tail[|tail| - 1]
  }

  /** No cell occurs twice. */
  predicate Distinct(s: seq<Vec>) {
    forall i, j :: 0 <= i < j < |s| ==> s[i] != s[j]
  }

  predicate AllInField(size: Vec, s: seq<Vec>) {
    forall i :: 0 <= i < |s| ==> InField(size, s[i])
  }

  // ---------------------------------------------------------------------
  // new_food

  /** A value of `Math.random()`: the fraction num / den, which lies in [0, 1). */
  datatype Fraction = Fraction(num: nat, den: nat)
  type Random = f: Fraction | f.num < f.den witness Fraction(0, 1)

  /** One iteration's pair of random draws, for x and for y. */
  datatype Sample = Sample(rx: Random, ry: Random)

  /** Cancels a positive factor from both sides of a strict inequality. */
  lemma CancelPositive(a: int, b: int, c: int)
    requires 0 < c && a * c < b * c
    ensures a < b
  {
  }

  /** Euclidean division by a positive divisor rounds down. */
  lemma DivBracket(a: int, d: int)
    requires 0 < d
    ensures (a / d) * d <= a < (a / d + 1) * d
  {
    assert a == d * (a / d) + a % d;
    assert (a / d + 1) * d == (a / d) * d + d;
  }

  /** Scaling both sides of n < d by a positive size. */
  lemma ScaleBelow(n: nat, d: nat, size: int)
    requires n < d && 0 < size
    ensures 0 <= n * size < d * size
  {
    assert d * size - n * size == (d - n) * size;
  }

  lemma FloorBounds(r: Random, size: int, k: int)
    requires k == (r.num * size) / r.den
    ensures k * r.den <= r.num * size < (k + 1) * r.den
    ensures 0 < size ==> 0 <= k < size
  {
    DivBracket(r.num * size, r.den);
    if 0 < size {
      ScaleBelow(r.num, r.den, size);
      CancelPositive(0, k + 1, r.den);
      CancelPositive(k, size, r.den);
    }
  }

  /** `Math.floor(r * size)`: the greatest integer k with k <= r * size. */
  function Floor(r: Random, size: int): (k: int)
    ensures k * r.den <= r.num * size < (k + 1) * r.den
    ensures 0 < size ==> 0 <= k < size
  {
    var k := (r.num * size) / r.den;
    FloorBounds(r, size, k);
    k
  }

  /** The cell one iteration of the placement loop proposes. */
  function Candidate(size: Vec, s: Sample): Vec {
    Vec(Floor(s.rx, size.x), Floor(s.ry, size.y))
  }

  /** The placement loop run over the draws `samples`: it returns the first
      proposed cell that is not on the body. `None` means every supplied draw
      landed on the body, so the loop is still retrying. */
  function NewFood(rules: GameRules, game: GameState, samples: seq<Sample>): (r: Option<Vec>)
    ensures r.Some? ==> r.value !in game.tail
    ensures r.Some? && Positive(rules.fieldSize) ==> InField(rules.fieldSize, r.value)
    ensures r.None? <==> forall i :: 0 <= i < |samples| ==> Candidate(rules.fieldSize, samples[i]) in game.tail
    decreases |samples|
  {
    if |samples| == 0 then None
    else
      var pos := Candidate(rules.fieldSize, samples[0]);
      if pos !in game.tail then Some(pos)
      else
        var r := NewFood(rules, game, samples[1..]);
        assert forall i :: 1 <= i < |samples| ==> samples[i] == samples[1..][i - 1];
        r
  }

  /** What a `new_food` result promises: a field cell not on the body at call time. */
  predicate FoodChoice(size: Vec, tail: seq<Vec>, p: Vec) {
    InField(size, p) && p !in tail
  }

  // ---------------------------------------------------------------------
  // new_game and the input queue

  /** A new game: the initial body and facing, nothing queued, no food yet. */
  function NewGame(rules: GameRules): (g: GameState)
    ensures g.tail == rules.initialTail && g.facing == rules.initialFacing
    ensures g.inputQueue == [] && g.food.None?
    ensures g.stepDelay == rules.stepDelay
  {
    GameState(rules.initialTail, rules.initialFacing, [], None, rules.stepDelay)
  }

  /** A key press appends its direction to the queue without any check. */
  function PushInput(game: GameState, d: Direction): (g: GameState)
    ensures |g.inputQueue| == |game.inputQueue| + 1
    ensures g.inputQueue[..|game.inputQueue|] == game.inputQueue && g.inputQueue[|game.inputQueue|] == d
    ensures g.tail == game.tail && g.facing == game.facing && g.food == game.food
    ensures g.stepDelay == game.stepDelay
  {
    game.(inputQueue := game.inputQueue + [d])
  }

  // ---------------------------------------------------------------------
  // update

  /** A queued entry the drain throws away: a repeat of the facing or its reversal. */
  predicate Skipped(facing: Direction, d: Direction) {
    d == facing || Reverses(facing, d)
  }

  /** The outcome of draining the queue: the committed direction and what stays queued. */
  datatype Drained = Drained(dir: Direction, rest: seq<Direction>)

  /** Drains the queue from the front: skipped entries are discarded, the first
      other entry is taken and everything after it is kept. */
  function Drain(facing: Direction, queue: seq<Direction>): (r: Drained)
    ensures |r.rest| <= |queue| && r.rest == queue[|queue| - |r.rest|..]
    ensures !Reverses(facing, r.dir)
    ensures r.dir == facing <==> forall i :: 0 <= i < |queue| ==> Skipped(facing, queue[i])
    ensures r.dir == facing ==> r.rest == []
    ensures r.dir != facing ==>
              var k := |queue| - |r.rest| - 1;
              0 <= k && queue[k] == r.dir && forall i :: 0 <= i < k ==> Skipped(facing, queue[i])
    decreases |queue|
  {
    if |queue| == 0 then Drained(facing, [])
    else if Skipped(facing, queue[0]) then
      var r := Drain(facing, queue[1..]);
      assert forall i :: 1 <= i < |queue| ==> queue[i] == queue[1..][i - 1];
      r
    else
      NeverSelfReverse(facing);
      Drained(queue[0], queue[1..])
  }

  /** The body after the grow-or-shift decision: kept whole when eating,
      otherwise without its oldest cell. */
  function Kept(tail: seq<Vec>, ate: bool): seq<Vec>
    requires |tail| > 0
  {
    if ate then tail else tail[1..]
  }

  /** The cell the head moves to when the body steps in direction `dir`. */
  function NextCell(tail: seq<Vec>, dir: Direction): Vec
    requires |tail| > 0
  {
    Head(tail).Add(dir.Value())
  }

  /** Result of one tick: the new state, whether the snake died, whether it ate. */
  datatype StepResult = StepResult(game: GameState, died: bool, ate: bool)

  /** One tick of the simulation. `placed` is the cell the placement loop returns
      when it runs during this tick, i.e. when the head reaches the food. */
  function Update(rules: GameRules, game: GameState, placed: Vec): (r: StepResult)
    requires |game.tail| > 0
    ensures Drain(game.facing, game.inputQueue) == Drained(r.game.facing, r.game.inputQueue)
    ensures !Reverses(game.facing, r.game.facing)
    ensures r.ate <==> game.food == Some(NextCell(game.tail, r.game.facing))
    ensures r.died <==> !InField(rules.fieldSize, NextCell(game.tail, r.game.facing))
                        || NextCell(game.tail, r.game.facing) in Kept(game.tail, r.ate)
    ensures r.died ==> r.game.tail == Kept(game.tail, r.ate)
    ensures !r.died ==> r.game.tail == Kept(game.tail, r.ate) + [NextCell(game.tail, r.game.facing)]
    ensures r.game.food == (if r.ate then Some(placed) else game.food)
    ensures r.game.stepDelay == game.stepDelay
  {
    var drained := Drain(game.facing, game.inputQueue);
    var next := Head(game.tail).Add(drained.dir.Value());
    var ate := game.food.Some? && next == game.food.value;
    var food := if ate then Some(placed) else game.food;
    var tail := if ate then game.tail else game.tail[1..];
    var collide := next.x < 0 || next.x >= rules.fieldSize.x
                   || next.y < 0 || next.y >= rules.fieldSize.y
                   || next in tail;
    var g := GameState(if collide then tail else tail + [next], drained.dir, drained.rest, food, game.stepDelay);
    StepResult(g, collide, ate)
  }
}
