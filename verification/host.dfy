/** The host around the engine: the session's `dead` flag, the score, the reset
    key, the arrow keys and the frame callback that runs the update when due. */
module Host {
  import opened Vectors
  import opened Directions
  import opened Engine
  import opened StepProperties

  /** The configuration the game is played with: a 50 by 40 field and a
      five-cell body along row 4, heading right. */
  const SnakeRules: GameRules :=
    GameRules(Vec(50, 40), 1.0, [Vec(0, 4), Vec(1, 4), Vec(2, 4), Vec(3, 4), Vec(4, 4)], Right)

  /** The timing value a new session starts with, replacing the rules' value. */
  const StartDelay: real := 200.0

  /** A running session: the engine state, the one-bit death gate and the score. */
  datatype Session = Session(game: GameState, dead: bool, score: int)

  /** Start-up and the R key: a new game plus its first food, alive, score zero.
      `placed` is the placement loop's result on the new game. */
  function Reset(rules: GameRules, placed: Vec): (s: Session)
    ensures !s.dead && s.score == 0
    ensures s.game.tail == rules.initialTail && s.game.facing == rules.initialFacing
    ensures s.game.inputQueue == [] && s.game.food == Some(placed)
    ensures s.game.stepDelay == StartDelay
  {
    var g := NewGame(rules).(stepDelay := StartDelay);
    Session(g.(food := Some(placed)), false, 0)
  }

  /** An arrow key: its direction is queued, alive or dead. */
  function Press(s: Session, d: Direction): (s': Session)
    ensures s'.game.inputQueue == s.game.inputQueue + [d]
    ensures s'.game.tail == s.game.tail && s'.game.facing == s.game.facing && s'.game.food == s.game.food
    ensures s'.dead == s.dead && s'.score == s.score
  {
    s.(game := PushInput(s.game, d))
  }

  /** One animation frame. `due` says the timing accumulator ran out during this
      frame; `placed` is the placement loop's result should the update eat. */
  function Frame(rules: GameRules, s: Session, due: bool, placed: Vec): (s': Session)
    requires !s.dead && due ==> |s.game.tail| > 0
    ensures s.dead || !due ==> s' == s
    ensures !s.dead && due ==>
              var r := Update(rules, s.game, placed);
              && s'.game == r.game && s'.dead == r.died
              && (s'.score == s.score + 1 <==> s.game.food == Some(NextCell(s.game.tail, r.game.facing)))
              && (s'.score == s.score || s'.score == s.score + 1)
  {
    if s.dead || !due then s
    else
      var r := Update(rules, s.game, placed);
      Session(r.game, r.died, if r.ate then s.score + 1 else s.score)
  }

  /** Configurations the engine is meant for: a field with cells and a
      non-empty initial body of distinct field cells whose head was reached by
      the initial facing. */
  predicate ValidRules(rules: GameRules) {
    && Positive(rules.fieldSize)
    && |rules.initialTail| > 0
    && Distinct(rules.initialTail)
    && AllInField(rules.fieldSize, rules.initialTail)
    && Aligned(NewGame(rules))
  }

  lemma SnakeRulesValid()
    ensures ValidRules(SnakeRules)
  {
    var t := SnakeRules.initialTail;
    assert forall i :: 0 <= i < |t| ==> t[i] == Vec(i, 4);
  }

  /** What holds of every session the host can reach. Each food eaten adds one
      cell, and death costs one cell or one uneaten point, so the body length
      plus the death bit tracks the score. */
  predicate Inv(rules: GameRules, s: Session) {
    && 0 <= s.score
    && |s.game.tail| + (if s.dead then 1 else 0) == |rules.initialTail| + s.score
    && Distinct(s.game.tail)
    && AllInField(rules.fieldSize, s.game.tail)
    && (s.game.food.Some? ==> InField(rules.fieldSize, s.game.food.value))
    && (!s.dead ==> |s.game.tail| > 0 && s.game.food.Some? && Aligned(s.game))
  }

  lemma ResetEstablishesInv(rules: GameRules, placed: Vec)
    requires ValidRules(rules) && InField(rules.fieldSize, placed)
    ensures Inv(rules, Reset(rules, placed))
  {
  }

  lemma PressPreservesInv(rules: GameRules, s: Session, d: Direction)
    requires Inv(rules, s)
    ensures Inv(rules, Press(s, d))
  {
  }

  lemma FramePreservesInv(rules: GameRules, s: Session, due: bool, placed: Vec)
    requires Inv(rules, s) && InField(rules.fieldSize, placed)
    ensures Inv(rules, Frame(rules, s, due, placed))
  {
    if !s.dead && due {
      UpdateKeepsBody(rules, s.game, placed);
      var r := Update(rules, s.game, placed);
      if r.died {
        DeathStepLength(rules, s.game, placed);
      } else {
        SurvivingStepLength(rules, s.game, placed);
        SurvivingStepAligns(rules, s.game, placed);
      }
    }
  }

  /** Everything that reaches the engine from outside. */
  datatype Event =
    | Arrow(d: Direction)
    | Tick(due: bool, placed: Vec)
    | Restart(placed: Vec)

  /** Every placement-loop result in `events` lies on the field. */
  predicate PlacementsInField(rules: GameRules, events: seq<Event>) {
    forall i :: 0 <= i < |events| && !events[i].Arrow? ==> InField(rules.fieldSize, events[i].placed)
  }

  function Apply(rules: GameRules, s: Session, e: Event): (s': Session)
    requires ValidRules(rules) && Inv(rules, s)
    requires !e.Arrow? ==> InField(rules.fieldSize, e.placed)
    ensures Inv(rules, s')
  {
    match e
    case Arrow(d) =>
      PressPreservesInv(rules, s, d);
      Press(s, d)
    case Tick(due, placed) =>
      FramePreservesInv(rules, s, due, placed);
      Frame(rules, s, due, placed)
    case Restart(placed) =>
      ResetEstablishesInv(rules, placed);
      Reset(rules, placed)
  }

  /** Feeds a sequence of events to the host, oldest first. Whatever the
      sequence, the reached session keeps the invariant, so in particular the
      score never goes negative and a living snake never overlaps itself. */
  function Run(rules: GameRules, s: Session, events: seq<Event>): (s': Session)
    requires ValidRules(rules) && Inv(rules, s) && PlacementsInField(rules, events)
    ensures Inv(rules, s')
    ensures s'.score >= 0
    decreases |events|
  {
    if |events| == 0 then s
    else
      assert !events[0].Arrow? ==> InField(rules.fieldSize, events[0].placed);
      var next := Apply(rules, s, events[0]);
      assert forall i :: 1 <= i < |events| ==> events[1..][i - 1] == events[i];
      Run(rules, next, events[1..])
  }

  /** Once dead, frames change nothing: the board stays frozen until a reset. */
  lemma {:induction false} DeadSessionFrozen(rules: GameRules, s: Session, frames: seq<Event>)
    requires s.dead && ValidRules(rules) && Inv(rules, s) && PlacementsInField(rules, frames)
    requires forall i :: 0 <= i < |frames| ==> frames[i].Tick?
    ensures Run(rules, s, frames) == s
    decreases |frames|
  {
    if |frames| > 0 {
      assert forall i :: 1 <= i < |frames| ==> frames[1..][i - 1] == frames[i];
      DeadSessionFrozen(rules, s, frames[1..]);
    }
  }
}
