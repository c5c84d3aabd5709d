/** The four movement directions, each with a signed identifier and a unit displacement. */
module Directions {
  import opened Vectors

  datatype Direction = Up | Down | Left | Right {

    /** Opposite directions carry identifiers that are additive inverses. */
    function Id(): int {
      match this
      case Up => -1
      case Down => 1
      case Left => -2
      case Right => 2
    }

    /** The unit step taken when moving in this direction. */
    function Value(): Vec {
      match this
      case Up => Vec(0, -1)
      case Down => Vec(0, 1)
      case Left => Vec(-1, 0)
      case Right => Vec(1, 0)
    }
  }

  /** The 180-degree reversal, given as an explicit table independent of the ids. */
  function Opposite(d: Direction): (o: Direction)
    ensures o != d
    ensures o.Id() == -d.Id()
    ensures o.Value() == d.Value().Neg()
  {
    match d
    case Up => Down
    case Down => Up
    case Left => Right
    case Right => Left
  }

  /** The engine's reversal test: `d` undoes `facing` when its id is the negated id. */
  predicate Reverses(facing: Direction, d: Direction) {
    d.Id() == -facing.Id()
  }

  /** The id test agrees exactly with the explicit reversal table. */
  lemma ReversesIsOpposite(facing: Direction, d: Direction)
    ensures Reverses(facing, d) <==> d == Opposite(facing)
  {
  }

  /** Ids identify directions, and so do unit displacements. */
  lemma IdsAndValuesDistinct(a: Direction, b: Direction)
    ensures a.Id() == b.Id() <==> a == b
    ensures a.Value() == b.Value() <==> a == b
  {
  }

  /** No direction is its own reversal, so the two skip tests never overlap. */
  lemma NeverSelfReverse(d: Direction)
    ensures !Reverses(d, d)
  {
  }
}
