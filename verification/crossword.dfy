/** The puzzle the solver works on: slot variables, the overlaps between
    them and the word list. Building it from the structure and word files
    is not part of this model; `WellFormed` states what the solver assumes
    of it. */
module Crossword {

  import opened Wrappers

  datatype Direction = Across | Down

  /** A slot: its first cell `(i, j)`, its direction and its length. */
  datatype Variable = Variable(i: int, j: int, direction: Direction, length: int)

  /** `overlaps[(x, y)]` is `Some((a, b))` when letter `a` of `x` and letter
      `b` of `y` share a cell, and `None` when the two slots do not cross.
      There is a key for every ordered pair of distinct variables. */
  datatype Puzzle = Puzzle(
    variables: set<Variable>,
    overlaps: map<(Variable, Variable), Option<(int, int)>>,
    words: set<string>)

  ghost predicate WellFormed(p: Puzzle) {
    && (forall v :: v in p.variables ==> v.length > 0)
    && (forall x, y :: (x, y) in p.overlaps <==> x in p.variables && y in p.variables && x != y)
    && (forall x, y :: (x, y) in p.overlaps && p.overlaps[(x, y)].Some? ==>
          var (a, b) := p.overlaps[(x, y)].value;
          && 0 <= a < x.length && 0 <= b < y.length
          && (y, x) in p.overlaps && p.overlaps[(y, x)] == Some((b, a)))
  }

  /** The other variables that cross `v`. */
  function Neighbors(p: Puzzle, v: Variable): (ns: set<Variable>)
    ensures ns <= p.variables
    ensures WellFormed(p) ==> v !in ns
  {
    set y | y in p.variables && (v, y) in p.overlaps && p.overlaps[(v, y)].Some?
  }

  /** Crossing is symmetric. */
  lemma NeighborsSymmetric(p: Puzzle, x: Variable, y: Variable)
    requires WellFormed(p)
    ensures y in Neighbors(p, x) <==> x in Neighbors(p, y)
  {
    if y in Neighbors(p, x) {
      assert p.overlaps[(x, y)].Some?;
    }
    if x in Neighbors(p, y) {
      assert p.overlaps[(y, x)].Some?;
    }
  }
}
