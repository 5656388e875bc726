/** Tic-tac-toe rules and exhaustive minimax over a 3x3 board.

    The board is a value: `Result` builds a new board and never changes the
    one it is given. Python's `EMPTY = None` means that "no winner" and "an
    empty cell" are the same value; here both are `Empty`.
 */
module TicTacToe {

  import opened Wrappers

  datatype Cell = X | O | Empty

  type Board = seq<seq<Cell>>

  /** A move `(i, j)`: row `i`, column `j`. */
  type Action = (int, int)

  /** Values computed by minimax; `NegInf` and `PosInf` stand for the
      starting values `-math.inf` and `math.inf` of the folds. */
  datatype Score = NegInf | Fin(v: int) | PosInf

  /** The outcome of a move: the successor board, or the error raised for
      an action that is not available. */
  datatype MoveResult = Ok(board: Board) | InvalidAction

  predicate ValidBoard(b: Board) {
    |b| == 3 && forall i :: 0 <= i < 3 ==> |b[i]| == 3
  }

  predicate InBounds(a: Action) {
    0 <= a.0 < 3 && 0 <= a.1 < 3
  }

  // ---------------------------------------------------------------------
  // Counting cells

  /** Number of occurrences of `c` in one row (`row.count(c)`). */
  function CountIn(row: seq<Cell>, c: Cell): (n: nat)
    ensures n <= |row|
  {
    if row == [] then 0 else (if row[0] == c then 1 else 0) + CountIn(row[1..], c)
  }

  /** Number of occurrences of `c` on the whole board, summed row by row. */
  function Count(rows: seq<seq<Cell>>, c: Cell): nat {
    if rows == [] then 0 else CountIn(rows[0], c) + Count(rows[1..], c)
  }

  function EmptyCount(b: Board): nat {
    Count(b, Empty)
  }

  /** Writing `p` at position `j` of a row changes the count of `c` by the
      cell that left and the cell that arrived. */
  lemma {:induction false} CountInUpdate(row: seq<Cell>, j: nat, p: Cell, c: Cell)
    requires j < |row|
    ensures CountIn(row[j := p], c)
            == CountIn(row, c) - (if row[j] == c then 1 else 0) + (if p == c then 1 else 0)
  {
    if j > 0 {
      CountInUpdate(row[1..], j - 1, p, c);
      assert row[j := p][1..] == row[1..][j - 1 := p];
    }
  }

  lemma {:induction false} CountUpdate(rows: seq<seq<Cell>>, i: nat, j: nat, p: Cell, c: Cell)
    requires i < |rows| && j < |rows[i]|
    ensures Count(rows[i := rows[i][j := p]], c)
            == Count(rows, c) - (if rows[i][j] == c then 1 else 0) + (if p == c then 1 else 0)
  {
    if i == 0 {
      CountInUpdate(rows[0], j, p, c);
      assert rows[i := rows[i][j := p]][1..] == rows[1..];
    } else {
      CountUpdate(rows[1..], i - 1, j, p, c);
      assert rows[i := rows[i][j := p]][1..] == rows[1..][i - 1 := rows[i][j := p]];
    }
  }

  // ---------------------------------------------------------------------
  // initial_state, player, actions, result

  function InitialState(): (b: Board)
    ensures ValidBoard(b)
  {
    [[Empty, Empty, Empty],
     [Empty, Empty, Empty],
     [Empty, Empty, Empty]]
  }

  /** `X` moves when both marks occur equally often, `O` otherwise. */
  function Player(b: Board): (p: Cell)
    ensures p != Empty
    ensures p == X <==> Count(b, X) == Count(b, O)
  {
    if Count(b, O) == Count(b, X) then X else O
  }

  /** The actions from cell `(i, j)` on, in row-major order. */
  function ActionsFrom(b: Board, i: nat, j: nat): (s: set<Action>)
    requires ValidBoard(b) && i <= 3 && j <= 3
    ensures forall a :: a in s <==>
      (InBounds(a) && (a.0 > i || (a.0 == i && a.1 >= j)) && b[a.0][a.1] == Empty)
    decreases 3 - i, 3 - j
  {
    if i == 3 then {}
    else if j == 3 then ActionsFrom(b, i + 1, 0)
    else (if b[i][j] == Empty then {(i, j)} else {}) + ActionsFrom(b, i, j + 1)
  }

  /** Every position of an empty cell, and nothing else. */
  function Actions(b: Board): (s: set<Action>)
    requires ValidBoard(b)
    ensures forall a :: a in s <==> (InBounds(a) && b[a.0][a.1] == Empty)
  {
    ActionsFrom(b, 0, 0)
  }

  /** The board with cell `a` overwritten by `p`; `b` itself is a value and
      stays as it was (the deep copy of the source). */
  function Place(b: Board, a: Action, p: Cell): Board
    requires ValidBoard(b) && InBounds(a)
  {
    b[a.0 := b[a.0][a.1 := p]]
  }

  function Result(b: Board, a: Action): (r: MoveResult)
    requires ValidBoard(b)
    ensures r.Ok? <==> a in Actions(b)
    ensures r.Ok? ==> ValidBoard(r.board) && r.board[a.0][a.1] == Player(b)
    ensures r.Ok? ==> forall i, j :: 0 <= i < 3 && 0 <= j < 3 && (i, j) != a ==>
                        r.board[i][j] == b[i][j]
    ensures r.Ok? ==> EmptyCount(r.board) == EmptyCount(b) - 1
  {
    if a in Actions(b) then
      CountUpdate(b, a.0, a.1, Player(b), Empty);
      Ok(Place(b, a, Player(b)))
    else
      InvalidAction
  }

  /** The counts of a legal position: `X` has moved as often as `O`, or once
      more. */
  predicate Balanced(b: Board) {
    Count(b, X) == Count(b, O) || Count(b, X) == Count(b, O) + 1
  }

  /** A legal move keeps the position balanced, fills one empty cell, and
      passes the turn to the other player. */
  lemma ResultAlternates(b: Board, a: Action)
    requires ValidBoard(b) && Balanced(b) && a in Actions(b)
    ensures Balanced(Result(b, a).board)
    ensures Player(Result(b, a).board) != Player(b)
    ensures Count(Result(b, a).board, Player(b)) == Count(b, Player(b)) + 1
  {
    CountUpdate(b, a.0, a.1, Player(b), X);
    CountUpdate(b, a.0, a.1, Player(b), O);
  }

  /** The actions from `(i, j)` on are exactly as many as the empty cells
      from `(i, j)` on. */
  lemma {:induction false} ActionsFromCount(b: Board, i: nat, j: nat)
    requires ValidBoard(b) && i < 3 && j <= 3
    ensures |ActionsFrom(b, i, j)| == CountIn(b[i][j..], Empty) + Count(b[i + 1..], Empty)
    decreases 3 - i, 3 - j
  {
    if j == 3 {
      if i + 1 < 3 {
        ActionsFromCount(b, i + 1, 0);
        assert b[i + 1][0..] == b[i + 1];
        assert b[i + 1..][1..] == b[i + 2..];
      }
    } else {
      ActionsFromCount(b, i, j + 1);
      assert b[i][j..][1..] == b[i][j + 1..];
      assert (i, j) !in ActionsFrom(b, i, j + 1);
    }
  }

  /** `actions` and the empty-cell count used by `terminal` agree. */
  lemma ActionsCount(b: Board)
    requires ValidBoard(b)
    ensures |Actions(b)| == EmptyCount(b)
  {
    ActionsFromCount(b, 0, 0);
    assert b[0][0..] == b[0];
    assert b[1..] == b[0..][1..];
  }

  // ---------------------------------------------------------------------
  // winner, terminal, utility

  /** `p` fills row `i`. */
  predicate RowOf(b: Board, i: nat, p: Cell)
    requires ValidBoard(b) && i < 3
  {
    b[i][0] == p && b[i][1] == p && b[i][2] == p
  }

  /** `p` fills column `j`. */
  predicate ColumnOf(b: Board, j: nat, p: Cell)
    requires ValidBoard(b) && j < 3
  {
    b[0][j] == p && b[1][j] == p && b[2][j] == p
  }

  /** `p` fills a row, a column or a diagonal. */
  predicate HasLine(b: Board, p: Cell)
    requires ValidBoard(b)
  {
    (exists i :: 0 <= i < 3 && RowOf(b, i, p))
    || (exists j :: 0 <= j < 3 && ColumnOf(b, j, p))
    || (b[0][0] == p && b[1][1] == p && b[2][2] == p)
    || (b[0][2] == p && b[1][1] == p && b[2][0] == p)
  }

  /** The row/column loop of `winner`, from index `i` on. It stops at the
      first uniform row or column, including one that is entirely empty. */
  function WinnerLoop(b: Board, i: nat): (w: Cell)
    requires ValidBoard(b) && i <= 3
    ensures w != Empty ==> exists k :: i <= k < 3 && (RowOf(b, k, w) || ColumnOf(b, k, w))
    decreases 3 - i
  {
    if i == 3 then Empty
    else if b[i][0] == b[i][1] == b[i][2] then
      assert RowOf(b, i, b[i][0]);
      b[i][0]
    else if b[0][i] == b[1][i] == b[2][i] then
      assert ColumnOf(b, i, b[0][i]);
      b[0][i]
    else WinnerLoop(b, i + 1)
  }

  /** `Empty` stands for "no winner". A mark returned here always owns a
      full line; the converse fails (see `WinnerMissesLine`). */
  function Winner(b: Board): (w: Cell)
    requires ValidBoard(b)
    ensures w != Empty ==> HasLine(b, w)
  {
    var w := WinnerLoop(b, 0);
    if w == Empty then
      if b[0][0] == b[1][1] == b[2][2] then b[0][0]
      else if b[0][2] == b[1][1] == b[2][0] then b[0][2]
      else Empty
    else w
  }

  /** When no row and no column is entirely empty, every full line is
      reported: the loop cannot stop early on an empty line. */
  lemma WinnerFindsLine(b: Board, p: Cell)
    requires ValidBoard(b) && p != Empty && HasLine(b, p)
    requires forall i :: 0 <= i < 3 ==> !RowOf(b, i, Empty) && !ColumnOf(b, i, Empty)
    ensures Winner(b) != Empty
  {
    assert !RowOf(b, 0, Empty) && !RowOf(b, 1, Empty) && !RowOf(b, 2, Empty);
    assert !ColumnOf(b, 0, Empty) && !ColumnOf(b, 1, Empty) && !ColumnOf(b, 2, Empty);
    if exists i :: 0 <= i < 3 && RowOf(b, i, p) {
      var i :| 0 <= i < 3 && RowOf(b, i, p);
      WinnerLoopFinds(b, 0, i);
    } else if exists j :: 0 <= j < 3 && ColumnOf(b, j, p) {
      var j :| 0 <= j < 3 && ColumnOf(b, j, p);
      WinnerLoopFinds(b, 0, j);
    }
  }

  /** From index `i` on, a uniform row or column at `k >= i` makes the loop
      return a mark, provided none of the lines it visits first is empty. */
  lemma {:induction false} WinnerLoopFinds(b: Board, i: nat, k: nat)
    requires ValidBoard(b) && i <= k < 3
    requires forall m :: i <= m < 3 ==> !RowOf(b, m, Empty) && !ColumnOf(b, m, Empty)
    requires (b[k][0] == b[k][1] == b[k][2]) || (b[0][k] == b[1][k] == b[2][k])
    ensures WinnerLoop(b, i) != Empty
    decreases 3 - i
  {
    assert !RowOf(b, i, Empty) && !ColumnOf(b, i, Empty);
    if i < k && !(b[i][0] == b[i][1] == b[i][2]) && !(b[0][i] == b[1][i] == b[2][i]) {
      WinnerLoopFinds(b, i + 1, k);
    }
  }

  /** The loop of `winner` gives up on an all-empty first row, so a full row
      of `X` further down is never reported and the game goes on. */
  lemma WinnerMissesLine()
    ensures var b := [[Empty, Empty, Empty], [X, X, X], [O, O, Empty]];
            ValidBoard(b) && Balanced(b) && HasLine(b, X) && Winner(b) == Empty && !Terminal(b)
  {
    var b := [[Empty, Empty, Empty], [X, X, X], [O, O, Empty]];
    assert RowOf(b, 1, X);
    assert CountIn(b[0], Empty) == 3;
  }

  /** The game is over when the board is full or `winner` reports a mark:
      exactly when no move is left or someone is reported to have won. */
  function Terminal(b: Board): (r: bool)
    requires ValidBoard(b)
    ensures r <==> Actions(b) == {} || Winner(b) != Empty
  {
    ActionsCount(b);
    EmptyCount(b) == 0 || Winner(b) != Empty
  }

  /** A game that is not over has a move left. */
  lemma NonTerminalHasAction(b: Board)
    requires ValidBoard(b) && !Terminal(b)
    ensures Actions(b) != {}
  {
    ActionsCount(b);
  }

  function Utility(b: Board): (u: int)
    requires ValidBoard(b)
    ensures -1 <= u <= 1
    ensures u == 1 <==> Winner(b) == X
    ensures u == -1 <==> Winner(b) == O
  {
    var w := Winner(b);
    if w == X then 1 else if w == O then -1 else 0
  }

  lemma InitialStateFacts()
    ensures Player(InitialState()) == X
    ensures Winner(InitialState()) == Empty
    ensures !Terminal(InitialState())
    ensures |Actions(InitialState())| == 9
  {
    var b := InitialState();
    assert CountIn(b[0], Empty) == 3 && CountIn(b[1], Empty) == 3 && CountIn(b[2], Empty) == 3;
    assert b[1..][1..][1..] == [];
    ActionsCount(b);
  }

  // ---------------------------------------------------------------------
  // minimax

  predicate InRange(s: Score) {
    s.Fin? && -1 <= s.v <= 1
  }

  function MaxScore(a: Score, b: Score): Score {
    match (a, b)
    case (NegInf, _) => b
    case (_, NegInf) => a
    case (PosInf, _) => PosInf
    case (_, PosInf) => PosInf
    case (Fin(x), Fin(y)) => if x >= y then a else b
  }

  function MinScore(a: Score, b: Score): Score {
    match (a, b)
    case (PosInf, _) => b
    case (_, PosInf) => a
    case (NegInf, _) => NegInf
    case (_, NegInf) => NegInf
    case (Fin(x), Fin(y)) => if x <= y then a else b
  }

  predicate Le(a: Score, b: Score) {
    a.NegInf? || b.PosInf? || (a.Fin? && b.Fin? && a.v <= b.v)
  }

  /** Value of `b` for `X`, the maximising player. */
  function MaxValue(b: Board): (v: Score)
    requires ValidBoard(b)
    ensures InRange(v)
    decreases EmptyCount(b), 1, 0, 0
  {
    if Terminal(b) then Fin(Utility(b))
    else
      NonTerminalHasAction(b);
      MaxOver(b, 0, 0, NegInf)
  }

  /** Value of `b` for `O`, the minimising player. */
  function MinValue(b: Board): (v: Score)
    requires ValidBoard(b)
    ensures InRange(v)
    decreases EmptyCount(b), 1, 0, 0
  {
    if Terminal(b) then Fin(Utility(b))
    else
      NonTerminalHasAction(b);
      MinOver(b, 0, 0, PosInf)
  }

  /** `v = max(v, min_value(result(board, action)))` over the actions from
      `(i, j)` on. */
  function MaxOver(b: Board, i: nat, j: nat, v: Score): (r: Score)
    requires ValidBoard(b) && i <= 3 && j <= 3
    requires v.NegInf? || InRange(v)
    ensures r.NegInf? || InRange(r)
    ensures r.NegInf? ==> v.NegInf? && ActionsFrom(b, i, j) == {}
    decreases EmptyCount(b), 0, 3 - i, 3 - j
  {
    if i == 3 then v
    else if j == 3 then MaxOver(b, i + 1, 0, v)
    else if b[i][j] == Empty then
      MaxOver(b, i, j + 1, MaxScore(v, MinValue(Result(b, (i, j)).board)))
    else MaxOver(b, i, j + 1, v)
  }

  /** `v = min(v, max_value(result(board, action)))` over the actions from
      `(i, j)` on. */
  function MinOver(b: Board, i: nat, j: nat, v: Score): (r: Score)
    requires ValidBoard(b) && i <= 3 && j <= 3
    requires v.PosInf? || InRange(v)
    ensures r.PosInf? || InRange(r)
    ensures r.PosInf? ==> v.PosInf? && ActionsFrom(b, i, j) == {}
    decreases EmptyCount(b), 0, 3 - i, 3 - j
  {
    if i == 3 then v
    else if j == 3 then MinOver(b, i + 1, 0, v)
    else if b[i][j] == Empty then
      MinOver(b, i, j + 1, MinScore(v, MaxValue(Result(b, (i, j)).board)))
    else MinOver(b, i, j + 1, v)
  }

  /** The fold's result is its start value or the value of one of the
      actions it visits, and bounds them all from above. */
  lemma {:induction false} MaxOverIsMaximum(b: Board, i: nat, j: nat, v: Score)
    requires ValidBoard(b) && i <= 3 && j <= 3
    requires v.NegInf? || InRange(v)
    ensures var r := MaxOver(b, i, j, v);
      && Le(v, r)
      && (forall a :: a in ActionsFrom(b, i, j) ==> Le(MinValue(Result(b, a).board), r))
      && (r == v || exists a :: a in ActionsFrom(b, i, j) && r == MinValue(Result(b, a).board))
    decreases 3 - i, 3 - j
  {
    if i == 3 {
    } else if j == 3 {
      MaxOverIsMaximum(b, i + 1, 0, v);
    } else if b[i][j] == Empty {
      var m := MinValue(Result(b, (i, j)).board);
      MaxOverIsMaximum(b, i, j + 1, MaxScore(v, m));
    } else {
      MaxOverIsMaximum(b, i, j + 1, v);
    }
  }

  lemma {:induction false} MinOverIsMinimum(b: Board, i: nat, j: nat, v: Score)
    requires ValidBoard(b) && i <= 3 && j <= 3
    requires v.PosInf? || InRange(v)
    ensures var r := MinOver(b, i, j, v);
      && Le(r, v)
      && (forall a :: a in ActionsFrom(b, i, j) ==> Le(r, MaxValue(Result(b, a).board)))
      && (r == v || exists a :: a in ActionsFrom(b, i, j) && r == MaxValue(Result(b, a).board))
    decreases 3 - i, 3 - j
  {
    if i == 3 {
    } else if j == 3 {
      MinOverIsMinimum(b, i + 1, 0, v);
    } else if b[i][j] == Empty {
      var m := MaxValue(Result(b, (i, j)).board);
      MinOverIsMinimum(b, i, j + 1, MinScore(v, m));
    } else {
      MinOverIsMinimum(b, i, j + 1, v);
    }
  }

  /** On a board that is not over, `MaxValue` is the largest `MinValue` of
      a successor and is reached by some action. */
  lemma MaxValueIsBestMove(b: Board)
    requires ValidBoard(b) && !Terminal(b)
    ensures forall a :: a in Actions(b) ==> Le(MinValue(Result(b, a).board), MaxValue(b))
    ensures exists a :: a in Actions(b) && MinValue(Result(b, a).board) == MaxValue(b)
  {
    MaxOverIsMaximum(b, 0, 0, NegInf);
    assert MaxValue(b) == MaxOver(b, 0, 0, NegInf) != NegInf;
  }

  lemma MinValueIsBestMove(b: Board)
    requires ValidBoard(b) && !Terminal(b)
    ensures forall a :: a in Actions(b) ==> Le(MinValue(b), MaxValue(Result(b, a).board))
    ensures exists a :: a in Actions(b) && MaxValue(Result(b, a).board) == MinValue(b)
  {
    MinOverIsMinimum(b, 0, 0, PosInf);
    assert MinValue(b) == MinOver(b, 0, 0, PosInf) != PosInf;
  }

  /** The value the player to move can force: `MaxValue` for `X`,
      `MinValue` for `O`. */
  function Best(b: Board): Score
    requires ValidBoard(b)
  {
    if Player(b) == X then MaxValue(b) else MinValue(b)
  }

  /** The value of a successor for the player who made the move into it. */
  function SuccessorValue(b: Board, a: Action): Score
    requires ValidBoard(b) && a in Actions(b)
  {
    if Player(b) == X then MinValue(Result(b, a).board) else MaxValue(Result(b, a).board)
  }

  /** The first action, from `(i, j)` on, whose successor reaches `target`. */
  function FindFrom(b: Board, i: nat, j: nat, target: Score): (r: Option<Action>)
    requires ValidBoard(b) && i <= 3 && j <= 3
    ensures r.Some? ==> r.value in ActionsFrom(b, i, j) && SuccessorValue(b, r.value) == target
    ensures r.None? ==> forall a :: a in ActionsFrom(b, i, j) ==> SuccessorValue(b, a) != target
    decreases 3 - i, 3 - j
  {
    if i == 3 then None
    else if j == 3 then FindFrom(b, i + 1, 0, target)
    else if b[i][j] == Empty && SuccessorValue(b, (i, j)) == target then Some((i, j))
    else FindFrom(b, i, j + 1, target)
  }

  /** An optimal action for the player to move, or `None` once the game is
      over. */
  function Minimax(b: Board): (r: Option<Action>)
    requires ValidBoard(b)
    ensures r.None? <==> Terminal(b)
    ensures r.Some? ==> r.value in Actions(b) && SuccessorValue(b, r.value) == Best(b)
    ensures r.Some? && Player(b) == X ==>
      forall a :: a in Actions(b) ==> Le(SuccessorValue(b, a), SuccessorValue(b, r.value))
    ensures r.Some? && Player(b) == O ==>
      forall a :: a in Actions(b) ==> Le(SuccessorValue(b, r.value), SuccessorValue(b, a))
  {
    if Terminal(b) then None
    else
      MaxValueIsBestMove(b);
      MinValueIsBestMove(b);
      var r := FindFrom(b, 0, 0, Best(b));
      if r.Some? then r else assert false; None
  }
}
