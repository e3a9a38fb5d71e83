/**
 * Tic-tac-toe rules and minimax search (Search/tictactoe/tictactoe.py).
 *
 * A board is a 3x3 grid of cells, each EMPTY or holding a mark X or O.
 * `winner`, `terminal` and `utility` are functions of the board. `player`,
 * `actions`, `max_value`, `min_value` and `minimax` run loops over local
 * counters, lists and running bests, and are methods proved against the
 * functions `PlayerOf`, `ActionsOf`, `MaxValue` and `MinValue`.
 */
module TicTacToe {
  import opened Wrappers

  datatype Mark = X | O
  datatype Cell = Empty | Filled(mark: Mark)
  type Board = seq<seq<Cell>>
  /** A move `(row, column)`. */
  type Action = (int, int)

  predicate ValidBoard(b: Board) {
    |b| == 3 && forall r :: 0 <= r < 3 ==> |b[r]| == 3
  }

  predicate InRange(a: Action) {
    0 <= a.0 < 3 && 0 <= a.1 < 3
  }

  function Other(m: Mark): Mark {
    if m == X then O else X
  }

  // ---------------------------------------------------------------------
  // Counting cells

  /** Number of cells of `row` equal to `c`. */
  function CountRow(row: seq<Cell>, c: Cell): (n: nat)
    ensures n <= |row|
  {
    if row == [] then 0
    else CountRow(row[..|row| - 1], c) + (if row[|row| - 1] == c then 1 else 0)
  }

  /** Number of cells of all `rows` equal to `c`. */
  function CountRows(rows: seq<seq<Cell>>, c: Cell): nat {
    if rows == [] then 0
    else CountRows(rows[..|rows| - 1], c) + CountRow(rows[|rows| - 1], c)
  }

  function EmptyCount(b: Board): nat {
    CountRows(b, Empty)
  }

  lemma {:induction false} CountRowUpdate(row: seq<Cell>, k: nat, v: Cell, c: Cell)
    requires k < |row|
    ensures CountRow(row[k := v], c)
            == CountRow(row, c) - (if row[k] == c then 1 else 0) + (if v == c then 1 else 0)
    decreases |row|
  {
    var n := |row|;
    if k == n - 1 {
      assert row[k := v][..n - 1] == row[..n - 1];
    } else {
      assert row[k := v][..n - 1] == row[..n - 1][k := v];
      CountRowUpdate(row[..n - 1], k, v, c);
    }
  }

  lemma {:induction false} CountRowsUpdate(rows: seq<seq<Cell>>, r: nat, newRow: seq<Cell>, c: Cell)
    requires r < |rows|
    ensures CountRows(rows[r := newRow], c)
            == CountRows(rows, c) - CountRow(rows[r], c) + CountRow(newRow, c)
    decreases |rows|
  {
    var n := |rows|;
    if r == n - 1 {
      assert rows[r := newRow][..n - 1] == rows[..n - 1];
    } else {
      assert rows[r := newRow][..n - 1] == rows[..n - 1][r := newRow];
      CountRowsUpdate(rows[..n - 1], r, newRow, c);
    }
  }

  /** A line of three counts each of its cells once. */
  lemma CountRow3(row: seq<Cell>, c: Cell)
    requires |row| == 3
    ensures CountRow(row, c)
            == (if row[0] == c then 1 else 0) + (if row[1] == c then 1 else 0) + (if row[2] == c then 1 else 0)
  {
    var r2, r1 := row[..2], row[..1];
    assert r2[..1] == r1;
    assert r1[..0] == [];
    assert CountRow(r1, c) == (if row[0] == c then 1 else 0);
    assert CountRow(r2, c) == CountRow(r1, c) + (if row[1] == c then 1 else 0);
  }

  /** A board counts each of its three rows once. */
  lemma CountRows3(b: seq<seq<Cell>>, c: Cell)
    requires |b| == 3
    ensures CountRows(b, c) == CountRow(b[0], c) + CountRow(b[1], c) + CountRow(b[2], c)
  {
    var b2, b1 := b[..2], b[..1];
    assert b2[..1] == b1;
    assert b1[..0] == [];
    assert CountRows(b1, c) == CountRow(b[0], c);
    assert CountRows(b2, c) == CountRows(b1, c) + CountRow(b[1], c);
  }

  // ---------------------------------------------------------------------
  // initial_state

  function InitialState(): (b: Board)
    ensures ValidBoard(b)
    ensures forall i, j :: 0 <= i < 3 && 0 <= j < 3 ==> b[i][j] == Empty
  {
    [[Empty, Empty, Empty], [Empty, Empty, Empty], [Empty, Empty, Empty]]
  }

  // ---------------------------------------------------------------------
  // player

  /**
   * Whose turn it is: X when both marks are equally many, O when X has
   * more, and None when O has more (the source falls off its end).
   */
  function PlayerOf(b: Board): Option<Mark> {
    var x, o := CountRows(b, Filled(X)), CountRows(b, Filled(O));
    if x == o then Some(X) else if x > o then Some(O) else None
  }

  /** The boards on which `player` names a mover, which is what `result` needs. */
  predicate HasTurn(b: Board) {
    ValidBoard(b) && PlayerOf(b).Some?
  }

  /**
   * The boards `max_value` and `min_value` can score: a finished game is
   * scored by `utility` whoever would move, an unfinished one needs a mover.
   */
  predicate Scoreable(b: Board) {
    ValidBoard(b) && (Terminal(b) || PlayerOf(b).Some?)
  }

  /**
   * Counts both marks with two nested loops. The source's early exit on
   * `terminal == True` compares the function object with True and never
   * fires, so it has no counterpart here.
   */
  method Player(b: Board) returns (p: Option<Mark>)
    requires ValidBoard(b)
    ensures p == PlayerOf(b)
  {
    var xCount, oCount := 0, 0;
    var i := 0;
    while i < 3
      invariant 0 <= i <= 3
      invariant xCount == CountRows(b[..i], Filled(X))
      invariant oCount == CountRows(b[..i], Filled(O))
    {
      var j := 0;
      while j < 3
        invariant 0 <= j <= 3
        invariant xCount == CountRows(b[..i], Filled(X)) + CountRow(b[i][..j], Filled(X))
        invariant oCount == CountRows(b[..i], Filled(O)) + CountRow(b[i][..j], Filled(O))
      {
        assert b[i][..j + 1][..j] == b[i][..j];
        if b[i][j] == Filled(X) {
          xCount := xCount + 1;
        }
        if b[i][j] == Filled(O) {
          oCount := oCount + 1;
        }
        j := j + 1;
      }
      assert b[..i + 1][..i] == b[..i];
      assert b[i][..3] == b[i];
      i := i + 1;
    }
    assert b[..3] == b;
    if xCount == oCount {
      p := Some(X);
    } else if xCount > oCount {
      p := Some(O);
    } else {
      p := None;
    }
  }

  // ---------------------------------------------------------------------
  // actions

  /** `a` comes strictly before `a'` in row-major order. */
  predicate Before(a: Action, a': Action) {
    a.0 < a'.0 || (a.0 == a'.0 && a.1 < a'.1)
  }

  /** The empty cells of row `i` in columns below `j`, left to right. */
  function RowActions(b: Board, i: nat, j: nat): seq<Action>
    requires ValidBoard(b) && i < 3 && j <= 3
  {
    if j == 0 then []
    else RowActions(b, i, j - 1) + (if b[i][j - 1] == Empty then [(i, j - 1)] else [])
  }

  /** The empty cells of the rows below `i`, in row-major order. */
  function ActionsRows(b: Board, i: nat): seq<Action>
    requires ValidBoard(b) && i <= 3
  {
    if i == 0 then [] else ActionsRows(b, i - 1) + RowActions(b, i - 1, 3)
  }

  /**
   * `actions`: exactly the empty cells, each once, in row-major order.
   */
  function ActionsOf(b: Board): (acts: seq<Action>)
    requires ValidBoard(b)
    ensures AllEmpty(b, acts)
    ensures forall r, c :: 0 <= r < 3 && 0 <= c < 3 && b[r][c] == Empty ==> (r, c) in acts
    ensures RowMajor(acts)
  {
    ActionsRowsSpec(b, 3);
    ActionsRows(b, 3)
  }

  predicate AllEmpty(b: Board, acts: seq<Action>)
    requires ValidBoard(b)
  {
    forall t :: 0 <= t < |acts| ==> InRange(acts[t]) && b[acts[t].0][acts[t].1] == Empty
  }

  predicate RowMajor(acts: seq<Action>) {
    forall s, t :: 0 <= s < t < |acts| ==> Before(acts[s], acts[t])
  }

  lemma {:induction false} RowActionsSpec(b: Board, i: nat, j: nat)
    requires ValidBoard(b) && i < 3 && j <= 3
    ensures var acts := RowActions(b, i, j);
      && AllEmpty(b, acts)
      && (forall t :: 0 <= t < |acts| ==> acts[t].0 == i && acts[t].1 < j)
      && (forall c :: 0 <= c < j && b[i][c] == Empty ==> (i, c) in acts)
      && RowMajor(acts)
  {
    RowActionsCells(b, i, j);
    RowActionsComplete(b, i, j);
    RowActionsOrdered(b, i, j);
  }

  lemma {:induction false} RowActionsCells(b: Board, i: nat, j: nat)
    requires ValidBoard(b) && i < 3 && j <= 3
    ensures var acts := RowActions(b, i, j);
      && AllEmpty(b, acts)
      && (forall t :: 0 <= t < |acts| ==> acts[t].0 == i && acts[t].1 < j)
  {
    if j > 0 {
      var prev := j - 1;
      assert RowActions(b, i, j) == RowActions(b, i, prev) + if b[i][prev] == Empty then [(i, prev)] else [];
      RowActionsCells(b, i, prev);
    }
  }

  lemma {:induction false} RowActionsComplete(b: Board, i: nat, j: nat)
    requires ValidBoard(b) && i < 3 && j <= 3
    ensures forall c :: 0 <= c < j && b[i][c] == Empty ==> (i, c) in RowActions(b, i, j)
  {
    if j > 0 {
      var prev := j - 1;
      assert RowActions(b, i, j) == RowActions(b, i, prev) + if b[i][prev] == Empty then [(i, prev)] else [];
      RowActionsComplete(b, i, prev);
    }
  }

  lemma {:induction false} RowActionsOrdered(b: Board, i: nat, j: nat)
    requires ValidBoard(b) && i < 3 && j <= 3
    ensures RowMajor(RowActions(b, i, j))
  {
    if j > 0 {
      var prev := j - 1;
      var front, tail := RowActions(b, i, prev), if b[i][prev] == Empty then [(i, prev)] else [];
      assert RowActions(b, i, j) == front + tail;
      RowActionsCells(b, i, prev);
      RowActionsOrdered(b, i, prev);
      var acts := front + tail;
      forall s, t | 0 <= s < t < |acts| ensures Before(acts[s], acts[t]) {
        if t >= |front| {
          assert acts[s] == front[s] && acts[t] == (i, prev);
        }
      }
    }
  }

  lemma {:induction false} ActionsRowsSpec(b: Board, i: nat)
    requires ValidBoard(b) && i <= 3
    ensures var acts := ActionsRows(b, i);
      && AllEmpty(b, acts)
      && (forall t :: 0 <= t < |acts| ==> acts[t].0 < i)
      && (forall r, c :: 0 <= r < i && 0 <= c < 3 && b[r][c] == Empty ==> (r, c) in acts)
      && RowMajor(acts)
  {
    if i > 0 {
      ActionsRowsSpec(b, i - 1);
      RowActionsSpec(b, i - 1, 3);
      var front, back := ActionsRows(b, i - 1), RowActions(b, i - 1, 3);
      assert ActionsRows(b, i) == front + back;
      RowMajorAppend(front, back, i - 1);
    }
  }

  /** Earlier rows followed by row `i`, each in row-major order, stay in row-major order. */
  lemma RowMajorAppend(front: seq<Action>, back: seq<Action>, i: int)
    requires RowMajor(front) && RowMajor(back)
    requires forall t :: 0 <= t < |front| ==> front[t].0 < i
    requires forall t :: 0 <= t < |back| ==> back[t].0 == i
    ensures RowMajor(front + back)
  {
    forall s, t | 0 <= s < t < |front + back|
      ensures Before((front + back)[s], (front + back)[t])
    {
      if t < |front| {
        assert (front + back)[s] == front[s] && (front + back)[t] == front[t];
      } else if s >= |front| {
        assert (front + back)[s] == back[s - |front|] && (front + back)[t] == back[t - |front|];
      } else {
        assert (front + back)[s] == front[s];
        assert (front + back)[t] == back[t - |front|];
      }
    }
  }

  /** Collects the empty cells with two nested loops, as the source does. */
  method Actions(b: Board) returns (acts: seq<Action>)
    requires ValidBoard(b)
    ensures acts == ActionsOf(b)
  {
    acts := [];
    var i := 0;
    while i < 3
      invariant 0 <= i <= 3
      invariant acts == ActionsRows(b, i)
    {
      var j := 0;
      while j < 3
        invariant 0 <= j <= 3
        invariant acts == ActionsRows(b, i) + RowActions(b, i, j)
      {
        if b[i][j] == Empty {
          acts := acts + [(i, j)];
        }
        j := j + 1;
      }
      i := i + 1;
    }
  }

  // ---------------------------------------------------------------------
  // result

  /**
   * The board after the mover plays `a`. The source deep-copies the board
   * and writes one cell; a board here is a value, so the copy is implicit
   * and `b` is untouched. An occupied cell, or a board with no mover,
   * yields None.
   */
  function Result(b: Board, a: Action): (r: Option<Board>)
    requires ValidBoard(b) && InRange(a)
    ensures r.Some? <==> b[a.0][a.1] == Empty && PlayerOf(b).Some?
    ensures r.Some? ==> ValidBoard(r.value)
    ensures r.Some? ==> r.value[a.0][a.1] == Filled(PlayerOf(b).value)
    ensures r.Some? ==> forall i, j :: 0 <= i < 3 && 0 <= j < 3 && (i, j) != a ==> r.value[i][j] == b[i][j]
  {
    if b[a.0][a.1] == Empty then
      match PlayerOf(b)
      case Some(m) => Some(b[a.0 := b[a.0][a.1 := Filled(m)]])
      case None => None
    else None
  }

  /**
   * A move fills exactly one empty cell with the mover's mark: the empty
   * cells drop by one, the mover's marks grow by one and the other
   * player's stay, so somebody is still to move on the new board.
   */
  lemma {:induction false} ResultCounts(b: Board, a: Action)
    requires HasTurn(b) && InRange(a) && b[a.0][a.1] == Empty
    ensures Result(b, a).Some?
    ensures HasTurn(Result(b, a).value)
    ensures EmptyCount(Result(b, a).value) == EmptyCount(b) - 1
    ensures var m := PlayerOf(b).value;
      && CountRows(Result(b, a).value, Filled(m)) == CountRows(b, Filled(m)) + 1
      && CountRows(Result(b, a).value, Filled(Other(m))) == CountRows(b, Filled(Other(m)))
  {
    var m := PlayerOf(b).value;
    var row := b[a.0][a.1 := Filled(m)];
    assert Result(b, a).value == b[a.0 := row];
    forall c: Cell
      ensures CountRows(b[a.0 := row], c)
              == CountRows(b, c) - (if c == Empty then 1 else 0) + (if c == Filled(m) then 1 else 0)
    {
      CountRowUpdate(b[a.0], a.1, Filled(m), c);
      CountRowsUpdate(b, a.0, row, c);
    }
    assert CountRows(b[a.0 := row], Empty) == CountRows(b, Empty) - 1;
    assert CountRows(b[a.0 := row], Filled(X)) == CountRows(b, Filled(X)) + (if m == X then 1 else 0);
    assert CountRows(b[a.0 := row], Filled(O)) == CountRows(b, Filled(O)) + (if m == O then 1 else 0);
  }

  /** A board of a real game: X moved first, and the players took turns. */
  predicate Reachable(b: Board) {
    ValidBoard(b) &&
    var x, o := CountRows(b, Filled(X)), CountRows(b, Filled(O));
    x == o || x == o + 1
  }

  /** On a board of a real game the turn passes to the other player after every move. */
  lemma PlayersAlternate(b: Board, a: Action)
    requires Reachable(b) && InRange(a) && b[a.0][a.1] == Empty
    ensures HasTurn(b) && Result(b, a).Some?
    ensures Reachable(Result(b, a).value)
    ensures PlayerOf(Result(b, a).value) == Some(Other(PlayerOf(b).value))
  {
    ResultCounts(b, a);
  }

  /** On the empty board X moves first, all nine cells are EMPTY and each is an action. */
  lemma InitialStateFacts()
    ensures Reachable(InitialState()) && PlayerOf(InitialState()) == Some(X)
    ensures EmptyCount(InitialState()) == 9
    ensures forall r, c :: 0 <= r < 3 && 0 <= c < 3 ==> (r, c) in ActionsOf(InitialState())
  {
    var b := InitialState();
    forall r | 0 <= r < 3
      ensures CountRow(b[r], Filled(X)) == 0 && CountRow(b[r], Filled(O)) == 0 && CountRow(b[r], Empty) == 3
    {
      CountRow3(b[r], Filled(X));
      CountRow3(b[r], Filled(O));
      CountRow3(b[r], Empty);
    }
    CountRows3(b, Filled(X));
    CountRows3(b, Filled(O));
    CountRows3(b, Empty);
  }

  // ---------------------------------------------------------------------
  // winner

  /**
   * Line `k` of the board in the order the source checks them: rows 0-2,
   * then columns 0-2, then the diagonal from (0, 0) and the one from (0, 2).
   */
  function Line(b: Board, k: nat): (line: seq<Cell>)
    requires ValidBoard(b) && k < 8
    ensures |line| == 3
  {
    if k < 3 then b[k]
    else if k < 6 then [b[0][k - 3], b[1][k - 3], b[2][k - 3]]
    else if k == 6 then [b[0][0], b[1][1], b[2][2]]
    else [b[0][2], b[1][1], b[2][0]]
  }

  /** Line `k` holds three of `m`. */
  predicate LineFull(b: Board, k: nat, m: Mark)
    requires ValidBoard(b) && k < 8
  {
    forall t :: 0 <= t < 3 ==> Line(b, k)[t] == Filled(m)
  }

  predicate LineComplete(b: Board, k: nat)
    requires ValidBoard(b) && k < 8
  {
    LineFull(b, k, X) || LineFull(b, k, O)
  }

  /** Three X in a line win for X, else three O win for O. */
  function LineWinner(line: seq<Cell>): Option<Mark> {
    if CountRow(line, Filled(X)) == 3 then Some(X)
    else if CountRow(line, Filled(O)) == 3 then Some(O)
    else None
  }

  function WinnerFrom(b: Board, k: nat): Option<Mark>
    requires ValidBoard(b) && k <= 8
    decreases 8 - k
  {
    if k == 8 then None
    else match LineWinner(Line(b, k))
      case Some(m) => Some(m)
      case None => WinnerFrom(b, k + 1)
  }

  function Winner(b: Board): Option<Mark>
    requires ValidBoard(b)
  {
    WinnerFrom(b, 0)
  }

  lemma LineWinnerSpec(b: Board, k: nat)
    requires ValidBoard(b) && k < 8
    ensures LineWinner(Line(b, k)) == Some(X) <==> LineFull(b, k, X)
    ensures LineWinner(Line(b, k)) == Some(O) <==> LineFull(b, k, O)
    ensures LineWinner(Line(b, k)).None? <==> !LineComplete(b, k)
  {
    CountRow3(Line(b, k), Filled(X));
    CountRow3(Line(b, k), Filled(O));
  }

  lemma {:induction false} WinnerFromSpec(b: Board, k: nat, m: Mark)
    requires ValidBoard(b) && k <= 8
    ensures WinnerFrom(b, k) == Some(m) <==>
      exists t :: k <= t < 8 && LineFull(b, t, m) && forall s :: k <= s < t ==> !LineComplete(b, s)
    ensures WinnerFrom(b, k).None? <==> forall s :: k <= s < 8 ==> !LineComplete(b, s)
    decreases 8 - k
  {
    if k < 8 {
      LineWinnerSpec(b, k);
      WinnerFromSpec(b, k + 1, m);
      match LineWinner(Line(b, k))
      case Some(m') =>
        if m' == m {
          assert LineFull(b, k, m);
        }
      case None =>
        if WinnerFrom(b, k + 1) == Some(m) {
          var t :| k + 1 <= t < 8 && LineFull(b, t, m) && forall s :: k + 1 <= s < t ==> !LineComplete(b, s);
          assert forall s :: k <= s < t ==> !LineComplete(b, s);
        }
    }
  }

  /**
   * `winner` names a mark exactly when some line is full of it and no line
   * checked earlier (rows, then columns, then the diagonals) is complete;
   * it is None exactly when no line is complete.
   */
  lemma WinnerSpec(b: Board, m: Mark)
    requires ValidBoard(b)
    ensures Winner(b) == Some(m) <==>
      exists t :: 0 <= t < 8 && LineFull(b, t, m) && forall s :: 0 <= s < t ==> !LineComplete(b, s)
    ensures Winner(b).None? <==> forall s :: 0 <= s < 8 ==> !LineComplete(b, s)
  {
    WinnerFromSpec(b, 0, m);
  }

  // ---------------------------------------------------------------------
  // terminal and utility

  /** Number of rows that still contain an EMPTY cell (the source's `counter`). */
  function RowsWithEmpty(rows: seq<seq<Cell>>): nat {
    if rows == [] then 0
    else RowsWithEmpty(rows[..|rows| - 1]) + (if Empty in rows[|rows| - 1] then 1 else 0)
  }

  lemma {:induction false} RowsWithEmptyZero(rows: seq<seq<Cell>>)
    ensures RowsWithEmpty(rows) == 0 <==> forall i :: 0 <= i < |rows| ==> Empty !in rows[i]
  {
    if rows != [] {
      RowsWithEmptyZero(rows[..|rows| - 1]);
      assert forall i :: 0 <= i < |rows| - 1 ==> rows[..|rows| - 1][i] == rows[i];
    }
  }

  /** The game is over when someone has won or no cell is EMPTY. */
  function Terminal(b: Board): (over: bool)
    requires ValidBoard(b)
    ensures over <==> Winner(b).Some? || forall i, j :: 0 <= i < 3 && 0 <= j < 3 ==> b[i][j] != Empty
  {
    RowsWithEmptyZero(b);
    Winner(b).Some? || RowsWithEmpty(b) == 0
  }

  function Utility(b: Board): (u: int)
    requires ValidBoard(b)
    ensures u == 1 <==> Winner(b) == Some(X)
    ensures u == -1 <==> Winner(b) == Some(O)
    ensures u == 0 <==> Winner(b).None?
  {
    if Winner(b) == Some(X) then 1
    else if Winner(b) == Some(O) then -1
    else 0
  }

  lemma NonTerminalHasActions(b: Board)
    requires ValidBoard(b) && !Terminal(b)
    ensures ActionsOf(b) != []
  {
    var i, j :| 0 <= i < 3 && 0 <= j < 3 && b[i][j] == Empty;
    assert (i, j) in ActionsOf(b);
  }

  // ---------------------------------------------------------------------
  // max_value / min_value

  function Max(x: int, y: int): int { if x >= y then x else y }
  function Min(x: int, y: int): int { if x <= y then x else y }

  /**
   * The running `v = max(v, ...)` over a non-empty list of values, started
   * at minus infinity: the largest value, attained by some entry.
   */
  function SeqMax(s: seq<int>): (m: int)
    requires s != []
    ensures forall t :: 0 <= t < |s| ==> s[t] <= m
    ensures exists t :: 0 <= t < |s| && s[t] == m
  {
    if |s| == 1 then s[0]
    else
      var m' := SeqMax(s[..|s| - 1]);
      assert forall t :: 0 <= t < |s| - 1 ==> s[..|s| - 1][t] == s[t];
      Max(m', s[|s| - 1])
  }

  /** The running `v = min(v, ...)` started at plus infinity: the smallest value, attained by some entry. */
  function SeqMin(s: seq<int>): (m: int)
    requires s != []
    ensures forall t :: 0 <= t < |s| ==> m <= s[t]
    ensures exists t :: 0 <= t < |s| && s[t] == m
  {
    if |s| == 1 then s[0]
    else
      var m' := SeqMin(s[..|s| - 1]);
      assert forall t :: 0 <= t < |s| - 1 ==> s[..|s| - 1][t] == s[t];
      Min(m', s[|s| - 1])
  }

  /**
   * Best value X can force on `b` with X to move: the utility of a finished
   * game, else the largest `min_value` over the boards `actions` leads to.
   * Each recursive step fills one empty cell, so `EmptyCount` bounds the
   * recursion.
   */
  function MaxValue(b: Board): (v: int)
    requires Scoreable(b)
    ensures -1 <= v <= 1
    decreases EmptyCount(b), 1, 0
  {
    if Terminal(b) then Utility(b)
    else
      NonTerminalHasActions(b);
      SeqMax(MinChildren(b, ActionsOf(b)))
  }

  /** Best value O can force on `b` with O to move. */
  function MinValue(b: Board): (v: int)
    requires Scoreable(b)
    ensures -1 <= v <= 1
    decreases EmptyCount(b), 1, 0
  {
    if Terminal(b) then Utility(b)
    else
      NonTerminalHasActions(b);
      SeqMin(MaxChildren(b, ActionsOf(b)))
  }

  /** `min_value` of the board reached by playing `a`. */
  function MinChild(b: Board, a: Action): (v: int)
    requires HasTurn(b) && InRange(a) && b[a.0][a.1] == Empty
    ensures -1 <= v <= 1
    decreases EmptyCount(b), 0, 0
  {
    ResultCounts(b, a);
    MinValue(Result(b, a).value)
  }

  /** `max_value` of the board reached by playing `a`. */
  function MaxChild(b: Board, a: Action): (v: int)
    requires HasTurn(b) && InRange(a) && b[a.0][a.1] == Empty
    ensures -1 <= v <= 1
    decreases EmptyCount(b), 0, 0
  {
    ResultCounts(b, a);
    MaxValue(Result(b, a).value)
  }

  /** The `min_value` of each action's board, in the order of `acts`. */
  function MinChildren(b: Board, acts: seq<Action>): (vals: seq<int>)
    requires HasTurn(b) && AllEmpty(b, acts)
    ensures |vals| == |acts|
    ensures forall t :: 0 <= t < |vals| ==> -1 <= vals[t] <= 1
    decreases EmptyCount(b), 0, |acts|
  {
    if acts == [] then []
    else MinChildren(b, acts[..|acts| - 1]) + [MinChild(b, acts[|acts| - 1])]
  }

  /** The `max_value` of each action's board, in the order of `acts`. */
  function MaxChildren(b: Board, acts: seq<Action>): (vals: seq<int>)
    requires HasTurn(b) && AllEmpty(b, acts)
    ensures |vals| == |acts|
    ensures forall t :: 0 <= t < |vals| ==> -1 <= vals[t] <= 1
    decreases EmptyCount(b), 0, |acts|
  {
    if acts == [] then []
    else MaxChildren(b, acts[..|acts| - 1]) + [MaxChild(b, acts[|acts| - 1])]
  }

  lemma MinChildrenStep(b: Board, acts: seq<Action>, k: nat, next: nat)
    requires HasTurn(b) && AllEmpty(b, acts) && next == k + 1 <= |acts|
    ensures MinChildren(b, acts[..next]) == MinChildren(b, acts[..k]) + [MinChild(b, acts[k])]
  {
    assert acts[..next][..k] == acts[..k];
  }

  lemma MaxChildrenStep(b: Board, acts: seq<Action>, k: nat, next: nat)
    requires HasTurn(b) && AllEmpty(b, acts) && next == k + 1 <= |acts|
    ensures MaxChildren(b, acts[..next]) == MaxChildren(b, acts[..k]) + [MaxChild(b, acts[k])]
  {
    assert acts[..next][..k] == acts[..k];
  }

  /** Entry `t` of `MinChildren` is the value of the board `acts[t]` leads to. */
  lemma {:induction false} MinChildrenAt(b: Board, acts: seq<Action>, t: int)
    requires HasTurn(b) && AllEmpty(b, acts) && 0 <= t < |acts|
    ensures MinChildren(b, acts)[t] == MinChild(b, acts[t])
  {
    var n := |acts|;
    if t < n - 1 {
      MinChildrenAt(b, acts[..n - 1], t);
      assert acts[..n - 1][t] == acts[t];
    }
  }

  /** Entry `t` of `MaxChildren` is the value of the board `acts[t]` leads to. */
  lemma {:induction false} MaxChildrenAt(b: Board, acts: seq<Action>, t: int)
    requires HasTurn(b) && AllEmpty(b, acts) && 0 <= t < |acts|
    ensures MaxChildren(b, acts)[t] == MaxChild(b, acts[t])
  {
    var n := |acts|;
    if t < n - 1 {
      MaxChildrenAt(b, acts[..n - 1], t);
      assert acts[..n - 1][t] == acts[t];
    }
  }

  /**
   * On a board that is not finished, `max_value` is the largest value
   * among the boards one move away, and some move attains it.
   */
  lemma MaxValueAttained(b: Board)
    requires HasTurn(b) && !Terminal(b)
    ensures ActionsOf(b) != []
    ensures forall t :: 0 <= t < |ActionsOf(b)| ==> MinChild(b, ActionsOf(b)[t]) <= MaxValue(b)
    ensures exists t :: 0 <= t < |ActionsOf(b)| && MinChild(b, ActionsOf(b)[t]) == MaxValue(b)
  {
    NonTerminalHasActions(b);
    var acts := ActionsOf(b);
    forall t | 0 <= t < |acts|
      ensures MinChildren(b, acts)[t] == MinChild(b, acts[t])
    {
      MinChildrenAt(b, acts, t);
    }
  }

  /**
   * On a board that is not finished, `min_value` is the smallest value
   * among the boards one move away, and some move attains it.
   */
  lemma MinValueAttained(b: Board)
    requires HasTurn(b) && !Terminal(b)
    ensures ActionsOf(b) != []
    ensures forall t :: 0 <= t < |ActionsOf(b)| ==> MinValue(b) <= MaxChild(b, ActionsOf(b)[t])
    ensures exists t :: 0 <= t < |ActionsOf(b)| && MaxChild(b, ActionsOf(b)[t]) == MinValue(b)
  {
    NonTerminalHasActions(b);
    var acts := ActionsOf(b);
    forall t | 0 <= t < |acts|
      ensures MaxChildren(b, acts)[t] == MaxChild(b, acts[t])
    {
      MaxChildrenAt(b, acts, t);
    }
  }

  /** One more step of the running `max`: the maximum over a longer list. */
  lemma SeqMaxStep(s: seq<int>, x: int)
    requires s != []
    ensures SeqMax(s + [x]) == Max(SeqMax(s), x)
  {
    assert (s + [x])[..|s|] == s;
  }

  /** One more step of the running `min`: the minimum over a longer list. */
  lemma SeqMinStep(s: seq<int>, x: int)
    requires s != []
    ensures SeqMin(s + [x]) == Min(SeqMin(s), x)
  {
    assert (s + [x])[..|s|] == s;
  }

  /** `min_value(result(board, action))`. */
  method MinValueAfter(b: Board, a: Action) returns (v: int)
    requires HasTurn(b) && InRange(a) && b[a.0][a.1] == Empty
    ensures v == MinChild(b, a)
    decreases EmptyCount(b), 0
  {
    ResultCounts(b, a);
    v := MinValueSearch(Result(b, a).value);
  }

  /** `max_value(result(board, action))`. */
  method MaxValueAfter(b: Board, a: Action) returns (v: int)
    requires HasTurn(b) && InRange(a) && b[a.0][a.1] == Empty
    ensures v == MaxChild(b, a)
    decreases EmptyCount(b), 0
  {
    ResultCounts(b, a);
    v := MaxValueSearch(Result(b, a).value);
  }

  /**
   * `max_value`: the utility of a finished game, else the running maximum,
   * from minus infinity (None), of `min_value` over the actions.
   */
  method MaxValueSearch(b: Board) returns (v: int)
    requires Scoreable(b)
    ensures v == MaxValue(b)
    decreases EmptyCount(b), 1
  {
    if Terminal(b) {
      return Utility(b);
    }
    NonTerminalHasActions(b);
    var acts := Actions(b);
    var best: Option<int> := None;
    var k := 0;
    while k < |acts|
      invariant 0 <= k <= |acts|
      invariant best.None? <==> k == 0
      invariant k > 0 ==> best.value == SeqMax(MinChildren(b, acts[..k]))
    {
      var w := MinValueAfter(b, acts[k]);
      var next := k + 1;
      MinChildrenStep(b, acts, k, next);
      if best.Some? {
        SeqMaxStep(MinChildren(b, acts[..k]), w);
      }
      best := Some(if best.None? then w else Max(best.value, w));
      k := next;
    }
    assert acts[..k] == acts;
    v := best.value;
  }

  /**
   * `min_value`: the utility of a finished game, else the running minimum,
   * from plus infinity (None), of `max_value` over the actions.
   */
  method MinValueSearch(b: Board) returns (v: int)
    requires Scoreable(b)
    ensures v == MinValue(b)
    decreases EmptyCount(b), 1
  {
    if Terminal(b) {
      return Utility(b);
    }
    NonTerminalHasActions(b);
    var acts := Actions(b);
    var best: Option<int> := None;
    var k := 0;
    while k < |acts|
      invariant 0 <= k <= |acts|
      invariant best.None? <==> k == 0
      invariant k > 0 ==> best.value == SeqMin(MaxChildren(b, acts[..k]))
    {
      var w := MaxValueAfter(b, acts[k]);
      var next := k + 1;
      MaxChildrenStep(b, acts, k, next);
      if best.Some? {
        SeqMinStep(MaxChildren(b, acts[..k]), w);
      }
      best := Some(if best.None? then w else Min(best.value, w));
      k := next;
    }
    assert acts[..k] == acts;
    v := best.value;
  }

  // ---------------------------------------------------------------------
  // minimax

  /** Entry `k` is the first occurrence of the largest value in `vals`. */
  predicate FirstArgMax(vals: seq<int>, k: int)
  {
    && 0 <= k < |vals|
    && (forall t :: 0 <= t < |vals| ==> vals[t] <= vals[k])
    && (forall t :: 0 <= t < k ==> vals[t] < vals[k])
  }

  /** Entry `k` is the first occurrence of the smallest value in `vals`. */
  predicate FirstArgMin(vals: seq<int>, k: int)
  {
    && 0 <= k < |vals|
    && (forall t :: 0 <= t < |vals| ==> vals[k] <= vals[t])
    && (forall t :: 0 <= t < k ==> vals[k] < vals[t])
  }

  /** `move` is the first of `acts` with the largest `min_value`: X's choice. */
  ghost predicate FirstMax(b: Board, acts: seq<Action>, move: Action)
    requires HasTurn(b) && AllEmpty(b, acts)
  {
    exists k :: FirstArgMax(MinChildren(b, acts), k) && acts[k] == move
  }

  /** `move` is the first of `acts` with the smallest `max_value`: O's choice. */
  ghost predicate FirstMin(b: Board, acts: seq<Action>, move: Action)
    requires HasTurn(b) && AllEmpty(b, acts)
  {
    exists k :: FirstArgMin(MaxChildren(b, acts), k) && acts[k] == move
  }

  /** X's loop in `minimax`: keep the first action whose `min_value` beats the best so far. */
  method FirstMaxMove(b: Board, acts: seq<Action>) returns (move: Option<Action>)
    requires HasTurn(b) && AllEmpty(b, acts)
    ensures move.None? <==> acts == []
    ensures move.Some? ==> FirstMax(b, acts, move.value)
  {
    move := None;
    var bestVal: Option<int> := None;
    ghost var bestIdx := 0;
    var k := 0;
    while k < |acts|
      invariant 0 <= k <= |acts|
      invariant move.None? <==> k == 0
      invariant bestVal.None? <==> k == 0
      invariant k > 0 ==> FirstArgMax(MinChildren(b, acts[..k]), bestIdx)
      invariant k > 0 ==> move == Some(acts[bestIdx]) && bestVal.value == MinChildren(b, acts[..k])[bestIdx]
    {
      var temp := MinValueAfter(b, acts[k]);
      var next := k + 1;
      MinChildrenStep(b, acts, k, next);
      if bestVal.None? || temp > bestVal.value {
        bestVal, move := Some(temp), Some(acts[k]);
        bestIdx := k;
      }
      k := next;
    }
    assert acts[..k] == acts;
  }

  /** O's loop in `minimax`: keep the first action whose `max_value` undercuts the best so far. */
  method FirstMinMove(b: Board, acts: seq<Action>) returns (move: Option<Action>)
    requires HasTurn(b) && AllEmpty(b, acts)
    ensures move.None? <==> acts == []
    ensures move.Some? ==> FirstMin(b, acts, move.value)
  {
    move := None;
    var bestVal: Option<int> := None;
    ghost var bestIdx := 0;
    var k := 0;
    while k < |acts|
      invariant 0 <= k <= |acts|
      invariant move.None? <==> k == 0
      invariant bestVal.None? <==> k == 0
      invariant k > 0 ==> FirstArgMin(MaxChildren(b, acts[..k]), bestIdx)
      invariant k > 0 ==> move == Some(acts[bestIdx]) && bestVal.value == MaxChildren(b, acts[..k])[bestIdx]
    {
      var temp := MaxValueAfter(b, acts[k]);
      var next := k + 1;
      MaxChildrenStep(b, acts, k, next);
      if bestVal.None? || temp < bestVal.value {
        bestVal, move := Some(temp), Some(acts[k]);
        bestIdx := k;
      }
      k := next;
    }
    assert acts[..k] == acts;
  }

  /**
   * The optimal move for the player to move: None when nobody is to move
   * or no cell is free; otherwise the first action, in row-major order,
   * whose value is best for the mover. The running best starts at minus
   * (for X) or plus (for O) infinity, written here as None.
   */
  method Minimax(b: Board) returns (move: Option<Action>)
    requires ValidBoard(b)
    ensures PlayerOf(b).None? ==> move.None?
    ensures PlayerOf(b).Some? ==> (move.None? <==> ActionsOf(b) == [])
    ensures PlayerOf(b) == Some(X) && move.Some? ==> FirstMax(b, ActionsOf(b), move.value)
    ensures PlayerOf(b) == Some(O) && move.Some? ==> FirstMin(b, ActionsOf(b), move.value)
  {
    move := None;
    var p := Player(b);
    if p == Some(X) {
      var acts := Actions(b);
      move := FirstMaxMove(b, acts);
    }
    if p == Some(O) {
      var acts := Actions(b);
      move := FirstMinMove(b, acts);
    }
  }

  /**
   * When X is to move on an unfinished board, the move `minimax` picks
   * leads to a board whose `min_value` is exactly `max_value` of `b`:
   * the chosen move is optimal.
   */
  lemma MaxMoveIsOptimal(b: Board, move: Action)
    requires HasTurn(b) && !Terminal(b) && FirstMax(b, ActionsOf(b), move)
    ensures InRange(move) && b[move.0][move.1] == Empty
    ensures MinChild(b, move) == MaxValue(b)
  {
    var acts := ActionsOf(b);
    var k :| FirstArgMax(MinChildren(b, acts), k) && acts[k] == move;
    MinChildrenAt(b, acts, k);
  }

  /** The O counterpart of `MaxMoveIsOptimal`. */
  lemma MinMoveIsOptimal(b: Board, move: Action)
    requires HasTurn(b) && !Terminal(b) && FirstMin(b, ActionsOf(b), move)
    ensures InRange(move) && b[move.0][move.1] == Empty
    ensures MaxChild(b, move) == MinValue(b)
  {
    var acts := ActionsOf(b);
    var k :| FirstArgMin(MaxChildren(b, acts), k) && acts[k] == move;
    MaxChildrenAt(b, acts, k);
  }
}
