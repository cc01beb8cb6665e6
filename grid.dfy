/**
 * The whole puzzle as values: the row copy and the column copy of every cell, and the
 * rounds of `nonogram.solve` (Nonogram/Solver.py and nonogram.py) as functions on them.
 * These functions specify the methods of `Engine.Nonogram`.
 */
module Grid {
  import opened Cells
  import opened Propagation

  /** The candidate cells of every line of one direction. */
  type Lines = seq<seq<set<int>>>

  /** `iterRows` and `iterCols`: each cell of the picture is held once by its row and once by its column. */
  datatype Board = Board(rows: Lines, cols: Lines)

  /** Row `r` has a cell for every column and column `c` one for every row. */
  predicate Rectangular(b: Board)
  {
    (forall r :: 0 <= r < |b.rows| ==> |b.rows[r]| == |b.cols|) &&
    (forall c :: 0 <= c < |b.cols| ==> |b.cols[c]| == |b.rows|)
  }

  /** Every cell of `small` lies within the matching cell of `big`. */
  ghost predicate Shrunk(small: Lines, big: Lines)
  {
    |small| == |big| &&
    forall i :: 0 <= i < |small| ==> |small[i]| == |big[i]| && forall j :: 0 <= j < |small[i]| ==> small[i][j] <= big[i][j]
  }

  /** `multi_step` on one direction: `one_step` on every line. */
  function SettleLines(lines: Lines, shapes: seq<Shape>): (r: Lines)
    requires |lines| == |shapes|
    ensures |r| == |lines|
    ensures forall i :: 0 <= i < |r| ==> r[i] == Settle(lines[i], shapes[i])
  {
    seq(|lines|, i requires 0 <= i < |lines| => Settle(lines[i], shapes[i]))
  }

  /** `multi_step`: every row settled, then every column. */
  function MultiStep(b: Board, rowShapes: seq<Shape>, colShapes: seq<Shape>): Board
    requires |b.rows| == |rowShapes| && |b.cols| == |colShapes|
  {
    Board(SettleLines(b.rows, rowShapes), SettleLines(b.cols, colShapes))
  }

  /**
   * One cell of `transpose_check`: a filled `source` cell keeps only the run labels of
   * `target`, a blank one only its gap labels, and an undetermined one leaves it alone.
   */
  function Sync(target: set<int>, source: set<int>): (r: set<int>)
    ensures r <= target
    ensures IsFilled(source) ==> IsFilled(r)
    ensures !IsFilled(source) && IsBlank(source) ==> IsBlank(r)
    ensures !IsFilled(source) && !IsBlank(source) ==> r == target
  {
    if IsFilled(source) then Positives(target)
    else if IsBlank(source) then Negatives(target)
    else target
  }

  /** The first loop of `transpose_check`: each column cell synchronised with its row cell. */
  function SyncCols(b: Board): (cols: Lines)
    requires Rectangular(b)
    ensures |cols| == |b.cols|
    ensures forall c :: 0 <= c < |cols| ==> |cols[c]| == |b.rows|
  {
    seq(|b.cols|, c requires 0 <= c < |b.cols| =>
      seq(|b.rows|, r requires 0 <= r < |b.rows| => Sync(b.cols[c][r], b.rows[r][c])))
  }

  /** The second loop: each row cell synchronised with the already updated column cell. */
  function SyncRows(rows: Lines, cols: Lines): (rs: Lines)
    requires Rectangular(Board(rows, cols))
    ensures |rs| == |rows|
    ensures forall r :: 0 <= r < |rs| ==> |rs[r]| == |cols|
  {
    seq(|rows|, r requires 0 <= r < |rows| =>
      seq(|cols|, c requires 0 <= c < |cols| => Sync(rows[r][c], cols[c][r])))
  }

  /** The first loop is the second one with rows and columns swapped. */
  lemma SyncColsAsRows(b: Board)
    requires Rectangular(b)
    ensures Rectangular(Board(b.cols, b.rows)) && SyncCols(b) == SyncRows(b.cols, b.rows)
  {
    forall c | 0 <= c < |b.cols|
      ensures SyncCols(b)[c] == SyncRows(b.cols, b.rows)[c]
    {
    }
  }

  /** `transpose_check`: rows to columns first, then columns back to rows. */
  function TransposeCheck(b: Board): Board
    requires Rectangular(b)
  {
    var cols := SyncCols(b);
    Board(SyncRows(b.rows, cols), cols)
  }

  /** One round of `solve`: `multi_step` followed by `transpose_check`. */
  function Step(b: Board, rowShapes: seq<Shape>, colShapes: seq<Shape>): Board
    requires |b.rows| == |rowShapes| && |b.cols| == |colShapes| && Rectangular(b)
  {
    TransposeCheck(MultiStep(b, rowShapes, colShapes))
  }

  /** `multi_step` keeps the dimensions of the board and only narrows cells. */
  lemma MultiStepShrinks(b: Board, rowShapes: seq<Shape>, colShapes: seq<Shape>)
    requires |b.rows| == |rowShapes| && |b.cols| == |colShapes| && Rectangular(b)
    ensures Rectangular(MultiStep(b, rowShapes, colShapes))
    ensures Shrunk(MultiStep(b, rowShapes, colShapes).rows, b.rows)
    ensures Shrunk(MultiStep(b, rowShapes, colShapes).cols, b.cols)
  {
  }

  /** `transpose_check` keeps the dimensions of the board and only narrows cells. */
  lemma TransposeCheckShrinks(b: Board)
    requires Rectangular(b)
    ensures Rectangular(TransposeCheck(b))
    ensures Shrunk(TransposeCheck(b).rows, b.rows)
    ensures Shrunk(TransposeCheck(b).cols, b.cols)
  {
    var cols := SyncCols(b);
    assert forall c, r :: 0 <= c < |cols| && 0 <= r < |b.rows| ==> cols[c][r] <= b.cols[c][r];
  }

  /** Narrowing twice is narrowing. */
  lemma ShrunkTransitive(a: Lines, b: Lines, c: Lines)
    requires Shrunk(a, b) && Shrunk(b, c)
    ensures Shrunk(a, c)
  {
  }

  /** A round keeps the dimensions of the board and only narrows cells. */
  lemma StepShrinks(b: Board, rowShapes: seq<Shape>, colShapes: seq<Shape>)
    requires |b.rows| == |rowShapes| && |b.cols| == |colShapes| && Rectangular(b)
    ensures Rectangular(Step(b, rowShapes, colShapes))
    ensures Shrunk(Step(b, rowShapes, colShapes).rows, b.rows)
    ensures Shrunk(Step(b, rowShapes, colShapes).cols, b.cols)
  {
    var m := MultiStep(b, rowShapes, colShapes);
    MultiStepShrinks(b, rowShapes, colShapes);
    TransposeCheckShrinks(m);
    ShrunkTransitive(TransposeCheck(m).rows, m.rows, b.rows);
    ShrunkTransitive(TransposeCheck(m).cols, m.cols, b.cols);
  }

  /** The row cells one after another: what `solve` compares between rounds. */
  function Flatten(rows: Lines): (f: seq<set<int>>)
  {
    if rows == [] then [] else Flatten(rows[..|rows| - 1]) + rows[|rows| - 1]
  }

  /** Two row sets of the same line lengths flatten alike only when they are equal. */
  lemma {:induction false} FlattenInjective(a: Lines, b: Lines)
    requires |a| == |b| && forall i :: 0 <= i < |a| ==> |a[i]| == |b[i]|
    requires Flatten(a) == Flatten(b)
    ensures a == b
  {
    if a != [] {
      var n := |a|;
      FlattenLength(a[..n - 1]);
      FlattenLength(b[..n - 1]);
      var k := |Flatten(a[..n - 1])|;
      assert Flatten(a[..n - 1]) == Flatten(a)[..k];
      assert Flatten(b[..n - 1]) == Flatten(b)[..k];
      FlattenInjective(a[..n - 1], b[..n - 1]);
      assert a[n - 1] == Flatten(a)[k..] == b[n - 1];
      assert a == a[..n - 1] + [a[n - 1]];
      assert b == b[..n - 1] + [b[n - 1]];
    }
  }

  /** The flattened length is the sum of the line lengths. */
  lemma {:induction false} FlattenLength(a: Lines)
    ensures |Flatten(a)| == LengthSum(a)
  {
    if a != [] {
      FlattenLength(a[..|a| - 1]);
    }
  }

  function LengthSum(a: Lines): nat
  {
    if a == [] then 0 else LengthSum(a[..|a| - 1]) + |a[|a| - 1]|
  }

  /** Two row sets with the same lengths have flattenings of the same length. */
  lemma {:induction false} LengthSumAlike(a: Lines, b: Lines)
    requires |a| == |b| && forall i :: 0 <= i < |a| ==> |a[i]| == |b[i]|
    ensures LengthSum(a) == LengthSum(b)
  {
    if a != [] {
      LengthSumAlike(a[..|a| - 1], b[..|b| - 1]);
    }
  }

  /** The flattening holds no cell exactly when no row holds one. */
  lemma {:induction false} FlattenEmpty(a: Lines)
    ensures Flatten(a) == [] <==> forall i :: 0 <= i < |a| ==> a[i] == []
  {
    if a != [] {
      FlattenEmpty(a[..|a| - 1]);
      var p := a[..|a| - 1];
      assert forall i :: 0 <= i < |p| ==> p[i] == a[i];
    }
  }

  /** The board has a shape per line and is rectangular: what a round needs. */
  predicate Fits(b: Board, rowShapes: seq<Shape>, colShapes: seq<Shape>)
  {
    |b.rows| == |rowShapes| && |b.cols| == |colShapes| && Rectangular(b)
  }

  /** A round on a board that fits its shapes (and nothing on one that does not). */
  function Advance(b: Board, rowShapes: seq<Shape>, colShapes: seq<Shape>): Board
  {
    if Fits(b, rowShapes, colShapes) then Step(b, rowShapes, colShapes) else b
  }

  /** The round `solve` repeats, as a function value. */
  function Rounds(rowShapes: seq<Shape>, colShapes: seq<Shape>): Board -> Board
  {
    x => Advance(x, rowShapes, colShapes)
  }

  /** On a board that fits, the round value is `Step`. */
  lemma RoundsStep(x: Board, rowShapes: seq<Shape>, colShapes: seq<Shape>)
    requires Fits(x, rowShapes, colShapes)
    ensures Rounds(rowShapes, colShapes)(x) == Step(x, rowShapes, colShapes)
  {
  }

  /**
   * Where `solve` stops: the board, the number of rounds run, the board the last round
   * started from (the board itself when no round ran), and the row cells the loop
   * compared the board's with when it stopped.
   */
  datatype Solved = Solved(board: Board, rounds: nat, before: Board, seen: seq<set<int>>)

  /**
   * `solve`'s loop from round counter `i`, with `previous` the row cells seen before the
   * last round (initially none: the empty string, which only a board without cells
   * matches).  A new round starts while the row cells changed and fewer than `cap`
   * rounds ran.  The round itself is the parameter `step`.
   */
  function Solving(b: Board, step: Board -> Board, cap: nat, i: nat, previous: seq<set<int>>, before: Board): Solved
    decreases cap - i
  {
    if previous == Flatten(b.rows) || i + 1 > cap then Solved(b, i, before, previous)
    else Solving(step(b), step, cap, i + 1, Flatten(b.rows), b)
  }

  /** `solve` from a fresh start. */
  function Solve(b: Board, rowShapes: seq<Shape>, colShapes: seq<Shape>, cap: nat): Solved
  {
    Solving(b, Rounds(rowShapes, colShapes), cap, 0, [], b)
  }

  /** The loop runs between `i` and `cap` rounds. */
  lemma {:induction false} SolvingBounds(b: Board, step: Board -> Board, cap: nat, i: nat, previous: seq<set<int>>, before: Board)
    requires i <= cap
    ensures i <= Solving(b, step, cap, i, previous, before).rounds <= cap
    decreases cap - i
  {
    if !(previous == Flatten(b.rows) || i + 1 > cap) {
      SolvingBounds(step(b), step, cap, i + 1, Flatten(b.rows), b);
    }
  }

  /**
   * The loop's result is the last round applied to the board that round started from,
   * and the row cells it compared with are those of that board; when it runs no round it
   * returns what it was given.
   */
  lemma {:induction false} SolvingLast(b: Board, step: Board -> Board, cap: nat, i: nat, previous: seq<set<int>>, before: Board)
    ensures var s := Solving(b, step, cap, i, previous, before);
      (s.rounds == i ==> s.board == b && s.before == before && s.seen == previous) &&
      (s.rounds != i ==> s.board == step(s.before) && s.seen == Flatten(s.before.rows))
    decreases cap - i
  {
    if !(previous == Flatten(b.rows) || i + 1 > cap) {
      SolvingLast(step(b), step, cap, i + 1, Flatten(b.rows), b);
      if cap >= i + 1 {
        SolvingBounds(step(b), step, cap, i + 1, Flatten(b.rows), b);
      }
    }
  }

  /** Before the cap, the loop stops only when the row cells match those it compares with. */
  lemma {:induction false} SolvingStop(b: Board, step: Board -> Board, cap: nat, i: nat, previous: seq<set<int>>, before: Board)
    ensures var s := Solving(b, step, cap, i, previous, before);
      s.rounds < cap ==> s.seen == Flatten(s.board.rows)
    decreases cap - i
  {
    if !(previous == Flatten(b.rows) || i + 1 > cap) {
      SolvingStop(step(b), step, cap, i + 1, Flatten(b.rows), b);
    }
  }

  /** A property every round keeps holds of the board the loop stops at and of the one before. */
  lemma {:induction false} SolvingInvariant(b: Board, step: Board -> Board, inv: Board -> bool, cap: nat, i: nat,
                                            previous: seq<set<int>>, before: Board)
    requires inv(b) && inv(before)
    requires forall x :: inv(x) ==> inv(step(x))
    ensures inv(Solving(b, step, cap, i, previous, before).board)
    ensures inv(Solving(b, step, cap, i, previous, before).before)
    decreases cap - i
  {
    if !(previous == Flatten(b.rows) || i + 1 > cap) {
      SolvingInvariant(step(b), step, inv, cap, i + 1, Flatten(b.rows), b);
    }
  }

  /** One round that does not stop: the loop goes on from the stepped board towards the same result. */
  lemma SolvingNext(b: Board, next: Board, step: Board -> Board, cap: nat, i: nat, previous: seq<set<int>>, before: Board, goal: Solved)
    requires previous != Flatten(b.rows) && i + 1 <= cap && next == step(b)
    requires Solving(b, step, cap, i, previous, before) == goal
    ensures Solving(next, step, cap, i + 1, Flatten(b.rows), b) == goal
  {
  }

  /** Where the loop stops at once, its result is the board it was given. */
  lemma SolvingDone(b: Board, step: Board -> Board, cap: nat, i: nat, previous: seq<set<int>>, before: Board)
    requires previous == Flatten(b.rows) || i + 1 > cap
    ensures Solving(b, step, cap, i, previous, before).board == b
    ensures Solving(b, step, cap, i, previous, before).rounds == i
  {
  }

  /** A loop that does not stop at once runs at least one more round. */
  lemma SolvingRuns(b: Board, step: Board -> Board, cap: nat, i: nat, previous: seq<set<int>>, before: Board)
    requires previous != Flatten(b.rows) && i < cap
    ensures Solving(b, step, cap, i, previous, before).rounds > i
  {
    SolvingBounds(step(b), step, cap, i + 1, Flatten(b.rows), b);
  }

  /** On a board with a cell, `solve` makes at least one round. */
  lemma SolveRuns(b: Board, rowShapes: seq<Shape>, colShapes: seq<Shape>, cap: nat)
    requires |b.rows| > 0 && |b.rows[0]| > 0 && cap > 0
    ensures Solve(b, rowShapes, colShapes, cap).rounds > 0
  {
    FlattenEmpty(b.rows);
    SolvingRuns(b, Rounds(rowShapes, colShapes), cap, 0, [], b);
  }

  lemma AdvanceFits(rowShapes: seq<Shape>, colShapes: seq<Shape>)
    ensures forall x :: Fits(x, rowShapes, colShapes) ==> Fits(Advance(x, rowShapes, colShapes), rowShapes, colShapes)
  {
    forall x | Fits(x, rowShapes, colShapes) ensures Fits(Advance(x, rowShapes, colShapes), rowShapes, colShapes) {
      StepShrinks(x, rowShapes, colShapes);
    }
  }

  /** `solve` runs at most `cap` rounds and keeps the board fitting its shapes. */
  lemma SolveBounds(b: Board, rowShapes: seq<Shape>, colShapes: seq<Shape>, cap: nat)
    requires Fits(b, rowShapes, colShapes)
    ensures var s := Solve(b, rowShapes, colShapes, cap);
      s.rounds <= cap && Fits(s.board, rowShapes, colShapes) && Fits(s.before, rowShapes, colShapes)
  {
    var step := Rounds(rowShapes, colShapes);
    var inv := x => Fits(x, rowShapes, colShapes);
    AdvanceFits(rowShapes, colShapes);
    SolvingBounds(b, step, cap, 0, [], b);
    SolvingInvariant(b, step, inv, cap, 0, [], b);
  }

  /**
   * `solve`'s result is its last round applied to the board that round started from
   * (`RoundsStep` says that round is `Step`), or the board itself when no round ran.
   */
  lemma SolveLastRound(b: Board, rowShapes: seq<Shape>, colShapes: seq<Shape>, cap: nat)
    ensures var s := Solve(b, rowShapes, colShapes, cap);
      (s.rounds == 0 ==> s.board == b) && (s.rounds > 0 ==> s.board == Rounds(rowShapes, colShapes)(s.before))
  {
    var step := Rounds(rowShapes, colShapes);
    var s := Solving(b, step, cap, 0, [], b);
    assert s == Solve(b, rowShapes, colShapes, cap);
    SolvingLast(b, step, cap, 0, [], b);
  }

  /**
   * When `solve` stops before the cap, its last round left every row cell as it was, or
   * no round ran because the board has no cell.
   */
  lemma SolveEarlyStop(b: Board, rowShapes: seq<Shape>, colShapes: seq<Shape>, cap: nat)
    requires Fits(b, rowShapes, colShapes)
    ensures var s := Solve(b, rowShapes, colShapes, cap);
      (s.rounds < cap && s.rounds == 0 ==> forall r :: 0 <= r < |b.rows| ==> b.rows[r] == []) &&
      (s.rounds < cap && s.rounds > 0 ==> s.board.rows == s.before.rows)
  {
    var step := Rounds(rowShapes, colShapes);
    var s := Solving(b, step, cap, 0, [], b);
    assert s == Solve(b, rowShapes, colShapes, cap);
    SolvingLast(b, step, cap, 0, [], b);
    SolvingStop(b, step, cap, 0, [], b);
    SolveBounds(b, rowShapes, colShapes, cap);
    StoppedEarly(s, b, rowShapes, colShapes, cap);
  }

  /** The argument of `SolveEarlyStop` on the loop's result as a plain value. */
  lemma StoppedEarly(s: Solved, b: Board, rowShapes: seq<Shape>, colShapes: seq<Shape>, cap: nat)
    requires Fits(s.board, rowShapes, colShapes) && Fits(s.before, rowShapes, colShapes)
    requires s.rounds == 0 ==> s.board == b && s.seen == []
    requires s.rounds != 0 ==> s.seen == Flatten(s.before.rows)
    requires s.rounds < cap ==> s.seen == Flatten(s.board.rows)
    ensures s.rounds < cap && s.rounds == 0 ==> forall r :: 0 <= r < |b.rows| ==> b.rows[r] == []
    ensures s.rounds < cap && s.rounds > 0 ==> s.board.rows == s.before.rows
  {
    if s.rounds < cap {
      if s.rounds == 0 {
        FlattenEmpty(b.rows);
      } else {
        FlattenInjective(s.board.rows, s.before.rows);
      }
    }
  }

  /** The matrix `solve` leaves: 1 for a filled cell, -1 for a blank one, 0 otherwise. */
  function SignMatrix(rows: Lines): (m: seq<seq<int>>)
    ensures |m| == |rows|
    ensures forall r :: 0 <= r < |m| ==> |m[r]| == |rows[r]|
    ensures forall r, c :: 0 <= r < |m| && 0 <= c < |m[r]| ==> m[r][c] in {-1, 0, 1}
  {
    seq(|rows|, r requires 0 <= r < |rows| => seq(|rows[r]|, c requires 0 <= c < |rows[r]| => Sign(rows[r][c])))
  }

  /**
   * A placement of labels on the whole board: a label walk for every row and every
   * column, inside the cells, where the row label and the column label of a cell agree
   * on whether the cell is a run cell or a gap cell.
   */
  ghost predicate Placement(b: Board, rowShapes: seq<Shape>, colShapes: seq<Shape>,
                            rowWalks: seq<seq<int>>, colWalks: seq<seq<int>>)
  {
    |rowWalks| == |b.rows| == |rowShapes| && |colWalks| == |b.cols| == |colShapes| &&
    (forall r :: 0 <= r < |b.rows| ==> LineWalk(rowWalks[r], rowShapes[r]) && Within(rowWalks[r], b.rows[r])) &&
    (forall c :: 0 <= c < |b.cols| ==> LineWalk(colWalks[c], colShapes[c]) && Within(colWalks[c], b.cols[c])) &&
    (forall r, c :: 0 <= r < |b.rows| && 0 <= c < |b.cols| && c < |rowWalks[r]| && r < |colWalks[c]| ==>
       (rowWalks[r][c] > 0 <==> colWalks[c][r] > 0) && (rowWalks[r][c] < 0 <==> colWalks[c][r] < 0))
  }

  /** `multi_step` keeps every placement. */
  lemma MultiStepKeepsPlacement(b: Board, rowShapes: seq<Shape>, colShapes: seq<Shape>,
                                rowWalks: seq<seq<int>>, colWalks: seq<seq<int>>)
    requires Placement(b, rowShapes, colShapes, rowWalks, colWalks)
    ensures Placement(MultiStep(b, rowShapes, colShapes), rowShapes, colShapes, rowWalks, colWalks)
  {
    forall r | 0 <= r < |b.rows| ensures Within(rowWalks[r], Settle(b.rows[r], rowShapes[r])) {
      SettleKeepsWalks(b.rows[r], rowShapes[r], rowWalks[r]);
    }
    forall c | 0 <= c < |b.cols| ensures Within(colWalks[c], Settle(b.cols[c], colShapes[c])) {
      SettleKeepsWalks(b.cols[c], colShapes[c], colWalks[c]);
    }
  }

  /** Synchronising a cell keeps a label whose sign agrees with a label of the source cell. */
  lemma SyncKeeps(target: set<int>, source: set<int>, x: int, y: int)
    requires x in target && y in source
    requires (x > 0 <==> y > 0) && (x < 0 <==> y < 0)
    ensures x in Sync(target, source)
  {
  }

  /** `transpose_check` keeps every placement. */
  lemma TransposeCheckKeepsPlacement(b: Board, rowShapes: seq<Shape>, colShapes: seq<Shape>,
                                     rowWalks: seq<seq<int>>, colWalks: seq<seq<int>>)
    requires Rectangular(b)
    requires Placement(b, rowShapes, colShapes, rowWalks, colWalks)
    ensures Placement(TransposeCheck(b), rowShapes, colShapes, rowWalks, colWalks)
  {
    var cols := SyncCols(b);
    forall c | 0 <= c < |b.cols| ensures Within(colWalks[c], cols[c]) {
      forall r | 0 <= r < |b.rows| ensures colWalks[c][r] in cols[c][r] {
        SyncKeeps(b.cols[c][r], b.rows[r][c], colWalks[c][r], rowWalks[r][c]);
      }
    }
    var rows := SyncRows(b.rows, cols);
    forall r | 0 <= r < |b.rows| ensures Within(rowWalks[r], rows[r]) {
      forall c | 0 <= c < |b.cols| ensures rowWalks[r][c] in rows[r][c] {
        SyncKeeps(b.rows[r][c], cols[c][r], rowWalks[r][c], colWalks[c][r]);
      }
    }
  }

  /** A round of `solve` keeps every placement. */
  lemma StepKeepsPlacement(b: Board, rowShapes: seq<Shape>, colShapes: seq<Shape>,
                           rowWalks: seq<seq<int>>, colWalks: seq<seq<int>>)
    requires Rectangular(b)
    requires Placement(b, rowShapes, colShapes, rowWalks, colWalks)
    ensures Placement(Step(b, rowShapes, colShapes), rowShapes, colShapes, rowWalks, colWalks)
  {
    MultiStepKeepsPlacement(b, rowShapes, colShapes, rowWalks, colWalks);
    StepShrinks(b, rowShapes, colShapes);
    assert Rectangular(MultiStep(b, rowShapes, colShapes));
    TransposeCheckKeepsPlacement(MultiStep(b, rowShapes, colShapes), rowShapes, colShapes, rowWalks, colWalks);
  }

  /** A round keeps every placement. */
  lemma AdvanceKeepsPlacement(rowShapes: seq<Shape>, colShapes: seq<Shape>, rowWalks: seq<seq<int>>, colWalks: seq<seq<int>>)
    ensures forall x :: Placement(x, rowShapes, colShapes, rowWalks, colWalks) ==>
      Placement(Advance(x, rowShapes, colShapes), rowShapes, colShapes, rowWalks, colWalks)
  {
    forall x | Placement(x, rowShapes, colShapes, rowWalks, colWalks)
      ensures Placement(Advance(x, rowShapes, colShapes), rowShapes, colShapes, rowWalks, colWalks)
    {
      if Fits(x, rowShapes, colShapes) {
        StepKeepsPlacement(x, rowShapes, colShapes, rowWalks, colWalks);
      }
    }
  }

  /** The solver is sound: no placement of the starting board is lost, however many rounds run. */
  lemma SolveKeepsPlacement(b: Board, rowShapes: seq<Shape>, colShapes: seq<Shape>, cap: nat,
                            rowWalks: seq<seq<int>>, colWalks: seq<seq<int>>)
    requires Placement(b, rowShapes, colShapes, rowWalks, colWalks)
    ensures Placement(Solve(b, rowShapes, colShapes, cap).board, rowShapes, colShapes, rowWalks, colWalks)
  {
    var step := Rounds(rowShapes, colShapes);
    var inv := x => Placement(x, rowShapes, colShapes, rowWalks, colWalks);
    AdvanceKeepsPlacement(rowShapes, colShapes, rowWalks, colWalks);
    SolvingInvariant(b, step, inv, cap, 0, [], b);
  }

  /**
   * What the solved matrix tells about any placement of the starting board: an entry 1
   * means the placement puts a run label there, and -1 a gap label.
   */
  lemma SolvedMatrixAgrees(b: Board, rowShapes: seq<Shape>, colShapes: seq<Shape>, cap: nat,
                           rowWalks: seq<seq<int>>, colWalks: seq<seq<int>>, r: int, c: int)
    requires Fits(b, rowShapes, colShapes)
    requires Placement(b, rowShapes, colShapes, rowWalks, colWalks)
    requires 0 <= r < |b.rows| && 0 <= c < |b.cols|
    ensures var m := SignMatrix(Solve(b, rowShapes, colShapes, cap).board.rows);
      r < |m| && c < |m[r]| &&
      (m[r][c] == 1 ==> rowWalks[r][c] > 0) && (m[r][c] == -1 ==> rowWalks[r][c] < 0)
  {
    SolveKeepsPlacement(b, rowShapes, colShapes, cap, rowWalks, colWalks);
    SolveBounds(b, rowShapes, colShapes, cap);
    var rows := Solve(b, rowShapes, colShapes, cap).board.rows;
    assert rowWalks[r][c] in rows[r][c];
  }

  /** Python's reading of index `i` into a list of length `n`: a negative index counts from the end. */
  function PyIndex(i: int, n: nat): (k: int)
    ensures 0 <= i + n && i < n ==> 0 <= k < n
  {
    if i < 0 then i + n else i
  }

  /** The indices `fill` and `unfill` accept: Python's, negative ones included. */
  predicate InRange(b: Board, r: int, c: int)
  {
    -|b.rows| <= r < |b.rows| && -|b.rows[PyIndex(r, |b.rows|)]| <= c < |b.rows[PyIndex(r, |b.rows|)]|
  }

  /**
   * `fill` (`filled`) or `unfill` of row `r`, cell `c`: the row copy of that cell keeps only
   * its run labels, or only its gap labels; the column copy is left as it is.
   */
  function Force(b: Board, r: int, c: int, filled: bool): (f: Board)
    requires InRange(b, r, c)
  {
    var i := PyIndex(r, |b.rows|);
    var j := PyIndex(c, |b.rows[i]|);
    var cell := b.rows[i][j];
    Board(b.rows[i := b.rows[i][j := if filled then Positives(cell) else Negatives(cell)]], b.cols)
  }

  /** Forcing narrows exactly the one cell it names, and decides it. */
  lemma ForceOneCell(b: Board, r: int, c: int, filled: bool)
    requires InRange(b, r, c)
    ensures var f := Force(b, r, c, filled);
      var i := PyIndex(r, |b.rows|);
      var j := PyIndex(c, |b.rows[i]|);
      Shrunk(f.rows, b.rows) && f.cols == b.cols &&
      (forall k, l :: 0 <= k < |b.rows| && 0 <= l < |b.rows[k]| && (k != i || l != j) ==> f.rows[k][l] == b.rows[k][l]) &&
      (filled ==> IsFilled(f.rows[i][j])) && (!filled ==> IsBlank(f.rows[i][j])) &&
      (forall x :: x in b.rows[i][j] && (if filled then x > 0 else x < 0) ==> x in f.rows[i][j])
  {
  }

  /** Forcing keeps a board's shape. */
  lemma ForceFits(b: Board, r: int, c: int, filled: bool, rowShapes: seq<Shape>, colShapes: seq<Shape>)
    requires InRange(b, r, c) && Fits(b, rowShapes, colShapes)
    ensures Fits(Force(b, r, c, filled), rowShapes, colShapes)
  {
  }

  /**
   * `fill` keeps exactly the placements that put a run label in the forced cell (and
   * `unfill` those that put a gap label there).
   */
  lemma ForceKeepsPlacement(b: Board, r: int, c: int, filled: bool, rowShapes: seq<Shape>, colShapes: seq<Shape>,
                            rowWalks: seq<seq<int>>, colWalks: seq<seq<int>>)
    requires InRange(b, r, c) && Rectangular(b)
    requires Placement(b, rowShapes, colShapes, rowWalks, colWalks)
    ensures var i := PyIndex(r, |b.rows|);
      var j := PyIndex(c, |b.rows[i]|);
      Placement(Force(b, r, c, filled), rowShapes, colShapes, rowWalks, colWalks) <==>
      (if filled then rowWalks[i][j] > 0 else rowWalks[i][j] < 0)
  {
    ForceOneCell(b, r, c, filled);
    var i := PyIndex(r, |b.rows|);
    var j := PyIndex(c, |b.rows[i]|);
    var f := Force(b, r, c, filled);
    assert rowWalks[i][j] in b.rows[i][j];
    if (if filled then rowWalks[i][j] > 0 else rowWalks[i][j] < 0) {
      forall k | 0 <= k < |f.rows| ensures Within(rowWalks[k], f.rows[k]) {
        if k == i {
          forall l | 0 <= l < |f.rows[k]| ensures rowWalks[k][l] in f.rows[k][l] {
          }
        }
      }
    } else {
      assert rowWalks[i][j] !in f.rows[i][j];
    }
  }

  /** `''.join(row.__str__() for row in iterRows)`: the rows' renderings one after another. */
  function Picture(rows: Lines): seq<char>
  {
    if rows == [] then [] else Picture(rows[..|rows| - 1]) + Render(rows[|rows| - 1])
  }

  /** A character occurs in the picture exactly when some cell renders as it. */
  lemma {:induction false} PictureHas(rows: Lines, ch: char)
    ensures ch in Picture(rows) <==>
      exists r, c :: 0 <= r < |rows| && 0 <= c < |rows[r]| && CellToStr(rows[r][c]) == ch
  {
    if rows != [] {
      var n := |rows| - 1;
      PictureHas(rows[..n], ch);
      if ch in Render(rows[n]) {
        var c :| 0 <= c < |rows[n]| && Render(rows[n])[c] == ch;
        assert CellToStr(rows[n][c]) == ch;
      }
      if exists r, c :: 0 <= r < |rows| && 0 <= c < |rows[r]| && CellToStr(rows[r][c]) == ch {
        var r, c :| 0 <= r < |rows| && 0 <= c < |rows[r]| && CellToStr(rows[r][c]) == ch;
        if r < n {
          assert rows[..n][r] == rows[r];
        } else {
          assert Render(rows[n])[c] == ch;
        }
      }
    }
  }
}
