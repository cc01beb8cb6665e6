/**
 * The puzzle engine: class `nonogram` of Nonogram/Solver.py (and of the square-grid
 * nonogram.py), which holds a `Row` for every row clue and every column clue and narrows
 * their cells in place, and the search functions `check_uniqueness`, `uniquisation` and
 * `full_solve` built on it.  Every method is specified by the value-level functions of
 * `Grid` and `Puzzle` on the board its arrays hold.
 */
module Engine {
  import opened Wrappers
  import opened Encoding
  import opened Cells
  import opened Propagation
  import opened Line
  import opened Grid
  import opened Clues
  import opened Puzzle

  /** `np.zeros((n, m))`. */
  function Zeros(n: nat, m: nat): (z: seq<seq<int>>)
    ensures |z| == n && forall i :: 0 <= i < n ==> z[i] == seq(m, _ => 0)
  {
    seq(n, _ => seq(m, _ => 0))
  }

  /** `Row(length, clue)`: a fresh line whose every cell holds all the labels of the clue list. */
  method NewLine(length: nat, clue: seq<int>) returns (line: Row)
    ensures fresh(line.cells) && line.cells[..] == FreshLine(length, clue) && line.Shape() == ShapeOf(clue)
  {
    line := new Row(length, clue);
  }

  /** `[Row(length, c) for c in clues]`: a fresh line for every clue list. */
  method MakeLines(length: nat, clues: seq<seq<int>>) returns (lines: seq<Row>)
    ensures |lines| == |clues|
    ensures forall i :: 0 <= i < |lines| ==>
      fresh(lines[i].cells) && lines[i].cells[..] == FreshLine(length, clues[i]) && lines[i].Shape() == ShapeOf(clues[i])
    ensures forall i, j :: 0 <= i < |lines| && 0 <= j < |lines| && i != j ==> lines[i].cells != lines[j].cells
    decreases |clues|
  {
    if clues == [] {
      return [];
    }
    var init := MakeLines(length, clues[..|clues| - 1]);
    var line := NewLine(length, clues[|clues| - 1]);
    lines := init + [line];
  }

  /** The rows and the columns of a new puzzle, each line with a fresh array of its own. */
  method MakeGrid(rowLength: nat, colLength: nat, rows: seq<seq<int>>, cols: seq<seq<int>>)
    returns (lines: seq<Row>, crossing: seq<Row>, ghost repr: set<array<set<int>>>)
    ensures |lines| == |rows| && |crossing| == |cols| && fresh(repr)
    ensures forall r {:trigger lines[r].cells in repr} :: 0 <= r < |lines| ==> lines[r].cells in repr
    ensures forall c {:trigger crossing[c].cells in repr} :: 0 <= c < |crossing| ==> crossing[c].cells in repr
    ensures forall r :: 0 <= r < |lines| ==>
      fresh(lines[r].cells) && lines[r].cells[..] == FreshLine(rowLength, rows[r]) && lines[r].Shape() == ShapeOf(rows[r])
    ensures forall c :: 0 <= c < |crossing| ==>
      crossing[c].cells[..] == FreshLine(colLength, cols[c]) && crossing[c].Shape() == ShapeOf(cols[c])
    ensures forall r, s :: 0 <= r < |lines| && 0 <= s < |lines| && r != s ==> lines[r].cells != lines[s].cells
    ensures forall c, d :: 0 <= c < |crossing| && 0 <= d < |crossing| && c != d ==> crossing[c].cells != crossing[d].cells
    ensures forall r, c :: 0 <= r < |lines| && 0 <= c < |crossing| ==> lines[r].cells != crossing[c].cells
  {
    lines := MakeLines(rowLength, rows);
    crossing := MakeLines(colLength, cols);
    repr := (set r | r in lines :: r.cells) + (set c | c in crossing :: c.cells);
  }

  /**
   * One line of a loop of `transpose_check`: a filled cell of `line` restricts the crossing
   * cell (index `r`) of each `target` line to its run labels, a blank one to its gap labels.
   */
  method CopyLine(line: array<set<int>>, r: nat, target: seq<array<set<int>>>)
    requires line.Length == |target|
    requires forall c :: 0 <= c < |target| ==> r < target[c].Length && target[c] != line
    requires forall c, d :: 0 <= c < |target| && 0 <= d < |target| && c != d ==> target[c] != target[d]
    modifies set t | t in target
    ensures forall c :: 0 <= c < |target| ==> target[c][..] == old(target[c][..])[r := Sync(old(target[c][r]), line[c])]
  {
    for c := 0 to line.Length
      invariant forall d :: 0 <= d < |target| ==>
        target[d][..] == if d < c then old(target[d][..])[r := Sync(old(target[d][r]), line[d])] else old(target[d][..])
    {
      var cell := line[c];
      var crossing := target[c];
      if IsFilled(cell) {
        crossing[r] := Positives(crossing[r]);
      } else if IsBlank(cell) {
        crossing[r] := Negatives(crossing[r]);
      }
    }
  }

  /** The cells the arrays hold. */
  ghost function Contents(lines: seq<array<set<int>>>): (l: Lines)
    reads set a | a in lines
    ensures |l| == |lines| && forall i :: 0 <= i < |lines| ==> l[i] == lines[i][..]
  {
    seq(|lines|, i requires 0 <= i < |lines| reads set a | a in lines => lines[i][..])
  }

  /**
   * One loop of `transpose_check`: for every line of `source` and every cell of it, a filled
   * cell restricts the crossing cell of `target` to its run labels and a blank one to its
   * gap labels.
   */
  method CopyDecisions(source: seq<array<set<int>>>, target: seq<array<set<int>>>)
    requires forall i :: 0 <= i < |source| ==> source[i].Length == |target|
    requires forall c :: 0 <= c < |target| ==> target[c].Length == |source|
    requires forall c, d :: 0 <= c < |target| && 0 <= d < |target| && c != d ==> target[c] != target[d]
    requires forall i, c :: 0 <= i < |source| && 0 <= c < |target| ==> source[i] != target[c]
    modifies set t | t in target
    ensures Rectangular(Board(old(Contents(target)), old(Contents(source))))
    ensures Contents(target) == SyncRows(old(Contents(target)), old(Contents(source)))
  {
    ghost var tgt := Contents(target);
    ghost var src := Contents(source);
    for r := 0 to |source|
      invariant forall c :: 0 <= c < |target| ==> |target[c][..]| == |source|
      invariant forall i :: 0 <= i < |source| ==> source[i][..] == src[i]
      invariant forall c, i :: 0 <= c < |target| && 0 <= i < |source| ==>
        target[c][i] == if i < r then Sync(tgt[c][i], src[i][c]) else tgt[c][i]
    {
      CopyLine(source[r], r, target);
    }
    assert forall c :: 0 <= c < |target| ==> target[c][..] == SyncRows(tgt, src)[c];
  }

  class Nonogram {
    const version: Version
    /** `N`: the length of a row. */
    const width: nat
    /** `M`: the length of a column. */
    const height: nat
    /** `Rows` and `Columns`: the clues. */
    const rowClues: seq<seq<int>>
    const colClues: seq<seq<int>>
    const iterRows: seq<Row>
    const iterCols: seq<Row>
    /** The arrays of cells of every row and column. */
    ghost const Repr: set<array<set<int>>>
    /** `nonogram_Matrix` (Solver.py) or `Nonogram_Matrix` (nonogram.py). */
    var matrix: seq<seq<int>>
    /** `pair`: the cell `full_solve` forced, `(-1, -1)` for none (Solver.py). */
    var pair: (int, int)

    /**
     * Solver.py's `nonogram(Rows, Columns)` on clues that pass `checkifcorrect`: a fresh line
     * per clue, width the number of column clues, height the number of row clues, and the
     * matrix `np.zeros((N, M))`.
     */
    constructor (rows: seq<seq<int>>, cols: seq<seq<int>>)
      requires Validate(|cols|, |rows|, rows, cols).Ok?
      ensures version == Current && width == |cols| && height == |rows| && rowClues == rows && colClues == cols
      ensures Valid() && Checked() && fresh(Repr)
      ensures forall r :: 0 <= r < |iterRows| ==> fresh(iterRows[r].cells)
      ensures RowCells() == Start(rows, cols).rows
      ensures ColCells() == Start(rows, cols).cols
      ensures matrix == Zeros(|cols|, |rows|) && pair == (-1, -1)
    {
      var lines, crossing, repr := MakeGrid(|cols|, |rows|, rows, cols);
      version := Current;
      width := |cols|;
      height := |rows|;
      rowClues := rows;
      colClues := cols;
      iterRows := lines;
      iterCols := crossing;
      Repr := repr;
      matrix := Zeros(|cols|, |rows|);
      pair := (-1, -1);
    }

    /**
     * nonogram.py's `nonogram(N, Rows, Columns)`: the same with every line `N` cells long and
     * no matrix until `full_solve`.
     */
    constructor OfSize(n: nat, rows: seq<seq<int>>, cols: seq<seq<int>>)
      requires Validate(n, n, rows, cols).Ok?
      ensures version == Legacy && width == n && height == n && rowClues == rows && colClues == cols
      ensures Valid() && Checked() && fresh(Repr)
      ensures forall r :: 0 <= r < |iterRows| ==> fresh(iterRows[r].cells)
      ensures RowCells() == seq(|rows|, r requires 0 <= r < |rows| => FreshLine(n, rows[r]))
      ensures ColCells() == seq(|cols|, c requires 0 <= c < |cols| => FreshLine(n, cols[c]))
      ensures matrix == [] && pair == (-1, -1)
    {
      var lines, crossing, repr := MakeGrid(n, n, rows, cols);
      version := Legacy;
      width := n;
      height := n;
      rowClues := rows;
      colClues := cols;
      iterRows := lines;
      iterCols := crossing;
      Repr := repr;
      matrix := [];
      pair := (-1, -1);
    }

    /**
     * The lines are the clues' lines, each with an array of its own, and the sizes are
     * those each version gives them.
     */
    ghost predicate Valid()
    {
      (forall r {:trigger iterRows[r].cells in Repr} :: 0 <= r < |iterRows| ==> iterRows[r].cells in Repr) &&
      (forall c {:trigger iterCols[c].cells in Repr} :: 0 <= c < |iterCols| ==> iterCols[c].cells in Repr) &&
      |iterRows| == |rowClues| && |iterCols| == |colClues| &&
      (forall r :: 0 <= r < |iterRows| ==> iterRows[r].cells.Length == width && iterRows[r].Shape() == ShapeOf(rowClues[r])) &&
      (forall c :: 0 <= c < |iterCols| ==> iterCols[c].cells.Length == height && iterCols[c].Shape() == ShapeOf(colClues[c])) &&
      (forall r, s :: 0 <= r < |iterRows| && 0 <= s < |iterRows| && r != s ==> iterRows[r].cells != iterRows[s].cells) &&
      (forall c, d :: 0 <= c < |iterCols| && 0 <= d < |iterCols| && c != d ==> iterCols[c].cells != iterCols[d].cells) &&
      (forall r, c :: 0 <= r < |iterRows| && 0 <= c < |iterCols| ==> iterRows[r].cells != iterCols[c].cells) &&
      (version == Current ==> width == |colClues| && height == |rowClues|) &&
      (version == Legacy ==> width == height)
    }

    /** The clues passed `checkifcorrect` when the puzzle was built. */
    predicate Checked()
    {
      Validate(width, height, rowClues, colClues).Ok?
    }

    /**
     * Every row has a cell for every column and every column one for every row: always so
     * in Solver.py; in nonogram.py only when there are `N` row clues and `N` column clues.
     */
    predicate Complete()
    {
      width == |colClues| && height == |rowClues|
    }

    /** The arrays of the rows. */
    function RowArrays(): (a: seq<array<set<int>>>)
      ensures |a| == |iterRows| && forall r :: 0 <= r < |iterRows| ==> a[r] == iterRows[r].cells
    {
      seq(|iterRows|, r requires 0 <= r < |iterRows| => iterRows[r].cells)
    }

    /** The arrays of the columns. */
    function ColArrays(): (a: seq<array<set<int>>>)
      ensures |a| == |iterCols| && forall c :: 0 <= c < |iterCols| ==> a[c] == iterCols[c].cells
    {
      seq(|iterCols|, c requires 0 <= c < |iterCols| => iterCols[c].cells)
    }

    /** The cells of the rows. */
    function RowCells(): (rows: Lines)
      requires Valid()
      reads Repr
      ensures |rows| == |iterRows| && forall r :: 0 <= r < |iterRows| ==> rows[r] == iterRows[r].cells[..]
    {
      seq(|iterRows|, r requires 0 <= r < |iterRows| reads Repr => iterRows[r].cells[..])
    }

    /** The cells of the columns. */
    function ColCells(): (cols: Lines)
      requires Valid()
      reads Repr
      ensures |cols| == |iterCols| && forall c :: 0 <= c < |iterCols| ==> cols[c] == iterCols[c].cells[..]
    {
      seq(|iterCols|, c requires 0 <= c < |iterCols| reads Repr => iterCols[c].cells[..])
    }

    /** The board the arrays hold. */
    function Cells(): Board
      requires Valid()
      reads Repr
    {
      Board(RowCells(), ColCells())
    }

    /** `one_step`: forward and backward passes until a round changes nothing. */
    method OneStep(row: Row)
      modifies row.cells
      ensures row.cells[..] == Settle(old(row.cells[..]), row.Shape())
    {
      ghost var target := Settle(row.cells[..], row.Shape());
      var previous: Option<seq<set<int>>> := None;
      while previous != Some(row.cells[..])
        invariant previous.None? ==> Settle(row.cells[..], row.Shape()) == target
        invariant previous.Some? ==> row.cells[..] == Round(previous.value, row.Shape())
        invariant previous.Some? ==> Settle(previous.value, row.Shape()) == target
        decreases if previous.None? then Total(row.cells[..]) + 1 else Total(previous.value)
      {
        if previous.Some? {
          TotalShrinks(row.cells[..], previous.value);
        }
        previous := Some(row.cells[..]);
        row.ForwardSolver();
        row.BackwardSolver();
      }
    }

    /** The loop of `multi_step` over one direction: `one_step` on each line in turn. */
    method SettleEach(lines: seq<Row>)
      requires forall i, j :: 0 <= i < |lines| && 0 <= j < |lines| && i != j ==> lines[i].cells != lines[j].cells
      modifies set l | l in lines :: l.cells
      ensures forall i :: 0 <= i < |lines| ==> lines[i].cells[..] == Settle(old(lines[i].cells[..]), lines[i].Shape())
    {
      for k := 0 to |lines|
        invariant forall i :: 0 <= i < |lines| ==>
          lines[i].cells[..] == if i < k then Settle(old(lines[i].cells[..]), lines[i].Shape()) else old(lines[i].cells[..])
      {
        OneStep(lines[k]);
      }
    }

    /** `multi_step`: `one_step` on every row, then on every column. */
    method MultiStep()
      requires Valid()
      modifies Repr
      ensures Cells() == Grid.MultiStep(old(Cells()), Shapes(rowClues), Shapes(colClues))
    {
      ghost var b := Cells();
      SettleEach(iterRows);
      assert forall c :: 0 <= c < |iterCols| ==> iterCols[c].cells[..] == b.cols[c];
      SettleEach(iterCols);
      assert RowCells() == SettleLines(b.rows, Shapes(rowClues));
      assert ColCells() == SettleLines(b.cols, Shapes(colClues));
    }

    lemma CellsRectangular()
      requires Valid() && Complete()
      ensures Rectangular(Cells())
    {
    }

    /** The first loop of `transpose_check`: each row cell's decision applied to its column cell. */
    method RowsToCols()
      requires Valid() && Complete()
      modifies set c | c in iterCols :: c.cells
      ensures ColCells() == SyncCols(old(Cells()))
      ensures RowCells() == old(RowCells())
    {
      ghost var b := Cells();
      CellsRectangular();
      SyncColsAsRows(b);
      var rows := RowArrays();
      var cols := ColArrays();
      assert Contents(rows) == b.rows;
      assert Contents(cols) == b.cols;
      CopyDecisions(rows, cols);
      assert Contents(cols) == ColCells();
    }

    /** The second loop of `transpose_check`: each column cell's decision applied to its row cell. */
    method ColsToRows()
      requires Valid() && Complete()
      modifies set r | r in iterRows :: r.cells
      ensures RowCells() == SyncRows(old(RowCells()), old(ColCells()))
      ensures ColCells() == old(ColCells())
    {
      ghost var b := Cells();
      CellsRectangular();
      var rows := RowArrays();
      var cols := ColArrays();
      assert Contents(rows) == b.rows;
      assert Contents(cols) == b.cols;
      CopyDecisions(cols, rows);
      assert Contents(rows) == RowCells();
    }

    /** `transpose_check`: rows to columns, then columns to rows. */
    method TransposeCheck()
      requires Valid() && Complete()
      modifies Repr
      ensures Cells() == Grid.TransposeCheck(old(Cells()))
    {
      RowsToCols();
      ColsToRows();
    }

    /** `''.join(row.__str__() for row in self.iterRows)`: the rendering of every row in turn. */
    method Representation() returns (p: seq<char>)
      requires Valid()
      ensures p == Picture(RowCells())
    {
      p := RenderFirst(|iterRows|);
      assert RowCells()[..|iterRows|] == RowCells();
    }

    /** The rendering of the first `n` rows, joined. */
    method RenderFirst(n: nat) returns (p: seq<char>)
      requires Valid() && n <= |iterRows|
      ensures p == Picture(RowCells()[..n])
    {
      if n == 0 {
        return [];
      }
      var init := RenderFirst(n - 1);
      var line := iterRows[n - 1].ToString();
      ghost var rows := RowCells();
      assert line == Render(rows[n - 1]);
      assert rows[..n][..n - 1] == rows[..n - 1];
      p := init + line;
    }

    /**
     * One round of `solve`: `multi_step`, then `transpose_check`, and in Solver.py the sign
     * matrix of the new rows.
     */
    method SolveRound(ghost step: Board -> Board)
      requires Valid() && Complete() && step == Rounds(Shapes(rowClues), Shapes(colClues))
      modifies Repr, this`matrix
      ensures Cells() == step(old(Cells()))
      ensures version == Current ==> matrix == SignMatrix(Cells().rows)
      ensures version != Current ==> matrix == old(matrix)
    {
      ghost var b := Cells();
      CellsRectangular();
      MultiStep();
      TransposeCheck();
      RoundsStep(b, Shapes(rowClues), Shapes(colClues));
      if version == Current {
        matrix := SignMatrix(RowCells());
      }
    }

    /** One round of `solve` inside its loop: the loop's outcome is unchanged. */
    method SolveNext(ghost step: Board -> Board, ghost i: nat, ghost previous: seq<set<int>>, ghost before: Board, ghost goal: Solved)
      requires Valid() && Complete() && step == Rounds(Shapes(rowClues), Shapes(colClues))
      requires previous != Flatten(Cells().rows) && i + 1 <= Cap(version)
      requires Solving(Cells(), step, Cap(version), i, previous, before) == goal
      modifies Repr, this`matrix
      ensures Solving(Cells(), step, Cap(version), i + 1, Flatten(old(Cells()).rows), old(Cells())) == goal
      ensures version == Current ==> matrix == SignMatrix(Cells().rows)
      ensures version != Current ==> matrix == old(matrix)
    {
      ghost var b := Cells();
      SolveRound(step);
      SolvingNext(b, Cells(), step, Cap(version), i, previous, before, goal);
    }

    /**
     * `solve`: rounds of `multi_step` and `transpose_check` until the row cells stop changing
     * or the cap is reached; Solver.py also records the sign matrix of the rows after each round.
     */
    method Solve()
      requires Valid() && Complete()
      modifies Repr, this`matrix
      ensures var s := Grid.Solve(old(Cells()), Shapes(rowClues), Shapes(colClues), Cap(version));
        Cells() == s.board &&
        matrix == if version == Current && s.rounds > 0 then SignMatrix(s.board.rows) else old(matrix)
    {
      ghost var step := Rounds(Shapes(rowClues), Shapes(colClues));
      ghost var board := Cells();
      ghost var goal := Grid.Solve(board, Shapes(rowClues), Shapes(colClues), Cap(version));
      ghost var before := board;
      var i: nat := 0;
      var previous: seq<set<int>> := [];
      var current := Flatten(RowCells());
      while previous != current
        invariant board == Cells()
        invariant i <= Cap(version)
        invariant current == Flatten(board.rows)
        invariant Solving(board, step, Cap(version), i, previous, before) == goal
        invariant version == Current && i > 0 ==> matrix == SignMatrix(board.rows)
        invariant version != Current || i == 0 ==> matrix == old(matrix)
        decreases Cap(version) - i
      {
        i := i + 1;
        if i > Cap(version) {
          SolvingDone(board, step, Cap(version), i - 1, previous, before);
          return;
        }
        SolveNext(step, i - 1, previous, before, goal);
        previous := current;
        before := board;
        board := Cells();
        current := Flatten(RowCells());
      }
      SolvingDone(board, step, Cap(version), i, previous, before);
    }

    /** `fill` (`filled`) and `unfill`: the cell at Python indices (row, col) keeps only run labels, or only gap labels. */
    method Force(row: int, col: int, filled: bool)
      requires Valid() && -|iterRows| <= row < |iterRows| && 0 <= col + width && col < width
      modifies iterRows[PyIndex(row, |iterRows|)].cells
      ensures InRange(old(Cells()), row, col) && Cells() == Grid.Force(old(Cells()), row, col, filled)
    {
      ghost var b := Cells();
      var r := PyIndex(row, |iterRows|);
      var cells := iterRows[r].cells;
      var c := PyIndex(col, cells.Length);
      if filled {
        cells[c] := Positives(cells[c]);
      } else {
        cells[c] := Negatives(cells[c]);
      }
      assert RowCells() == b.rows[r := b.rows[r][c := cells[c]]];
    }

    /** `fill`: the cell is forced filled. */
    method Fill(row: int, col: int)
      requires Valid() && -|iterRows| <= row < |iterRows| && 0 <= col + width && col < width
      modifies iterRows[PyIndex(row, |iterRows|)].cells
      ensures InRange(old(Cells()), row, col) && Cells() == Grid.Force(old(Cells()), row, col, true)
    {
      Force(row, col, true);
    }

    /** `unfill`: the cell is forced blank (Solver.py; nonogram.py's `unfill` cannot run). */
    method Unfill(row: int, col: int)
      requires Valid() && -|iterRows| <= row < |iterRows| && 0 <= col + width && col < width
      modifies iterRows[PyIndex(row, |iterRows|)].cells
      ensures InRange(old(Cells()), row, col) && Cells() == Grid.Force(old(Cells()), row, col, false)
    {
      Force(row, col, false);
    }

    /**
     * Solver.py's `full_solve`: when `check_uniqueness` holds, `pair` is `(-1, -1)` and the puzzle
     * is solved; otherwise `pair` is `uniquisation`'s cell, which is forced filled before solving
     * (Python's indexing makes `(-1, -1)` the last cell), and the sign matrix is taken again.
     */
    method FullSolve()
      requires Valid() && Checked() && version == Current
      modifies Repr, this`matrix, this`pair
      ensures Answer(rowClues, colClues, pair)
      ensures !Decided(Picture(Outcome(Current, rowClues, colClues).board.rows)) ==> InRange(old(Cells()), pair.0, pair.1)
      ensures var cell := if Decided(Picture(Outcome(Current, rowClues, colClues).board.rows)) then None else Some(pair);
        matrix == SignMatrix(Cells().rows) &&
        Cells() == Grid.Solve(Seeded(old(Cells()), cell), Shapes(rowClues), Shapes(colClues), Cap(version)).board
    {
      var unique := ChoosePair();
      SolveChosen(unique, pair);
    }

    /**
     * The first half of Solver.py's `full_solve`: `check_uniqueness`, then `pair` is `(-1, -1)`
     * or, when the check fails, `uniquisation`'s cell.
     */
    method ChoosePair() returns (unique: bool)
      requires Valid() && Checked() && version == Current
      modifies this`pair
      ensures unique == Decided(Picture(Outcome(Current, rowClues, colClues).board.rows))
      ensures Answer(rowClues, colClues, pair)
      ensures !unique ==> -|iterRows| <= pair.0 < |iterRows| && 0 <= pair.1 + width && pair.1 < width
      ensures Cells() == old(Cells())
    {
      unique := Uniqueness();
      if unique {
        pair := (-1, -1);
      } else {
        pair := Unique();
      }
    }

    /** `check_uniqueness(self.Rows, self.Columns)` on the puzzle's own clues, which leaves the puzzle as it is. */
    method Uniqueness() returns (unique: bool)
      requires Valid() && Checked() && version == Current
      ensures unique == Decided(Picture(Outcome(Current, rowClues, colClues).board.rows))
      ensures Cells() == old(Cells())
    {
      ghost var b := Cells();
      var check := CheckUniqueness(rowClues, colClues);
      unique := check.value;
      assert Cells() == b;
    }

    /** `uniquisation(self.Rows, self.Columns)` on the puzzle's own clues, which leaves the puzzle as it is. */
    method Unique() returns (p: (int, int))
      requires Valid() && Checked() && version == Current
      ensures Answer(rowClues, colClues, p)
      ensures !Decided(Picture(Outcome(Current, rowClues, colClues).board.rows)) ==>
        -|iterRows| <= p.0 < |iterRows| && 0 <= p.1 + width && p.1 < width
      ensures Cells() == old(Cells())
    {
      ghost var b := Cells();
      var u := Uniquisation(rowClues, colClues);
      p := u.value;
      assert Cells() == b;
    }

    /** The second half of Solver.py's `full_solve`: solve, or fill `p` and solve and take the sign matrix. */
    method SolveChosen(unique: bool, p: (int, int))
      requires Valid() && Checked() && version == Current
      requires !unique ==> -|iterRows| <= p.0 < |iterRows| && 0 <= p.1 + width && p.1 < width
      modifies Repr, this`matrix
      ensures !unique ==> InRange(old(Cells()), p.0, p.1)
      ensures matrix == SignMatrix(Cells().rows) &&
        Cells() == Grid.Solve(Seeded(old(Cells()), if unique then None else Some(p)), Shapes(rowClues), Shapes(colClues), Cap(version)).board
    {
      if unique {
        SolveRecorded();
      } else {
        SolveForced(p.0, p.1);
      }
    }

    /**
     * nonogram.py's `full_solve`: solve when `check_uniqueness` holds; otherwise force
     * `uniquisation`'s cell filled and solve, failing (`TypeError` on `None`) when it found
     * none; then the sign matrix of the rows.
     */
    method FullSolveOfSize() returns (cell: Option<(int, int)>, failed: bool)
      requires Valid() && Checked() && Complete() && version == Legacy
      modifies Repr, this`matrix
      ensures LegacyAnswer(rowClues, colClues, cell)
      ensures failed <==> cell.None? && !Determined(Picture(Outcome(Legacy, rowClues, colClues).board.rows))
      ensures failed ==> Cells() == old(Cells()) && matrix == old(matrix)
      ensures cell.Some? ==> InRange(old(Cells()), cell.value.0, cell.value.1)
      ensures !failed ==> (matrix == SignMatrix(Cells().rows) &&
        Cells() == Grid.Solve(Seeded(old(Cells()), cell), Shapes(rowClues), Shapes(colClues), Cap(version)).board)
    {
      var unique;
      unique, cell := ChooseCell();
      failed := !unique && cell.None?;
      if !failed {
        SolveSeeded(cell);
      }
    }

    /**
     * The first half of nonogram.py's `full_solve`: `check_uniqueness`, and when it fails,
     * `uniquisation`'s cell, if any.
     */
    method ChooseCell() returns (unique: bool, cell: Option<(int, int)>)
      requires Valid() && Checked() && Complete() && version == Legacy
      ensures unique == Determined(Picture(Outcome(Legacy, rowClues, colClues).board.rows))
      ensures LegacyAnswer(rowClues, colClues, cell)
      ensures cell.Some? ==> 0 <= cell.value.0 < |iterRows| && 0 <= cell.value.1 < width
      ensures Cells() == old(Cells())
    {
      unique := UniquenessOfSize();
      cell := None;
      if !unique {
        cell := UniqueOfSize();
      }
    }

    /** `check_uniqueness(self.N, self.Rows, self.Columns)`, which leaves the puzzle as it is. */
    method UniquenessOfSize() returns (unique: bool)
      requires Valid() && Checked() && Complete() && version == Legacy
      ensures unique == Determined(Picture(Outcome(Legacy, rowClues, colClues).board.rows))
      ensures Cells() == old(Cells())
    {
      ghost var b := Cells();
      var check := CheckUniquenessOfSize(width, rowClues, colClues);
      unique := check.value;
      assert Cells() == b;
    }

    /** `uniquisation(self.N, self.Rows, self.Columns)` on an undetermined puzzle, which leaves the puzzle as it is. */
    method UniqueOfSize() returns (cell: Option<(int, int)>)
      requires Valid() && Checked() && Complete() && version == Legacy
      requires !Determined(Picture(Outcome(Legacy, rowClues, colClues).board.rows))
      ensures LegacyAnswer(rowClues, colClues, cell)
      ensures cell.Some? ==> 0 <= cell.value.0 < |iterRows| && 0 <= cell.value.1 < width
      ensures Cells() == old(Cells())
    {
      ghost var b := Cells();
      var u := UniquisationOfSize(width, rowClues, colClues);
      cell := u.value;
      assert Cells() == b;
    }

    /** The second half of nonogram.py's `full_solve`: fill the cell, if any, solve, take the sign matrix. */
    method SolveSeeded(cell: Option<(int, int)>)
      requires Valid() && Complete() && (cell.Some? ==> 0 <= cell.value.0 < |iterRows| && 0 <= cell.value.1 < width)
      modifies Repr, this`matrix
      ensures cell.Some? ==> InRange(old(Cells()), cell.value.0, cell.value.1)
      ensures matrix == SignMatrix(Cells().rows) &&
        Cells() == Grid.Solve(Seeded(old(Cells()), cell), Shapes(rowClues), Shapes(colClues), Cap(version)).board
    {
      match cell
      case None =>
        Solve();
        TakeMatrix();
      case Some(p) =>
        SolveForced(p.0, p.1);
    }

    /** `self.solve()` in Solver.py's `full_solve`: the puzzle has a cell, so a round runs and the matrix is taken. */
    method SolveRecorded()
      requires Valid() && Checked() && version == Current
      modifies Repr, this`matrix
      ensures Cells() == Grid.Solve(old(Cells()), Shapes(rowClues), Shapes(colClues), Cap(version)).board
      ensures matrix == SignMatrix(Cells().rows)
    {
      SolveRuns(Cells(), Shapes(rowClues), Shapes(colClues), Cap(version));
      Solve();
    }

    /** `self.fill(i, j); self.solve()`, then the matrix is taken from the cells. */
    method SolveForced(i: int, j: int)
      requires Valid() && Complete() && -|iterRows| <= i < |iterRows| && 0 <= j + width && j < width
      modifies Repr, this`matrix
      ensures InRange(old(Cells()), i, j)
      ensures Cells() == Grid.Solve(Grid.Force(old(Cells()), i, j, true), Shapes(rowClues), Shapes(colClues), Cap(version)).board
      ensures matrix == SignMatrix(Cells().rows)
    {
      Fill(i, j);
      Solve();
      TakeMatrix();
    }

    /** The matrix rebuilt from the rows: `isCellFilled(cell) - isCellBlank(cell)` for every cell, as `SignMatrix` states. */
    method TakeMatrix()
      requires Valid()
      modifies this`matrix
      ensures matrix == SignMatrix(Cells().rows) && Cells() == old(Cells())
    {
      matrix := SignMatrix(RowCells());
    }

    /** `NG.fill(i, j); NG.solve()`, then whether the rendering is decided. */
    method FillAndSolve(i: int, j: int) returns (decided: bool)
      requires Valid() && Complete() && 0 <= i < |iterRows| && 0 <= j < width
      modifies Repr, this`matrix
      ensures InRange(old(Cells()), i, j)
      ensures var f := Grid.Solve(Grid.Force(old(Cells()), i, j, true), Shapes(rowClues), Shapes(colClues), Cap(version));
        Cells() == f.board && decided == Decided(Picture(f.board.rows))
    {
      Fill(i, j);
      Solve();
      var q := Representation();
      decided := Decided(q);
    }

    /**
     * `check_if_correct`: the clues read off the matrix's rows and off its transpose are the
     * puzzle's; then they are clues `checkifcorrect` accepts for the matrix's size.
     */
    predicate CheckIfCorrect()
      reads this
      requires IsMatrix(matrix)
      ensures CheckIfCorrect() && |matrix| > 0 && Width(matrix) > 0 ==> Validate(Width(matrix), |matrix|, rowClues, colClues) == Ok(())
    {
      var ok := MatrixClues(matrix) == rowClues && MatrixClues(Transpose(matrix)) == colClues;
      if ok && |matrix| > 0 && Width(matrix) > 0 then PictureCluesValid(matrix); ok else ok
    }
  }

  /** `nonogram(Rows, Columns)` (Solver.py): a puzzle, or the `ValueError` of `checkifcorrect`. */
  method Create(rows: seq<seq<int>>, cols: seq<seq<int>>) returns (r: Result<Nonogram, ClueError>)
    ensures r.Err? <==> Validate(|cols|, |rows|, rows, cols).Err?
    ensures r.Err? ==> r.error == Validate(|cols|, |rows|, rows, cols).error
    ensures r.Ok? ==> var g := r.value;
      fresh(g) && fresh(g.Repr) && g.Valid() && g.Checked() && g.version == Current &&
      g.rowClues == rows && g.colClues == cols && g.Cells() == Start(rows, cols) &&
      g.matrix == Zeros(|cols|, |rows|) && g.pair == (-1, -1)
  {
    var check := Validate(|cols|, |rows|, rows, cols);
    if check.Err? {
      return Err(check.error);
    }
    var g := new Nonogram(rows, cols);
    assert g.Cells() == Start(rows, cols);
    return Ok(g);
  }

  /** `nonogram(N, Rows, Columns)` (nonogram.py): a puzzle, or the `ValueError` of `checkifcorrect`. */
  method CreateOfSize(n: nat, rows: seq<seq<int>>, cols: seq<seq<int>>) returns (r: Result<Nonogram, ClueError>)
    ensures r.Err? <==> Validate(n, n, rows, cols).Err?
    ensures r.Err? ==> r.error == Validate(n, n, rows, cols).error
    ensures r.Ok? ==> var g := r.value;
      fresh(g) && fresh(g.Repr) && g.Valid() && g.Checked() && g.version == Legacy && g.width == n &&
      g.rowClues == rows && g.colClues == cols && g.matrix == [] && g.pair == (-1, -1)
  {
    var check := Validate(n, n, rows, cols);
    if check.Err? {
      return Err(check.error);
    }
    var g := new Nonogram.OfSize(n, rows, cols);
    return Ok(g);
  }

  /**
   * Clues a puzzle of version `v` is built from without raising: they pass `checkifcorrect`,
   * and for nonogram.py there are as many row clues as column clues (its `N`).
   */
  predicate Acceptable(v: Version, rows: seq<seq<int>>, cols: seq<seq<int>>)
  {
    if v == Current then Validate(|cols|, |rows|, rows, cols).Ok?
    else |rows| == |cols| && Validate(|rows|, |rows|, rows, cols).Ok?
  }

  /** `NG = nonogram(...); NG.solve()` on clues it accepts. */
  method SolvedPuzzle(v: Version, rows: seq<seq<int>>, cols: seq<seq<int>>) returns (g: Nonogram)
    requires Acceptable(v, rows, cols)
    ensures fresh(g) && fresh(g.Repr) && g.Valid() && g.Complete() && g.version == v
    ensures g.rowClues == rows && g.colClues == cols
    ensures g.Cells() == Outcome(v, rows, cols).board
  {
    if v == Current {
      g := new Nonogram(rows, cols);
    } else {
      g := new Nonogram.OfSize(|rows|, rows, cols);
      assert g.Cells() == Start(rows, cols);
    }
    g.Solve();
  }

  /** `''.join(row.__str__() for row in NG.iterRows)` after `NG = nonogram(...); NG.solve()`. */
  method SolvedRendering(v: Version, rows: seq<seq<int>>, cols: seq<seq<int>>) returns (p: seq<char>)
    requires Acceptable(v, rows, cols)
    ensures p == Picture(Outcome(v, rows, cols).board.rows)
  {
    var g := SolvedPuzzle(v, rows, cols);
    p := g.Representation();
  }

  /**
   * Solver.py's `check_uniqueness`: build and solve the puzzle; its rendering is decided
   * (no '/', some ' ' and some '#').
   */
  method CheckUniqueness(rows: seq<seq<int>>, cols: seq<seq<int>>) returns (r: Result<bool, ClueError>)
    ensures r == match Validate(|cols|, |rows|, rows, cols)
      case Err(e) => Err(e)
      case Ok(_) => Ok(Decided(Picture(Outcome(Current, rows, cols).board.rows)))
  {
    var check := Validate(|cols|, |rows|, rows, cols);
    if check.Err? {
      return Err(check.error);
    }
    var p := SolvedRendering(Current, rows, cols);
    return Ok(Decided(p));
  }

  /** nonogram.py's `check_uniqueness(N, Rows, Columns)`: the solved rendering has no '/'. */
  method CheckUniquenessOfSize(n: nat, rows: seq<seq<int>>, cols: seq<seq<int>>) returns (r: Result<bool, ClueError>)
    requires |rows| == n && |cols| == n
    ensures r == match Validate(n, n, rows, cols)
      case Err(e) => Err(e)
      case Ok(_) => Ok(Determined(Picture(Outcome(Legacy, rows, cols).board.rows)))
  {
    var check := Validate(n, n, rows, cols);
    if check.Err? {
      return Err(check.error);
    }
    var p := SolvedRendering(Legacy, rows, cols);
    return Ok(Determined(p));
  }

  /**
   * The body of the `uniquisation` loops: solve a fresh puzzle, force cell (i, j) filled, solve
   * again, and test the rendering.  The source first tests whether the cell is already
   * decided, but its `next` does nothing, so decided cells are tried like the others.
   */
  method TryCell(v: Version, rows: seq<seq<int>>, cols: seq<seq<int>>, i: int, j: int) returns (forcing: bool)
    requires Acceptable(v, rows, cols) && 0 <= i < |rows| && 0 <= j < |cols|
    ensures forcing == Forcing(v, rows, cols, i, j)
  {
    var h := SolvedPuzzle(v, rows, cols);
    ghost var b := h.Cells();
    forcing := h.FillAndSolve(i, j);
    ForcingFrom(v, rows, cols, i, j, b, h.Cells());
  }

  /** The loops of `uniquisation`: the first forcing cell in row-major order, if any. */
  method FirstForcingCell(v: Version, rows: seq<seq<int>>, cols: seq<seq<int>>) returns (cell: Option<(int, int)>)
    requires Acceptable(v, rows, cols)
    ensures cell.Some? ==> FirstForcing(v, rows, cols, cell.value.0, cell.value.1)
    ensures cell.None? ==> NoneForcing(v, rows, cols)
  {
    NoneBeforeStart(v, rows, cols);
    for i := 0 to |rows|
      invariant NoneBefore(v, rows, cols, i, 0)
    {
      for j := 0 to |cols|
        invariant NoneBefore(v, rows, cols, i, j)
      {
        var forcing := TryCell(v, rows, cols, i, j);
        if forcing {
          return Some((i, j));
        }
        NoneBeforeNext(v, rows, cols, i, j);
      }
      NoneBeforeRow(v, rows, cols, i);
    }
    return None;
  }

  /**
   * Solver.py's `uniquisation`: `(-1, -1)` for a puzzle already decided; otherwise, in row-major
   * order, the first cell that, forced filled on the solved puzzle, leaves a decided rendering
   * once solved again; `(-1, -1)` when there is none.
   */
  method Uniquisation(rows: seq<seq<int>>, cols: seq<seq<int>>) returns (r: Result<(int, int), ClueError>)
    ensures match Validate(|cols|, |rows|, rows, cols)
      case Err(e) => r == Err(e)
      case Ok(_) => r.Ok? && Answer(rows, cols, r.value)
  {
    var check := Validate(|cols|, |rows|, rows, cols);
    if check.Err? {
      return Err(check.error);
    }
    var p := SolvedRendering(Current, rows, cols);
    if Decided(p) {
      return Ok((-1, -1));
    }
    var cell := FirstForcingCell(Current, rows, cols);
    if cell.Some? {
      return Ok(cell.value);
    }
    return Ok((-1, -1));
  }

  /**
   * nonogram.py's `uniquisation(N, Rows, Columns)`: the first forcing cell over the `N` by `N`
   * grid, or nothing (`None`) when there is none.  It builds a puzzle only inside its loops, so
   * `N = 0` returns nothing without checking the clues.
   */
  method UniquisationOfSize(n: nat, rows: seq<seq<int>>, cols: seq<seq<int>>) returns (r: Result<Option<(int, int)>, ClueError>)
    requires |rows| == n && |cols| == n
    ensures n == 0 ==> r == Ok(None)
    ensures n > 0 ==> match Validate(n, n, rows, cols)
      case Err(e) => r == Err(e)
      case Ok(_) => (r.Ok? &&
        (r.value.Some? ==> FirstForcing(Legacy, rows, cols, r.value.value.0, r.value.value.1)) &&
        (r.value.None? ==> NoneForcing(Legacy, rows, cols)))
  {
    if n == 0 {
      return Ok(None);
    }
    var check := Validate(n, n, rows, cols);
    if check.Err? {
      return Err(check.error);
    }
    var cell := FirstForcingCell(Legacy, rows, cols);
    return Ok(cell);
  }
}
