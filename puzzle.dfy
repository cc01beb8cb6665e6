/**
 * A puzzle given by its clues, as values: the board a fresh `nonogram` starts from, what
 * `solve` leaves on it, and the tests `check_uniqueness` and `uniquisation` make on the
 * rendering (Nonogram/Solver.py and nonogram.py).  These specify the search methods of
 * `Engine`, and the lemmas here say what their answers mean for the placements.
 */
module Puzzle {
  import opened Encoding
  import opened Cells
  import opened Propagation
  import opened Grid
  import opened Wrappers

  /** Nonogram/Solver.py (`Current`) or the square-grid nonogram.py (`Legacy`). */
  datatype Version = Current | Legacy

  /** The round cap of `solve`: 300 in Solver.py, 100 in nonogram.py. */
  function Cap(v: Version): nat
  {
    if v == Current then 300 else 100
  }

  /** The shape of every line of one direction. */
  function Shapes(clues: seq<seq<int>>): (s: seq<Shape>)
    ensures |s| == |clues| && forall i :: 0 <= i < |clues| ==> s[i] == ShapeOf(clues[i])
  {
    seq(|clues|, i requires 0 <= i < |clues| => ShapeOf(clues[i]))
  }

  /** `n` cells each holding every label of `clues`: a fresh `Row(n, clues)`. */
  function FreshLine(n: nat, clues: seq<int>): (l: seq<set<int>>)
    ensures |l| == n && forall k :: 0 <= k < n ==> l[k] == Labels(clues)
  {
    seq(n, _ => Labels(clues))
  }

  /** The board of a fresh puzzle: a row of `|cols|` cells per row clue, a column of `|rows|` cells per column clue. */
  function Start(rows: seq<seq<int>>, cols: seq<seq<int>>): (b: Board)
    ensures |b.rows| == |rows| && |b.cols| == |cols|
    ensures forall r :: 0 <= r < |rows| ==> b.rows[r] == FreshLine(|cols|, rows[r])
    ensures forall c :: 0 <= c < |cols| ==> b.cols[c] == FreshLine(|rows|, cols[c])
  {
    Board(seq(|rows|, r requires 0 <= r < |rows| => FreshLine(|cols|, rows[r])),
          seq(|cols|, c requires 0 <= c < |cols| => FreshLine(|rows|, cols[c])))
  }

  lemma StartFits(rows: seq<seq<int>>, cols: seq<seq<int>>)
    ensures Fits(Start(rows, cols), Shapes(rows), Shapes(cols))
  {
  }

  /** What `solve` leaves on a fresh puzzle. */
  function Outcome(v: Version, rows: seq<seq<int>>, cols: seq<seq<int>>): Solved
  {
    Solve(Start(rows, cols), Shapes(rows), Shapes(cols), Cap(v))
  }

  lemma OutcomeFits(v: Version, rows: seq<seq<int>>, cols: seq<seq<int>>)
    ensures Fits(Outcome(v, rows, cols).board, Shapes(rows), Shapes(cols))
  {
    StartFits(rows, cols);
    SolveBounds(Start(rows, cols), Shapes(rows), Shapes(cols), Cap(v));
  }

  /** nonogram.py's `check_uniqueness`: no cell of the rendering is '/'. */
  predicate Determined(p: seq<char>)
  {
    '/' !in p
  }

  /** Solver.py's `check_uniqueness` and both `uniquisation`s: determined, with a filled and a blank cell. */
  predicate Decided(p: seq<char>)
  {
    Determined(p) && ' ' in p && '#' in p
  }

  /**
   * Cell (i, j) makes the puzzle uniquely solvable: forcing it filled on the solved board and
   * solving again leaves a decided rendering.
   */
  ghost predicate Forcing(v: Version, rows: seq<seq<int>>, cols: seq<seq<int>>, i: int, j: int)
  {
    var b := Outcome(v, rows, cols).board;
    InRange(b, i, j) && Decided(Picture(Solve(Force(b, i, j, true), Shapes(rows), Shapes(cols), Cap(v)).board.rows))
  }

  /** `Forcing` read off the two boards it is about. */
  lemma ForcingFrom(v: Version, rows: seq<seq<int>>, cols: seq<seq<int>>, i: int, j: int, b: Board, f: Board)
    requires b == Outcome(v, rows, cols).board && InRange(b, i, j)
    requires f == Solve(Force(b, i, j, true), Shapes(rows), Shapes(cols), Cap(v)).board
    ensures Forcing(v, rows, cols, i, j) == Decided(Picture(f.rows))
  {
  }

  /** No cell before (i, j) in row-major order is forcing. */
  ghost predicate NoneBefore(v: Version, rows: seq<seq<int>>, cols: seq<seq<int>>, i: int, j: int)
  {
    forall k, l :: 0 <= k < |rows| && 0 <= l < |cols| && (k < i || (k == i && l < j)) ==> !Forcing(v, rows, cols, k, l)
  }

  /** (i, j) is the first forcing cell in row-major order. */
  ghost predicate FirstForcing(v: Version, rows: seq<seq<int>>, cols: seq<seq<int>>, i: int, j: int)
  {
    0 <= i < |rows| && 0 <= j < |cols| && Forcing(v, rows, cols, i, j) && NoneBefore(v, rows, cols, i, j)
  }

  /** No cell is forcing. */
  ghost predicate NoneForcing(v: Version, rows: seq<seq<int>>, cols: seq<seq<int>>)
  {
    NoneBefore(v, rows, cols, |rows|, 0)
  }

  /** Nothing comes before the first cell. */
  lemma NoneBeforeStart(v: Version, rows: seq<seq<int>>, cols: seq<seq<int>>)
    ensures NoneBefore(v, rows, cols, 0, 0)
  {
  }

  /** A cell found not forcing extends the cells known not forcing by one. */
  lemma NoneBeforeNext(v: Version, rows: seq<seq<int>>, cols: seq<seq<int>>, i: int, j: int)
    requires NoneBefore(v, rows, cols, i, j) && !Forcing(v, rows, cols, i, j)
    ensures NoneBefore(v, rows, cols, i, j + 1)
  {
  }

  /** A row found without a forcing cell moves the search to the next row. */
  lemma NoneBeforeRow(v: Version, rows: seq<seq<int>>, cols: seq<seq<int>>, i: int)
    requires NoneBefore(v, rows, cols, i, |cols|)
    ensures NoneBefore(v, rows, cols, i + 1, 0)
  {
  }

  /**
   * Solver.py's `uniquisation` answer: `[-1, -1]` for a puzzle already decided, otherwise the
   * first forcing cell, or `[-1, -1]` when there is none.
   */
  ghost predicate Answer(rows: seq<seq<int>>, cols: seq<seq<int>>, p: (int, int))
  {
    if Decided(Picture(Outcome(Current, rows, cols).board.rows)) then p == (-1, -1)
    else FirstForcing(Current, rows, cols, p.0, p.1) || (NoneForcing(Current, rows, cols) && p == (-1, -1))
  }

  /**
   * nonogram.py's `check_uniqueness` and `uniquisation` together, as its `full_solve` reads
   * them: nothing for a determined puzzle, otherwise the first forcing cell, or nothing when
   * there is none.
   */
  ghost predicate LegacyAnswer(rows: seq<seq<int>>, cols: seq<seq<int>>, cell: Option<(int, int)>)
  {
    if Determined(Picture(Outcome(Legacy, rows, cols).board.rows)) then cell == None
    else match cell
      case Some(p) => FirstForcing(Legacy, rows, cols, p.0, p.1)
      case None => NoneForcing(Legacy, rows, cols)
  }

  /** The board nonogram.py's `full_solve` solves: as it is, or with the chosen cell forced filled. */
  function Seeded(b: Board, cell: Option<(int, int)>): Board
    requires cell.Some? ==> InRange(b, cell.value.0, cell.value.1)
  {
    match cell
    case None => b
    case Some(p) => Force(b, p.0, p.1, true)
  }

  /** There is only one first forcing cell. */
  lemma FirstForcingUnique(v: Version, rows: seq<seq<int>>, cols: seq<seq<int>>, i: int, j: int, k: int, l: int)
    requires FirstForcing(v, rows, cols, i, j) && FirstForcing(v, rows, cols, k, l)
    ensures i == k && j == l
  {
  }

  /** `uniquisation` has one answer for each puzzle. */
  lemma AnswerUnique(rows: seq<seq<int>>, cols: seq<seq<int>>, p: (int, int), q: (int, int))
    requires Answer(rows, cols, p) && Answer(rows, cols, q)
    ensures p == q
  {
    if !Decided(Picture(Outcome(Current, rows, cols).board.rows)) {
      if FirstForcing(Current, rows, cols, p.0, p.1) && FirstForcing(Current, rows, cols, q.0, q.1) {
        FirstForcingUnique(Current, rows, cols, p.0, p.1, q.0, q.1);
      }
    }
  }

  /** A placement of the clues: label walks of every row and column that agree cell by cell. */
  ghost predicate Solution(rows: seq<seq<int>>, cols: seq<seq<int>>, rowWalks: seq<seq<int>>, colWalks: seq<seq<int>>)
  {
    Placement(Start(rows, cols), Shapes(rows), Shapes(cols), rowWalks, colWalks)
  }

  /** On a rendering without '/', a cell's character says what every surviving label is. */
  lemma DeterminedCell(rows: Lines, r: int, c: int, x: int)
    requires Determined(Picture(rows)) && 0 <= r < |rows| && 0 <= c < |rows[r]| && x in rows[r][c]
    ensures x > 0 <==> CellToStr(rows[r][c]) == '#'
  {
    PictureHas(rows, '/');
    CellToStrMeaning(rows[r][c]);
  }

  /**
   * What `check_uniqueness` promises: when the solved rendering has no '/', every placement
   * of the clues fills exactly the cells rendered '#', so all placements fill the same cells.
   */
  lemma DeterminedMeansUnique(v: Version, rows: seq<seq<int>>, cols: seq<seq<int>>,
                              rowWalks: seq<seq<int>>, colWalks: seq<seq<int>>, r: int, c: int)
    requires Solution(rows, cols, rowWalks, colWalks)
    requires Determined(Picture(Outcome(v, rows, cols).board.rows))
    requires 0 <= r < |rows| && 0 <= c < |cols|
    ensures var b := Outcome(v, rows, cols).board;
      r < |b.rows| && c < |b.rows[r]| && c < |rowWalks[r]| &&
      (rowWalks[r][c] > 0 <==> CellToStr(b.rows[r][c]) == '#')
  {
    var b := Outcome(v, rows, cols).board;
    OutcomeFits(v, rows, cols);
    SolveKeepsPlacement(Start(rows, cols), Shapes(rows), Shapes(cols), Cap(v), rowWalks, colWalks);
    assert rowWalks[r][c] in b.rows[r][c];
    DeterminedCell(b.rows, r, c, rowWalks[r][c]);
  }

  /** Two placements of a puzzle whose solved rendering has no '/' fill the same cells. */
  lemma PlacementsAgree(v: Version, rows: seq<seq<int>>, cols: seq<seq<int>>,
                        rowWalks: seq<seq<int>>, colWalks: seq<seq<int>>,
                        otherRows: seq<seq<int>>, otherCols: seq<seq<int>>, r: int, c: int)
    requires Solution(rows, cols, rowWalks, colWalks) && Solution(rows, cols, otherRows, otherCols)
    requires Determined(Picture(Outcome(v, rows, cols).board.rows))
    requires 0 <= r < |rows| && 0 <= c < |cols|
    ensures c < |rowWalks[r]| && c < |otherRows[r]| && (rowWalks[r][c] > 0 <==> otherRows[r][c] > 0)
  {
    DeterminedMeansUnique(v, rows, cols, rowWalks, colWalks, r, c);
    DeterminedMeansUnique(v, rows, cols, otherRows, otherCols, r, c);
  }

  /**
   * What a forcing cell promises: every placement that fills cell (i, j) fills exactly the
   * cells rendered '#' once (i, j) is forced and the puzzle solved again.
   */
  lemma ForcingMeansUnique(v: Version, rows: seq<seq<int>>, cols: seq<seq<int>>, i: int, j: int,
                           rowWalks: seq<seq<int>>, colWalks: seq<seq<int>>, r: int, c: int)
    requires Forcing(v, rows, cols, i, j) && 0 <= i < |rows| && 0 <= j < |cols|
    requires Solution(rows, cols, rowWalks, colWalks) && rowWalks[i][j] > 0
    requires 0 <= r < |rows| && 0 <= c < |cols|
    ensures var f := Solve(Force(Outcome(v, rows, cols).board, i, j, true), Shapes(rows), Shapes(cols), Cap(v)).board;
      r < |f.rows| && c < |f.rows[r]| && c < |rowWalks[r]| &&
      (rowWalks[r][c] > 0 <==> CellToStr(f.rows[r][c]) == '#')
  {
    var b := Outcome(v, rows, cols).board;
    OutcomeFits(v, rows, cols);
    SolveKeepsPlacement(Start(rows, cols), Shapes(rows), Shapes(cols), Cap(v), rowWalks, colWalks);
    ForceKeepsPlacement(b, i, j, true, Shapes(rows), Shapes(cols), rowWalks, colWalks);
    ForceFits(b, i, j, true, Shapes(rows), Shapes(cols));
    DeterminedSolveShows(Force(b, i, j, true), Shapes(rows), Shapes(cols), Cap(v), rowWalks, colWalks, r, c);
  }

  /** Where solving a board that keeps a placement leaves no '/', the rendering shows that placement. */
  lemma DeterminedSolveShows(g: Board, rowShapes: seq<Shape>, colShapes: seq<Shape>, cap: nat,
                             rowWalks: seq<seq<int>>, colWalks: seq<seq<int>>, r: int, c: int)
    requires Fits(g, rowShapes, colShapes) && Placement(g, rowShapes, colShapes, rowWalks, colWalks)
    requires Determined(Picture(Solve(g, rowShapes, colShapes, cap).board.rows))
    requires 0 <= r < |rowShapes| && 0 <= c < |colShapes|
    ensures var f := Solve(g, rowShapes, colShapes, cap).board;
      r < |f.rows| && c < |f.rows[r]| && c < |rowWalks[r]| &&
      (rowWalks[r][c] > 0 <==> CellToStr(f.rows[r][c]) == '#')
  {
    SolveKeepsPlacement(g, rowShapes, colShapes, cap, rowWalks, colWalks);
    SolveBounds(g, rowShapes, colShapes, cap);
    var f := Solve(g, rowShapes, colShapes, cap).board;
    assert rowWalks[r][c] in f.rows[r][c];
    DeterminedCell(f.rows, r, c, rowWalks[r][c]);
  }
}
