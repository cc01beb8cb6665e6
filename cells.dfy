/**
 * Classification of one cell (`isCellFilled`, `isCellBlank`, `cell_to_str` in
 * Nonogram/Solver.py and nonogram.py).  A cell is the set of labels it may still take:
 * positive labels are run cells, negative labels gap cells.
 */
module Cells {

  /** `isCellFilled`: every remaining label is a run label (true of the empty set). */
  predicate IsFilled(cell: set<int>)
  {
    forall x :: x in cell ==> x > 0
  }

  /** `isCellBlank`: every remaining label is a gap label (true of the empty set). */
  predicate IsBlank(cell: set<int>)
  {
    forall x :: x in cell ==> x < 0
  }

  /** `cell_to_str`: '#' for a filled cell, ' ' for a blank one, '/' while undetermined. */
  function CellToStr(cell: set<int>): (c: char)
    ensures c == '#' || c == ' ' || c == '/'
  {
    if IsFilled(cell) then '#' else if IsBlank(cell) then ' ' else '/'
  }

  /**
   * What the three characters mean: '/' exactly when the cell still holds both a label
   * that is not a run label and one that is not a gap label, ' ' exactly when it holds
   * some label and only gap labels, and '#' otherwise (only run labels, or nothing).
   */
  lemma CellToStrMeaning(cell: set<int>)
    ensures CellToStr(cell) == '/' <==> (exists x :: x in cell && x <= 0) && (exists y :: y in cell && y >= 0)
    ensures CellToStr(cell) == ' ' <==> (exists y :: y in cell && y < 0) && forall x :: x in cell ==> x < 0
    ensures CellToStr(cell) == '#' <==> forall x :: x in cell ==> x > 0
  {
  }

  /** `Row.__str__`: the rendering of a line. */
  function Render(cells: seq<set<int>>): (s: seq<char>)
    ensures |s| == |cells|
    ensures forall i :: 0 <= i < |cells| ==> s[i] == CellToStr(cells[i])
  {
    if cells == [] then [] else [CellToStr(cells[0])] + Render(cells[1..])
  }

  /** An entry of the solved matrix: `1 * isCellFilled(cell) - 1 * isCellBlank(cell)`. */
  function Sign(cell: set<int>): (v: int)
    ensures v == 1 <==> (exists x :: x in cell) && CellToStr(cell) == '#'
    ensures v == -1 <==> CellToStr(cell) == ' '
    ensures v == 0 <==> (forall x :: x !in cell) || CellToStr(cell) == '/'
  {
    CellToStrMeaning(cell);
    (if IsFilled(cell) then 1 else 0) - (if IsBlank(cell) then 1 else 0)
  }

  /** The run labels of a cell: what `fill` and `transpose_check` keep of a filled cell. */
  function Positives(cell: set<int>): (r: set<int>)
    ensures r <= cell && IsFilled(r)
    ensures forall x :: x in cell && x > 0 ==> x in r
  {
    set x | x in cell && x > 0
  }

  /** The gap labels of a cell: what `unfill` and `transpose_check` keep of a blank cell. */
  function Negatives(cell: set<int>): (r: set<int>)
    ensures r <= cell && IsBlank(r)
    ensures forall x :: x in cell && x < 0 ==> x in r
  {
    set x | x in cell && x < 0
  }

  /**
   * Narrowing a cell never undoes a decision: a filled cell stays '#', and a blank cell
   * stays ' ' unless it loses every label, in which case it reads as '#'.
   */
  lemma ShrinkKeepsDecision(cell: set<int>, smaller: set<int>)
    requires smaller <= cell
    ensures CellToStr(cell) == '#' ==> CellToStr(smaller) == '#'
    ensures CellToStr(cell) == ' ' ==> CellToStr(smaller) == ' ' || forall x :: x !in smaller
    ensures CellToStr(smaller) == '/' ==> CellToStr(cell) == '/'
  {
    CellToStrMeaning(cell);
    CellToStrMeaning(smaller);
  }

  /** The three cells of Solver_test.py: all positive, all negative, and mixed. */
  lemma CellToStrExamples()
    ensures CellToStr({1, 5, 19, 23, 19}) == '#'
    ensures CellToStr({-1, -5, -19, -23, -19}) == ' '
    ensures CellToStr({1, -5, -19, -23, -19}) == '/'
  {
    assert 1 in {1, -5, -19, -23, -19} && -5 in {1, -5, -19, -23, -19};
  }

  /** A cell with no label left renders as filled while its matrix entry is 0. */
  lemma EmptyCell()
    ensures CellToStr({}) == '#' && Sign({}) == 0
  {
  }
}
