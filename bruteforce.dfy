/**
 * `brutforce_unique` of Nonogram/Solver.py: every way of filling as many cells as the row
 * clues count is tried on a fresh puzzle, and kept when the clues read off the result are
 * the puzzle's.  A cell is named by a number; the docstring numbers cell (r, c) as
 * `r * width + c`.  A combination is the set of its numbers: the source's tuples come out of
 * a Python `set`, in no order the result can rely on.
 *
 * The loop as written hands `fill` the row `x % width` and the column `x / width`, the
 * transposed cell, and a combination with nothing to fill leaves the constructor's
 * `np.zeros((N, M))` in place of a picture.  `Found` is what the code returns; `Solutions`
 * is what the docstring describes, and it is proved to hold exactly the pictures that
 * match the clues.
 */
module Bruteforce {
  import opened Wrappers
  import opened Encoding
  import opened Cells
  import opened Grid
  import opened Clues
  import opened Puzzle
  import opened Engine

  // ---------------------------------------------------------------------------------
  // Combinations

  /** A set of numbers with a positive size has a member. */
  lemma Inhabited(s: set<int>)
    requires |s| > 0
    ensures exists x :: x in s
  {
    if forall x :: x !in s {
      assert false;
    }
  }

  /** A set of combinations with a positive size has a member. */
  lemma InhabitedBy(s: set<set<int>>)
    requires |s| > 0
    ensures exists t :: t in s
  {
  }

  /** Every member of `t` is in `range(n)`. */
  predicate Below(t: set<int>, n: int)
  {
    forall x :: x in t ==> 0 <= x < n
  }

  /** `set(itertools.combinations(range(n), k))`, each combination read as the set of its members. */
  function Combinations(n: nat, k: nat): set<set<int>>
  {
    if k == 0 then {{}}
    else if n == 0 then {}
    else Combinations(n - 1, k) + Extended(Combinations(n - 1, k - 1), n - 1)
  }

  /** Every set of `s` with `x` added. */
  function Extended(s: set<set<int>>, x: int): set<set<int>>
  {
    set t | t in s :: t + {x}
  }

  /** The combinations of `k` numbers below `n` are exactly the `k`-element subsets of `range(n)`. */
  lemma {:induction false} CombinationsAre(n: nat, k: nat, t: set<int>)
    ensures t in Combinations(n, k) <==> Below(t, n) && |t| == k
    decreases n, 1
  {
    if k == 0 {
      if |t| == 0 {
        assert t == {};
      }
    } else if n == 0 {
      if |t| == k {
        Inhabited(t);
        var x :| x in t;
        assert !Below(t, 0);
      }
    } else {
      if t in Combinations(n - 1, k) {
        CombinationsKept(n, k, t);
      } else if t in Combinations(n, k) {
        CombinationsGrown(n, k, t);
      }
      if Below(t, n) && |t| == k {
        if n - 1 in t {
          CombinationsTaking(n, k, t);
        } else {
          CombinationsSkipping(n, k, t);
        }
      }
    }
  }

  /** A combination of `k` numbers below `n - 1` is one of `k` numbers below `n`. */
  lemma {:induction false} CombinationsKept(n: nat, k: nat, t: set<int>)
    requires n > 0 && t in Combinations(n - 1, k)
    ensures Below(t, n) && |t| == k && t in Combinations(n, k)
    decreases n, 0
  {
    CombinationsAre(n - 1, k, t);
    forall x | x in t ensures 0 <= x < n {
      assert 0 <= x < n - 1;
    }
  }

  /** A combination that takes `n - 1` is a `k`-element subset of `range(n)`. */
  lemma {:induction false} CombinationsGrown(n: nat, k: nat, t: set<int>)
    requires n > 0 && k > 0 && t in Extended(Combinations(n - 1, k - 1), n - 1)
    ensures Below(t, n) && |t| == k
    decreases n, 0
  {
    var u :| u in Combinations(n - 1, k - 1) && t == u + {n - 1};
    CombinationsAre(n - 1, k - 1, u);
    assert n - 1 !in u;
    forall x | x in t ensures 0 <= x < n {
      assert x == n - 1 || x in u;
    }
  }

  /** A `k`-element subset of `range(n)` that holds `n - 1` is one of its combinations. */
  lemma {:induction false} CombinationsTaking(n: nat, k: nat, t: set<int>)
    requires n > 0 && k > 0 && Below(t, n) && |t| == k && n - 1 in t
    ensures t in Combinations(n, k)
    decreases n, 0
  {
    var u := t - {n - 1};
    assert |u| == k - 1;
    forall x | x in u ensures 0 <= x < n - 1 {
    }
    CombinationsAre(n - 1, k - 1, u);
    assert u + {n - 1} == t;
    assert t in Extended(Combinations(n - 1, k - 1), n - 1);
  }

  /** A `k`-element subset of `range(n)` without `n - 1` is one of its combinations. */
  lemma {:induction false} CombinationsSkipping(n: nat, k: nat, t: set<int>)
    requires n > 0 && k > 0 && Below(t, n) && |t| == k && n - 1 !in t
    ensures t in Combinations(n, k)
    decreases n, 0
  {
    forall x | x in t ensures 0 <= x < n - 1 {
      assert x != n - 1;
    }
    CombinationsAre(n - 1, k, t);
  }

  // ---------------------------------------------------------------------------------
  // The loop as written

  /** The cell the loop hands `fill` for number `x`: row `x % width`, column `x / width`. */
  function SwappedCell(x: int, width: nat): (int, int)
    requires width > 0
  {
    (x % width, x / width)
  }

  /** The cells the loop fills for the numbers of `t`. */
  function SwappedCells(t: set<int>, width: nat): set<(int, int)>
    requires width > 0
  {
    set x | x in t :: SwappedCell(x, width)
  }

  /** `fill` is handed a row or a column the puzzle does not have: Python raises `IndexError`. */
  predicate OffGrid(x: int, height: nat, width: nat)
    requires width > 0
  {
    !(x % width < height && x / width < width)
  }

  /** The ±1 picture of `height` rows of `width` cells whose 1s are at `cells`. */
  function Drawn(height: nat, width: nat, cells: set<(int, int)>): (m: seq<seq<int>>)
    ensures |m| == height && IsMatrix(m) && (height > 0 ==> Width(m) == width)
  {
    seq(height, r => seq(width, c => if (r, c) in cells then 1 else -1))
  }

  /**
   * `nonogram1.nonogram_Matrix` once combination `t` is filled in: the matrix rebuilt after
   * the last `fill`, or the constructor's `np.zeros((N, M))` when there was nothing to fill.
   */
  function Tried(t: set<int>, height: nat, width: nat): (m: seq<seq<int>>)
    requires width > 0
    ensures IsMatrix(m)
  {
    if t == {} then Zeros(width, height) else Drawn(height, width, SwappedCells(t, width))
  }

  /** Why `brutforce_unique` stops without a result. */
  datatype BruteError = IndexError

  /**
   * What `brutforce_unique` returns for a puzzle with these clues: `IndexError` when some
   * combination sends `fill` off the grid, otherwise the combinations whose matrix passes
   * `check_if_correct`.
   */
  function Found(rows: seq<seq<int>>, cols: seq<seq<int>>): Result<set<set<int>>, BruteError>
    requires Validate(|cols|, |rows|, rows, cols).Ok?
  {
    ClueTotalNonNegative(rows);
    var combinations := Combinations(|rows| * |cols|, ClueTotal(rows));
    if exists t, x :: t in combinations && x in t && OffGrid(x, |rows|, |cols|) then Err(IndexError)
    else Ok(set t | t in combinations && Matches(Tried(t, |rows|, |cols|), rows, cols))
  }

  /** `[[-1 + 2 * isCellFilled(cell) for cell in R.cells] for R in iterRows]`. */
  function FilledSigns(rows: Lines): seq<seq<int>>
  {
    seq(|rows|, r requires 0 <= r < |rows| =>
      seq(|rows[r]|, c requires 0 <= c < |rows[r]| => if IsFilled(rows[r][c]) then 1 else -1))
  }

  /** Lines whose cells at `cells` keep only their run labels: a fresh puzzle after `fill` of each. */
  function Marked(rows: Lines, cells: set<(int, int)>): Lines
  {
    seq(|rows|, r requires 0 <= r < |rows| =>
      seq(|rows[r]|, c requires 0 <= c < |rows[r]| => if (r, c) in cells then Positives(rows[r][c]) else rows[r][c]))
  }

  /** `brutforce_unique(nono)`: only the puzzle's clues are read. */
  method BrutforceUnique(nono: Nonogram) returns (r: Result<set<set<int>>, BruteError>)
    requires nono.Valid() && nono.Checked() && nono.version == Current
    ensures r == Found(nono.rowClues, nono.colClues)
  {
    r := TryAll(nono.rowClues, nono.colClues);
  }

  /**
   * The loop of `brutforce_unique` over the combinations, in whatever order the set gives
   * them, keeping those `TryCombination` accepts.
   */
  method TryAll(rows: seq<seq<int>>, cols: seq<seq<int>>) returns (r: Result<set<set<int>>, BruteError>)
    requires Validate(|cols|, |rows|, rows, cols).Ok?
    ensures r == Found(rows, cols)
  {
    ghost var height, width := |rows|, |cols|;
    ClueTotalNonNegative(rows);
    var rowssum := ClueTotal(rows);
    var combinations := Combinations(|rows| * |cols|, rowssum);
    var results := {};
    var pending := combinations;
    while |pending| > 0
      invariant pending <= combinations
      invariant forall t :: t in results <==> t in combinations && t !in pending && Matches(Tried(t, height, width), rows, cols)
      invariant forall t, x :: t in combinations && t !in pending && x in t ==> !OffGrid(x, height, width)
      decreases |pending|
    {
      InhabitedBy(pending);
      var trySet :| trySet in pending;
      CombinationsAre(|rows| * |cols|, rowssum, trySet);
      var correct := TryCombination(rows, cols, trySet);
      if correct.Err? {
        return Err(IndexError);
      }
      if correct.value {
        results := results + {trySet};
      }
      pending := pending - {trySet};
    }
    assert results == set t | t in combinations && Matches(Tried(t, height, width), rows, cols);
    return Ok(results);
  }

  /**
   * One pass of the outer loop: `nonogram1 = nonogram(Rows, Columns)`, the combination
   * filled in, then `check_if_correct`.
   */
  method TryCombination(rows: seq<seq<int>>, cols: seq<seq<int>>, trySet: set<int>) returns (r: Result<bool, BruteError>)
    requires Validate(|cols|, |rows|, rows, cols).Ok? && Below(trySet, |rows| * |cols|)
    ensures r.Err? <==> exists x :: x in trySet && OffGrid(x, |rows|, |cols|)
    ensures r.Ok? ==> r.value == Matches(Tried(trySet, |rows|, |cols|), rows, cols)
  {
    var nonogram1 := new Nonogram(rows, cols);
    var filled := FillCombination(nonogram1, rows, cols, trySet);
    if !filled {
      return Err(IndexError);
    }
    var correct := nonogram1.CheckIfCorrect();
    return Ok(correct);
  }

  /** The inner loop: `fill` of the cell of every number of the combination, the matrix rebuilt after each. */
  method FillCombination(g: Nonogram, rows: seq<seq<int>>, cols: seq<seq<int>>, trySet: set<int>) returns (filled: bool)
    requires |cols| > 0 && Below(trySet, |rows| * |cols|)
    requires g.Valid() && g.width == |cols| && |g.iterRows| == |rows|
    requires g.RowCells() == Start(rows, cols).rows && g.matrix == Zeros(|cols|, |rows|)
    modifies g.Repr, g`matrix
    ensures filled <==> forall x :: x in trySet ==> !OffGrid(x, |rows|, |cols|)
    ensures filled ==> g.matrix == Tried(trySet, |rows|, |cols|)
  {
    ghost var height, width := |rows|, |cols|;
    ghost var start := g.RowCells();
    ghost var done: set<int> := {};
    assert SwappedCells(done, width) == {};
    MarkedNone(start);
    var pending := trySet;
    while |pending| > 0
      invariant done + pending == trySet
      invariant g.RowCells() == Marked(start, SwappedCells(done, width))
      invariant g.matrix == Tried(done, height, width)
      invariant forall x :: x in done ==> !OffGrid(x, height, width)
      decreases |pending|
    {
      filled, done, pending := FillNext(g, rows, cols, start, done, pending);
      if !filled {
        return;
      }
    }
    return true;
  }

  /** One turn of the inner loop: some number still to fill, and its cell filled. */
  method FillNext(g: Nonogram, rows: seq<seq<int>>, cols: seq<seq<int>>,
                  ghost start: Lines, ghost done: set<int>, pending: set<int>)
    returns (filled: bool, ghost done': set<int>, pending': set<int>)
    requires |cols| > 0 && Below(pending, |rows| * |cols|) && |pending| > 0
    requires g.Valid() && g.width == |cols| && |g.iterRows| == |rows|
    requires start == Start(rows, cols).rows && g.RowCells() == Marked(start, SwappedCells(done, |cols|))
    modifies g.Repr, g`matrix
    ensures !filled <==> exists x :: x in pending && OffGrid(x, |rows|, |cols|) && x !in pending'
    ensures done' + pending' == done + pending && |pending'| < |pending|
    ensures filled ==> g.RowCells() == Marked(start, SwappedCells(done', |cols|))
    ensures filled ==> g.matrix == Tried(done', |rows|, |cols|)
    ensures filled ==> forall x :: x in done' && x !in done ==> !OffGrid(x, |rows|, |cols|)
  {
    Inhabited(pending);
    var x :| x in pending;
    filled := FillNumber(g, rows, cols, x, start, done);
    done', pending' := done + {x}, pending - {x};
  }

  /** `nonogram1.fill(int(x % width), int(x / width))` and the matrix rebuilt after it. */
  method FillNumber(g: Nonogram, rows: seq<seq<int>>, cols: seq<seq<int>>, x: int,
                    ghost start: Lines, ghost done: set<int>) returns (filled: bool)
    requires |cols| > 0 && 0 <= x && g.Valid() && g.width == |cols| && |g.iterRows| == |rows|
    requires start == Start(rows, cols).rows && g.RowCells() == Marked(start, SwappedCells(done, |cols|))
    modifies g.Repr, g`matrix
    ensures filled == !OffGrid(x, |rows|, |cols|)
    ensures filled ==> g.RowCells() == Marked(start, SwappedCells(done + {x}, |cols|))
    ensures filled ==> g.matrix == Tried(done + {x}, |rows|, |cols|)
  {
    var row, col := x % g.width, x / g.width;
    if !(row < |g.iterRows| && col < g.width) {
      return false;
    }
    SwappedCellsAdd(done, x, |cols|);
    QuotientNonNegative(x, |cols|);
    FillOne(g, rows, cols, row, col, start, SwappedCells(done, |cols|));
    return true;
  }

  /** `fill(row, col)` of one more cell, and the matrix rebuilt from the rows. */
  method FillOne(g: Nonogram, rows: seq<seq<int>>, cols: seq<seq<int>>, row: int, col: int,
                 ghost start: Lines, ghost cells: set<(int, int)>)
    requires g.Valid() && g.width == |cols| && |g.iterRows| == |rows|
    requires start == Start(rows, cols).rows && g.RowCells() == Marked(start, cells)
    requires 0 <= row < |rows| && 0 <= col < |cols|
    modifies g.Repr, g`matrix
    ensures g.RowCells() == Marked(start, cells + {(row, col)})
    ensures g.matrix == Drawn(|rows|, |cols|, cells + {(row, col)})
  {
    ghost var b := g.Cells();
    g.Fill(row, col);
    ForceMarked(b, start, cells, row, col);
    ghost var now := g.RowCells();
    assert now == Marked(start, cells + {(row, col)});
    g.matrix := FilledSigns(g.RowCells());
    assert g.RowCells() == now;
    SignsOfMarked(rows, cols, cells + {(row, col)});
  }

  /** Forcing a cell of a fresh puzzle's marked rows marks it too. */
  lemma ForceMarked(b: Board, start: Lines, cells: set<(int, int)>, row: int, col: int)
    requires b.rows == Marked(start, cells) && 0 <= row < |start| && 0 <= col < |start[row]|
    ensures InRange(b, row, col) && Force(b, row, col, true).rows == Marked(start, cells + {(row, col)})
  {
    var f := Force(b, row, col, true).rows;
    var m := Marked(start, cells + {(row, col)});
    assert Positives(Positives(start[row][col])) == Positives(start[row][col]);
    forall r | 0 <= r < |start| ensures f[r] == m[r] {
    }
  }

  /**
   * A fresh puzzle's rows with the cells at `cells` filled read as the picture with exactly
   * those 1s: a fresh cell still holds the opening gap label, so it is not filled.
   */
  lemma SignsOfMarked(rows: seq<seq<int>>, cols: seq<seq<int>>, cells: set<(int, int)>)
    ensures FilledSigns(Marked(Start(rows, cols).rows, cells)) == Drawn(|rows|, |cols|, cells)
  {
    var start := Start(rows, cols).rows;
    var s := FilledSigns(Marked(start, cells));
    var d := Drawn(|rows|, |cols|, cells);
    forall r | 0 <= r < |rows| ensures s[r] == d[r] {
      NamingEnds(rows[r]);
      assert Naming(rows[r])[0] in Labels(rows[r]);
      assert !IsFilled(Labels(rows[r]));
    }
  }

  lemma QuotientNonNegative(x: int, width: int)
    requires 0 <= x && 0 < width
    ensures 0 <= x / width
  {
  }

  /** Nothing marked: the rows as they are. */
  lemma MarkedNone(rows: Lines)
    ensures Marked(rows, {}) == rows
  {
    var m := Marked(rows, {});
    forall r | 0 <= r < |rows| ensures m[r] == rows[r] {
    }
  }

  lemma SwappedCellsAdd(t: set<int>, x: int, width: nat)
    requires width > 0
    ensures SwappedCells(t + {x}, width) == SwappedCells(t, width) + {SwappedCell(x, width)}
  {
  }

  /** A clue list of non-negative clues has a non-negative sum. */
  lemma {:induction false} SumNonNegative(xs: seq<int>)
    requires forall k :: 0 <= k < |xs| ==> xs[k] >= 0
    ensures Sum(xs) >= 0
  {
    if xs != [] {
      SumNonNegative(xs[..|xs| - 1]);
    }
  }

  /** Clues `checkifcorrect` accepts count a non-negative number of filled cells. */
  lemma {:induction false} ClueTotalNonNegative(lines: seq<seq<int>>)
    requires NonNegative(lines)
    ensures ClueTotal(lines) >= 0
  {
    if lines != [] {
      var p := lines[..|lines| - 1];
      assert NonNegative(p);
      ClueTotalNonNegative(p);
      SumNonNegative(lines[|lines| - 1]);
    }
  }

  // ---------------------------------------------------------------------------------
  // Arithmetic on cell numbers

  /** A multiple of a positive `width` strictly between `-width` and `width` is zero. */
  lemma SmallMultiple(d: int, width: int)
    requires width > 0 && -width < d * width < width
    ensures d == 0
  {
    if d > 0 {
      assert false;
    } else if d < 0 {
      assert false;
    }
  }

  /** Number `r * width + c` names row `r`, column `c`. */
  lemma CellOfNumber(r: int, c: int, width: int)
    requires 0 <= c < width
    ensures (r * width + c) / width == r && (r * width + c) % width == c
  {
    var x := r * width + c;
    var q, m := x / width, x % width;
    assert q * width + m == x;
    assert (q - r) * width == c - m;
    SmallMultiple(q - r, width);
  }

  /** Every number below `height * width` names a cell of the grid. */
  lemma NumberOfCell(x: int, height: int, width: int)
    requires 0 <= x < height * width && 0 < width
    ensures x == (x / width) * width + x % width
    ensures 0 <= x / width < height && 0 <= x % width < width
  {
    var q := x / width;
    assert x == q * width + x % width;
  }

  /** The grid has a non-negative number of cells. */
  lemma MulNonNegative(a: int, b: int)
    requires 0 <= a && 0 <= b
    ensures 0 <= a * b
  {
  }

  /** The first cell of a later row has a larger number than every cell of an earlier row. */
  lemma RowsOrdered(r: int, n: int, width: int)
    requires 0 <= r < n && 0 <= width
    ensures r * width + width <= n * width
  {
    assert (n - r - 1) * width >= 0;
  }

  // ---------------------------------------------------------------------------------
  // What the docstring describes

  /** The cell number `x` names in the docstring: row `x / width`, column `x % width`. */
  function CellOf(x: int, width: nat): (int, int)
    requires width > 0
  {
    (x / width, x % width)
  }

  /** The cells the numbers of `t` name in the docstring. */
  function NumberedCells(t: set<int>, width: nat): set<(int, int)>
    requires width > 0
  {
    set x | x in t :: CellOf(x, width)
  }

  /** The picture a combination stands for: the cells of its numbers filled, every other cell blank. */
  function Shown(t: set<int>, height: nat, width: nat): (m: seq<seq<int>>)
    requires width > 0
    ensures |m| == height && IsMatrix(m) && (height > 0 ==> Width(m) == width)
  {
    Drawn(height, width, NumberedCells(t, width))
  }

  /**
   * `brutforce_unique` as its docstring describes it: the combinations of as many cells as
   * the clues fill whose picture, cells numbered row by row and every other cell blank,
   * has the puzzle's clues.
   */
  function Solutions(rows: seq<seq<int>>, cols: seq<seq<int>>): set<set<int>>
    requires Validate(|cols|, |rows|, rows, cols).Ok?
  {
    ClueTotalNonNegative(rows);
    set t | t in Combinations(|rows| * |cols|, ClueTotal(rows)) && Matches(Shown(t, |rows|, |cols|), rows, cols)
  }

  /** The numbers `base + c` of the 1s of a line. */
  function LineNumbers(line: seq<int>, base: int): set<int>
  {
    set c | 0 <= c < |line| && line[c] == 1 :: base + c
  }

  /** The numbers of the 1s of a picture whose rows are `width` cells long: `r * width + c`. */
  function Numbers(m: seq<seq<int>>, width: nat): set<int>
  {
    if m == [] then {} else Numbers(m[..|m| - 1], width) + LineNumbers(m[|m| - 1], (|m| - 1) * width)
  }

  /** A cell of the picture of `t` is filled exactly when its number is in `t`. */
  lemma ShownHas(t: set<int>, height: nat, width: nat, r: int, c: int)
    requires width > 0 && 0 <= r < height && 0 <= c < width
    ensures Shown(t, height, width)[r][c] == 1 <==> r * width + c in t
  {
    var cells := NumberedCells(t, width);
    CellOfNumber(r, c, width);
    if (r, c) in cells {
      var x :| x in t && CellOf(x, width) == (r, c);
      assert x == (x / width) * width + x % width;
    }
    if r * width + c in t {
      assert CellOf(r * width + c, width) in cells;
    }
  }

  /** The numbered 1s of a line are those of all but its last cell, and the last cell's number if it is a 1. */
  lemma LineNumbersSnoc(line: seq<int>, base: int)
    requires line != []
    ensures var p := line[..|line| - 1];
      LineNumbers(line, base) == LineNumbers(p, base) + (if line[|p|] == 1 then {base + |p|} else {})
  {
    var p := line[..|line| - 1];
    var more := if line[|p|] == 1 then {base + |p|} else {};
    forall x ensures x in LineNumbers(line, base) <==> x in LineNumbers(p, base) + more {
      if x in LineNumbers(line, base) {
        var c :| 0 <= c < |line| && line[c] == 1 && x == base + c;
        if c < |p| {
          assert p[c] == 1;
        }
      }
      if x in LineNumbers(p, base) {
        var c :| 0 <= c < |p| && p[c] == 1 && x == base + c;
        assert line[c] == 1;
      }
    }
  }

  /** A line has as many numbered 1s as it has 1s, all from `base` on. */
  lemma {:induction false} LineNumbersCount(line: seq<int>, base: int)
    ensures |LineNumbers(line, base)| == CountOnes(line)
    ensures forall x :: x in LineNumbers(line, base) ==> base <= x < base + |line|
  {
    if line != [] {
      var p := line[..|line| - 1];
      LineNumbersCount(p, base);
      LineNumbersSnoc(line, base);
    }
  }

  /** A picture has as many numbered 1s as it has 1s, all below `|m| * width`. */
  lemma {:induction false} NumbersCount(m: seq<seq<int>>, width: nat)
    requires forall r :: 0 <= r < |m| ==> |m[r]| == width
    ensures |Numbers(m, width)| == MatrixOnes(m) && Below(Numbers(m, width), |m| * width)
  {
    if m != [] {
      var p := m[..|m| - 1];
      NumbersCount(p, width);
      LineNumbersCount(m[|m| - 1], |p| * width);
      RowsOrdered(|p|, |m|, width);
      MulNonNegative(|p|, width);
      var last := LineNumbers(m[|m| - 1], |p| * width);
      assert Numbers(p, width) !! last;
      forall x | x in Numbers(m, width) ensures 0 <= x < |m| * width {
        if x !in Numbers(p, width) {
          assert x in last;
        }
      }
    }
  }

  /** Cell (r, c) of a picture is a 1 exactly when `r * width + c` is among its numbers. */
  lemma {:induction false} NumbersHas(m: seq<seq<int>>, width: nat, r: int, c: int)
    requires forall i :: 0 <= i < |m| ==> |m[i]| == width
    requires 0 <= r < |m| && 0 <= c < width
    ensures r * width + c in Numbers(m, width) <==> m[r][c] == 1
  {
    var p := m[..|m| - 1];
    var last := LineNumbers(m[|m| - 1], |p| * width);
    var x := r * width + c;
    NumbersCount(p, width);
    LineNumbersCount(m[|m| - 1], |p| * width);
    if r == |p| {
      assert x !in Numbers(p, width);
      if x in last {
        var c' :| 0 <= c' < |m[r]| && m[r][c'] == 1 && x == |p| * width + c';
      }
      if m[r][c] == 1 {
        assert x in last;
      }
    } else {
      NumbersHas(p, width, r, c);
      RowsOrdered(r, |p|, width);
      assert x !in last;
    }
  }

  /** The numbers of the filled cells of the picture of a combination are the combination. */
  lemma NumbersShown(t: set<int>, height: nat, width: nat, x: int)
    requires width > 0 && Below(t, height * width)
    ensures x in Numbers(Shown(t, height, width), width) <==> x in t
  {
    var m := Shown(t, height, width);
    NumbersCount(m, width);
    if x in t || x in Numbers(m, width) {
      NumberOfCell(x, height, width);
      ShownHas(t, height, width, x / width, x % width);
      NumbersHas(m, width, x / width, x % width);
    }
  }

  /** The numbers of the filled cells of the picture of a combination of cells are the combination. */
  lemma NumbersOfShown(t: set<int>, height: nat, width: nat)
    requires width > 0 && Below(t, height * width)
    ensures Numbers(Shown(t, height, width), width) == t
  {
    forall x ensures x in Numbers(Shown(t, height, width), width) <==> x in t {
      NumbersShown(t, height, width, x);
    }
  }

  /** Every cell of the picture of a combination holds 1 or -1. */
  lemma ShownSigns(t: set<int>, height: nat, width: nat)
    requires width > 0
    ensures var m := Shown(t, height, width);
      forall r, c :: 0 <= r < height && 0 <= c < width ==> m[r][c] == 1 || m[r][c] == -1
  {
  }

  /**
   * Every combination `Solutions` holds is the set of numbers of the filled cells of a ±1
   * picture with the puzzle's clues.
   */
  lemma SolutionsSound(rows: seq<seq<int>>, cols: seq<seq<int>>, t: set<int>)
    requires Validate(|cols|, |rows|, rows, cols).Ok? && t in Solutions(rows, cols)
    ensures var m := Shown(t, |rows|, |cols|);
      Matches(m, rows, cols) && Numbers(m, |cols|) == t &&
      forall r, c :: 0 <= r < |rows| && 0 <= c < |cols| ==> m[r][c] == 1 || m[r][c] == -1
  {
    var height, width := |rows|, |cols|;
    ClueTotalNonNegative(rows);
    MulNonNegative(height, width);
    CombinationsAre(height * width, ClueTotal(rows), t);
    NumbersOfShown(t, height, width);
    ShownSigns(t, height, width);
  }

  /** A ±1 picture is the picture of the numbers of its filled cells. */
  lemma ShownNumbers(m: seq<seq<int>>, width: nat)
    requires width > 0 && forall r :: 0 <= r < |m| ==> |m[r]| == width
    requires forall r, c :: 0 <= r < |m| && 0 <= c < width ==> m[r][c] == 1 || m[r][c] == -1
    ensures Shown(Numbers(m, width), |m|, width) == m
  {
    var shown := Shown(Numbers(m, width), |m|, width);
    forall r | 0 <= r < |m| ensures shown[r] == m[r] {
      forall c | 0 <= c < width ensures shown[r][c] == m[r][c] {
        ShownHas(Numbers(m, width), |m|, width, r, c);
        NumbersHas(m, width, r, c);
      }
    }
  }

  /** Every ±1 picture with the puzzle's clues is in `Solutions`, as the numbers of its filled cells. */
  lemma SolutionsComplete(rows: seq<seq<int>>, cols: seq<seq<int>>, m: seq<seq<int>>)
    requires Validate(|cols|, |rows|, rows, cols).Ok?
    requires |m| == |rows| && forall r :: 0 <= r < |m| ==> |m[r]| == |cols|
    requires forall r, c :: 0 <= r < |m| && 0 <= c < |cols| ==> m[r][c] == 1 || m[r][c] == -1
    requires IsMatrix(m) && Matches(m, rows, cols)
    ensures Numbers(m, |cols|) in Solutions(rows, cols) && Shown(Numbers(m, |cols|), |rows|, |cols|) == m
  {
    var height, width := |rows|, |cols|;
    var n := Numbers(m, width);
    NumbersCount(m, width);
    ClueTotalOfMatrix(m);
    ClueTotalNonNegative(rows);
    MulNonNegative(height, width);
    CombinationsAre(height * width, ClueTotal(rows), n);
    if width > 0 {
      ShownNumbers(m, width);
    }
  }

  // ---------------------------------------------------------------------------------
  // The loop as the docstring describes it

  /**
   * `brutforce_unique` with number `x` filled at row `x / width`, column `x % width`, and the
   * matrix taken once the combination is filled, the empty combination included: exactly
   * the combinations of `Solutions`.
   */
  method IntendedUnique(nono: Nonogram) returns (r: set<set<int>>)
    requires nono.Valid() && nono.Checked() && nono.version == Current
    ensures r == Solutions(nono.rowClues, nono.colClues)
  {
    r := IntendedAll(nono.rowClues, nono.colClues);
  }

  /** The outer loop over the combinations, keeping those `TryIntended` accepts. */
  method IntendedAll(rows: seq<seq<int>>, cols: seq<seq<int>>) returns (r: set<set<int>>)
    requires Validate(|cols|, |rows|, rows, cols).Ok?
    ensures r == Solutions(rows, cols)
  {
    ghost var height, width := |rows|, |cols|;
    ClueTotalNonNegative(rows);
    var rowssum := ClueTotal(rows);
    var combinations := Combinations(|rows| * |cols|, rowssum);
    r := {};
    var pending := combinations;
    while |pending| > 0
      invariant pending <= combinations
      invariant forall t :: t in r <==> t in combinations && t !in pending && Matches(Shown(t, height, width), rows, cols)
      decreases |pending|
    {
      InhabitedBy(pending);
      var trySet :| trySet in pending;
      CombinationsAre(|rows| * |cols|, rowssum, trySet);
      var correct := TryIntended(rows, cols, trySet);
      if correct {
        r := r + {trySet};
      }
      pending := pending - {trySet};
    }
    assert r == set t | t in combinations && Matches(Shown(t, height, width), rows, cols);
  }

  /** One combination: a fresh puzzle, the cell of every number filled, the matrix taken, `check_if_correct`. */
  method TryIntended(rows: seq<seq<int>>, cols: seq<seq<int>>, trySet: set<int>) returns (correct: bool)
    requires Validate(|cols|, |rows|, rows, cols).Ok? && Below(trySet, |rows| * |cols|)
    ensures correct == Matches(Shown(trySet, |rows|, |cols|), rows, cols)
  {
    var nonogram1 := new Nonogram(rows, cols);
    FillIntended(nonogram1, rows, cols, trySet);
    nonogram1.matrix := FilledSigns(nonogram1.RowCells());
    SignsOfMarked(rows, cols, NumberedCells(trySet, |cols|));
    correct := nonogram1.CheckIfCorrect();
  }

  /** The inner loop: `fill(x / width, x % width)` for every number of the combination. */
  method FillIntended(g: Nonogram, rows: seq<seq<int>>, cols: seq<seq<int>>, trySet: set<int>)
    requires |cols| > 0 && Below(trySet, |rows| * |cols|)
    requires g.Valid() && g.width == |cols| && |g.iterRows| == |rows|
    requires g.RowCells() == Start(rows, cols).rows
    modifies g.Repr
    ensures g.RowCells() == Marked(Start(rows, cols).rows, NumberedCells(trySet, |cols|))
  {
    ghost var start := g.RowCells();
    ghost var done: set<int> := {};
    assert NumberedCells(done, |cols|) == {};
    MarkedNone(start);
    var pending := trySet;
    while |pending| > 0
      invariant done + pending == trySet
      invariant g.RowCells() == Marked(start, NumberedCells(done, |cols|))
      decreases |pending|
    {
      Inhabited(pending);
      var x :| x in pending;
      FillNumbered(g, rows, cols, x, start, done);
      done, pending := done + {x}, pending - {x};
    }
  }

  /** `fill(x / width, x % width)`: the cell number `x` names is filled too. */
  method FillNumbered(g: Nonogram, rows: seq<seq<int>>, cols: seq<seq<int>>, x: int,
                      ghost start: Lines, ghost done: set<int>)
    requires |cols| > 0 && 0 <= x < |rows| * |cols|
    requires g.Valid() && g.width == |cols| && |g.iterRows| == |rows|
    requires start == Start(rows, cols).rows && g.RowCells() == Marked(start, NumberedCells(done, |cols|))
    modifies g.Repr
    ensures g.RowCells() == Marked(start, NumberedCells(done + {x}, |cols|))
  {
    NumberOfCell(x, |rows|, |cols|);
    var row, col := x / g.width, x % g.width;
    ghost var b := g.Cells();
    g.Fill(row, col);
    ForceMarked(b, start, NumberedCells(done, |cols|), row, col);
    NumberedCellsAdd(done, x, |cols|);
  }

  lemma NumberedCellsAdd(t: set<int>, x: int, width: nat)
    requires width > 0
    ensures NumberedCells(t + {x}, width) == NumberedCells(t, width) + {CellOf(x, width)}
  {
  }

  // ---------------------------------------------------------------------------------
  // Where the loop as written goes wrong

  /** On a square grid every number below `N * N` sends `fill` to a cell of the grid. */
  lemma SquareNeverRaises(rows: seq<seq<int>>, cols: seq<seq<int>>)
    requires Validate(|cols|, |rows|, rows, cols).Ok? && |rows| == |cols|
    ensures Found(rows, cols).Ok?
  {
    var n := |rows|;
    ClueTotalNonNegative(rows);
    forall t, x | t in Combinations(n * n, ClueTotal(rows)) && x in t ensures !OffGrid(x, n, n) {
      CombinationsAre(n * n, ClueTotal(rows), t);
      NumberOfCell(x, n, n);
    }
  }

  /** `{0, ..., n - 1}`. */
  function Upto(n: nat): set<int>
  {
    if n == 0 then {} else Upto(n - 1) + {n - 1}
  }

  lemma {:induction false} UptoIs(n: nat)
    ensures |Upto(n)| == n && Below(Upto(n), n)
    ensures forall x :: 0 <= x < n ==> x in Upto(n)
  {
    if n > 0 {
      UptoIs(n - 1);
    }
  }

  /** Some combination of `k` numbers below `n` holds `x`. */
  lemma CombinationWith(n: nat, k: nat, x: int) returns (t: set<int>)
    requires 0 <= x < n && 1 <= k <= n
    ensures t in Combinations(n, k) && x in t
  {
    if x < k {
      t := Upto(k);
      UptoIs(k);
    } else {
      t := Upto(k - 1) + {x};
      UptoIs(k - 1);
    }
    CombinationsAre(n, k, t);
  }

  /**
   * On a grid that is not square, once some cell is to be filled, some combination sends
   * `fill` off the grid: row `height` when the rows are longer, column `width` otherwise.
   */
  lemma NonSquareRaises(rows: seq<seq<int>>, cols: seq<seq<int>>)
    requires Validate(|cols|, |rows|, rows, cols).Ok? && |rows| != |cols|
    requires 1 <= ClueTotal(rows) <= |rows| * |cols|
    ensures Found(rows, cols) == Err(IndexError)
  {
    var height, width := |rows|, |cols|;
    var x: int;
    if height < width {
      x := height;
      CellOfNumber(0, height, width);
      RowsOrdered(0, height, width);
    } else {
      x := width * width;
      CellOfNumber(width, 0, width);
      RowsOrdered(width, height, width);
    }
    var t := CombinationWith(height * width, ClueTotal(rows), x);
    assert OffGrid(x, height, width);
  }

  /** `[1, 1]` is one run of two. */
  lemma RowCluesFull()
    ensures RowClues([1, 1]) == [2]
  {
    assert [1, 1][..1] == [1] && [1][..0] == [];
    assert Running([1]) && Runs([1]) == [1];
    assert Bump([1]) == [2];
  }

  /** `[-1, -1]` has no run. */
  lemma RowCluesBlank()
    ensures RowClues([-1, -1]) == [0] && RowClues([-1]) == [0]
  {
    assert [-1, -1][..1] == [-1] && [-1][..0] == [];
    assert Runs([-1]) == [];
  }

  /** `[1, -1]` is one run of one. */
  lemma RowCluesFirst()
    ensures RowClues([1, -1]) == [1]
  {
    assert [1, -1][..1] == [1] && [1][..0] == [];
    assert Runs([1]) == [1];
  }

  /** Rows [[2], [0]] and columns [[1], [1]] are consistent clues, two cells to fill. */
  lemma SwapClues()
    ensures Validate(2, 2, [[2], [0]], [[1], [1]]).Ok? && ClueTotal([[2], [0]]) == 2
  {
    assert Sum([2]) == 2 && Sum([0]) == 0 && Sum([1]) == 1 by {
      assert [2][..0] == [] && [0][..0] == [] && [1][..0] == [];
    }
    assert ClueTotal([[2], [0]]) == 2 by {
      assert [[2], [0]][..1] == [[2]] && [[2]][..0] == [];
    }
    assert ClueTotal([[1], [1]]) == 2 by {
      assert [[1], [1]][..1] == [[1]] && [[1]][..0] == [];
    }
  }

  /** The top row filled, on a 2 x 2 grid. */
  lemma DrawnTop()
    ensures Drawn(2, 2, {(0, 0), (0, 1)}) == [[1, 1], [-1, -1]]
  {
    var top := Drawn(2, 2, {(0, 0), (0, 1)});
    assert top[0] == [1, 1] && top[1] == [-1, -1];
  }

  /** The left column filled, on a 2 x 2 grid. */
  lemma DrawnLeft()
    ensures Drawn(2, 2, {(0, 0), (1, 0)}) == [[1, -1], [1, -1]]
  {
    var left := Drawn(2, 2, {(0, 0), (1, 0)});
    assert left[0] == [1, -1] && left[1] == [1, -1];
  }

  /** As the loop reads them, numbers 0 and 2 fill the top row. */
  lemma TriedTop()
    ensures Tried({0, 2}, 2, 2) == [[1, 1], [-1, -1]]
  {
    DrawnTop();
    assert SwappedCell(0, 2) == (0, 0) && SwappedCell(2, 2) == (0, 1);
    assert SwappedCells({0, 2}, 2) == {(0, 0), (0, 1)};
  }

  /** As the loop reads them, numbers 0 and 1 fill the left column. */
  lemma TriedLeft()
    ensures Tried({0, 1}, 2, 2) == [[1, -1], [1, -1]]
  {
    DrawnLeft();
    assert SwappedCell(0, 2) == (0, 0) && SwappedCell(1, 2) == (1, 0);
    assert SwappedCells({0, 1}, 2) == {(0, 0), (1, 0)};
  }

  /** The picture of numbers 0 and 1 on a 2 x 2 grid fills the top row. */
  lemma ShownTop()
    ensures Shown({0, 1}, 2, 2) == [[1, 1], [-1, -1]]
  {
    var top := Shown({0, 1}, 2, 2);
    ShownHas({0, 1}, 2, 2, 0, 0);
    ShownHas({0, 1}, 2, 2, 0, 1);
    ShownHas({0, 1}, 2, 2, 1, 0);
    ShownHas({0, 1}, 2, 2, 1, 1);
    assert top[0] == [1, 1] && top[1] == [-1, -1];
  }

  /** The picture of numbers 0 and 2 on a 2 x 2 grid fills the left column. */
  lemma ShownLeft()
    ensures Shown({0, 2}, 2, 2) == [[1, -1], [1, -1]]
  {
    var left := Shown({0, 2}, 2, 2);
    ShownHas({0, 2}, 2, 2, 0, 0);
    ShownHas({0, 2}, 2, 2, 0, 1);
    ShownHas({0, 2}, 2, 2, 1, 0);
    ShownHas({0, 2}, 2, 2, 1, 1);
    assert left[0] == [1, -1] && left[1] == [1, -1];
  }

  /** The combinations `Found` holds when it holds any. */
  lemma FoundHas(rows: seq<seq<int>>, cols: seq<seq<int>>, k: nat, t: set<int>)
    requires Validate(|cols|, |rows|, rows, cols).Ok? && k == ClueTotal(rows) && Found(rows, cols).Ok?
    ensures t in Found(rows, cols).value <==>
      t in Combinations(|rows| * |cols|, k) && Matches(Tried(t, |rows|, |cols|), rows, cols)
  {
  }

  /** The combinations `Solutions` holds. */
  lemma SolutionsHas(rows: seq<seq<int>>, cols: seq<seq<int>>, k: nat, t: set<int>)
    requires Validate(|cols|, |rows|, rows, cols).Ok? && k == ClueTotal(rows)
    ensures t in Solutions(rows, cols) <==>
      t in Combinations(|rows| * |cols|, k) && Matches(Shown(t, |rows|, |cols|), rows, cols)
  {
  }

  /** The filled top row has clues [[2], [0]] and [[1], [1]]. */
  lemma TopMatches()
    ensures Matches([[1, 1], [-1, -1]], [[2], [0]], [[1], [1]])
  {
    RowCluesFull();
    RowCluesBlank();
    RowCluesFirst();
    var t := Transpose([[1, 1], [-1, -1]]);
    assert t[0] == [1, -1] && t[1] == [1, -1];
    assert MatrixClues([[1, 1], [-1, -1]]) == [[2], [0]];
    assert MatrixClues(t) == [[1], [1]];
  }

  /** The filled left column does not have row clues [[2], [0]]. */
  lemma LeftMismatch()
    ensures !Matches([[1, -1], [1, -1]], [[2], [0]], [[1], [1]])
  {
    RowCluesFirst();
    assert MatrixClues([[1, -1], [1, -1]])[0] == [1];
  }

  /** A 2 x 2 grid has four cells. */
  lemma TwoByTwoCells(height: int, width: int)
    requires height == 2 && width == 2
    ensures height * width == 4
  {
  }

  /** {0, 1} and {0, 2} are two-cell combinations of a four-cell grid. */
  lemma PairsBelow(n: int)
    requires n == 4
    ensures Below({0, 1}, n) && Below({0, 2}, n) && |{0, 1}| == 2 && |{0, 2}| == 2
  {
  }

  /** Which of {0, 1} and {0, 2} two-cell combinations is, for rows [[2], [0]] and columns [[1], [1]]. */
  lemma SwapCombinations(rows: seq<seq<int>>, cols: seq<seq<int>>)
    requires rows == [[2], [0]] && cols == [[1], [1]]
    ensures ClueTotal(rows) == 2
    ensures {0, 1} in Combinations(|rows| * |cols|, 2) && {0, 2} in Combinations(|rows| * |cols|, 2)
  {
    SwapClues();
    var n := |rows| * |cols|;
    TwoByTwoCells(|rows|, |cols|);
    PairsBelow(n);
    CombinationsAre(n, 2, {0, 1});
    CombinationsAre(n, 2, {0, 2});
  }

  /**
   * Rows [[2], [0]], columns [[1], [1]]: the one picture fills the top row, cells 0 and 1.
   * The loop as written fills the left column for {0, 1} and the top row for {0, 2}, so it
   * reports {0, 2} and not {0, 1}; `Solutions` has {0, 1} and not {0, 2}.
   */
  lemma SwapCounterexample(rows: seq<seq<int>>, cols: seq<seq<int>>)
    requires rows == [[2], [0]] && cols == [[1], [1]]
    ensures Validate(|cols|, |rows|, rows, cols).Ok?
    ensures var found := Found(rows, cols);
      found.Ok? && {0, 2} in found.value && {0, 1} !in found.value
    ensures var solutions := Solutions(rows, cols);
      {0, 1} in solutions && {0, 2} !in solutions
  {
    SwapClues();
    SquareNeverRaises(rows, cols);
    SwapFoundHas(rows, cols);
    SwapFoundLacks(rows, cols);
    SwapSolutionsHas(rows, cols);
    SwapSolutionsLack(rows, cols);
  }

  /** The loop as written keeps {0, 2}. */
  lemma SwapFoundHas(rows: seq<seq<int>>, cols: seq<seq<int>>)
    requires rows == [[2], [0]] && cols == [[1], [1]] && Validate(|cols|, |rows|, rows, cols).Ok?
    requires Found(rows, cols).Ok?
    ensures {0, 2} in Found(rows, cols).value
  {
    SwapCombinations(rows, cols);
    TriedTop();
    TopMatches();
    FoundHas(rows, cols, 2, {0, 2});
  }

  /** The loop as written drops {0, 1}. */
  lemma SwapFoundLacks(rows: seq<seq<int>>, cols: seq<seq<int>>)
    requires rows == [[2], [0]] && cols == [[1], [1]] && Validate(|cols|, |rows|, rows, cols).Ok?
    requires Found(rows, cols).Ok?
    ensures {0, 1} !in Found(rows, cols).value
  {
    SwapClues();
    TriedLeft();
    LeftMismatch();
    FoundHas(rows, cols, 2, {0, 1});
  }

  /** The docstring's reading keeps {0, 1}. */
  lemma SwapSolutionsHas(rows: seq<seq<int>>, cols: seq<seq<int>>)
    requires rows == [[2], [0]] && cols == [[1], [1]] && Validate(|cols|, |rows|, rows, cols).Ok?
    ensures {0, 1} in Solutions(rows, cols)
  {
    SwapCombinations(rows, cols);
    ShownTop();
    TopMatches();
    SolutionsHas(rows, cols, 2, {0, 1});
  }

  /** The docstring's reading drops {0, 2}. */
  lemma SwapSolutionsLack(rows: seq<seq<int>>, cols: seq<seq<int>>)
    requires rows == [[2], [0]] && cols == [[1], [1]] && Validate(|cols|, |rows|, rows, cols).Ok?
    ensures {0, 2} !in Solutions(rows, cols)
  {
    SwapClues();
    ShownLeft();
    LeftMismatch();
    SolutionsHas(rows, cols, 2, {0, 2});
  }

  /** When the clues fill no cell the one combination is empty, and nothing is sent off the grid. */
  lemma NothingToFill(rows: seq<seq<int>>, cols: seq<seq<int>>)
    requires Validate(|cols|, |rows|, rows, cols).Ok? && ClueTotal(rows) == 0
    ensures Found(rows, cols).Ok?
  {
    MulNonNegative(|rows|, |cols|);
    assert Combinations(|rows| * |cols|, 0) == {{}};
  }

  /** Rows [[0]] and columns [[0], [0]] are consistent clues with nothing to fill. */
  lemma EmptyClues()
    ensures Validate(2, 1, [[0]], [[0], [0]]).Ok? && ClueTotal([[0]]) == 0
  {
    assert Sum([0]) == 0 by {
      assert [0][..0] == [];
    }
    assert ClueTotal([[0]]) == 0 by {
      assert [[0]][..0] == [];
    }
    assert ClueTotal([[0], [0]]) == 0 by {
      assert [[0], [0]][..1] == [[0]] && [[0]][..0] == [];
    }
  }

  /** The blank one-row picture of two cells has clues [[0]] and [[0], [0]]. */
  lemma BlankMatches()
    ensures Shown({}, 1, 2) == [[-1, -1]] && Matches([[-1, -1]], [[0]], [[0], [0]])
  {
    var blank := Shown({}, 1, 2);
    ShownHas({}, 1, 2, 0, 0);
    ShownHas({}, 1, 2, 0, 1);
    assert blank[0] == [-1, -1];
    RowCluesBlank();
    var t := Transpose([[-1, -1]]);
    assert t[0] == [-1] && t[1] == [-1];
    assert MatrixClues(t) == [[0], [0]];
  }

  /**
   * Rows [[0]], columns [[0], [0]]: the blank picture is the one solution, the combination
   * with no cell.  As written that combination leaves `np.zeros((2, 1))`, two rows of one
   * cell, whose clues are not the puzzle's, and nothing is found; `Solutions` finds it.
   */
  lemma EmptyCounterexample(rows: seq<seq<int>>, cols: seq<seq<int>>)
    requires rows == [[0]] && cols == [[0], [0]]
    ensures Validate(|cols|, |rows|, rows, cols).Ok?
    ensures Found(rows, cols) == Ok({})
    ensures Solutions(rows, cols) == {{}}
  {
    EmptyClues();
    var n, k := |rows| * |cols|, ClueTotal(rows);
    assert n == 2 && k == 0;
    NothingToFill(rows, cols);
    assert |MatrixClues(Tried({}, 1, 2))| == 2;
    BlankMatches();
    assert Found(rows, cols).Ok?;
    forall t ensures t !in Found(rows, cols).value {
      FoundHas(rows, cols, k, t);
    }
    assert Found(rows, cols).value == {};
    forall t ensures t in Solutions(rows, cols) <==> t == {} {
      SolutionsHas(rows, cols, k, t);
    }
  }
}
