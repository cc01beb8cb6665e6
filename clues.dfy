/**
 * Clue lists on their own: `checkifcorrect` (the constructor's validation of the clues),
 * `row_to_clues` (reading the clues off a line of the {-1, 0, 1} matrix) and the
 * comparison `check_if_correct` makes between a matrix and the clues, in
 * Nonogram/Solver.py and nonogram.py.
 */
module Clues {
  import opened Wrappers

  /** Python's `sum` of a list of integers. */
  function Sum(xs: seq<int>): int
  {
    if xs == [] then 0 else Sum(xs[..|xs| - 1]) + xs[|xs| - 1]
  }

  /** `sum([sum(x) for x in Rows])`. */
  function ClueTotal(lines: seq<seq<int>>): int
  {
    if lines == [] then 0 else ClueTotal(lines[..|lines| - 1]) + Sum(lines[|lines| - 1])
  }

  /** `sum(x) + len(x) - 1`: the cells a clue list needs with one blank between runs. */
  function Room(clues: seq<int>): int
  {
    Sum(clues) + |clues| - 1
  }

  /** Why `checkifcorrect` refuses a puzzle (the constructor then raises `ValueError`). */
  datatype ClueError =
    | TotalsDiffer   // row and column clues count different numbers of filled cells
    | DoesNotFit     // some row needs more than the width, or some column more than the height
    | EmptyClues     // `min` of an empty list: no rows, no columns, or an empty clue list
    | NegativeClue   // some clue is negative

  predicate RowsFit(lines: seq<seq<int>>, size: int)
  {
    forall i :: 0 <= i < |lines| ==> Room(lines[i]) <= size
  }

  predicate NoneEmpty(lines: seq<seq<int>>)
  {
    lines != [] && forall i :: 0 <= i < |lines| ==> lines[i] != []
  }

  predicate NonNegative(lines: seq<seq<int>>)
  {
    forall i, k :: 0 <= i < |lines| && 0 <= k < |lines[i]| ==> lines[i][k] >= 0
  }

  /**
   * `checkifcorrect(N, M, Rows, Columns)` (Solver.py; nonogram.py passes its single `N`
   * for both sizes): the checks in the order the source makes them, the first failing one
   * deciding the error.
   */
  function Validate(width: int, height: int, rows: seq<seq<int>>, cols: seq<seq<int>>): (r: Result<(), ClueError>)
    ensures r.Ok? <==> ClueTotal(rows) == ClueTotal(cols) && RowsFit(rows, width) && RowsFit(cols, height)
                       && NoneEmpty(rows) && NoneEmpty(cols) && NonNegative(rows) && NonNegative(cols)
    ensures r == Err(TotalsDiffer) <==> ClueTotal(rows) != ClueTotal(cols)
    ensures r == Err(DoesNotFit) <==> ClueTotal(rows) == ClueTotal(cols) && !(RowsFit(rows, width) && RowsFit(cols, height))
    ensures r == Err(NegativeClue) ==> NoneEmpty(rows) && NoneEmpty(cols)
  {
    if ClueTotal(rows) != ClueTotal(cols) then Err(TotalsDiffer)
    else if !RowsFit(rows, width) || !RowsFit(cols, height) then Err(DoesNotFit)
    else if !NoneEmpty(rows) || !NoneEmpty(cols) then Err(EmptyClues)
    else if !NonNegative(rows) || !NonNegative(cols) then Err(NegativeClue)
    else Ok(())
  }

  /** The number of entries equal to 1 (filled cells of a matrix line). */
  function CountOnes(x: seq<int>): nat
  {
    if x == [] then 0 else CountOnes(x[..|x| - 1]) + (if x[|x| - 1] == 1 then 1 else 0)
  }

  /**
   * Whether `row_to_clues` is inside a run after reading `x`: a 1 starts or extends a run,
   * a -1 ends it, and any other entry (the 0 of an undetermined cell) changes nothing.
   */
  function Running(x: seq<int>): bool
  {
    if x == [] then false
    else if x[|x| - 1] == 1 then true
    else if x[|x| - 1] == -1 then false
    else Running(x[..|x| - 1])
  }

  /** Adds one cell to the run in progress. */
  function Bump(u: seq<int>): (r: seq<int>)
    requires u != []
    ensures |r| == |u| && r[..|u| - 1] == u[..|u| - 1] && r[|u| - 1] == u[|u| - 1] + 1
  {
    u[..|u| - 1] + [u[|u| - 1] + 1]
  }

  /** The lengths of the runs of 1s of `x`, in order. */
  function Runs(x: seq<int>): (u: seq<int>)
    ensures Running(x) ==> u != []
  {
    if x == [] then []
    else
      var p := x[..|x| - 1];
      if x[|x| - 1] == 1 then
        if Running(p) then Bump(Runs(p)) else Runs(p) + [1]
      else Runs(p)
  }

  /** Every run read off a line is at least one cell long. */
  lemma {:induction false} RunsPositive(x: seq<int>)
    ensures forall k :: 0 <= k < |Runs(x)| ==> Runs(x)[k] >= 1
  {
    if x != [] {
      RunsPositive(x[..|x| - 1]);
    }
  }

  /** What `row_to_clues` returns: the run lengths, or `[0]` for a line without a run. */
  function RowClues(x: seq<int>): seq<int>
  {
    if Runs(x) == [] then [0] else Runs(x)
  }

  /** `row_to_clues`: the loop over `X` with the list `U`, its index `j` and the flag `running`. */
  method RowToClues(x: seq<int>) returns (u: seq<int>)
    ensures u == RowClues(x)
  {
    u := [];
    var j := 0;
    var running := false;
    for k := 0 to |x|
      invariant running == Running(x[..k])
      invariant u == Runs(x[..k])
      invariant j == if running then |u| - 1 else |u|
    {
      assert x[..k + 1][..k] == x[..k];
      if x[k] == 1 {
        if !running {
          u := u + [0];
        }
        running := true;
        u := u[j := u[j] + 1];
      }
      if x[k] == -1 {
        if running {
          j := j + 1;
        }
        running := false;
      }
    }
    assert x[..|x|] == x;
    if u == [] {
      u := [0];
    }
  }

  // ---------------------------------------------------------------------------------
  // Round trip: drawing a line from its clues and reading the clues back.

  function Blanks(n: nat): (r: seq<int>)
    ensures |r| == n && forall i :: 0 <= i < n ==> r[i] == -1
  {
    if n == 0 then [] else Blanks(n - 1) + [-1]
  }

  function Ones(n: nat): (r: seq<int>)
    ensures |r| == n && forall i :: 0 <= i < n ==> r[i] == 1
  {
    if n == 0 then [] else Ones(n - 1) + [1]
  }

  /** The gaps of a line: one before each run and one after the last, inner gaps non-empty. */
  predicate Spacing(clues: seq<nat>, gaps: seq<nat>)
  {
    |gaps| == |clues| + 1 && forall k :: 0 < k < |clues| ==> gaps[k] >= 1
  }

  /** The ±1 line with runs `clues` separated by `gaps` blanks. */
  function Draw(clues: seq<nat>, gaps: seq<nat>): (r: seq<int>)
    requires |gaps| == |clues| + 1
  {
    if clues == [] then Blanks(gaps[0])
    else Draw(clues[..|clues| - 1], gaps[..|clues|]) + Ones(clues[|clues| - 1]) + Blanks(gaps[|clues|])
  }

  /** One more entry: the step `row_to_clues` takes for it. */
  lemma RunsSnoc(s: seq<int>, v: int)
    ensures Running(s + [v]) == if v == 1 then true else if v == -1 then false else Running(s)
    ensures Runs(s + [v]) == if v != 1 then Runs(s) else if Running(s) then Bump(Runs(s)) else Runs(s) + [1]
  {
    assert (s + [v])[..|s|] == s;
  }

  lemma {:induction false} RunsBlanks(s: seq<int>, n: nat)
    ensures Runs(s + Blanks(n)) == Runs(s)
    ensures Running(s + Blanks(n)) == (n == 0 && Running(s))
  {
    if n > 0 {
      RunsBlanks(s, n - 1);
      assert s + Blanks(n) == (s + Blanks(n - 1)) + [-1];
      RunsSnoc(s + Blanks(n - 1), -1);
    } else {
      assert s + Blanks(n) == s;
    }
  }

  /** Bumping a run that ends a list of runs lengthens that last run. */
  lemma BumpLast(u: seq<int>, m: int)
    ensures Bump(u + [m]) == u + [m + 1]
  {
    assert (u + [m])[..|u|] == u;
  }

  lemma RunsOnes(s: seq<int>, n: nat)
    requires !Running(s) && n >= 1
    ensures Runs(s + Ones(n)) == Runs(s) + [n]
    ensures Running(s + Ones(n))
  {
    RunsOne(s);
    var k := 1;
    while k < n
      invariant 1 <= k <= n && Runs(s + Ones(k)) == Runs(s) + [k] && Running(s + Ones(k))
    {
      RunsOneMore(s, k);
      k := k + 1;
    }
  }

  /** A single 1 after a line that is not inside a run starts a run of one. */
  lemma RunsOne(s: seq<int>)
    requires !Running(s)
    ensures Runs(s + Ones(1)) == Runs(s) + [1] && Running(s + Ones(1))
  {
    assert s + Ones(1) == s + [1];
    RunsSnoc(s, 1);
  }

  /** One more 1 after a run of `n` lengthens that run. */
  lemma RunsOneMore(s: seq<int>, n: nat)
    requires Runs(s + Ones(n)) == Runs(s) + [n] && Running(s + Ones(n))
    ensures Runs(s + Ones(n + 1)) == Runs(s) + [n + 1]
    ensures Running(s + Ones(n + 1))
  {
    var t := s + Ones(n);
    assert s + Ones(n + 1) == t + [1] by {
      assert Ones(n + 1) == Ones(n) + [1];
    }
    RunsSnoc(t, 1);
    BumpLast(Runs(s), n);
  }

  /** A run of `c` cells and then `g` blanks after a line that is not inside a run. */
  lemma RunThenGap(d: seq<int>, c: nat, g: nat)
    requires !Running(d) && c >= 1
    ensures Runs(d + Ones(c) + Blanks(g)) == Runs(d) + [c]
    ensures Running(d + Ones(c) + Blanks(g)) == (g == 0)
  {
    RunsOnes(d, c);
    RunsBlanks(d + Ones(c), g);
  }

  lemma {:induction false} DrawRuns(clues: seq<nat>, gaps: seq<nat>)
    requires Spacing(clues, gaps) && forall k :: 0 <= k < |clues| ==> clues[k] >= 1
    ensures Runs(Draw(clues, gaps)) == clues
    ensures Running(Draw(clues, gaps)) == (clues != [] && gaps[|clues|] == 0)
  {
    if clues == [] {
      RunsBlanks([], gaps[0]);
      assert [] + Blanks(gaps[0]) == Blanks(gaps[0]);
    } else {
      var n := |clues|;
      var p := clues[..n - 1];
      DrawRuns(p, gaps[..n]);
      RunThenGap(Draw(p, gaps[..n]), clues[n - 1], gaps[n]);
      assert p + [clues[n - 1]] == clues;
    }
  }

  /** `row_to_clues` inverts drawing: the clues of a drawn line, and `[0]` for a blank line. */
  lemma RowCluesOfDraw(clues: seq<nat>, gaps: seq<nat>)
    requires Spacing(clues, gaps) && forall k :: 0 <= k < |clues| ==> clues[k] >= 1
    ensures RowClues(Draw(clues, gaps)) == if clues == [] then [0] else clues
  {
    DrawRuns(clues, gaps);
  }

  lemma DrawTwoOne()
    ensures Draw([2, 1], [2, 3, 2]) == [-1, -1, 1, 1, -1, -1, -1, 1, -1, -1]
  {
    assert Blanks(2) == [-1, -1] && Blanks(3) == [-1, -1, -1] && Ones(1) == [1] && Ones(2) == [1, 1];
    assert Draw([], [2]) == [-1, -1];
    assert Draw([2], [2, 3]) == [-1, -1, 1, 1, -1, -1, -1] by { assert [2][..0] == [] && [2, 3][..1] == [2]; }
    assert [2, 1][..1] == [2] && [2, 3, 2][..2] == [2, 3];
  }

  lemma DrawTwoOneSix()
    ensures Draw([2, 1, 6], [2, 3, 2, 3]) == [-1, -1, 1, 1, -1, -1, -1, 1, -1, -1, 1, 1, 1, 1, 1, 1, -1, -1, -1]
  {
    DrawTwoOne();
    var front := [-1, -1, 1, 1, -1, -1, -1, 1, -1, -1];
    assert [2, 1, 6][..2] == [2, 1] && [2, 3, 2, 3][..3] == [2, 3, 2];
    assert Draw([2, 1, 6], [2, 3, 2, 3]) == front + Ones(6) + Blanks(3);
    assert Ones(6) == [1, 1, 1, 1, 1, 1] && Blanks(3) == [-1, -1, -1];
  }

  lemma DrawTwoOneSixOne()
    ensures Draw([2, 1, 6, 1], [2, 3, 2, 3, 3])
         == [-1, -1, 1, 1, -1, -1, -1, 1, -1, -1, 1, 1, 1, 1, 1, 1, -1, -1, -1, 1, -1, -1, -1]
  {
    DrawTwoOneSix();
    var front := [-1, -1, 1, 1, -1, -1, -1, 1, -1, -1, 1, 1, 1, 1, 1, 1, -1, -1, -1];
    assert [2, 1, 6, 1][..3] == [2, 1, 6] && [2, 3, 2, 3, 3][..4] == [2, 3, 2, 3];
    assert Draw([2, 1, 6, 1], [2, 3, 2, 3, 3]) == front + Ones(1) + Blanks(3);
    assert Ones(1) == [1] && Blanks(3) == [-1, -1, -1];
  }

  /** The doctest of `row_to_clues`. */
  lemma RowCluesExample()
    ensures RowClues([-1, -1, 1, 1, -1, -1, -1, 1, -1, -1, 1, 1, 1, 1, 1, 1, -1, -1, -1, 1, -1, -1, -1]) == [2, 1, 6, 1]
  {
    DrawTwoOneSixOne();
    RowCluesOfDraw([2, 1, 6, 1], [2, 3, 2, 3, 3]);
  }

  lemma DrawTwoOneTight()
    ensures Draw([2, 1], [1, 2, 3]) == [-1, 1, 1, -1, -1, 1, -1, -1, -1]
  {
    assert Blanks(1) == [-1] && Blanks(2) == [-1, -1] && Blanks(3) == [-1, -1, -1] && Ones(1) == [1] && Ones(2) == [1, 1];
    assert Draw([], [1]) == [-1];
    assert Draw([2], [1, 2]) == [-1, 1, 1, -1, -1] by { assert [2][..0] == [] && [1, 2][..1] == [1]; }
    assert [2, 1][..1] == [2] && [1, 2, 3][..2] == [1, 2];
  }

  lemma DrawTwoOneThree()
    ensures Draw([2, 1, 3], [1, 2, 3, 0]) == [-1, 1, 1, -1, -1, 1, -1, -1, -1, 1, 1, 1]
  {
    DrawTwoOneTight();
    var front := [-1, 1, 1, -1, -1, 1, -1, -1, -1];
    assert [2, 1, 3][..2] == [2, 1] && [1, 2, 3, 0][..3] == [1, 2, 3];
    assert Draw([2, 1, 3], [1, 2, 3, 0]) == front + Ones(3) + Blanks(0);
    assert Ones(3) == [1, 1, 1] && Blanks(0) == [];
  }

  /** The unit test of `row_to_clues`: a line with runs 2, 1 and 3, and a line of ten blanks. */
  lemma RowCluesTest()
    ensures RowClues([-1, 1, 1, -1, -1, 1, -1, -1, -1, 1, 1, 1]) == [2, 1, 3]
    ensures RowClues([-1, -1, -1, -1, -1, -1, -1, -1, -1, -1]) == [0]
  {
    DrawTwoOneThree();
    RowCluesOfDraw([2, 1, 3], [1, 2, 3, 0]);
    assert Draw([], [10]) == Blanks(10) == [-1, -1, -1, -1, -1, -1, -1, -1, -1, -1];
    RowCluesOfDraw([], [10]);
  }

  // ---------------------------------------------------------------------------------
  // What the clues of a line say about the line.

  lemma {:induction false} SumBump(u: seq<int>)
    requires u != []
    ensures Sum(Bump(u)) == Sum(u) + 1
  {
    assert Bump(u)[..|u| - 1] == u[..|u| - 1];
  }

  lemma SumSnoc(u: seq<int>, v: int)
    ensures Sum(u + [v]) == Sum(u) + v
  {
    assert (u + [v])[..|u|] == u;
  }

  /**
   * The runs account for every 1 of the line, and the runs with a blank after each but
   * the one in progress fit in the line.
   */
  lemma {:induction false} RunsCount(x: seq<int>)
    ensures Sum(Runs(x)) == CountOnes(x)
    ensures Sum(Runs(x)) + |Runs(x)| - (if Running(x) then 1 else 0) <= |x|
  {
    if x != [] {
      var p := x[..|x| - 1];
      RunsCount(p);
      if x[|x| - 1] == 1 {
        if Running(p) {
          SumBump(Runs(p));
        } else {
          SumSnoc(Runs(p), 1);
        }
      }
    }
  }

  /** The clues `row_to_clues` reads off a line count its filled cells and fit in it. */
  lemma RowCluesFit(x: seq<int>)
    ensures Sum(RowClues(x)) == CountOnes(x)
    ensures Room(RowClues(x)) <= |x|
    ensures RowClues(x) != [] && forall k :: 0 <= k < |RowClues(x)| ==> RowClues(x)[k] >= 0
  {
    RunsCount(x);
    if Runs(x) == [] {
      assert Sum([0]) == 0 by { assert [0][..0] == []; }
    }
  }

  // ---------------------------------------------------------------------------------
  // Matrices: `check_if_correct` and `import_picture` read clues off a matrix.

  /** All lines of the matrix have the same length (what `np.array` needs for `.T`). */
  predicate IsMatrix(m: seq<seq<int>>)
  {
    forall i :: 0 <= i < |m| ==> |m[i]| == |m[0]|
  }

  function Width(m: seq<seq<int>>): nat
  {
    if m == [] then 0 else |m[0]|
  }

  /** `np.array(m).T`. */
  function Transpose(m: seq<seq<int>>): (t: seq<seq<int>>)
    requires IsMatrix(m)
    ensures |t| == Width(m) && IsMatrix(t)
    ensures forall c :: 0 <= c < |t| ==> |t[c]| == |m|
    ensures forall c, r :: 0 <= c < |t| && 0 <= r < |m| ==> t[c][r] == m[r][c]
  {
    seq(Width(m), c requires 0 <= c < Width(m) => seq(|m|, r requires 0 <= r < |m| => m[r][c]))
  }

  lemma TransposeTwice(m: seq<seq<int>>)
    requires IsMatrix(m) && Width(m) > 0
    ensures Transpose(Transpose(m)) == m
  {
    var t := Transpose(Transpose(m));
    assert |t| == |m|;
    forall r | 0 <= r < |m| ensures t[r] == m[r] {
    }
  }

  /** `[row_to_clues(x) for x in m]`. */
  function MatrixClues(m: seq<seq<int>>): (cs: seq<seq<int>>)
    ensures |cs| == |m| && forall i :: 0 <= i < |m| ==> cs[i] == RowClues(m[i])
  {
    seq(|m|, i requires 0 <= i < |m| => RowClues(m[i]))
  }

  /** `check_if_correct`: the matrix's row clues and column clues are the puzzle's. */
  predicate Matches(m: seq<seq<int>>, rows: seq<seq<int>>, cols: seq<seq<int>>)
    requires IsMatrix(m)
  {
    MatrixClues(m) == rows && MatrixClues(Transpose(m)) == cols
  }

  /** Reading a matrix against the clues is symmetric in rows and columns. */
  lemma MatchesTranspose(m: seq<seq<int>>, rows: seq<seq<int>>, cols: seq<seq<int>>)
    requires IsMatrix(m) && Width(m) > 0
    ensures Matches(m, rows, cols) <==> Matches(Transpose(m), cols, rows)
  {
    TransposeTwice(m);
  }

  /** The number of 1s of a matrix, row by row. */
  function MatrixOnes(m: seq<seq<int>>): nat
  {
    if m == [] then 0 else MatrixOnes(m[..|m| - 1]) + CountOnes(m[|m| - 1])
  }

  lemma {:induction false} ClueTotalOfMatrix(m: seq<seq<int>>)
    ensures ClueTotal(MatrixClues(m)) == MatrixOnes(m)
  {
    if m != [] {
      var p := m[..|m| - 1];
      assert MatrixClues(m)[..|m| - 1] == MatrixClues(p);
      ClueTotalOfMatrix(p);
      RowCluesFit(m[|m| - 1]);
    }
  }

  /** Appending one cell to a line adds one to its count of 1s exactly when the cell is 1. */
  lemma {:induction false} CountOnesSnoc(x: seq<int>, v: int)
    ensures CountOnes(x + [v]) == CountOnes(x) + (if v == 1 then 1 else 0)
  {
    assert (x + [v])[..|x|] == x;
  }

  /** Counting the 1s by rows or by columns gives the same number. */
  lemma {:induction false} MatrixOnesTranspose(m: seq<seq<int>>)
    requires IsMatrix(m) && Width(m) > 0
    ensures MatrixOnes(Transpose(m)) == MatrixOnes(m)
    decreases |m|
  {
    var w := Width(m);
    var last := m[|m| - 1];
    if |m| == 1 {
      ColumnsOfOneRow(m, w);
      assert m[..0] == [];
      assert Transpose(m)[..w] == Transpose(m);
      assert m[0][..w] == m[0];
    } else {
      var p := m[..|m| - 1];
      assert IsMatrix(p) && Width(p) == w;
      MatrixOnesTranspose(p);
      AppendRow(p, last, w);
      assert m == p + [last];
    }
  }

  /** The transpose of a one-row matrix, its first `k` columns counted. */
  lemma {:induction false} ColumnsOfOneRow(m: seq<seq<int>>, k: nat)
    requires |m| == 1 && k <= |m[0]|
    ensures MatrixOnes(Transpose(m)[..k]) == CountOnes(m[0][..k])
  {
    if k > 0 {
      var t := Transpose(m);
      ColumnsOfOneRow(m, k - 1);
      assert t[..k][..k - 1] == t[..k - 1];
      assert m[0][..k][..k - 1] == m[0][..k - 1];
      assert t[k - 1] == [m[0][k - 1]];
      assert CountOnes([m[0][k - 1]]) == if m[0][k - 1] == 1 then 1 else 0 by {
        assert [m[0][k - 1]][..0] == [];
      }
    }
  }

  /** Adding a row adds its 1s to the columns' count. */
  lemma AppendRow(p: seq<seq<int>>, last: seq<int>, w: nat)
    requires IsMatrix(p) && Width(p) == w && w > 0 && |last| == w
    ensures IsMatrix(p + [last]) && Width(p + [last]) == w
    ensures MatrixOnes(Transpose(p + [last])) == MatrixOnes(Transpose(p)) + CountOnes(last)
  {
    var m := p + [last];
    assert IsMatrix(m) && Width(m) == w;
    ColumnsAppend(p, last, w);
    ColumnsOfOneRow([last], w);
    assert Transpose(m)[..w] == Transpose(m);
    assert Transpose(p)[..w] == Transpose(p);
    assert last[..w] == last;
  }

  /** Column by column, the first `k` columns of `p + [last]` hold those of `p` and of `[last]`. */
  lemma {:induction false} ColumnsAppend(p: seq<seq<int>>, last: seq<int>, k: nat)
    requires IsMatrix(p) && Width(p) > 0 && |last| == Width(p) && k <= Width(p)
    ensures IsMatrix(p + [last])
    ensures MatrixOnes(Transpose(p + [last])[..k]) == MatrixOnes(Transpose(p)[..k]) + MatrixOnes(Transpose([last])[..k])
  {
    assert IsMatrix(p + [last]);
    if k > 0 {
      ColumnsAppend(p, last, k - 1);
      ColumnAppend(p, last, k - 1);
      var t, tp, tl := Transpose(p + [last]), Transpose(p), Transpose([last]);
      assert t[..k][..k - 1] == t[..k - 1];
      assert tp[..k][..k - 1] == tp[..k - 1];
      assert tl[..k][..k - 1] == tl[..k - 1];
    }
  }

  /** Column `c` of `p + [last]` holds the ones of column `c` of `p` and of `[last]`. */
  lemma ColumnAppend(p: seq<seq<int>>, last: seq<int>, c: nat)
    requires IsMatrix(p) && Width(p) > 0 && |last| == Width(p) && c < Width(p)
    ensures IsMatrix(p + [last])
    ensures CountOnes(Transpose(p + [last])[c]) == CountOnes(Transpose(p)[c]) + CountOnes(Transpose([last])[c])
  {
    var m := p + [last];
    assert IsMatrix(m);
    var t, tp, tl := Transpose(m), Transpose(p), Transpose([last]);
    assert t[c] == tp[c] + [last[c]];
    CountOnesSnoc(tp[c], last[c]);
    assert tl[c] == [last[c]];
    assert CountOnes([last[c]]) == if last[c] == 1 then 1 else 0 by {
      assert [last[c]][..0] == [];
    }
  }

  /**
   * `import_picture` feeds clues read off a picture to the constructor: those clues always
   * pass `checkifcorrect` for the picture's size.
   */
  lemma PictureCluesValid(m: seq<seq<int>>)
    requires IsMatrix(m) && |m| > 0 && Width(m) > 0
    ensures Validate(Width(m), |m|, MatrixClues(m), MatrixClues(Transpose(m))) == Ok(())
  {
    var t := Transpose(m);
    ClueTotalOfMatrix(m);
    ClueTotalOfMatrix(t);
    MatrixOnesTranspose(m);
    forall i | 0 <= i < |m| ensures Room(MatrixClues(m)[i]) <= Width(m) && MatrixClues(m)[i] != [] {
      RowCluesFit(m[i]);
    }
    forall c | 0 <= c < |t| ensures Room(MatrixClues(t)[c]) <= |m| && MatrixClues(t)[c] != [] {
      RowCluesFit(t[c]);
    }
    forall i, k | 0 <= i < |m| && 0 <= k < |MatrixClues(m)[i]| ensures MatrixClues(m)[i][k] >= 0 {
      RowCluesFit(m[i]);
    }
    forall c, k | 0 <= c < |t| && 0 <= k < |MatrixClues(t)[c]| ensures MatrixClues(t)[c][k] >= 0 {
      RowCluesFit(t[c]);
    }
  }
}
