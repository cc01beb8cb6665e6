/**
 * The pictures of a puzzle and the label placements the solver reasons about are one thing
 * seen two ways: every ±1 picture whose clues are the puzzle's gives a placement whose signs
 * are the picture, and every placement of checked clues gives such a picture back.  So what
 * `check_uniqueness` and `uniquisation` promise about placements holds for the pictures
 * `check_if_correct` accepts (Nonogram/Solver.py).
 */
module Pictures {
  import opened Encoding
  import opened Cells
  import opened Propagation
  import opened Grid
  import opened Clues
  import opened Walks
  import opened Puzzle

  /** A picture of the puzzle: a ±1 matrix, `|rows|` by `|cols|`, that `check_if_correct` accepts. */
  predicate Drawing(m: seq<seq<int>>, rows: seq<seq<int>>, cols: seq<seq<int>>)
  {
    |m| == |rows| && (forall r :: 0 <= r < |m| ==> |m[r]| == |cols| && TwoTone(m[r])) &&
    IsMatrix(m) && Matches(m, rows, cols)
  }

  /** The signs of a line placement for each line. */
  function Signs(walks: seq<seq<int>>): (m: seq<seq<int>>)
    ensures |m| == |walks| && forall r :: 0 <= r < |walks| ==> m[r] == Shading(walks[r])
  {
    seq(|walks|, r requires 0 <= r < |walks| => Shading(walks[r]))
  }

  /** No cell of a fresh line holds the label 0: `cell_naming` counts from 1. */
  lemma {:induction false} LabelNonzero(clues: seq<int>, l: int)
    requires l in Labels(clues)
    ensures l != 0
  {
    NamingBounds(clues);
    var i :| 0 <= i < |Naming(clues)| && Naming(clues)[i] == l;
  }

  /** A label walk for each ±1 line, of that line's own clues, whose signs are the line. */
  lemma {:induction false} WalksOfLines(xs: seq<seq<int>>) returns (ws: seq<seq<int>>)
    requires forall i :: 0 <= i < |xs| ==> TwoTone(xs[i])
    ensures |ws| == |xs|
    ensures forall i :: 0 <= i < |xs| ==> LineWalk(ws[i], ShapeOf(RowClues(xs[i]))) && Shading(ws[i]) == xs[i]
    ensures forall i, k :: 0 <= i < |xs| && 0 <= k < |ws[i]| ==> ws[i][k] in Labels(RowClues(xs[i]))
  {
    if xs == [] {
      ws := [];
    } else {
      var n := |xs| - 1;
      var front := WalksOfLines(xs[..n]);
      var w := WalkOfLine(RowClues(xs[n]), xs[n]);
      ws := WalksSnoc(xs, front, w);
    }
  }

  /** The step of `WalksOfLines`: the walks of all lines but the last, and a walk of the last. */
  lemma {:induction false} WalksSnoc(xs: seq<seq<int>>, front: seq<seq<int>>, w: seq<int>) returns (ws: seq<seq<int>>)
    requires |xs| > 0 && |front| == |xs| - 1
    requires forall i :: 0 <= i < |front| ==> LineWalk(front[i], ShapeOf(RowClues(xs[i]))) && Shading(front[i]) == xs[i]
    requires forall i, k :: 0 <= i < |front| && 0 <= k < |front[i]| ==> front[i][k] in Labels(RowClues(xs[i]))
    requires LineWalk(w, ShapeOf(RowClues(xs[|front|]))) && Shading(w) == xs[|front|]
    requires forall k :: 0 <= k < |w| ==> w[k] in Labels(RowClues(xs[|front|]))
    ensures |ws| == |xs|
    ensures forall i :: 0 <= i < |xs| ==> LineWalk(ws[i], ShapeOf(RowClues(xs[i]))) && Shading(ws[i]) == xs[i]
    ensures forall i, k :: 0 <= i < |xs| && 0 <= k < |ws[i]| ==> ws[i][k] in Labels(RowClues(xs[i]))
  {
    ws := front + [w];
  }

  /** The columns of a ±1 matrix are ±1 lines. */
  lemma {:induction false} ColumnsTwoTone(m: seq<seq<int>>)
    requires IsMatrix(m) && forall r :: 0 <= r < |m| ==> TwoTone(m[r])
    ensures forall c :: 0 <= c < |Transpose(m)| ==> TwoTone(Transpose(m)[c])
  {
    var t := Transpose(m);
    forall c | 0 <= c < |t| ensures TwoTone(t[c]) {
      forall r | 0 <= r < |t[c]| ensures t[c][r] == 1 || t[c][r] == -1 {
        assert TwoTone(m[r]) && t[c][r] == m[r][c];
      }
    }
  }

  /** Lines with the clues `clues`, `n` cells each, are shown by walks that fit fresh lines. */
  lemma {:induction false} WalksFit(xs: seq<seq<int>>, clues: seq<seq<int>>, n: nat, ws: seq<seq<int>>)
    requires |ws| == |xs| && MatrixClues(xs) == clues
    requires forall i :: 0 <= i < |xs| ==> |xs[i]| == n
    requires forall i :: 0 <= i < |xs| ==> LineWalk(ws[i], ShapeOf(RowClues(xs[i]))) && Shading(ws[i]) == xs[i]
    requires forall i, k :: 0 <= i < |xs| && 0 <= k < |ws[i]| ==> ws[i][k] in Labels(RowClues(xs[i]))
    ensures forall i :: 0 <= i < |xs| ==> LineWalk(ws[i], Shapes(clues)[i]) && Within(ws[i], FreshLine(n, clues[i]))
  {
    forall i | 0 <= i < |xs| ensures LineWalk(ws[i], Shapes(clues)[i]) && Within(ws[i], FreshLine(n, clues[i])) {
      assert RowClues(xs[i]) == clues[i];
      assert |ws[i]| == |Shading(ws[i])| == n;
    }
  }

  /** Row walks and column walks whose signs are a matrix and its columns agree on every cell. */
  lemma {:induction false} WalksAgree(m: seq<seq<int>>, rows: seq<seq<int>>, cols: seq<seq<int>>, rowWalks: seq<seq<int>>, colWalks: seq<seq<int>>)
    requires IsMatrix(m) && |m| == |rowWalks| == |rows| && |Transpose(m)| == |colWalks| == |cols|
    requires forall r :: 0 <= r < |rows| ==> Shading(rowWalks[r]) == m[r]
    requires forall c :: 0 <= c < |cols| ==> Shading(colWalks[c]) == Transpose(m)[c]
    requires forall r, k :: 0 <= r < |rows| && 0 <= k < |rowWalks[r]| ==> rowWalks[r][k] in Labels(rows[r])
    requires forall c, k :: 0 <= c < |cols| && 0 <= k < |colWalks[c]| ==> colWalks[c][k] in Labels(cols[c])
    ensures forall r, c :: 0 <= r < |rows| && 0 <= c < |cols| && c < |rowWalks[r]| && r < |colWalks[c]| ==>
      (rowWalks[r][c] > 0 <==> colWalks[c][r] > 0) && (rowWalks[r][c] < 0 <==> colWalks[c][r] < 0)
  {
    var t := Transpose(m);
    forall r, c | 0 <= r < |rows| && 0 <= c < |cols| && c < |rowWalks[r]| && r < |colWalks[c]|
      ensures (rowWalks[r][c] > 0 <==> colWalks[c][r] > 0) && (rowWalks[r][c] < 0 <==> colWalks[c][r] < 0)
    {
      assert Shading(rowWalks[r])[c] == m[r][c] == t[c][r] == Shading(colWalks[c])[r];
      LabelNonzero(rows[r], rowWalks[r][c]);
      LabelNonzero(cols[c], colWalks[c][r]);
    }
  }

  /**
   * Every picture of the puzzle is a placement of its labels: the walks of its rows and of
   * its columns fit the fresh board, agree cell by cell, and their signs are the picture.
   */
  lemma {:induction false} PictureSolution(rows: seq<seq<int>>, cols: seq<seq<int>>, m: seq<seq<int>>)
    returns (rowWalks: seq<seq<int>>, colWalks: seq<seq<int>>)
    requires Drawing(m, rows, cols)
    ensures Solution(rows, cols, rowWalks, colWalks)
    ensures forall r :: 0 <= r < |rows| ==> Shading(rowWalks[r]) == m[r]
    ensures forall c :: 0 <= c < |cols| ==> Shading(colWalks[c]) == Transpose(m)[c]
  {
    var t := Transpose(m);
    ColumnsTwoTone(m);
    rowWalks := WalksOfLines(m);
    colWalks := WalksOfLines(t);
    WalksFit(m, rows, |cols|, rowWalks);
    WalksFit(t, cols, |rows|, colWalks);
    forall r, k | 0 <= r < |rows| && 0 <= k < |rowWalks[r]| ensures rowWalks[r][k] in Labels(rows[r]) {
      assert RowClues(m[r]) == MatrixClues(m)[r];
    }
    forall c, k | 0 <= c < |cols| && 0 <= k < |colWalks[c]| ensures colWalks[c][k] in Labels(cols[c]) {
      assert RowClues(t[c]) == MatrixClues(t)[c];
    }
    WalksAgree(m, rows, cols, rowWalks, colWalks);
  }

  /** What a placement says line by line: walks inside fresh lines, and agreeing signs. */
  lemma {:induction false} SolutionLines(rows: seq<seq<int>>, cols: seq<seq<int>>, rowWalks: seq<seq<int>>, colWalks: seq<seq<int>>)
    requires Solution(rows, cols, rowWalks, colWalks)
    ensures |rowWalks| == |rows| && |colWalks| == |cols|
    ensures forall r :: 0 <= r < |rows| ==> LineWalk(rowWalks[r], ShapeOf(rows[r])) && |rowWalks[r]| == |cols|
    ensures forall c :: 0 <= c < |cols| ==> LineWalk(colWalks[c], ShapeOf(cols[c])) && |colWalks[c]| == |rows|
    ensures forall r, c :: 0 <= r < |rows| && 0 <= c < |cols| ==> (rowWalks[r][c] > 0 <==> colWalks[c][r] > 0)
  {
    var b := Start(rows, cols);
    assert forall r :: 0 <= r < |rows| ==> Within(rowWalks[r], b.rows[r]) && LineWalk(rowWalks[r], Shapes(rows)[r]);
    assert forall c :: 0 <= c < |cols| ==> Within(colWalks[c], b.cols[c]) && LineWalk(colWalks[c], Shapes(cols)[c]);
  }

  /** The signs of line walks of lines that fit read back as the lines' clues. */
  lemma {:induction false} SignsRead(clues: seq<seq<int>>, n: nat, ws: seq<seq<int>>)
    requires |ws| == |clues| && RowsFit(clues, n)
    requires forall i :: 0 <= i < |clues| ==> Canonical(clues[i])
    requires forall i :: 0 <= i < |clues| ==> LineWalk(ws[i], ShapeOf(clues[i])) && |ws[i]| == n
    ensures MatrixClues(Signs(ws)) == clues
  {
    forall i | 0 <= i < |clues| ensures MatrixClues(Signs(ws))[i] == clues[i] {
      LineOfWalk(clues[i], ws[i]);
    }
  }

  /** The rows' signs of a placement read as a matrix whose columns are the columns' signs. */
  lemma {:induction false} SolutionShape(rows: seq<seq<int>>, cols: seq<seq<int>>, rowWalks: seq<seq<int>>, colWalks: seq<seq<int>>)
    requires rows != [] && |rowWalks| == |rows| && |colWalks| == |cols|
    requires forall r :: 0 <= r < |rows| ==> |rowWalks[r]| == |cols|
    requires forall c :: 0 <= c < |cols| ==> |colWalks[c]| == |rows|
    requires forall r, c :: 0 <= r < |rows| && 0 <= c < |cols| ==> (rowWalks[r][c] > 0 <==> colWalks[c][r] > 0)
    ensures var m := Signs(rowWalks);
      IsMatrix(m) && Width(m) == |cols| && Transpose(m) == Signs(colWalks) &&
      forall r :: 0 <= r < |m| ==> |m[r]| == |cols| && TwoTone(m[r])
  {
    var m := Signs(rowWalks);
    var t := Transpose(m);
    forall c | 0 <= c < |cols| ensures t[c] == Signs(colWalks)[c] {
      forall r | 0 <= r < |rows| ensures t[c][r] == Signs(colWalks)[c][r] {
        assert t[c][r] == m[r][c] == Tone(rowWalks[r][c]);
      }
    }
  }

  /**
   * Every placement of checked clues is a picture of the puzzle: its rows' signs have the
   * row clues and its columns' signs, the same picture's columns, the column clues.
   */
  lemma {:induction false} SolutionPicture(rows: seq<seq<int>>, cols: seq<seq<int>>, rowWalks: seq<seq<int>>, colWalks: seq<seq<int>>)
    requires Validate(|cols|, |rows|, rows, cols).Ok?
    requires forall r :: 0 <= r < |rows| ==> Canonical(rows[r])
    requires forall c :: 0 <= c < |cols| ==> Canonical(cols[c])
    requires Solution(rows, cols, rowWalks, colWalks)
    ensures Drawing(Signs(rowWalks), rows, cols)
    ensures Transpose(Signs(rowWalks)) == Signs(colWalks)
  {
    SolutionLines(rows, cols, rowWalks, colWalks);
    SignsDrawing(rows, cols, rowWalks, colWalks);
  }

  /** Line walks of fitting, canonical clues that agree cell by cell draw a picture of the puzzle. */
  lemma {:induction false} SignsDrawing(rows: seq<seq<int>>, cols: seq<seq<int>>, rowWalks: seq<seq<int>>, colWalks: seq<seq<int>>)
    requires rows != [] && RowsFit(rows, |cols|) && RowsFit(cols, |rows|)
    requires forall r :: 0 <= r < |rows| ==> Canonical(rows[r])
    requires forall c :: 0 <= c < |cols| ==> Canonical(cols[c])
    requires |rowWalks| == |rows| && |colWalks| == |cols|
    requires forall r :: 0 <= r < |rows| ==> LineWalk(rowWalks[r], ShapeOf(rows[r])) && |rowWalks[r]| == |cols|
    requires forall c :: 0 <= c < |cols| ==> LineWalk(colWalks[c], ShapeOf(cols[c])) && |colWalks[c]| == |rows|
    requires forall r, c :: 0 <= r < |rows| && 0 <= c < |cols| ==> (rowWalks[r][c] > 0 <==> colWalks[c][r] > 0)
    ensures Drawing(Signs(rowWalks), rows, cols)
    ensures Transpose(Signs(rowWalks)) == Signs(colWalks)
  {
    SolutionShape(rows, cols, rowWalks, colWalks);
    SignsRead(rows, |cols|, rowWalks);
    SignsRead(cols, |rows|, colWalks);
  }

  /**
   * What `check_uniqueness` promises, for pictures: when the solved rendering has no '/',
   * every picture of the puzzle is filled exactly where the rendering shows '#'.
   */
  lemma {:induction false} DeterminedPicture(v: Version, rows: seq<seq<int>>, cols: seq<seq<int>>, m: seq<seq<int>>, r: int, c: int)
    requires Drawing(m, rows, cols)
    requires Determined(Picture(Outcome(v, rows, cols).board.rows))
    requires 0 <= r < |rows| && 0 <= c < |cols|
    ensures var b := Outcome(v, rows, cols).board;
      r < |b.rows| && c < |b.rows[r]| && (m[r][c] == 1 <==> CellToStr(b.rows[r][c]) == '#')
  {
    var rowWalks, colWalks := PictureSolution(rows, cols, m);
    DeterminedMeansUnique(v, rows, cols, rowWalks, colWalks, r, c);
    assert Shading(rowWalks[r])[c] == m[r][c];
  }

  /** A puzzle whose solved rendering has no '/' has at most one picture. */
  lemma {:induction false} PicturesAgree(v: Version, rows: seq<seq<int>>, cols: seq<seq<int>>, m: seq<seq<int>>, other: seq<seq<int>>)
    requires Drawing(m, rows, cols) && Drawing(other, rows, cols)
    requires Determined(Picture(Outcome(v, rows, cols).board.rows))
    ensures m == other
  {
    forall r, c | 0 <= r < |rows| && 0 <= c < |cols| ensures m[r][c] == 1 <==> other[r][c] == 1 {
      DeterminedPicture(v, rows, cols, m, r, c);
      DeterminedPicture(v, rows, cols, other, r, c);
    }
    SameFilled(m, other, |cols|);
  }

  /** Two ±1 matrices of one shape that fill the same cells are equal. */
  lemma {:induction false} SameFilled(m: seq<seq<int>>, other: seq<seq<int>>, width: nat)
    requires |m| == |other|
    requires forall r :: 0 <= r < |m| ==> |m[r]| == |other[r]| == width && TwoTone(m[r]) && TwoTone(other[r])
    requires forall r, c :: 0 <= r < |m| && 0 <= c < width ==> (m[r][c] == 1 <==> other[r][c] == 1)
    ensures m == other
  {
    forall r | 0 <= r < |m| ensures m[r] == other[r] {
      forall c | 0 <= c < width ensures m[r][c] == other[r][c] {
        assert TwoTone(m[r]) && TwoTone(other[r]);
      }
    }
  }

  /**
   * What a forcing cell promises, for pictures: every picture that fills cell (i, j) is
   * filled exactly where the rendering shows '#' once (i, j) is forced and the puzzle solved again.
   */
  lemma {:induction false} ForcingPicture(v: Version, rows: seq<seq<int>>, cols: seq<seq<int>>, i: int, j: int,
                       m: seq<seq<int>>, r: int, c: int)
    requires Forcing(v, rows, cols, i, j) && 0 <= i < |rows| && 0 <= j < |cols|
    requires Drawing(m, rows, cols) && m[i][j] == 1
    requires 0 <= r < |rows| && 0 <= c < |cols|
    ensures var f := Solve(Force(Outcome(v, rows, cols).board, i, j, true), Shapes(rows), Shapes(cols), Cap(v)).board;
      r < |f.rows| && c < |f.rows[r]| && (m[r][c] == 1 <==> CellToStr(f.rows[r][c]) == '#')
  {
    var rowWalks, colWalks := PictureSolution(rows, cols, m);
    assert Shading(rowWalks[i])[j] == m[i][j];
    ForcingMeansUnique(v, rows, cols, i, j, rowWalks, colWalks, r, c);
    assert Shading(rowWalks[r])[c] == m[r][c];
  }

  /** Two pictures that fill a forcing cell are the same picture. */
  lemma {:induction false} ForcedPicturesAgree(v: Version, rows: seq<seq<int>>, cols: seq<seq<int>>, i: int, j: int,
                            m: seq<seq<int>>, other: seq<seq<int>>)
    requires Forcing(v, rows, cols, i, j) && 0 <= i < |rows| && 0 <= j < |cols|
    requires Drawing(m, rows, cols) && m[i][j] == 1
    requires Drawing(other, rows, cols) && other[i][j] == 1
    ensures m == other
  {
    forall r, c | 0 <= r < |rows| && 0 <= c < |cols| ensures m[r][c] == 1 <==> other[r][c] == 1 {
      ForcingPicture(v, rows, cols, i, j, m, r, c);
      ForcingPicture(v, rows, cols, i, j, other, r, c);
    }
    SameFilled(m, other, |cols|);
  }

  /** Every entry 1 or -1 of the matrix `solve` leaves is that entry of every picture of the puzzle. */
  lemma {:induction false} SolvedMatrixShows(v: Version, rows: seq<seq<int>>, cols: seq<seq<int>>, m: seq<seq<int>>, r: int, c: int)
    requires Drawing(m, rows, cols)
    requires 0 <= r < |rows| && 0 <= c < |cols|
    ensures var s := SignMatrix(Outcome(v, rows, cols).board.rows);
      r < |s| && c < |s[r]| && (s[r][c] != 0 ==> s[r][c] == m[r][c])
  {
    var rowWalks, colWalks := PictureSolution(rows, cols, m);
    StartFits(rows, cols);
    SolvedMatrixAgrees(Start(rows, cols), Shapes(rows), Shapes(cols), Cap(v), rowWalks, colWalks, r, c);
    assert Shading(rowWalks[r])[c] == m[r][c];
  }
}
