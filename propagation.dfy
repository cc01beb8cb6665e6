/**
 * The line-narrowing passes of `solver_pass` (Nonogram/Solver.py and nonogram.py) as
 * functions on the cell sequence of one line, with the reversed view of a line
 * (`RowReversedView`) given by a direction flag, and `one_step`'s repeat-until-stable
 * loop as the fixpoint `Settle`.
 */
module Propagation {
  import opened Encoding
  import opened Transitions

  /** Labels that may follow some label of `cell` (the set built inside `solver_pass`). */
  function Image(succ: map<int, set<int>>, cell: set<int>): set<int>
  {
    set l, x | l in cell && x in Lookup(succ, l) :: x
  }

  /** A label that may follow a label of the cell is in its image. */
  lemma ImageIntro(succ: map<int, set<int>>, cell: set<int>, l: int, x: int)
    requires l in cell && x in Lookup(succ, l)
    ensures x in Image(succ, cell)
  {
  }

  /** Adding a label to a cell adds that label's successors to its image. */
  lemma ImageAdd(succ: map<int, set<int>>, cell: set<int>, l: int)
    ensures Image(succ, cell + {l}) == Image(succ, cell) + Lookup(succ, l)
  {
    forall x | x in Lookup(succ, l) ensures x in Image(succ, cell + {l}) {
      ImageIntro(succ, cell + {l}, l, x);
    }
    forall x | x in Image(succ, cell) ensures x in Image(succ, cell + {l}) {
      var l' :| l' in cell && x in Lookup(succ, l');
      ImageIntro(succ, cell + {l}, l', x);
    }
  }

  /** The image of a one-label cell. */
  lemma ImageOfOne(succ: map<int, set<int>>, a: int)
    ensures Image(succ, {a}) == Lookup(succ, a)
  {
    assert Image(succ, {}) == {};
    ImageAdd(succ, {}, a);
    assert {} + {a} == {a};
  }

  /** The image of a two-label cell. */
  lemma ImageOfTwo(succ: map<int, set<int>>, a: int, b: int)
    ensures Image(succ, {a, b}) == Lookup(succ, a) + Lookup(succ, b)
  {
    ImageOfOne(succ, a);
    ImageAdd(succ, {a}, b);
    assert {a} + {b} == {a, b};
  }

  /** The image of a three-label cell. */
  lemma ImageOfThree(succ: map<int, set<int>>, a: int, b: int, c: int)
    ensures Image(succ, {a, b, c}) == Lookup(succ, a) + Lookup(succ, b) + Lookup(succ, c)
  {
    ImageOfTwo(succ, a, b);
    ImageAdd(succ, {a, b}, c);
    assert {a, b} + {c} == {a, b, c};
  }

  /** The image of a four-label cell. */
  lemma ImageOfFour(succ: map<int, set<int>>, a: int, b: int, c: int, d: int)
    ensures Image(succ, {a, b, c, d}) == Lookup(succ, a) + Lookup(succ, b) + Lookup(succ, c) + Lookup(succ, d)
  {
    ImageOfThree(succ, a, b, c);
    ImageAdd(succ, {a, b, c}, d);
    assert {a, b, c} + {d} == {a, b, c, d};
  }

  /** The cell before position `|done|` once `done` cells are narrowed: `seed` at the start. */
  function Previous(done: seq<set<int>>, seed: set<int>): set<int>
  {
    if done == [] then seed else done[|done| - 1]
  }

  /**
   * One left-to-right pass: each cell is intersected with the image of the cell before it,
   * already narrowed, and the first one with the image of `seed`.
   */
  function Pass(cells: seq<set<int>>, seed: set<int>, succ: map<int, set<int>>): (r: seq<set<int>>)
    ensures |r| == |cells|
    ensures forall i :: 0 <= i < |r| ==> r[i] <= cells[i]
  {
    if cells == [] then []
    else
      var done := Pass(cells[..|cells| - 1], seed, succ);
      done + [cells[|cells| - 1] * Image(succ, Previous(done, seed))]
  }

  /**
   * `r` is `cells` with each cell cut down to what may follow the cell before it in `r`
   * (the first cell to what may follow `seed`).
   */
  ghost predicate Narrowed(r: seq<set<int>>, cells: seq<set<int>>, seed: set<int>, succ: map<int, set<int>>)
  {
    |r| == |cells| &&
    (|r| > 0 ==> r[0] == cells[0] * Image(succ, seed)) &&
    forall i :: 0 < i < |r| ==> r[i] == cells[i] * Image(succ, r[i - 1])
  }

  /** Every cell after a pass is its old value cut down to what may follow its predecessor. */
  lemma {:induction false} PassNarrows(cells: seq<set<int>>, seed: set<int>, succ: map<int, set<int>>)
    ensures Narrowed(Pass(cells, seed, succ), cells, seed, succ)
  {
    if cells != [] {
      var p := cells[..|cells| - 1];
      PassNarrows(p, seed, succ);
      var r := Pass(cells, seed, succ);
      var done := Pass(p, seed, succ);
      assert r == done + [cells[|cells| - 1] * Image(succ, Previous(done, seed))];
      forall i | 0 < i < |cells| ensures r[i] == cells[i] * Image(succ, r[i - 1])
      {
        assert r[i - 1] == done[i - 1];
        if i < |cells| - 1 {
          assert r[i] == done[i] && cells[i] == p[i];
        }
      }
      if |cells| > 1 {
        assert r[0] == done[0] && cells[0] == p[0];
      }
    }
  }

  /** A pass is idempotent: running it again on its own output changes nothing. */
  lemma {:induction false} PassIdempotent(cells: seq<set<int>>, seed: set<int>, succ: map<int, set<int>>)
    ensures Pass(Pass(cells, seed, succ), seed, succ) == Pass(cells, seed, succ)
  {
    if cells != [] {
      var p := cells[..|cells| - 1];
      var r := Pass(cells, seed, succ);
      var done := Pass(p, seed, succ);
      PassIdempotent(p, seed, succ);
      assert r[..|r| - 1] == done;
      var again := Pass(r, seed, succ);
      assert again == Pass(done, seed, succ) + [r[|r| - 1] * Image(succ, Previous(Pass(done, seed, succ), seed))];
    }
  }

  /** `w` is a label walk of the line: one label per cell, each allowed to follow the last. */
  ghost predicate Walk(w: seq<int>, seed: set<int>, succ: map<int, set<int>>)
  {
    (|w| > 0 ==> w[0] in Image(succ, seed)) &&
    forall i :: 0 <= i < |w| - 1 ==> w[i + 1] in Lookup(succ, w[i])
  }

  /** The labels of `w` lie in the cells, position by position. */
  ghost predicate Within(w: seq<int>, cells: seq<set<int>>)
  {
    |w| == |cells| && forall i :: 0 <= i < |w| ==> w[i] in cells[i]
  }

  /** A pass never removes a label that some walk through the cells uses. */
  lemma {:induction false} PassKeepsWalks(cells: seq<set<int>>, seed: set<int>, succ: map<int, set<int>>, w: seq<int>)
    requires Walk(w, seed, succ) && Within(w, cells)
    ensures Within(w, Pass(cells, seed, succ))
  {
    if cells != [] {
      var n := |cells|;
      var p := cells[..n - 1];
      var done := Pass(p, seed, succ);
      var v := w[..n - 1];
      assert Walk(v, seed, succ) by {
        forall i | 0 <= i < |v| - 1 ensures v[i + 1] in Lookup(succ, v[i]) {
          assert v[i] == w[i] && v[i + 1] == w[i + 1];
        }
      }
      PassKeepsWalks(p, seed, succ, v);
      var r := Pass(cells, seed, succ);
      assert r == done + [cells[n - 1] * Image(succ, Previous(done, seed))];
      if n > 1 {
        assert w[n - 2] == v[n - 2] && w[n - 2] in Previous(done, seed);
        ImageIntro(succ, Previous(done, seed), w[n - 2], w[n - 1]);
      }
      assert w[n - 1] in Image(succ, Previous(done, seed));
      forall i | 0 <= i < n ensures w[i] in r[i] {
        if i < n - 1 { assert w[i] == v[i] && r[i] == done[i]; }
      }
    }
  }

  /** What a line keeps besides its cells: `successors`, `predecessors`, `first`, `last`. */
  datatype Shape = Shape(succ: map<int, set<int>>, pred: map<int, set<int>>, first: set<int>, last: set<int>)

  /**
   * The shape `Row(width, clues)` builds: the successor map of the naming, the successor
   * map of the reversed naming, and the first and last labels as singletons.
   */
  function ShapeOf(clues: seq<int>): Shape
  {
    var n := Naming(clues);
    NamingLength(clues);
    Shape(Successors(n), Successors(Reverse(n)), {n[0]}, {n[|n| - 1]})
  }

  /**
   * One pass in either direction.  Backward, the line is read through its reversed view:
   * cells from last to first, `last` as the seed and `predecessors` as the successor map.
   */
  function Directed(cells: seq<set<int>>, backward: bool, sh: Shape): (r: seq<set<int>>)
    ensures |r| == |cells|
    ensures forall i :: 0 <= i < |r| ==> r[i] <= cells[i]
  {
    if backward then Reverse(Pass(Reverse(cells), sh.last, sh.pred)) else Pass(cells, sh.first, sh.succ)
  }

  /** One iteration of `one_step`'s loop body: a forward pass, then a backward pass. */
  function Round(cells: seq<set<int>>, sh: Shape): (r: seq<set<int>>)
    ensures |r| == |cells|
    ensures forall i :: 0 <= i < |r| ==> r[i] <= cells[i]
  {
    Directed(Directed(cells, false, sh), true, sh)
  }

  /** The number of candidate labels left on a line. */
  function Total(cells: seq<set<int>>): nat
  {
    if cells == [] then 0 else Total(cells[..|cells| - 1]) + |cells[|cells| - 1]|
  }

  /** Narrowing cells lowers the candidate count, strictly unless nothing changed. */
  lemma {:induction false} TotalShrinks(small: seq<set<int>>, big: seq<set<int>>)
    requires |small| == |big|
    requires forall i :: 0 <= i < |small| ==> small[i] <= big[i]
    ensures Total(small) <= Total(big)
    ensures small != big ==> Total(small) < Total(big)
  {
    if small != [] {
      var n := |small|;
      var a, b := small[n - 1], big[n - 1];
      TotalShrinks(small[..n - 1], big[..n - 1]);
      assert b == a + (b - a);
      if a != b {
        assert b - a != {};
      }
      if small[..n - 1] == big[..n - 1] && a == b {
        assert small == small[..n - 1] + [a];
        assert big == big[..n - 1] + [b];
      }
    }
  }

  /**
   * `one_step`: rounds are repeated until one leaves the line unchanged.  The result lies
   * cell by cell within the input.
   */
  function Settle(cells: seq<set<int>>, sh: Shape): (r: seq<set<int>>)
    ensures |r| == |cells|
    ensures forall i :: 0 <= i < |r| ==> r[i] <= cells[i]
    decreases Total(cells)
  {
    var next := Round(cells, sh);
    if next == cells then next
    else
      TotalShrinks(next, cells);
      Settle(next, sh)
  }

  /** What `one_step` leaves is a fixpoint of the round: another round changes nothing. */
  lemma {:induction false} SettleFixpoint(cells: seq<set<int>>, sh: Shape)
    ensures Round(Settle(cells, sh), sh) == Settle(cells, sh)
    decreases Total(cells)
  {
    var next := Round(cells, sh);
    if next != cells {
      TotalShrinks(next, cells);
      SettleFixpoint(next, sh);
    }
  }

  /** A placement of a line's labels that both the forward and the backward pass admit. */
  ghost predicate LineWalk(w: seq<int>, sh: Shape)
  {
    Walk(w, sh.first, sh.succ) && Walk(Reverse(w), sh.last, sh.pred)
  }

  /** Neither direction removes a label of a placement the line admits. */
  lemma DirectedKeepsWalks(cells: seq<set<int>>, backward: bool, sh: Shape, w: seq<int>)
    requires LineWalk(w, sh) && Within(w, cells)
    ensures Within(w, Directed(cells, backward, sh))
  {
    if backward {
      var rc := Reverse(cells);
      var rw := Reverse(w);
      assert Within(rw, rc);
      PassKeepsWalks(rc, sh.last, sh.pred, rw);
      var p := Pass(rc, sh.last, sh.pred);
      forall i | 0 <= i < |w| ensures w[i] in Reverse(p)[i] {
        assert rw[|w| - 1 - i] == w[i];
      }
    } else {
      PassKeepsWalks(cells, sh.first, sh.succ, w);
    }
  }

  /** `one_step` never removes a label of a placement the line admits. */
  lemma {:induction false} SettleKeepsWalks(cells: seq<set<int>>, sh: Shape, w: seq<int>)
    requires LineWalk(w, sh) && Within(w, cells)
    ensures Within(w, Settle(cells, sh))
    decreases Total(cells)
  {
    DirectedKeepsWalks(cells, false, sh, w);
    DirectedKeepsWalks(Directed(cells, false, sh), true, sh, w);
    var next := Round(cells, sh);
    if next != cells {
      TotalShrinks(next, cells);
      SettleKeepsWalks(next, sh, w);
    }
  }

  /** A pass in either direction is idempotent. */
  lemma DirectedIdempotent(cells: seq<set<int>>, backward: bool, sh: Shape)
    ensures Directed(Directed(cells, backward, sh), backward, sh) == Directed(cells, backward, sh)
  {
    if backward {
      var p := Pass(Reverse(cells), sh.last, sh.pred);
      ReverseReverse(p);
      PassIdempotent(Reverse(cells), sh.last, sh.pred);
    } else {
      PassIdempotent(cells, sh.first, sh.succ);
    }
  }

  /** A pass over four cells, given each narrowed cell. */
  lemma PassOfFour(c0: set<int>, c1: set<int>, c2: set<int>, c3: set<int>, seed: set<int>,
                   succ: map<int, set<int>>, r0: set<int>, r1: set<int>, r2: set<int>, r3: set<int>)
    requires r0 == c0 * Image(succ, seed) && r1 == c1 * Image(succ, r0)
    requires r2 == c2 * Image(succ, r1) && r3 == c3 * Image(succ, r2)
    ensures Pass([c0, c1, c2, c3], seed, succ) == [r0, r1, r2, r3]
  {
    PassNarrows([c0, c1, c2, c3], seed, succ);
  }

  /** A pass over three cells, given each narrowed cell. */
  lemma PassOfThree(c0: set<int>, c1: set<int>, c2: set<int>, seed: set<int>,
                    succ: map<int, set<int>>, r0: set<int>, r1: set<int>, r2: set<int>)
    requires r0 == c0 * Image(succ, seed) && r1 == c1 * Image(succ, r0)
    requires r2 == c2 * Image(succ, r1)
    ensures Pass([c0, c1, c2], seed, succ) == [r0, r1, r2]
  {
    PassNarrows([c0, c1, c2], seed, succ);
  }
}
