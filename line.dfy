/**
 * One line of the puzzle (`Row` in Nonogram/Solver.py and nonogram.py): an array of
 * candidate-label cells that the passes narrow in place, plus the constant successor and
 * predecessor maps and the `first`/`last` singletons built from the clue list.
 */
module Line {
  import opened Encoding
  import opened Transitions
  import opened Cells
  import opened Propagation

  /** The line read in pass order: reversed for the backward pass. */
  function View(cells: seq<set<int>>, backward: bool): (v: seq<set<int>>)
    ensures |v| == |cells|
  {
    if backward then Reverse(cells) else cells
  }

  /** Where the `j`-th cell in pass order sits in the line. */
  function Slot(n: nat, backward: bool, j: int): (p: int)
    requires 0 <= j < n
    ensures 0 <= p < n
  {
    if backward then n - 1 - j else j
  }

  /** The view at position `k` is the cell at slot `k`, and writing that cell writes the view there. */
  lemma ViewUpdate(s: seq<set<int>>, backward: bool, k: int, v: set<int>)
    requires 0 <= k < |s|
    ensures View(s, backward)[k] == s[Slot(|s|, backward, k)]
    ensures View(s[Slot(|s|, backward, k) := v], backward) == View(s, backward)[k := v]
  {
    if backward {
      var t := s[Slot(|s|, backward, k) := v];
      assert forall i :: 0 <= i < |s| ==> View(t, backward)[i] == View(s, backward)[k := v][i];
    }
  }

  /** The first `k + 1` entries of `a` then the rest of `b`: one more entry of `a` than with `k`. */
  lemma Splice(a: seq<set<int>>, b: seq<set<int>>, k: int)
    requires |a| == |b| && 0 <= k < |a|
    ensures a[..k + 1] + b[k + 1..] == (a[..k] + b[k..])[k := a[k]]
  {
    var x, y := a[..k + 1] + b[k + 1..], (a[..k] + b[k..])[k := a[k]];
    assert |x| == |y|;
    forall i | 0 <= i < |x| ensures x[i] == y[i]
    {
      if i < k {
        assert x[i] == a[i] && y[i] == a[i];
      } else if i > k {
        assert x[i] == b[i] && y[i] == b[i];
      }
    }
  }

  /** The `k`-th cell after a pass: its old value cut down to what may follow the cell before it. */
  lemma PassAt(cells: seq<set<int>>, seed: set<int>, succ: map<int, set<int>>, k: int)
    requires 0 <= k < |cells|
    ensures var r := Pass(cells, seed, succ);
      r[k] == cells[k] * Image(succ, if k == 0 then seed else r[k - 1])
  {
    PassNarrows(cells, seed, succ);
  }

  /** Viewing a view in the same direction gives the line back. */
  lemma ViewView(s: seq<set<int>>, backward: bool)
    ensures View(View(s, backward), backward) == s
  {
    if backward {
      ReverseReverse(s);
    }
  }

  class Row {
    const cells: array<set<int>>
    const successors: map<int, set<int>>
    const predecessors: map<int, set<int>>
    const first: set<int>
    const last: set<int>

    function Shape(): Shape
    {
      Propagation.Shape(successors, predecessors, first, last)
    }

    /** `Row(width, clues)`: `width` cells, each holding every label of the naming. */
    constructor (width: nat, clues: seq<int>)
      ensures fresh(cells) && cells.Length == width
      ensures forall i :: 0 <= i < width ==> cells[i] == Labels(clues)
      ensures Shape() == ShapeOf(clues)
    {
      var naming := CellNaming(clues);
      NamingLength(clues);
      var namingS := set x | x in naming;
      cells := new set<int>[width](_ => namingS);
      var succ := ImmediateSuccessors(naming);
      var pred := ImmediateSuccessors(Reverse(naming));
      successors := succ;
      predecessors := pred;
      first := {naming[0]};
      last := {naming[|naming| - 1]};
    }

    /** `Row.__str__`. */
    function ToString(): (s: seq<char>)
      reads cells
      ensures |s| == cells.Length
      ensures forall i :: 0 <= i < cells.Length ==> s[i] == CellToStr(cells[i])
    {
      Render(cells[..])
    }

    /**
     * `solver_pass` on the row (`backward == false`) or on its `RowReversedView`
     * (`backward == true`): walking the cells in view order, each cell is intersected in
     * place with the labels that may follow the cell just narrowed.
     */
    method SolverPass(backward: bool)
      modifies cells
      ensures cells[..] == Directed(old(cells[..]), backward, Shape())
    {
      var succ := if backward then predecessors else successors;
      var seed := if backward then last else first;
      PassInView(backward, seed, succ);
      ViewView(cells[..], backward);
    }

    /** The loop of `solver_pass`, walking the cells in view order from `seed` along `succ`. */
    method PassInView(backward: bool, seed: set<int>, succ: map<int, set<int>>)
      modifies cells
      ensures View(cells[..], backward) == Pass(View(old(cells[..]), backward), seed, succ)
    {
      ghost var view := View(cells[..], backward);
      ghost var target := Pass(view, seed, succ);
      var predecessorCell := seed;
      for k := 0 to cells.Length
        invariant View(cells[..], backward) == target[..k] + view[k..]
        invariant predecessorCell == if k == 0 then seed else target[k - 1]
      {
        predecessorCell := NarrowCell(backward, k, seed, succ, predecessorCell, view, target);
      }
      assert target[..cells.Length] + view[cells.Length..] == target;
    }

    /** One step of `solver_pass`: the `k`-th cell in view order takes its place in the pass. */
    method NarrowCell(backward: bool, k: int, seed: set<int>, succ: map<int, set<int>>, predecessorCell: set<int>,
                      ghost view: seq<set<int>>, ghost target: seq<set<int>>) returns (narrowed: set<int>)
      requires 0 <= k < cells.Length && |view| == cells.Length && target == Pass(view, seed, succ)
      requires View(cells[..], backward) == target[..k] + view[k..]
      requires predecessorCell == if k == 0 then seed else target[k - 1]
      modifies cells
      ensures View(cells[..], backward) == target[..k + 1] + view[k + 1..] && narrowed == target[k]
    {
      var p := Slot(cells.Length, backward, k);
      narrowed := cells[p] * Image(succ, predecessorCell);
      ViewUpdate(cells[..], backward, k, narrowed);
      PassAt(view, seed, succ, k);
      Splice(target, view, k);
      cells[p] := narrowed;
    }

    /** `forward_solver`. */
    method ForwardSolver()
      modifies cells
      ensures cells[..] == Pass(old(cells[..]), first, successors)
    {
      SolverPass(false);
    }

    /** `backward_solver`: the pass over the reversed view. */
    method BackwardSolver()
      modifies cells
      ensures cells[..] == Reverse(Pass(Reverse(old(cells[..])), last, predecessors))
    {
      SolverPass(true);
    }
  }

  /** `Row(3, [1, 1])` starts with every cell equal to the five labels of the naming. */
  lemma LabelsOneOne()
    ensures Labels([1, 1]) == {-5, -3, -1, 2, 4}
  {
    NamingOneOne();
  }

  /** The forward half of `Row(4, [2])`'s shape. */
  lemma ShapeOfTwo()
    ensures ShapeOf([2]).succ == map[-1 := {-1, 2}, 2 := {3}, 3 := {-4}, -4 := {-4}]
    ensures ShapeOf([2]).first == {-1}
    ensures Labels([2]) == {-1, 2, 3, -4}
  {
    NamingTwo();
    SuccessorsTwoLabels();
  }

  /** The forward half of `Row(3, [1, 1])`'s shape. */
  lemma ShapeOfOneOne()
    ensures ShapeOf([1, 1]).succ == map[-1 := {-1, 2}, 2 := {-3}, -3 := {-3, 4}, 4 := {-5}, -5 := {-5}]
    ensures ShapeOf([1, 1]).first == {-1}
  {
    NamingOneOne();
    SuccessorsOneOneLabels();
  }

  lemma LookupsOneOne(succ: map<int, set<int>>)
    requires succ == map[-1 := {-1, 2}, 2 := {-3}, -3 := {-3, 4}, 4 := {-5}, -5 := {-5}]
    ensures Lookup(succ, -1) == {-1, 2} && Lookup(succ, 2) == {-3} && Lookup(succ, -3) == {-3, 4}
  {
  }

  lemma LookupsTwo(succ: map<int, set<int>>)
    requires succ == map[-1 := {-1, 2}, 2 := {3}, 3 := {-4}, -4 := {-4}]
    ensures Lookup(succ, -1) == {-1, 2} && Lookup(succ, 2) == {3} && Lookup(succ, 3) == {-4} && Lookup(succ, -4) == {-4}
  {
  }

  // Single steps of the two `solver_pass` doctests: one narrowed cell each.

  lemma FourTwoStepA(succ: map<int, set<int>>)
    requires Lookup(succ, -1) == {-1, 2}
    ensures {-1, 2} == {-1, 2, 3, -4} * Image(succ, {-1})
  {
    ImageOfOne(succ, -1);
    assert {-1, 2, 3, -4} * {-1, 2} == {-1, 2};
  }

  lemma FourTwoStepB(succ: map<int, set<int>>)
    requires Lookup(succ, -1) == {-1, 2} && Lookup(succ, 2) == {3}
    ensures {-1, 2, 3} == {-1, 2, 3, -4} * Image(succ, {-1, 2})
  {
    ImageOfTwo(succ, -1, 2);
    assert {-1, 2, 3, -4} * {-1, 2, 3} == {-1, 2, 3};
  }

  lemma FourTwoStepC(succ: map<int, set<int>>)
    requires Lookup(succ, -1) == {-1, 2} && Lookup(succ, 2) == {3} && Lookup(succ, 3) == {-4}
    ensures {-1, 2, 3, -4} == {-1, 2, 3, -4} * Image(succ, {-1, 2, 3})
  {
    ImageOfThree(succ, -1, 2, 3);
    assert {-1, 2, 3, -4} * {-1, 2, 3, -4} == {-1, 2, 3, -4};
  }

  lemma FourTwoStepD(succ: map<int, set<int>>)
    requires Lookup(succ, -1) == {-1, 2} && Lookup(succ, 2) == {3} && Lookup(succ, 3) == {-4} && Lookup(succ, -4) == {-4}
    ensures {-1, 2, 3, -4} == {-1, 2, 3, -4} * Image(succ, {-1, 2, 3, -4})
  {
    ImageOfFour(succ, -1, 2, 3, -4);
    assert {-1, 2, 3, -4} * {-1, 2, 3, -4} == {-1, 2, 3, -4};
  }

  lemma ThreeOneOneStepA(succ: map<int, set<int>>)
    requires Lookup(succ, -1) == {-1, 2}
    ensures {-1, 2} == {-5, -3, -1, 2, 4} * Image(succ, {-1})
  {
    ImageOfOne(succ, -1);
    assert {-5, -3, -1, 2, 4} * {-1, 2} == {-1, 2};
  }

  lemma ThreeOneOneStepB(succ: map<int, set<int>>)
    requires Lookup(succ, -1) == {-1, 2} && Lookup(succ, 2) == {-3}
    ensures {-1, 2, -3} == {-5, -3, -1, 2, 4} * Image(succ, {-1, 2})
  {
    ImageOfTwo(succ, -1, 2);
    assert {-5, -3, -1, 2, 4} * {-1, 2, -3} == {-1, 2, -3};
  }

  lemma ThreeOneOneStepC(succ: map<int, set<int>>)
    requires Lookup(succ, -1) == {-1, 2} && Lookup(succ, 2) == {-3} && Lookup(succ, -3) == {-3, 4}
    ensures {-1, 2, -3, 4} == {-5, -3, -1, 2, 4} * Image(succ, {-1, 2, -3})
  {
    ImageOfThree(succ, -1, 2, -3);
    assert {-5, -3, -1, 2, 4} * {-1, 2, -3, 4} == {-1, 2, -3, 4};
  }

  /** The doctest of `solver_pass`: `Row(4, [2])` after one forward pass. */
  lemma ForwardPassFourTwo()
    ensures Labels([2]) == {-1, 2, 3, -4}
    ensures Pass([{-1, 2, 3, -4}, {-1, 2, 3, -4}, {-1, 2, 3, -4}, {-1, 2, 3, -4}], ShapeOf([2]).first, ShapeOf([2]).succ) ==
      [{-1, 2}, {-1, 2, 3}, {-1, 2, 3, -4}, {-1, 2, 3, -4}]
  {
    ShapeOfTwo();
    var succ := ShapeOf([2]).succ;
    LookupsTwo(succ);
    FourTwoStepA(succ);
    FourTwoStepB(succ);
    FourTwoStepC(succ);
    FourTwoStepD(succ);
    PassOfFour({-1, 2, 3, -4}, {-1, 2, 3, -4}, {-1, 2, 3, -4}, {-1, 2, 3, -4}, {-1}, succ, {-1, 2}, {-1, 2, 3}, {-1, 2, 3, -4}, {-1, 2, 3, -4});
  }

  /** The doctest of `solver_pass`: `Row(3, [1, 1])` after one forward pass. */
  lemma ForwardPassThreeOneOne()
    ensures Labels([1, 1]) == {-5, -3, -1, 2, 4}
    ensures Pass([{-5, -3, -1, 2, 4}, {-5, -3, -1, 2, 4}, {-5, -3, -1, 2, 4}], ShapeOf([1, 1]).first, ShapeOf([1, 1]).succ) ==
      [{-1, 2}, {-1, 2, -3}, {-1, 2, -3, 4}]
  {
    ShapeOfOneOne();
    LabelsOneOne();
    var succ := ShapeOf([1, 1]).succ;
    LookupsOneOne(succ);
    ThreeOneOneStepA(succ);
    ThreeOneOneStepB(succ);
    ThreeOneOneStepC(succ);
    PassOfThree({-5, -3, -1, 2, 4}, {-5, -3, -1, 2, 4}, {-5, -3, -1, 2, 4}, {-1}, succ, {-1, 2}, {-1, 2, -3}, {-1, 2, -3, 4});
  }
}
