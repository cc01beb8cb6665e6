/**
 * The cell-naming scheme of one line (`cell_naming` in Nonogram/Solver.py and nonogram.py).
 *
 * A clue list is turned into a label sequence: every gap (before, between and after the
 * runs) gets a negative label emitted twice, every cell of a run a positive label, and the
 * labels of one run are consecutive integers.  The counter `it` starts at 1 and grows by one
 * for every gap and every run cell.
 */
module Encoding {

  function Abs(x: int): nat { if x < 0 then -x else x }

  /** Number of labels a clue contributes: `range(clue)` is empty for a negative clue. */
  function RunLength(clue: int): nat { if clue > 0 then clue else 0 }

  /** Total number of run cells of a clue list. */
  function SumRuns(clues: seq<int>): nat
  {
    if clues == [] then 0 else SumRuns(clues[..|clues| - 1]) + RunLength(clues[|clues| - 1])
  }

  /** Value of the counter once the labels of `clues` (but not the closing gap) are emitted. */
  function Counter(clues: seq<int>): int
  {
    1 + |clues| + SumRuns(clues)
  }

  /** `[start, start + 1, ..., start + n - 1]`. */
  function Run(start: int, n: nat): (r: seq<int>)
    ensures |r| == n
    ensures forall i :: 0 <= i < n ==> r[i] == start + i
  {
    if n == 0 then [] else Run(start, n - 1) + [start + n - 1]
  }

  /** Labels of `clues` without the closing gap. */
  function Body(clues: seq<int>): seq<int>
  {
    if clues == [] then []
    else
      var p := clues[..|clues| - 1];
      var t := Counter(p);
      Body(p) + [-t, -t] + Run(t + 1, RunLength(clues[|clues| - 1]))
  }

  /** The label sequence of a clue list: the body followed by the doubled closing gap. */
  function Naming(clues: seq<int>): seq<int>
  {
    Body(clues) + [-Counter(clues), -Counter(clues)]
  }

  /** The set of labels of a clue list: every cell of a fresh line starts with it. */
  function Labels(clues: seq<int>): set<int>
  {
    set x | x in Naming(clues)
  }

  /** `cell_naming`: the generator, with its counter `it`, collected into a sequence. */
  method CellNaming(clues: seq<int>) returns (naming: seq<int>)
    ensures naming == Naming(clues)
    ensures |naming| == 2 * (|clues| + 1) + SumRuns(clues)
  {
    var it := 1;
    naming := [];
    for k := 0 to |clues|
      invariant it == Counter(clues[..k])
      invariant naming == Body(clues[..k])
    {
      assert clues[..k + 1][..k] == clues[..k];
      naming := naming + [-it, -it];
      naming, it := EmitRun(naming, it + 1, clues[k]);
    }
    assert clues[..|clues|] == clues;
    naming := naming + [-it, -it];
    NamingLength(clues);
  }

  /** The inner loop of `cell_naming`: one label per cell of a run of `clue` cells, counting from `it`. */
  method EmitRun(prefix: seq<int>, it: int, clue: int) returns (naming: seq<int>, next: int)
    ensures naming == prefix + Run(it, RunLength(clue)) && next == it + RunLength(clue)
  {
    naming, next := prefix, it;
    var n := 0;
    while n < clue
      invariant 0 <= n <= RunLength(clue)
      invariant next == it + n && naming == prefix + Run(it, n)
    {
      naming := naming + [next];
      next := next + 1;
      n := n + 1;
    }
  }

  /** Appending one clue appends its run and a new doubled gap. */
  lemma NamingSnoc(p: seq<int>, x: int)
    ensures Naming(p + [x]) == Naming(p) + Run(Counter(p) + 1, RunLength(x)) + [-Counter(p + [x]), -Counter(p + [x])]
    ensures Counter(p + [x]) == Counter(p) + 1 + RunLength(x)
  {
    var c := p + [x];
    assert c[..|c| - 1] == p;
  }

  lemma {:induction false} NamingLength(clues: seq<int>)
    ensures |Naming(clues)| == 2 * (|clues| + 1) + SumRuns(clues)
  {
    if clues != [] {
      var p := clues[..|clues| - 1];
      NamingLength(p);
      NamingSnoc(p, clues[|clues| - 1]);
      assert p + [clues[|clues| - 1]] == clues;
    }
  }

  /** Every label lies between 1 and the closing counter in absolute value; only the closing gap reaches it. */
  lemma {:induction false} NamingBounds(clues: seq<int>)
    ensures forall i :: 0 <= i < |Naming(clues)| ==> 1 <= Abs(Naming(clues)[i]) <= Counter(clues)
    ensures forall i :: 0 <= i < |Naming(clues)| - 2 ==> Abs(Naming(clues)[i]) < Counter(clues)
  {
    NamingLength(clues);
    if clues != [] {
      var p := clues[..|clues| - 1];
      var x := clues[|clues| - 1];
      assert p + [x] == clues;
      NamingBounds(p);
      NamingSnoc(p, x);
      NamingLength(p);
    }
  }

  /** The sequence starts and ends with a doubled gap: -1 at the front, -Counter at the back. */
  lemma {:induction false} NamingEnds(clues: seq<int>)
    ensures |Naming(clues)| >= 2
    ensures Naming(clues)[0] == Naming(clues)[1] == -1
    ensures Naming(clues)[|Naming(clues)| - 1] == Naming(clues)[|Naming(clues)| - 2] == -Counter(clues)
  {
    NamingLength(clues);
    if clues == [] {
      assert Naming(clues) == [-1, -1];
    } else {
      var p := clues[..|clues| - 1];
      var x := clues[|clues| - 1];
      assert p + [x] == clues;
      NamingEnds(p);
      NamingSnoc(p, x);
    }
  }

  /**
   * Consecutive labels either repeat a gap (the doubling) or grow by one in absolute
   * value; in particular the labels of a run are consecutive positive integers.
   */
  lemma {:induction false} NamingSteps(clues: seq<int>)
    ensures forall i :: 0 <= i < |Naming(clues)| - 1 ==>
      (Naming(clues)[i + 1] == Naming(clues)[i] < 0) || Abs(Naming(clues)[i + 1]) == Abs(Naming(clues)[i]) + 1
  {
    if clues != [] {
      var p := clues[..|clues| - 1];
      var x := clues[|clues| - 1];
      assert p + [x] == clues;
      NamingSteps(p);
      NamingSnoc(p, x);
      NamingEnds(p);
      var np := Naming(p);
      var t := Counter(p);
      var run := Run(t + 1, RunLength(x));
      var n := Naming(clues);
      assert n == np + run + [-(t + 1 + RunLength(x)), -(t + 1 + RunLength(x))];
      forall i | 0 <= i < |n| - 1
        ensures (n[i + 1] == n[i] < 0) || Abs(n[i + 1]) == Abs(n[i]) + 1
      {
        if i < |np| - 1 {
          assert n[i] == np[i] && n[i + 1] == np[i + 1];
        } else if i == |np| - 1 {
          assert n[i] == -t;
        } else if i < |np| + |run| - 1 {
          assert n[i] == run[i - |np|] && n[i + 1] == run[i + 1 - |np|];
        } else if i == |np| + |run| - 1 {
          assert n[i] == run[|run| - 1];
        }
      }
    }
  }

  /** Every gap label stands next to its twin. */
  lemma {:induction false} NamingTwins(clues: seq<int>)
    ensures forall i :: 0 <= i < |Naming(clues)| && Naming(clues)[i] < 0 ==>
      (i + 1 < |Naming(clues)| && Naming(clues)[i + 1] == Naming(clues)[i]) || (0 < i && Naming(clues)[i - 1] == Naming(clues)[i])
  {
    NamingEnds(clues);
    if clues != [] {
      var p := clues[..|clues| - 1];
      var x := clues[|clues| - 1];
      assert p + [x] == clues;
      NamingTwins(p);
      NamingSnoc(p, x);
      var np := Naming(p);
      var t := Counter(p);
      var run := Run(t + 1, RunLength(x));
      var n := Naming(clues);
      assert n == np + run + [-(t + 1 + RunLength(x)), -(t + 1 + RunLength(x))];
      assert forall k :: 0 <= k < |np| ==> n[k] == np[k];
      assert forall k :: |np| <= k < |np| + |run| ==> n[k] == run[k - |np|] > 0;
      forall i | 0 <= i < |n| && n[i] < 0
        ensures (i + 1 < |n| && n[i + 1] == n[i]) || (0 < i && n[i - 1] == n[i])
      {
        if i < |np| {
          if i + 1 < |np| { assert n[i + 1] == np[i + 1]; }
          if 0 < i { assert n[i - 1] == np[i - 1]; }
        } else if i == |n| - 2 {
          assert n[i + 1] == n[i];
        } else if i == |n| - 1 {
          assert n[i - 1] == n[i];
        }
      }
    }
  }

  /**
   * Labels grow strictly in absolute value along the sequence, except that a gap label is
   * repeated once in the next position; so a run label occurs once and a gap label twice.
   */
  lemma {:induction false} NamingIncreasing(clues: seq<int>)
    ensures forall i, j :: 0 <= i < j < |Naming(clues)| ==>
      Abs(Naming(clues)[i]) < Abs(Naming(clues)[j]) || (j == i + 1 && Naming(clues)[j] == Naming(clues)[i] < 0)
  {
    if clues != [] {
      var p := clues[..|clues| - 1];
      var x := clues[|clues| - 1];
      assert p + [x] == clues;
      NamingIncreasing(p);
      NamingBounds(p);
      NamingSnoc(p, x);
      var np := Naming(p);
      var t := Counter(p);
      var r := RunLength(x);
      var n := Naming(clues);
      assert n == np + Run(t + 1, r) + [-(t + 1 + r), -(t + 1 + r)];
      IncreasingJoin(np, t, r, n);
    }
  }

  /** The step of NamingIncreasing: appending a run above `t` and a gap above the run. */
  lemma IncreasingJoin(np: seq<int>, t: int, r: nat, n: seq<int>)
    requires t >= 1
    requires forall k :: 0 <= k < |np| ==> Abs(np[k]) <= t
    requires forall i, j :: 0 <= i < j < |np| ==> Abs(np[i]) < Abs(np[j]) || (j == i + 1 && np[j] == np[i] < 0)
    requires n == np + Run(t + 1, r) + [-(t + 1 + r), -(t + 1 + r)]
    ensures forall i, j :: 0 <= i < j < |n| ==> Abs(n[i]) < Abs(n[j]) || (j == i + 1 && n[j] == n[i] < 0)
  {
    var run := Run(t + 1, r);
    assert forall k :: 0 <= k < |np| ==> n[k] == np[k];
    assert forall k :: |np| <= k < |np| + r ==> n[k] == t + 1 + (k - |np|);
    assert n[|np| + r] == n[|np| + r + 1] == -(t + 1 + r);
  }

  /** Number of positive entries of a sequence. */
  function CountPositive(s: seq<int>): nat
  {
    if s == [] then 0 else CountPositive(s[..|s| - 1]) + (if s[|s| - 1] > 0 then 1 else 0)
  }

  lemma {:induction false} CountPositiveAppend(a: seq<int>, b: seq<int>)
    ensures CountPositive(a + b) == CountPositive(a) + CountPositive(b)
    decreases |b|
  {
    if b == [] {
      assert a + b == a;
    } else {
      assert (a + b)[..|a + b| - 1] == a + b[..|b| - 1];
      CountPositiveAppend(a, b[..|b| - 1]);
    }
  }

  lemma {:induction false} CountPositiveRun(start: int, n: nat)
    requires start > 0
    ensures CountPositive(Run(start, n)) == n
  {
    if n > 0 {
      assert Run(start, n)[..n - 1] == Run(start, n - 1);
      CountPositiveRun(start, n - 1);
    }
  }

  /** The positive labels are exactly one per run cell: there are SumRuns(clues) of them. */
  lemma {:induction false} NamingPositiveCount(clues: seq<int>)
    ensures CountPositive(Naming(clues)) == SumRuns(clues)
  {
    if clues == [] {
      assert Naming(clues) == [-1, -1];
      assert Naming(clues)[..1] == [-1];
      assert [-1][..0] == [];
    } else {
      var p := clues[..|clues| - 1];
      var x := clues[|clues| - 1];
      assert p + [x] == clues;
      NamingPositiveCount(p);
      NamingSnoc(p, x);
      var t := Counter(p);
      var gap := [-(t + 1 + RunLength(x)), -(t + 1 + RunLength(x))];
      CountPositiveAppend(Naming(p) + Run(t + 1, RunLength(x)), gap);
      CountPositiveAppend(Naming(p), Run(t + 1, RunLength(x)));
      CountPositiveRun(t + 1, RunLength(x));
      assert gap[..1] == [gap[0]];
      assert [gap[0]][..0] == [];
      assert CountPositive([gap[0]]) == 0;
      assert CountPositive(gap) == 0;
    }
  }

  /** Doctest of `cell_naming` in Nonogram/Solver.py and nonogram.py. */
  lemma NamingOneTwo()
    ensures Naming([1, 2]) == [-1, -1, 2, -3, -3, 4, 5, -6, -6]
  {
    NamingSnoc([], 1);
    assert [] + [1] == [1];
    NamingSnoc([1], 2);
    assert [1] + [2] == [1, 2];
  }

  /** The naming of clue list [3, 1] used by Solver_test.py. */
  lemma NamingThreeOne()
    ensures Naming([3, 1]) == [-1, -1, 2, 3, 4, -5, -5, 6, -7, -7]
  {
    NamingSnoc([], 3);
    assert [] + [3] == [3];
    assert Run(2, 3) == [2, 3, 4];
    assert Naming([3]) == [-1, -1, 2, 3, 4, -5, -5];
    NamingSnoc([3], 1);
    assert [3] + [1] == [3, 1];
    assert Run(6, 1) == [6];
  }

  /** Doctest of `cell_naming` in nonogram.py. */
  lemma NamingOneTwoThree()
    ensures Naming([1, 2, 3]) == [-1, -1, 2, -3, -3, 4, 5, -6, -6, 7, 8, 9, -10, -10]
  {
    NamingOneTwo();
    NamingSnoc([1, 2], 3);
    assert [1, 2] + [3] == [1, 2, 3];
  }

  /** The naming of the one-run clue list [2]. */
  lemma NamingTwo()
    ensures Naming([2]) == [-1, -1, 2, 3, -4, -4]
  {
    NamingSnoc([], 2);
    assert [] + [2] == [2];
    assert Run(2, 2) == [2, 3];
  }

  /** The labels of the clue list [1] before its closing gap. */
  lemma BodyOne()
    ensures Body([1]) == [-1, -1, 2] && Counter([1]) == 3
  {
    assert [1][..0] == [];
    assert Run(2, 1) == [2];
  }

  /** The naming of the clue list [1, 1]. */
  lemma NamingOneOne()
    ensures Naming([1, 1]) == [-1, -1, 2, -3, -3, 4, -5, -5]
  {
    BodyOne();
    assert [1, 1][..1] == [1];
    assert Run(4, 1) == [4];
    assert Counter([1, 1]) == 5;
  }
}
