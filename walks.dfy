/**
 * Label walks and the lines of filled and blank cells they show.
 *
 * A placement of one line's labels (a `LineWalk` of the shape `Row(width, clues)` builds
 * from `cell_naming(clues)`) shows a line of 1s (run labels) and -1s (gap labels).  This
 * module proves that the lines shown by the walks are exactly the ±1 lines `row_to_clues`
 * reads `clues` off (Nonogram/Solver.py and nonogram.py), which carries the label-level
 * results of `Propagation`, `Grid` and `Puzzle` over to the pictures `check_if_correct`
 * compares.
 */
module Walks {
  import opened Encoding
  import opened Transitions
  import opened Propagation
  import opened Clues

  /** The cell a label stands for: 1 (filled) for a run label, -1 (blank) for a gap label. */
  function Tone(l: int): int
  {
    if l > 0 then 1 else -1
  }

  /** The ±1 line a walk shows. */
  function Shading(w: seq<int>): (x: seq<int>)
    ensures |x| == |w| && forall i :: 0 <= i < |w| ==> x[i] == Tone(w[i])
  {
    seq(|w|, i requires 0 <= i < |w| => Tone(w[i]))
  }

  lemma {:induction false} ShadingAppend(a: seq<int>, b: seq<int>)
    ensures Shading(a + b) == Shading(a) + Shading(b)
  {
    assert forall i :: 0 <= i < |a| ==> (a + b)[i] == a[i];
    assert forall i :: |a| <= i < |a + b| ==> (a + b)[i] == b[i - |a|];
  }

  /** A line of 1s and -1s only: a picture line. */
  predicate TwoTone(x: seq<int>)
  {
    forall i :: 0 <= i < |x| ==> x[i] == 1 || x[i] == -1
  }

  /** What `row_to_clues` can return: `[0]`, or a non-empty list of positive run lengths. */
  predicate Canonical(clues: seq<int>)
  {
    clues == [0] || (clues != [] && forall k :: 0 <= k < |clues| ==> clues[k] >= 1)
  }

  /** Every clue list read off a line is canonical. */
  lemma {:induction false} RowCluesCanonical(x: seq<int>)
    ensures Canonical(RowClues(x))
  {
    RunsPositive(x);
  }

  // ---------------------------------------------------------------------------------
  // Walks as chains of the naming.

  /** Each consecutive pair of `s` stands next to each other somewhere in `n`. */
  ghost predicate Chain(s: seq<int>, n: seq<int>)
  {
    forall i :: 0 <= i < |s| - 1 ==> FollowsIn(n, s[i], s[i + 1])
  }

  /**
   * A non-empty placement of a line is a line walk exactly when, framed by the first label
   * (-1) and the last label of the naming, every step is a step of the naming.
   */
  lemma {:induction false} WalkChain(clues: seq<int>, w: seq<int>)
    requires |w| > 0
    ensures LineWalk(w, ShapeOf(clues)) <==> Chain([-1] + w + [-Counter(clues)], Naming(clues))
  {
    var n := Naming(clues);
    NamingEnds(clues);
    var sh := ShapeOf(clues);
    assert sh.first == {-1} && sh.last == {-Counter(clues)};
    SuccessorsCharacterization(n);
    PredecessorsConverse(n);
    if LineWalk(w, sh) {
      WalkIsChain(n, sh.succ, sh.pred, -1, -Counter(clues), w);
    }
    if Chain([-1] + w + [-Counter(clues)], n) {
      ChainIsForward(n, sh.succ, -1, -Counter(clues), w);
      ChainIsBackward(n, sh.succ, sh.pred, -1, -Counter(clues), w);
    }
  }

  /** The forward half of `WalkChain`, for any successor and predecessor maps of `n`. */
  lemma {:induction false} WalkIsChain(n: seq<int>, succ: map<int, set<int>>, pred: map<int, set<int>>, first: int, last: int, w: seq<int>)
    requires |w| > 0
    requires forall l, x :: x in Lookup(succ, l) ==> FollowsIn(n, l, x)
    requires forall l, x :: x in Lookup(pred, l) ==> l in Lookup(succ, x)
    requires Walk(w, {first}, succ) && Walk(Reverse(w), {last}, pred)
    ensures Chain([first] + w + [last], n)
  {
    ImageOfOne(succ, first);
    ImageOfOne(pred, last);
    var s := [first] + w + [last];
    assert Reverse(w)[0] == w[|w| - 1];
    forall i | 0 <= i < |s| - 1 ensures FollowsIn(n, s[i], s[i + 1]) {
      if i == 0 {
        assert s[1] == w[0];
      } else if i < |w| {
        assert s[i] == w[i - 1] && s[i + 1] == w[i];
      } else {
        assert s[i] == w[|w| - 1];
      }
    }
  }

  /** The forward walk of the backward half of `WalkChain`. */
  lemma {:induction false} ChainIsForward(n: seq<int>, succ: map<int, set<int>>, first: int, last: int, w: seq<int>)
    requires |w| > 0
    requires forall l, x :: FollowsIn(n, l, x) ==> x in Lookup(succ, l)
    requires Chain([first] + w + [last], n)
    ensures Walk(w, {first}, succ)
  {
    ImageOfOne(succ, first);
    var s := [first] + w + [last];
    assert forall i :: 0 <= i < |w| ==> s[i + 1] == w[i];
    assert FollowsIn(n, s[0], s[1]);
    forall i | 0 <= i < |w| - 1 ensures w[i + 1] in Lookup(succ, w[i]) {
      assert FollowsIn(n, s[i + 1], s[i + 2]);
    }
  }

  /** The reversed walk of the backward half of `WalkChain`. */
  lemma {:induction false} ChainIsBackward(n: seq<int>, succ: map<int, set<int>>, pred: map<int, set<int>>, first: int, last: int, w: seq<int>)
    requires |w| > 0
    requires forall l, x :: FollowsIn(n, l, x) ==> x in Lookup(succ, l)
    requires forall l, x :: l in Lookup(succ, x) ==> x in Lookup(pred, l)
    requires Chain([first] + w + [last], n)
    ensures Walk(Reverse(w), {last}, pred)
  {
    ImageOfOne(pred, last);
    var rw := Reverse(w);
    ChainReversed(n, first, last, w);
    assert rw[0] in Lookup(pred, last);
    forall i | 0 <= i < |rw| - 1 ensures rw[i + 1] in Lookup(pred, rw[i]) {
      assert FollowsIn(n, rw[i + 1], rw[i]);
    }
  }

  /** Read backwards, a chain steps from each label to the one before it. */
  lemma {:induction false} ChainReversed(n: seq<int>, first: int, last: int, w: seq<int>)
    requires |w| > 0 && Chain([first] + w + [last], n)
    ensures FollowsIn(n, Reverse(w)[0], last)
    ensures forall i :: 0 <= i < |w| - 1 ==> FollowsIn(n, Reverse(w)[i + 1], Reverse(w)[i])
  {
    var s := [first] + w + [last];
    var rw := Reverse(w);
    assert s[|w|] == rw[0] && s[|w| + 1] == last;
    assert FollowsIn(n, s[|w|], s[|w| + 1]);
    forall i | 0 <= i < |w| - 1 ensures FollowsIn(n, rw[i + 1], rw[i]) {
      var k := |w| - 2 - i;
      assert rw[i + 1] == w[k] == s[k + 1] && rw[i] == w[k + 1] == s[k + 2];
      assert FollowsIn(n, s[k + 1], s[k + 2]);
    }
  }

  /** Every label after the first of a chain occurs in the naming. */
  lemma {:induction false} ChainLabels(s: seq<int>, n: seq<int>)
    requires Chain(s, n)
    ensures forall i :: 0 < i < |s| ==> s[i] in n
  {
    forall i | 0 < i < |s| ensures s[i] in n {
      assert FollowsIn(n, s[i - 1], s[i]);
    }
  }

  // ---------------------------------------------------------------------------------
  // From a walk to the line it shows.

  /** Equal entries of `n` are neighbours and gap labels: what `NamingIncreasing` says. */
  ghost predicate Twinned(n: seq<int>)
  {
    forall i, j :: 0 <= i < j < |n| && n[i] == n[j] ==> j == i + 1 && n[i] < 0
  }

  lemma {:induction false} NamingTwinned(clues: seq<int>)
    ensures Twinned(Naming(clues))
  {
    NamingIncreasing(clues);
  }

  /** Two occurrences of one label read the same runs off the naming up to them. */
  lemma {:induction false} TwinPrefixes(n: seq<int>, p: int, q: int)
    requires Twinned(n) && 0 <= p < |n| && 0 <= q < |n| && n[p] == n[q]
    ensures Runs(Shading(n[..p + 1])) == Runs(Shading(n[..q + 1]))
    ensures Running(Shading(n[..p + 1])) == Running(Shading(n[..q + 1]))
  {
    if p != q {
      var lo := if p < q then p else q;
      var hi := lo + 1;
      assert n[lo] < 0 && n[hi] == n[lo];
      assert n[..hi + 1] == n[..lo + 1] + [n[hi]];
      assert n[..lo + 1] == n[..lo] + [n[lo]];
      ShadingAppend(n[..lo + 1], [n[hi]]);
      ShadingAppend(n[..lo], [n[lo]]);
      assert Shading([n[lo]]) == [-1];
      RunsSnoc(Shading(n[..lo]), -1);
      RunsSnoc(Shading(n[..lo + 1]), -1);
    }
  }

  /** A chain stays a chain when its last label is dropped. */
  lemma {:induction false} ChainPrefix(s: seq<int>, n: seq<int>, k: nat)
    requires Chain(s, n) && k <= |s|
    ensures Chain(s[..k], n)
  {
    forall i | 0 <= i < k - 1 ensures FollowsIn(n, s[..k][i], s[..k][i + 1]) {
      assert s[..k][i] == s[i] && s[..k][i + 1] == s[i + 1];
    }
  }

  /** Reading one more cell of the same tone keeps two lines reading the same runs. */
  lemma {:induction false} SameRunsSnoc(x: seq<int>, y: seq<int>, v: int)
    requires Runs(x) == Runs(y) && Running(x) == Running(y)
    ensures Runs(x + [v]) == Runs(y + [v]) && Running(x + [v]) == Running(y + [v])
  {
    RunsSnoc(x, v);
    RunsSnoc(y, v);
  }

  /** Extending a walk by a label and the naming's prefix by the same label. */
  lemma {:induction false} StepRuns(v: seq<int>, b: int, n: seq<int>, i: int)
    requires 0 <= i < |n| - 1 && n[i + 1] == b
    requires Runs(Shading(v)) == Runs(Shading(n[..i + 1])) && Running(Shading(v)) == Running(Shading(n[..i + 1]))
    ensures Runs(Shading(v + [b])) == Runs(Shading(n[..i + 2]))
    ensures Running(Shading(v + [b])) == Running(Shading(n[..i + 2]))
  {
    assert n[..i + 2] == n[..i + 1] + [b];
    ShadingAppend(v, [b]);
    ShadingAppend(n[..i + 1], [b]);
    assert Shading([b]) == [Tone(b)];
    SameRunsSnoc(Shading(v), Shading(n[..i + 1]), Tone(b));
  }

  /**
   * A chain from the first label of `n` reads the same runs as `n` does up to any
   * occurrence of the chain's last label.
   */
  lemma {:induction false} WalkPrefixRuns(n: seq<int>, w: seq<int>, q: int)
    requires Twinned(n) && |n| > 0 && n[0] < 0
    requires Chain([n[0]] + w, n)
    requires 0 <= q < |n| && n[q] == ([n[0]] + w)[|w|]
    ensures Runs(Shading(w)) == Runs(Shading(n[..q + 1]))
    ensures Running(Shading(w)) == Running(Shading(n[..q + 1]))
    decreases |w|
  {
    if w == [] {
      assert n[..1] == [] + [n[0]];
      ShadingAppend([], [n[0]]);
      assert Shading([n[0]]) == [-1];
      RunsSnoc([], -1);
      TwinPrefixes(n, 0, q);
    } else {
      var v := w[..|w| - 1];
      var i := LastLink(n, w);
      WalkPrefixRuns(n, v, i);
      assert w == v + [w[|w| - 1]];
      StepRuns(v, w[|w| - 1], n, i);
      TwinPrefixes(n, i + 1, q);
    }
  }

  /** The last step of a non-empty chain from the first label of `n`, as a position of `n`. */
  lemma {:induction false} LastLink(n: seq<int>, w: seq<int>) returns (i: int)
    requires |n| > 0 && w != [] && Chain([n[0]] + w, n)
    ensures Chain([n[0]] + w[..|w| - 1], n)
    ensures 0 <= i < |n| - 1 && n[i] == ([n[0]] + w[..|w| - 1])[|w| - 1] && n[i + 1] == w[|w| - 1]
  {
    var s := [n[0]] + w;
    ChainPrefix(s, n, |w|);
    assert [n[0]] + w[..|w| - 1] == s[..|w|];
    assert FollowsIn(n, s[|w| - 1], s[|w|]);
    i :| 0 <= i < |n| - 1 && n[i] == s[|w| - 1] && n[i + 1] == s[|w|];
  }

  /** Every non-empty line walk shows the runs the naming itself shows. */
  lemma {:induction false} WalkReadsNaming(clues: seq<int>, w: seq<int>)
    requires LineWalk(w, ShapeOf(clues)) && |w| > 0
    ensures Runs(Shading(w)) == Runs(Shading(Naming(clues)))
  {
    var n := Naming(clues);
    NamingEnds(clues);
    NamingTwinned(clues);
    WalkChain(clues, w);
    var last := n[|n| - 1];
    assert [-1] + w + [-Counter(clues)] == [n[0]] + (w + [last]);
    ClosedWalkRuns(n, w, last);
  }

  /** A walk that a chain from the first label of `n` carries to its last shows the runs of `n`. */
  lemma {:induction false} ClosedWalkRuns(n: seq<int>, w: seq<int>, last: int)
    requires Twinned(n) && |n| > 0 && n[0] < 0 && last == n[|n| - 1] && last < 0
    requires Chain([n[0]] + (w + [last]), n)
    ensures Runs(Shading(w)) == Runs(Shading(n))
  {
    WalkPrefixRuns(n, w + [last], |n| - 1);
    assert n[..|n|] == n;
    ShadingAppend(w, [last]);
    assert Shading([last]) == [-1];
    RunsSnoc(Shading(w), -1);
  }

  /** The naming of positive clues shows exactly those runs, and ends outside a run. */
  lemma {:induction false} NamingShows(clues: seq<int>)
    requires forall k :: 0 <= k < |clues| ==> clues[k] >= 1
    ensures Runs(Shading(Naming(clues))) == clues && !Running(Shading(Naming(clues)))
  {
    if clues == [] {
      assert Naming(clues) == [-1, -1];
      assert Shading([-1, -1]) == Blanks(2);
      RunsBlanks([], 2);
      assert [] + Blanks(2) == Blanks(2);
    } else {
      var p, x := clues[..|clues| - 1], clues[|clues| - 1];
      assert p + [x] == clues;
      NamingShows(p);
      NamingSnoc(p, x);
      var t := Counter(p);
      var gap := [-(t + 1 + x), -(t + 1 + x)];
      assert Naming(clues) == Naming(p) + Run(t + 1, x) + gap;
      ShadingAppend(Naming(p) + Run(t + 1, x), gap);
      ShadingAppend(Naming(p), Run(t + 1, x));
      assert Shading(Run(t + 1, x)) == Ones(x);
      assert Shading(gap) == Blanks(2);
      RunThenGap(Shading(Naming(p)), x, 2);
    }
  }

  /** `row_to_clues` reads a canonical clue list back off the line its naming shows. */
  lemma {:induction false} NamingReadsBack(clues: seq<int>)
    requires Canonical(clues)
    ensures RowClues(Shading(Naming(clues))) == clues
  {
    if clues == [0] {
      NamingSnoc([], 0);
      assert [] + [0] == [0];
      assert Naming([]) == [-1, -1];
      assert Naming([0]) == [-1, -1, -2, -2];
      assert Shading([-1, -1, -2, -2]) == Blanks(4);
      RunsBlanks([], 4);
      assert [] + Blanks(4) == Blanks(4);
    } else {
      NamingShows(clues);
    }
  }

  /** Positive clues add up to at least their number. */
  lemma {:induction false} SumAtLeast(clues: seq<int>)
    requires forall k :: 0 <= k < |clues| ==> clues[k] >= 1
    ensures Sum(clues) >= |clues|
  {
    if clues != [] {
      SumAtLeast(clues[..|clues| - 1]);
    }
  }

  /**
   * The converse half of the round trip: every placement of a line whose canonical clues
   * fit in it shows a line that `row_to_clues` reads those clues off.
   */
  lemma {:induction false} LineOfWalk(clues: seq<int>, w: seq<int>)
    requires Canonical(clues) && Room(clues) <= |w|
    requires LineWalk(w, ShapeOf(clues))
    ensures RowClues(Shading(w)) == clues
  {
    if |w| == 0 {
      if clues != [0] {
        SumAtLeast(clues);
        assert false;
      }
      assert Shading(w) == [];
    } else {
      WalkReadsNaming(clues, w);
      NamingReadsBack(clues);
    }
  }

  // ---------------------------------------------------------------------------------
  // From a line to a walk that shows it.

  /** `n` copies of label `l`. */
  function Repeat(l: int, n: nat): (r: seq<int>)
    ensures |r| == n && forall i :: 0 <= i < n ==> r[i] == l
  {
    if n == 0 then [] else Repeat(l, n - 1) + [l]
  }

  /**
   * The placement of the runs `clues` after the gaps `gaps`: each gap's label as many
   * times as the gap is long, each run's labels once.
   */
  function Placed(clues: seq<nat>, gaps: seq<nat>): seq<int>
    requires |gaps| == |clues| + 1
  {
    if clues == [] then Repeat(-1, gaps[0])
    else
      var p := clues[..|clues| - 1];
      Placed(p, gaps[..|clues|]) + Run(Counter(p) + 1, clues[|clues| - 1]) + Repeat(-Counter(clues), gaps[|clues|])
  }

  /** The placement shows the line drawn with the same runs and gaps. */
  lemma {:induction false} PlacedShows(clues: seq<nat>, gaps: seq<nat>)
    requires |gaps| == |clues| + 1
    ensures Shading(Placed(clues, gaps)) == Draw(clues, gaps)
  {
    if clues == [] {
      assert Shading(Repeat(-1, gaps[0])) == Blanks(gaps[0]);
    } else {
      PlacedShows(clues[..|clues| - 1], gaps[..|clues|]);
      PlacedShowsStep(clues, gaps);
    }
  }

  /** The step of `PlacedShows`: one more run and gap on both sides. */
  lemma {:induction false} PlacedShowsStep(clues: seq<nat>, gaps: seq<nat>)
    requires |gaps| == |clues| + 1 && clues != []
    requires Shading(Placed(clues[..|clues| - 1], gaps[..|clues|])) == Draw(clues[..|clues| - 1], gaps[..|clues|])
    ensures Shading(Placed(clues, gaps)) == Draw(clues, gaps)
  {
    var n := |clues|;
    var p := clues[..n - 1];
    PlacedUnfold(clues, gaps);
    ShadingStep(Placed(clues, gaps), Placed(p, gaps[..n]), Counter(p) + 1, clues[n - 1], -Counter(clues), gaps[n]);
  }

  /** A run of positive labels shows as 1s, a repeated negative label as blanks. */
  lemma {:induction false} ShadingStep(w: seq<int>, a: seq<int>, s: int, x: nat, l: int, g: nat)
    requires s >= 1 && l < 0 && w == a + Run(s, x) + Repeat(l, g)
    ensures Shading(w) == Shading(a) + Ones(x) + Blanks(g)
  {
    var run, gap := Run(s, x), Repeat(l, g);
    ShadingAppend(a + run, gap);
    ShadingAppend(a, run);
    assert Shading(run) == Ones(x);
    assert Shading(gap) == Blanks(g);
  }

  /** A chain extended by a chain that starts where it ends. */
  lemma {:induction false} ChainJoin(a: seq<int>, b: seq<int>, n: seq<int>, s: seq<int>)
    requires Chain(a, n) && Chain(b, n) && a != [] && b != [] && a[|a| - 1] == b[0]
    requires s == a + b[1..]
    ensures Chain(s, n)
  {
    forall i | 0 <= i < |s| - 1 ensures FollowsIn(n, s[i], s[i + 1]) {
      if i < |a| - 1 {
        assert s[i] == a[i] && s[i + 1] == a[i + 1];
      } else {
        var k := i - |a| + 1;
        assert s[i] == b[k] && s[i + 1] == b[k + 1];
      }
    }
  }

  /** A step of `n` is a step of every extension of `n`. */
  lemma {:induction false} ChainGrow(s: seq<int>, n: seq<int>, m: seq<int>)
    requires Chain(s, n)
    ensures Chain(s, n + m)
  {
    forall i | 0 <= i < |s| - 1 ensures FollowsIn(n + m, s[i], s[i + 1]) {
      var k :| 0 <= k < |n| - 1 && n[k] == s[i] && n[k + 1] == s[i + 1];
      assert (n + m)[k] == n[k] && (n + m)[k + 1] == n[k + 1];
    }
  }

  /** The placement of no run: the first gap label throughout. */
  lemma {:induction false} ChainBlank(g: nat)
    ensures Chain([-1] + Repeat(-1, g) + [-Counter([])], Naming([]))
  {
    var n := Naming([]);
    assert n == [-1, -1];
    var s := [-1] + Repeat(-1, g) + [-Counter([])];
    forall i | 0 <= i < |s| - 1 ensures FollowsIn(n, s[i], s[i + 1]) {
      assert s[i] == -1 && s[i + 1] == -1;
      assert n[0] == s[i] && n[1] == s[i + 1];
    }
  }

  /** A stretch of the naming is a chain of it. */
  lemma {:induction false} SliceChain(n: seq<int>, lo: nat, hi: nat)
    requires lo <= hi <= |n|
    ensures Chain(n[lo..hi], n)
  {
    var s := n[lo..hi];
    forall i | 0 <= i < |s| - 1 ensures FollowsIn(n, s[i], s[i + 1]) {
      assert n[lo + i] == s[i] && n[lo + i + 1] == s[i + 1];
    }
  }

  /** A label that follows itself in the naming may repeat any number of times. */
  lemma {:induction false} RepeatChain(l: int, k: nat, n: seq<int>, j: int)
    requires 0 <= j < |n| - 1 && n[j] == l && n[j + 1] == l
    ensures Chain(Repeat(l, k), n)
  {
    var s := Repeat(l, k);
    forall i | 0 <= i < |s| - 1 ensures FollowsIn(n, s[i], s[i + 1]) {
      assert n[j] == s[i] && n[j + 1] == s[i + 1];
    }
  }

  /**
   * After a stretch `m` ending on gap label `-t`, the run `t + 1, …, t + x` and a doubled
   * gap `-u`: from `-t`, through the run, into `-u` repeated `g + 1` times, every step is a
   * step of that sequence.
   */
  lemma {:induction false} TailChain(m: seq<int>, t: int, x: nat, u: int, g: nat)
    requires |m| > 0 && m[|m| - 1] == -t
    ensures Chain([-t] + Run(t + 1, x) + Repeat(-u, g + 1), m + Run(t + 1, x) + [-u, -u])
  {
    var run := Run(t + 1, x);
    var n := m + run + [-u, -u];
    var L := |m|;
    var a := n[L - 1..L + x + 1];
    assert a == [-t] + run + [-u];
    SliceChain(n, L - 1, L + x + 1);
    RepeatChain(-u, g + 1, n, L + x);
    var b := Repeat(-u, g + 1);
    assert a + b[1..] == [-t] + run + b;
    ChainJoin(a, b, n, [-t] + run + b);
  }

  /**
   * One more run of `x` cells: from the gap label before it, through its labels, into the
   * closing gap label repeated `g + 1` times, every step is a step of the longer naming.
   */
  lemma {:induction false} ChainStep(p: seq<int>, x: nat, g: nat)
    ensures Chain([-Counter(p)] + Run(Counter(p) + 1, x) + Repeat(-Counter(p + [x]), g + 1), Naming(p + [x]))
  {
    NamingSnoc(p, x);
    NamingEnds(p);
    TailChain(Naming(p), Counter(p), x, Counter(p + [x]), g);
  }

  /** A placement whose last gap is not empty, or that has no run, ends on its last gap label. */
  lemma {:induction false} PlacedEnds(clues: seq<nat>, gaps: seq<nat>)
    requires |gaps| == |clues| + 1 && (clues == [] || gaps[|clues|] >= 1)
    ensures var a := [-1] + Placed(clues, gaps); a[|a| - 1] == -Counter(clues)
  {
  }

  /** The chain of the shorter clue list, without its closing label, in the longer naming. */
  lemma {:induction false} ChainOfPrefix(p: seq<nat>, gp: seq<nat>, x: nat)
    requires |gp| == |p| + 1
    requires Chain([-1] + Placed(p, gp) + [-Counter(p)], Naming(p))
    ensures Chain([-1] + Placed(p, gp), Naming(p + [x]))
  {
    var a := [-1] + Placed(p, gp);
    var s := a + [-Counter(p)];
    ChainPrefix(s, Naming(p), |a|);
    assert s[..|a|] == a;
    var m := Run(Counter(p) + 1, x) + [-Counter(p + [x]), -Counter(p + [x])];
    ChainGrow(a, Naming(p), m);
    NamingSnoc(p, x);
    assert Naming(p) + m == Naming(p + [x]);
  }

  /** Every placement with proper gaps, framed by the naming's first and last labels, is a chain of the naming. */
  lemma {:induction false} PlacedChain(clues: seq<nat>, gaps: seq<nat>)
    requires Spacing(clues, gaps)
    ensures Chain([-1] + Placed(clues, gaps) + [-Counter(clues)], Naming(clues))
  {
    if clues == [] {
      ChainBlank(gaps[0]);
    } else {
      var k := |clues|;
      assert Spacing(clues[..k - 1], gaps[..k]);
      PlacedChain(clues[..k - 1], gaps[..k]);
      PlacedChainStep(clues, gaps);
    }
  }

  /** The step of `PlacedChain`: the chain of the clue list without its last run, grown by that run. */
  lemma {:induction false} PlacedChainStep(clues: seq<nat>, gaps: seq<nat>)
    requires Spacing(clues, gaps) && clues != []
    requires var k := |clues|;
      Chain([-1] + Placed(clues[..k - 1], gaps[..k]) + [-Counter(clues[..k - 1])], Naming(clues[..k - 1]))
    ensures Chain([-1] + Placed(clues, gaps) + [-Counter(clues)], Naming(clues))
  {
    var k := |clues|;
    var p, x, gp := clues[..k - 1], clues[k - 1], gaps[..k];
    assert p + [x] == clues;
    ChainOfPrefix(p, gp, x);
    PlacedEnds(p, gp);
    ChainStep(p, x, gaps[k]);
    var a := [-1] + Placed(p, gp);
    var b := [-Counter(p)] + Run(Counter(p) + 1, x) + Repeat(-Counter(clues), gaps[k] + 1);
    PlacedJoin(clues, gaps);
    ChainJoin(a, b, Naming(clues), [-1] + Placed(clues, gaps) + [-Counter(clues)]);
  }

  /** The sequence shape behind `PlacedJoin`. */
  lemma {:induction false} JoinShape(whole: seq<int>, P: seq<int>, run: seq<int>, c: int, g: nat, t: int)
    requires whole == P + run + Repeat(c, g)
    ensures var b := [t] + run + Repeat(c, g + 1);
      [-1] + P + b[1..] == [-1] + whole + [c]
  {
    var b := [t] + run + Repeat(c, g + 1);
    assert b[1..] == run + Repeat(c, g + 1);
    assert Repeat(c, g + 1) == Repeat(c, g) + [c];
    assert [-1] + P + (run + (Repeat(c, g) + [c])) == [-1] + (P + run + Repeat(c, g)) + [c];
  }

  /** How `PlacedChain` puts its two chains together. */
  lemma {:induction false} PlacedJoin(clues: seq<nat>, gaps: seq<nat>)
    requires |gaps| == |clues| + 1 && clues != []
    ensures var k := |clues|;
      var p := clues[..k - 1];
      var b := [-Counter(p)] + Run(Counter(p) + 1, clues[k - 1]) + Repeat(-Counter(clues), gaps[k] + 1);
      [-1] + Placed(p, gaps[..k]) + b[1..] == [-1] + Placed(clues, gaps) + [-Counter(clues)]
  {
    var k := |clues|;
    var p := clues[..k - 1];
    PlacedUnfold(clues, gaps);
    JoinShape(Placed(clues, gaps), Placed(p, gaps[..k]), Run(Counter(p) + 1, clues[k - 1]), -Counter(clues), gaps[k], -Counter(p));
  }

  /** `Placed` unfolded once. */
  lemma {:induction false} PlacedUnfold(c: seq<nat>, g: seq<nat>)
    requires |g| == |c| + 1 && c != []
    ensures Placed(c, g) == Placed(c[..|c| - 1], g[..|c|]) + Run(Counter(c[..|c| - 1]) + 1, c[|c| - 1]) + Repeat(-Counter(c), g[|c|])
  {
  }

  /** One run lengthened by a cell. */
  function Lengthen(c: seq<nat>): (r: seq<nat>)
    requires c != []
  {
    c[..|c| - 1] + [c[|c| - 1] + 1]
  }

  /** A blank cell more at the end of a drawn line lengthens its last gap. */
  lemma {:induction false} DrawBlank(c: seq<nat>, gaps: seq<nat>)
    requires |gaps| == |c| + 1
    ensures Draw(c, gaps[|c| := gaps[|c|] + 1]) == Draw(c, gaps) + [-1]
  {
    var g := gaps[|c| := gaps[|c|] + 1];
    if c != [] {
      assert g[..|c|] == gaps[..|c|];
    }
  }

  /** A filled cell more at the end of a line drawn without a last gap lengthens its last run. */
  lemma {:induction false} DrawExtend(c: seq<nat>, gaps: seq<nat>)
    requires |gaps| == |c| + 1 && c != [] && gaps[|c|] == 0
    ensures Draw(Lengthen(c), gaps) == Draw(c, gaps) + [1]
  {
    var l := Lengthen(c);
    assert l[..|l| - 1] == c[..|c| - 1];
  }

  /** A filled cell more at the end of a line drawn with a last gap starts a run of one. */
  lemma {:induction false} DrawStart(c: seq<nat>, gaps: seq<nat>)
    requires |gaps| == |c| + 1
    ensures Draw(c + [1], gaps + [0]) == Draw(c, gaps) + [1]
  {
    assert (c + [1])[..|c|] == c;
    assert (gaps + [0])[..|c| + 1] == gaps;
  }

  /** Every ±1 line is drawn from the runs `row_to_clues` reads off it and some proper gaps. */
  lemma {:induction false} LineDrawn(x: seq<int>) returns (cs: seq<nat>, gaps: seq<nat>)
    requires TwoTone(x)
    ensures cs == Runs(x) && Spacing(cs, gaps) && Draw(cs, gaps) == x
  {
    if x == [] {
      cs, gaps := [], [0];
    } else {
      var y, v := x[..|x| - 1], x[|x| - 1];
      assert x == y + [v];
      var cy, gy := LineDrawn(y);
      cs, gaps := DrawnStep(y, v, cy, gy);
    }
  }

  /** The step of `LineDrawn`: one more cell, blank, extending a run, or opening one. */
  lemma {:induction false} DrawnStep(y: seq<int>, v: int, cy: seq<nat>, gy: seq<nat>) returns (cs: seq<nat>, gaps: seq<nat>)
    requires v == 1 || v == -1
    requires cy == Runs(y) && Spacing(cy, gy) && Draw(cy, gy) == y
    ensures cs == Runs(y + [v]) && Spacing(cs, gaps) && Draw(cs, gaps) == y + [v]
  {
    RunsSnoc(y, v);
    RunsPositive(y);
    DrawRuns(cy, gy);
    if v == -1 {
      cs, gaps := cy, gy[|cy| := gy[|cy|] + 1];
      DrawBlank(cy, gy);
    } else if Running(y) {
      cs, gaps := Lengthen(cy), gy;
      DrawExtend(cy, gy);
    } else {
      cs, gaps := cy + [1], gy + [0];
      DrawStart(cy, gy);
    }
  }

  /**
   * The first half of the round trip: every ±1 line with clues `clues` is shown by a
   * placement of the labels of `cell_naming(clues)` that the line's passes admit.
   */
  lemma {:induction false} WalkOfLine(clues: seq<int>, x: seq<int>) returns (w: seq<int>)
    requires TwoTone(x) && RowClues(x) == clues
    ensures LineWalk(w, ShapeOf(clues))
    ensures forall i :: 0 <= i < |w| ==> w[i] in Labels(clues)
    ensures Shading(w) == x
  {
    var ks, gs := LineLayout(clues, x);
    w := Placed(ks, gs);
    PlacedShows(ks, gs);
    PlacedWalk(ks, gs);
  }

  /** The clues of a ±1 line and gaps that draw it, with `[0]` standing for no run. */
  lemma {:induction false} LineLayout(clues: seq<int>, x: seq<int>) returns (ks: seq<nat>, gs: seq<nat>)
    requires TwoTone(x) && RowClues(x) == clues
    ensures ks == clues && Spacing(ks, gs) && Draw(ks, gs) == x
  {
    var cs, gaps := LineDrawn(x);
    if cs == [] {
      ks, gs := [0], [gaps[0], 0];
      assert [0][..0] == [] && gs[..1] == [gaps[0]];
      assert Draw(ks, gs) == Draw([], [gaps[0]]) + Ones(0) + Blanks(0);
    } else {
      ks, gs := cs, gaps;
    }
  }

  /** A layout with proper gaps is a walk of the naming's labels that both passes admit. */
  lemma {:induction false} PlacedWalk(clues: seq<nat>, gaps: seq<nat>)
    requires Spacing(clues, gaps)
    ensures LineWalk(Placed(clues, gaps), ShapeOf(clues))
    ensures forall i :: 0 <= i < |Placed(clues, gaps)| ==> Placed(clues, gaps)[i] in Labels(clues)
  {
    var w := Placed(clues, gaps);
    PlacedChain(clues, gaps);
    var s := [-1] + w + [-Counter(clues)];
    ChainLabels(s, Naming(clues));
    forall i | 0 <= i < |w| ensures w[i] in Labels(clues) {
      assert s[i + 1] == w[i];
    }
    if |w| > 0 {
      WalkChain(clues, w);
    } else {
      assert Reverse(w) == [];
    }
  }
}
