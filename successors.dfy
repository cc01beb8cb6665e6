/**
 * The successor relation of a label sequence (`immediate_successors` in Nonogram/Solver.py
 * and nonogram.py): each label maps to the set of labels that follow it somewhere in the
 * sequence.  Run on the reversed sequence it gives the predecessor relation.
 */
module Transitions {
  import opened Encoding

  /** Reading a `defaultdict(set)`: a missing label has no successors. */
  function Lookup(m: map<int, set<int>>, l: int): set<int>
  {
    if l in m then m[l] else {}
  }

  /** `l` is immediately followed by `x` at some position of `s`. */
  ghost predicate FollowsIn(s: seq<int>, l: int, x: int)
  {
    exists i :: 0 <= i < |s| - 1 && s[i] == l && s[i + 1] == x
  }

  /** The successor map of `s`, built by the same left-to-right pairing as the source. */
  function Successors(s: seq<int>): map<int, set<int>>
  {
    if |s| < 2 then map[]
    else
      var p := Successors(s[..|s| - 1]);
      var l := s[|s| - 2];
      p[l := Lookup(p, l) + {s[|s| - 1]}]
  }

  /**
   * The keys of the successor map are the labels that have a next element, and each key
   * maps to exactly the labels that immediately follow it somewhere in `s`.
   */
  lemma {:induction false} SuccessorsCharacterization(s: seq<int>)
    ensures forall l :: l in Successors(s) <==> exists i :: 0 <= i < |s| - 1 && s[i] == l
    ensures forall l, x :: x in Lookup(Successors(s), l) <==> FollowsIn(s, l, x)
  {
    if |s| >= 2 {
      var s' := s[..|s| - 1];
      SuccessorsCharacterization(s');
      var p := Successors(s');
      var l := s[|s| - 2];
      var m := Successors(s);
      assert m == p[l := Lookup(p, l) + {s[|s| - 1]}];
      assert forall i :: 0 <= i < |s'| ==> s'[i] == s[i];
      forall l' ensures l' in m <==> exists i :: 0 <= i < |s| - 1 && s[i] == l'
      {
        if l' in m && l' != l {
          assert l' in p;
          var i :| 0 <= i < |s'| - 1 && s'[i] == l';
          assert s[i] == l';
        }
        if exists i :: 0 <= i < |s| - 1 && s[i] == l' {
          var i :| 0 <= i < |s| - 1 && s[i] == l';
          if i < |s| - 2 { assert s'[i] == l'; }
        }
      }
      forall l', x ensures x in Lookup(m, l') <==> FollowsIn(s, l', x)
      {
        if x in Lookup(m, l') {
          if l' == l && x == s[|s| - 1] {
            assert s[|s| - 2] == l' && s[|s| - 1] == x;
          } else {
            assert x in Lookup(p, l');
            var i :| 0 <= i < |s'| - 1 && s'[i] == l' && s'[i + 1] == x;
            assert s[i] == l' && s[i + 1] == x;
          }
        }
        if FollowsIn(s, l', x) {
          var i :| 0 <= i < |s| - 1 && s[i] == l' && s[i + 1] == x;
          if i < |s| - 2 {
            assert s'[i] == l' && s'[i + 1] == x;
            assert FollowsIn(s', l', x);
          }
        }
      }
    }
  }

  /** `immediate_successors`: one scan pairing every label with the next one. */
  method ImmediateSuccessors(naming: seq<int>) returns (result: map<int, set<int>>)
    requires |naming| > 0
    ensures result == Successors(naming)
    ensures forall l, x :: x in Lookup(result, l) <==> FollowsIn(naming, l, x)
  {
    result := map[];
    var predecessorName := naming[0];
    for k := 1 to |naming|
      invariant predecessorName == naming[k - 1]
      invariant result == Successors(naming[..k])
    {
      var currentName := naming[k];
      assert naming[..k + 1][..k] == naming[..k];
      result := result[predecessorName := Lookup(result, predecessorName) + {currentName}];
      predecessorName := currentName;
    }
    assert naming[..|naming|] == naming;
    SuccessorsCharacterization(naming);
  }

  /** Python's `reversed`, as a sequence. */
  function Reverse<T>(s: seq<T>): (r: seq<T>)
    ensures |r| == |s|
    ensures forall i :: 0 <= i < |s| ==> r[i] == s[|s| - 1 - i]
  {
    if s == [] then [] else Reverse(s[1..]) + [s[0]]
  }

  lemma ReverseReverse<T>(s: seq<T>)
    ensures Reverse(Reverse(s)) == s
  {
    assert forall i :: 0 <= i < |s| ==> Reverse(Reverse(s))[i] == s[i];
  }

  /**
   * The predecessor map (the successor map of the reversed sequence) is the converse of the
   * successor map: `x` may precede `l` exactly when `l` may follow `x`.
   */
  lemma PredecessorsConverse(s: seq<int>)
    ensures forall l, x :: x in Lookup(Successors(Reverse(s)), l) <==> l in Lookup(Successors(s), x)
  {
    SuccessorsCharacterization(s);
    SuccessorsCharacterization(Reverse(s));
    forall l, x ensures FollowsIn(Reverse(s), l, x) <==> FollowsIn(s, x, l)
    {
      if FollowsIn(Reverse(s), l, x) {
        FollowsReversed(s, l, x);
      }
      if FollowsIn(s, x, l) {
        FollowedReversed(s, l, x);
      }
    }
  }

  /** A pair adjacent in the reversed sequence is adjacent, the other way round, in `s`. */
  lemma FollowsReversed(s: seq<int>, l: int, x: int)
    requires FollowsIn(Reverse(s), l, x)
    ensures FollowsIn(s, x, l)
  {
    var r := Reverse(s);
    var i :| 0 <= i < |r| - 1 && r[i] == l && r[i + 1] == x;
    var j := |s| - 2 - i;
    assert s[j] == x && s[j + 1] == l;
  }

  /** A pair adjacent in `s` is adjacent, the other way round, in the reversed sequence. */
  lemma FollowedReversed(s: seq<int>, l: int, x: int)
    requires FollowsIn(s, x, l)
    ensures FollowsIn(Reverse(s), l, x)
  {
    var r := Reverse(s);
    var j :| 0 <= j < |s| - 1 && s[j] == x && s[j + 1] == l;
    var i := |s| - 2 - j;
    assert r[i] == l && r[i + 1] == x;
  }

  /** The closing gap label of a naming is followed only by itself. */
  lemma LastLabelSelfLoop(clues: seq<int>)
    ensures var n := Naming(clues); Lookup(Successors(n), n[|n| - 1]) == {n[|n| - 1]}
  {
    var n := Naming(clues);
    NamingEnds(clues);
    NamingIncreasing(clues);
    SuccessorsCharacterization(n);
    var last := n[|n| - 1];
    assert FollowsIn(n, last, last) by {
      assert n[|n| - 2] == last && n[|n| - 1] == last;
    }
    forall x | x in Lookup(Successors(n), last) ensures x == last
    {
      var i :| 0 <= i < |n| - 1 && n[i] == last && n[i + 1] == x;
    }
  }

  /** The opening gap label is followed by itself and by what comes after its twin. */
  lemma FirstLabelSuccessors(clues: seq<int>)
    requires clues != []
    ensures var n := Naming(clues); Lookup(Successors(n), n[0]) == {n[0], n[2]}
  {
    var n := Naming(clues);
    NamingEnds(clues);
    NamingIncreasing(clues);
    NamingLength(clues);
    SuccessorsCharacterization(n);
    assert FollowsIn(n, n[0], n[1]);
    assert FollowsIn(n, n[0], n[2]) by { assert n[1] == n[0]; }
    forall x | x in Lookup(Successors(n), n[0]) ensures x == n[0] || x == n[2]
    {
      var i :| 0 <= i < |n| - 1 && n[i] == n[0] && n[i + 1] == x;
    }
  }

  /** Appending one label adds one pair to the map. */
  lemma SuccessorsSnoc(s: seq<int>, x: int)
    requires |s| >= 1
    ensures Successors(s + [x]) == Successors(s)[s[|s| - 1] := Lookup(Successors(s), s[|s| - 1]) + {x}]
  {
    var u := s + [x];
    assert |u| >= 2 && u[..|u| - 1] == s;
    assert u[|u| - 2] == s[|s| - 1] && u[|u| - 1] == x;
  }

  /** The first 4 labels of `cell_naming([3, 1])` and their successors. */
  lemma SuccessorsThreeOneOpening()
    ensures Successors([-1, -1, 2, 3]) == map[-1 := {-1, 2}, 2 := {3}]
  {
    assert Successors([-1]) == map[];
    SuccessorsSnoc([-1], -1);
    assert [-1] + [-1] == [-1, -1];
    assert Lookup(map[], -1) + {-1} == {-1};
    SuccessorsSnoc([-1, -1], 2);
    assert [-1, -1] + [2] == [-1, -1, 2];
    assert Lookup(map[-1 := {-1}], -1) + {2} == {-1, 2};
    SuccessorsSnoc([-1, -1, 2], 3);
    assert [-1, -1, 2] + [3] == [-1, -1, 2, 3];
    assert Lookup(map[-1 := {-1, 2}], 2) + {3} == {3};
  }

  /** The first 7 labels of `cell_naming([3, 1])` and their successors. */
  lemma SuccessorsThreeOneFirstRun()
    ensures Successors([-1, -1, 2, 3, 4, -5, -5]) == map[-1 := {-1, 2}, 2 := {3}, 3 := {4}, 4 := {-5}, -5 := {-5}]
  {
    SuccessorsThreeOneOpening();
    SuccessorsSnoc([-1, -1, 2, 3], 4);
    assert [-1, -1, 2, 3] + [4] == [-1, -1, 2, 3, 4];
    assert Lookup(map[-1 := {-1, 2}, 2 := {3}], 3) + {4} == {4};
    SuccessorsSnoc([-1, -1, 2, 3, 4], -5);
    assert [-1, -1, 2, 3, 4] + [-5] == [-1, -1, 2, 3, 4, -5];
    assert Lookup(map[-1 := {-1, 2}, 2 := {3}, 3 := {4}], 4) + {-5} == {-5};
    SuccessorsSnoc([-1, -1, 2, 3, 4, -5], -5);
    assert [-1, -1, 2, 3, 4, -5] + [-5] == [-1, -1, 2, 3, 4, -5, -5];
    assert Lookup(map[-1 := {-1, 2}, 2 := {3}, 3 := {4}, 4 := {-5}], -5) + {-5} == {-5};
  }

  /** All ten labels of `cell_naming([3, 1])` and their successors. */
  lemma SuccessorsThreeOneLabels()
    ensures Successors([-1, -1, 2, 3, 4, -5, -5, 6, -7, -7]) ==
      map[-1 := {-1, 2}, 2 := {3}, 3 := {4}, 4 := {-5}, -5 := {-5, 6}, 6 := {-7}, -7 := {-7}]
  {
    SuccessorsThreeOneFirstRun();
    SuccessorsSnoc([-1, -1, 2, 3, 4, -5, -5], 6);
    assert [-1, -1, 2, 3, 4, -5, -5] + [6] == [-1, -1, 2, 3, 4, -5, -5, 6];
    assert Lookup(map[-1 := {-1, 2}, 2 := {3}, 3 := {4}, 4 := {-5}, -5 := {-5}], -5) + {6} == {-5, 6};
    SuccessorsSnoc([-1, -1, 2, 3, 4, -5, -5, 6], -7);
    assert [-1, -1, 2, 3, 4, -5, -5, 6] + [-7] == [-1, -1, 2, 3, 4, -5, -5, 6, -7];
    assert Lookup(map[-1 := {-1, 2}, 2 := {3}, 3 := {4}, 4 := {-5}, -5 := {-5, 6}], 6) + {-7} == {-7};
    SuccessorsSnoc([-1, -1, 2, 3, 4, -5, -5, 6, -7], -7);
    assert [-1, -1, 2, 3, 4, -5, -5, 6, -7] + [-7] == [-1, -1, 2, 3, 4, -5, -5, 6, -7, -7];
    assert Lookup(map[-1 := {-1, 2}, 2 := {3}, 3 := {4}, 4 := {-5}, -5 := {-5, 6}, 6 := {-7}], -7) + {-7} == {-7};
  }

  /** The successor map of `cell_naming([3, 1])` listed in Solver_test.py. */
  lemma SuccessorsThreeOne()
    ensures Successors(Naming([3, 1])) ==
      map[-1 := {-1, 2}, 2 := {3}, 3 := {4}, 4 := {-5}, -5 := {-5, 6}, 6 := {-7}, -7 := {-7}]
  {
    NamingThreeOne();
    SuccessorsThreeOneLabels();
  }

  /** The first 4 labels of a naming that opens with a one-cell run, [-1, -1, 2, -3], and their successors. */
  lemma SuccessorsOneRunOpening()
    ensures Successors([-1, -1, 2, -3]) ==
      map[-1 := {-1, 2}, 2 := {-3}]
  {
    assert Successors([-1]) == map[];
    SuccessorsSnoc([-1], -1);
    assert [-1] + [-1] == [-1, -1];
    assert Lookup(map[], -1) + {-1} == {-1};
    SuccessorsSnoc([-1, -1], 2);
    assert [-1, -1] + [2] == [-1, -1, 2];
    assert Lookup(map[-1 := {-1}], -1) + {2} == {-1, 2};
    SuccessorsSnoc([-1, -1, 2], -3);
    assert [-1, -1, 2] + [-3] == [-1, -1, 2, -3];
    assert Lookup(map[-1 := {-1, 2}], 2) + {-3} == {-3};
  }

  /** The first 6 labels of a naming that opens with a run of 1 and then a second run, [-1, -1, 2, -3, -3, 4], and their successors. */
  lemma SuccessorsSecondRunStart()
    ensures Successors([-1, -1, 2, -3, -3, 4]) ==
      map[-1 := {-1, 2}, 2 := {-3}, -3 := {-3, 4}]
  {
    SuccessorsOneRunOpening();
    SuccessorsSnoc([-1, -1, 2, -3], -3);
    assert [-1, -1, 2, -3] + [-3] == [-1, -1, 2, -3, -3];
    assert Lookup(map[-1 := {-1, 2}, 2 := {-3}], -3) + {-3} == {-3};
    SuccessorsSnoc([-1, -1, 2, -3, -3], 4);
    assert [-1, -1, 2, -3, -3] + [4] == [-1, -1, 2, -3, -3, 4];
    assert Lookup(map[-1 := {-1, 2}, 2 := {-3}, -3 := {-3}], -3) + {4} == {-3, 4};
  }

  /** The first 7 labels of a naming that opens with runs of 1 and 2, [-1, -1, 2, -3, -3, 4, 5], and their successors. */
  lemma SuccessorsOneTwoOpening()
    ensures Successors([-1, -1, 2, -3, -3, 4, 5]) ==
      map[-1 := {-1, 2}, 2 := {-3}, -3 := {-3, 4}, 4 := {5}]
  {
    SuccessorsSecondRunStart();
    SuccessorsSnoc([-1, -1, 2, -3, -3, 4], 5);
    assert [-1, -1, 2, -3, -3, 4] + [5] == [-1, -1, 2, -3, -3, 4, 5];
    assert Lookup(map[-1 := {-1, 2}, 2 := {-3}, -3 := {-3, 4}], 4) + {5} == {5};
  }

  /** All nine labels of `cell_naming([1, 2])` and their successors. */
  lemma SuccessorsOneTwoLabels()
    ensures Successors([-1, -1, 2, -3, -3, 4, 5, -6, -6]) ==
      map[-1 := {-1, 2}, 2 := {-3}, -3 := {-3, 4}, 4 := {5}, 5 := {-6}, -6 := {-6}]
  {
    SuccessorsOneTwoOpening();
    SuccessorsSnoc([-1, -1, 2, -3, -3, 4, 5], -6);
    assert [-1, -1, 2, -3, -3, 4, 5] + [-6] == [-1, -1, 2, -3, -3, 4, 5, -6];
    assert Lookup(map[-1 := {-1, 2}, 2 := {-3}, -3 := {-3, 4}, 4 := {5}], 5) + {-6} == {-6};
    SuccessorsSnoc([-1, -1, 2, -3, -3, 4, 5, -6], -6);
    assert [-1, -1, 2, -3, -3, 4, 5, -6] + [-6] == [-1, -1, 2, -3, -3, 4, 5, -6, -6];
    assert Lookup(map[-1 := {-1, 2}, 2 := {-3}, -3 := {-3, 4}, 4 := {5}, 5 := {-6}], -6) + {-6} == {-6};
  }

  /** The first 10 labels of [-1, -1, 2, -3, -3, 4, 5, -6, -6, 7, 8, 9, -10, -10] and their successors. */
  lemma SuccessorsOneTwoThreeLabelsPart3()
    ensures Successors([-1, -1, 2, -3, -3, 4, 5, -6, -6, 7]) ==
      map[-1 := {-1, 2}, 2 := {-3}, -3 := {-3, 4}, 4 := {5}, 5 := {-6}, -6 := {-6, 7}]
  {
    SuccessorsOneTwoLabels();
    SuccessorsSnoc([-1, -1, 2, -3, -3, 4, 5, -6, -6], 7);
    assert [-1, -1, 2, -3, -3, 4, 5, -6, -6] + [7] == [-1, -1, 2, -3, -3, 4, 5, -6, -6, 7];
    assert Lookup(map[-1 := {-1, 2}, 2 := {-3}, -3 := {-3, 4}, 4 := {5}, 5 := {-6}, -6 := {-6}], -6) + {7} == {-6, 7};
  }

  /** The first 13 labels of [-1, -1, 2, -3, -3, 4, 5, -6, -6, 7, 8, 9, -10, -10] and their successors. */
  lemma SuccessorsOneTwoThreeLabelsPart4()
    ensures Successors([-1, -1, 2, -3, -3, 4, 5, -6, -6, 7, 8, 9, -10]) ==
      map[-1 := {-1, 2}, 2 := {-3}, -3 := {-3, 4}, 4 := {5}, 5 := {-6}, -6 := {-6, 7}, 7 := {8}, 8 := {9}, 9 := {-10}]
  {
    SuccessorsOneTwoThreeLabelsPart3();
    SuccessorsSnoc([-1, -1, 2, -3, -3, 4, 5, -6, -6, 7], 8);
    assert [-1, -1, 2, -3, -3, 4, 5, -6, -6, 7] + [8] == [-1, -1, 2, -3, -3, 4, 5, -6, -6, 7, 8];
    assert Lookup(map[-1 := {-1, 2}, 2 := {-3}, -3 := {-3, 4}, 4 := {5}, 5 := {-6}, -6 := {-6, 7}], 7) + {8} == {8};
    SuccessorsSnoc([-1, -1, 2, -3, -3, 4, 5, -6, -6, 7, 8], 9);
    assert [-1, -1, 2, -3, -3, 4, 5, -6, -6, 7, 8] + [9] == [-1, -1, 2, -3, -3, 4, 5, -6, -6, 7, 8, 9];
    assert Lookup(map[-1 := {-1, 2}, 2 := {-3}, -3 := {-3, 4}, 4 := {5}, 5 := {-6}, -6 := {-6, 7}, 7 := {8}], 8) + {9} == {9};
    SuccessorsSnoc([-1, -1, 2, -3, -3, 4, 5, -6, -6, 7, 8, 9], -10);
    assert [-1, -1, 2, -3, -3, 4, 5, -6, -6, 7, 8, 9] + [-10] == [-1, -1, 2, -3, -3, 4, 5, -6, -6, 7, 8, 9, -10];
    assert Lookup(map[-1 := {-1, 2}, 2 := {-3}, -3 := {-3, 4}, 4 := {5}, 5 := {-6}, -6 := {-6, 7}, 7 := {8}, 8 := {9}], 9) + {-10} == {-10};
  }

  /** All fourteen labels of `cell_naming([1, 2, 3])` and their successors. */
  lemma SuccessorsOneTwoThreeLabels()
    ensures Successors([-1, -1, 2, -3, -3, 4, 5, -6, -6, 7, 8, 9, -10, -10]) ==
      map[-1 := {-1, 2}, 2 := {-3}, -3 := {-3, 4}, 4 := {5}, 5 := {-6}, -6 := {-6, 7}, 7 := {8}, 8 := {9}, 9 := {-10}, -10 := {-10}]
  {
    SuccessorsOneTwoThreeLabelsPart4();
    SuccessorsSnoc([-1, -1, 2, -3, -3, 4, 5, -6, -6, 7, 8, 9, -10], -10);
    assert [-1, -1, 2, -3, -3, 4, 5, -6, -6, 7, 8, 9, -10] + [-10] == [-1, -1, 2, -3, -3, 4, 5, -6, -6, 7, 8, 9, -10, -10];
    assert Lookup(map[-1 := {-1, 2}, 2 := {-3}, -3 := {-3, 4}, 4 := {5}, 5 := {-6}, -6 := {-6, 7}, 7 := {8}, 8 := {9}, 9 := {-10}], -10) + {-10} == {-10};
  }

  /** All six labels of `cell_naming([2])` and their successors. */
  lemma SuccessorsTwoLabels()
    ensures Successors([-1, -1, 2, 3, -4, -4]) ==
      map[-1 := {-1, 2}, 2 := {3}, 3 := {-4}, -4 := {-4}]
  {
    SuccessorsThreeOneOpening();
    SuccessorsSnoc([-1, -1, 2, 3], -4);
    assert [-1, -1, 2, 3] + [-4] == [-1, -1, 2, 3, -4];
    assert Lookup(map[-1 := {-1, 2}, 2 := {3}], 3) + {-4} == {-4};
    SuccessorsSnoc([-1, -1, 2, 3, -4], -4);
    assert [-1, -1, 2, 3, -4] + [-4] == [-1, -1, 2, 3, -4, -4];
    assert Lookup(map[-1 := {-1, 2}, 2 := {3}, 3 := {-4}], -4) + {-4} == {-4};
  }

  /** The first 7 labels of [-1, -1, 2, -3, -3, 4, -5, -5] and their successors. */
  lemma SuccessorsOneOneLabelsPart2()
    ensures Successors([-1, -1, 2, -3, -3, 4, -5]) ==
      map[-1 := {-1, 2}, 2 := {-3}, -3 := {-3, 4}, 4 := {-5}]
  {
    SuccessorsSecondRunStart();
    SuccessorsSnoc([-1, -1, 2, -3, -3, 4], -5);
    assert [-1, -1, 2, -3, -3, 4] + [-5] == [-1, -1, 2, -3, -3, 4, -5];
    assert Lookup(map[-1 := {-1, 2}, 2 := {-3}, -3 := {-3, 4}], 4) + {-5} == {-5};
  }

  /** All eight labels of `cell_naming([1, 1])` and their successors. */
  lemma SuccessorsOneOneLabels()
    ensures Successors([-1, -1, 2, -3, -3, 4, -5, -5]) ==
      map[-1 := {-1, 2}, 2 := {-3}, -3 := {-3, 4}, 4 := {-5}, -5 := {-5}]
  {
    SuccessorsOneOneLabelsPart2();
    SuccessorsSnoc([-1, -1, 2, -3, -3, 4, -5], -5);
    assert [-1, -1, 2, -3, -3, 4, -5] + [-5] == [-1, -1, 2, -3, -3, 4, -5, -5];
    assert Lookup(map[-1 := {-1, 2}, 2 := {-3}, -3 := {-3, 4}, 4 := {-5}], -5) + {-5} == {-5};
  }

  /** The successor map of `cell_naming([1, 2])` given by the doctest of `immediate_successors`. */
  lemma SuccessorsOneTwo()
    ensures Successors(Naming([1, 2])) ==
      map[-1 := {-1, 2}, 2 := {-3}, -3 := {-3, 4}, 4 := {5}, 5 := {-6}, -6 := {-6}]
  {
    NamingOneTwo();
    SuccessorsOneTwoLabels();
  }

  /** The successor map of `cell_naming([1, 2, 3])` given by the doctest of `immediate_successors`. */
  lemma SuccessorsOneTwoThree()
    ensures Successors(Naming([1, 2, 3])) ==
      map[-1 := {-1, 2}, 2 := {-3}, -3 := {-3, 4}, 4 := {5}, 5 := {-6}, -6 := {-6, 7}, 7 := {8}, 8 := {9}, 9 := {-10}, -10 := {-10}]
  {
    NamingOneTwoThree();
    SuccessorsOneTwoThreeLabels();
  }
}
