/**
 * What the greedy pass guarantees: the shape of each group, the disjointness
 * of the names placed by different groups, the bound on the number of groups,
 * and that the names it leaves ungrouped are pairwise dissimilar.
 */
module GroupingProperties {
  import opened EditDistance
  import opened ColumnGrouping

  /** The grouping test does not depend on the order of the two names. */
  lemma SimilarSymmetric(x: string, y: string)
    ensures Similar(x, y) <==> Similar(y, x)
  {
    LevSymmetric(Lower(x), Lower(y));
  }

  /**
   * A name is similar to itself exactly when it is not empty, and the empty
   * name is similar to nothing.
   */
  lemma SimilarToItself(x: string, y: string)
    ensures Similar(x, x) <==> |x| > 0
    ensures !Similar("", y) && !Similar(y, "")
  {
    LevZeroIffEqual(Lower(x), Lower(x));
    assert Lower("") == [];
  }

  /** The distance of the lower-cased names never exceeds the longer original length. */
  lemma DistanceWithinLongerName(x: string, y: string)
    ensures Lev(Lower(x), Lower(y)) <= Max(|x|, |y|)
    ensures |x| - |y| <= Lev(Lower(x), Lower(y)) && |y| - |x| <= Lev(Lower(x), Lower(y))
  {
    LevBounds(Lower(x), Lower(y));
  }

  /**
   * For a non-empty pair the source's test `1 - d / m > 0.6`, read over exact
   * rationals, is the integer test `2 * m > 5 * d` that `Similar` uses.
   */
  lemma SimilarityAboveThreshold(d: nat, m: nat)
    requires m > 0
    ensures (1.0 - (d as real) / (m as real) > 0.6) <==> 2 * m > 5 * d
  {
    var mr := m as real;
    var dr := d as real;
    var r := dr / mr;
    assert r * mr == dr;
    assert 2 * m > 5 * d <==> 0.4 * mr > dr;
    assert 1.0 - r > 0.6 <==> r < 0.4;
    var s := r - 0.4;
    assert s * mr == dr - 0.4 * mr;
    if s < 0.0 {
      assert (-s) * mr > 0.0 * mr;
    } else {
      assert s * mr >= 0.0 * mr;
    }
  }

  /** One iteration of the outer loop. */
  lemma ScanStep(columns: seq<string>, i: nat)
    requires i < |columns|
    ensures var st := Scan(columns, i);
      var similar := Candidates(columns, i, st.processed, |columns|);
      Scan(columns, i + 1) ==
        if columns[i] !in st.processed && |similar| > 0
        then PassState(st.matches + [ColumnMatch(columns[i], similar, GroupScore)], st.processed + {columns[i]} + Elems(similar))
        else st
  {
  }

  /**
   * Names whose lengths differ by at least two fifths of the longer length
   * are never grouped, whatever their characters: the distance is at least
   * the length difference.
   */
  lemma LengthGapNeverSimilar(x: string, y: string)
    requires 5 * (|y| - |x|) >= 2 * |y|
    ensures !Similar(x, y) && !Similar(y, x)
  {
    DistanceWithinLongerName(x, y);
    SimilarToItself(x, y);
    SimilarSymmetric(x, y);
  }

  /** The pass only adds placed names. */
  lemma {:induction false} ProcessedGrows(columns: seq<string>, m: nat, n: nat)
    requires m <= n <= |columns|
    ensures Scan(columns, m).processed <= Scan(columns, n).processed
    decreases n - m
  {
    if m < n {
      ProcessedGrows(columns, m, n - 1);
      ScanStep(columns, n - 1);
    }
  }

  /** The pass only appends groups: the earlier groups are a prefix of the later ones. */
  lemma {:induction false} MatchesGrow(columns: seq<string>, m: nat, n: nat)
    requires m <= n <= |columns|
    ensures Scan(columns, m).matches <= Scan(columns, n).matches
    decreases n - m
  {
    if m < n {
      MatchesGrow(columns, m, n - 1);
      ScanStep(columns, n - 1);
    }
  }

  /**
   * The collected names are exactly the qualifying positions, in input order:
   * `ix` lists, increasingly, every position below `upto` that qualifies, and
   * the candidates are the names at those positions.
   */
  lemma {:induction false} CandidatePositions(columns: seq<string>, idx: nat, p: set<string>, upto: nat)
    returns (ix: seq<nat>)
    requires idx < |columns| && upto <= |columns|
    ensures |ix| == |Candidates(columns, idx, p, upto)|
    ensures forall t :: 0 <= t < |ix| ==>
      ix[t] < upto && Qualifies(columns, idx, p, ix[t]) && columns[ix[t]] == Candidates(columns, idx, p, upto)[t]
    ensures forall t1, t2 :: 0 <= t1 < t2 < |ix| ==> ix[t1] < ix[t2]
    ensures forall k :: 0 <= k < upto && Qualifies(columns, idx, p, k) ==> k in ix
    decreases upto
  {
    if upto == 0 {
      ix := [];
    } else {
      var prev := CandidatePositions(columns, idx, p, upto - 1);
      var c := Candidates(columns, idx, p, upto - 1);
      if Qualifies(columns, idx, p, upto - 1) {
        ix := prev + [upto - 1];
        assert Candidates(columns, idx, p, upto) == c + [columns[upto - 1]];
      } else {
        ix := prev;
        assert Candidates(columns, idx, p, upto) == c;
      }
    }
  }

  /** When no position qualifies, the scan collects nothing. */
  lemma {:induction false} NothingQualifies(columns: seq<string>, idx: nat, p: set<string>, upto: nat)
    requires idx < |columns| && upto <= |columns|
    requires forall k :: 0 <= k < upto ==> !Qualifies(columns, idx, p, k)
    ensures Candidates(columns, idx, p, upto) == []
    decreases upto
  {
    if upto > 0 {
      NothingQualifies(columns, idx, p, upto - 1);
    }
  }

  /** Conversely, when the scan collects nothing, no position qualifies. */
  lemma {:induction false} NoneCollected(columns: seq<string>, idx: nat, p: set<string>, upto: nat, k: nat)
    requires idx < |columns| && k < upto <= |columns|
    requires Candidates(columns, idx, p, upto) == []
    ensures !Qualifies(columns, idx, p, k)
    decreases upto
  {
    if k < upto - 1 {
      NoneCollected(columns, idx, p, upto - 1, k);
    }
  }

  /** Every collected name sits at a qualifying position. */
  lemma {:induction false} CollectedPosition(columns: seq<string>, idx: nat, p: set<string>, upto: nat, t: nat)
    returns (k: nat)
    requires idx < |columns| && upto <= |columns|
    requires t < |Candidates(columns, idx, p, upto)|
    ensures k < upto && Qualifies(columns, idx, p, k) && columns[k] == Candidates(columns, idx, p, upto)[t]
    decreases upto
  {
    var c := Candidates(columns, idx, p, upto - 1);
    if Qualifies(columns, idx, p, upto - 1) && t == |c| {
      k := upto - 1;
    } else {
      k := CollectedPosition(columns, idx, p, upto - 1, t);
    }
  }

  /** The `k`-th group was emitted when the pass reached position `i`, whose name was not yet placed. */
  lemma {:induction false} GroupOrigin(columns: seq<string>, n: nat, k: nat) returns (i: nat)
    requires n <= |columns| && k < |Scan(columns, n).matches|
    ensures i < n && |Scan(columns, i).matches| == k
    ensures columns[i] !in Scan(columns, i).processed
    ensures Scan(columns, n).matches[k] ==
      ColumnMatch(columns[i], Candidates(columns, i, Scan(columns, i).processed, |columns|), GroupScore)
    ensures |Candidates(columns, i, Scan(columns, i).processed, |columns|)| > 0
    decreases n
  {
    ScanStep(columns, n - 1);
    if k < |Scan(columns, n - 1).matches| {
      i := GroupOrigin(columns, n - 1, k);
    } else {
      i := n - 1;
    }
  }

  /**
   * Each group: its representative sits at some position `rep`; its members
   * are the names at increasing positions `members`, none of them `rep`, each
   * similar to the representative; there is at least one member; the score is 0.8.
   */
  lemma GroupShape(columns: seq<string>, k: nat) returns (rep: nat, members: seq<nat>)
    requires k < |SimilarColumns(columns)|
    ensures rep < |columns| && columns[rep] == SimilarColumns(columns)[k].original
    ensures |members| == |SimilarColumns(columns)[k].similar| > 0
    ensures forall t :: 0 <= t < |members| ==>
      members[t] < |columns| && members[t] != rep &&
      columns[members[t]] == SimilarColumns(columns)[k].similar[t] &&
      Similar(columns[rep], columns[members[t]])
    ensures forall t1, t2 :: 0 <= t1 < t2 < |members| ==> members[t1] < members[t2]
    ensures SimilarColumns(columns)[k].similarity == GroupScore
  {
    rep := GroupOrigin(columns, |columns|, k);
    members := CandidatePositions(columns, rep, Scan(columns, rep).processed, |columns|);
  }

  /** The names a group places: its representative and its members. */
  ghost function Placed(g: ColumnMatch): set<string>
  {
    {g.original} + Elems(g.similar)
  }

  ghost function AllPlaced(ms: seq<ColumnMatch>): set<string>
  {
    if |ms| == 0 then {} else AllPlaced(ms[..|ms| - 1]) + Placed(ms[|ms| - 1])
  }

  lemma {:induction false} PlacedWithinAll(ms: seq<ColumnMatch>, k: nat)
    requires k < |ms|
    ensures Placed(ms[k]) <= AllPlaced(ms)
    decreases |ms|
  {
    if k < |ms| - 1 {
      PlacedWithinAll(ms[..|ms| - 1], k);
    }
  }

  /** The inner scan only collects names that are not yet placed. */
  lemma {:induction false} CandidatesUnplaced(columns: seq<string>, idx: nat, p: set<string>, upto: nat)
    requires idx < |columns| && upto <= |columns|
    ensures Elems(Candidates(columns, idx, p, upto)) !! p
    decreases upto
  {
    if upto > 0 {
      CandidatesUnplaced(columns, idx, p, upto - 1);
      var c := Candidates(columns, idx, p, upto - 1);
      if Qualifies(columns, idx, p, upto - 1) {
        assert Elems(c + [columns[upto - 1]]) == Elems(c) + {columns[upto - 1]};
      }
    }
  }

  /** The placed names are exactly the names of the emitted groups. */
  lemma {:induction false} ProcessedIsAllPlaced(columns: seq<string>, n: nat)
    requires n <= |columns|
    ensures Scan(columns, n).processed == AllPlaced(Scan(columns, n).matches)
    decreases n
  {
    if n > 0 {
      var i := n - 1;
      ProcessedIsAllPlaced(columns, i);
      ScanStep(columns, i);
      var st := Scan(columns, i);
      var similar := Candidates(columns, i, st.processed, |columns|);
      if columns[i] !in st.processed && |similar| > 0 {
        var ms := st.matches + [ColumnMatch(columns[i], similar, GroupScore)];
        assert ms[..|ms| - 1] == st.matches;
        assert AllPlaced(ms) == st.processed + Placed(ms[|ms| - 1]);
      }
    }
  }

  /** No name is placed by two different groups, neither as representative nor as member. */
  lemma {:induction false} GroupsDisjoint(columns: seq<string>, n: nat)
    requires n <= |columns|
    ensures forall k1, k2 :: 0 <= k1 < k2 < |Scan(columns, n).matches| ==>
      Placed(Scan(columns, n).matches[k1]) !! Placed(Scan(columns, n).matches[k2])
    decreases n
  {
    if n > 0 {
      var i := n - 1;
      GroupsDisjoint(columns, i);
      ScanStep(columns, i);
      var st := Scan(columns, i);
      var col := columns[i];
      var similar := Candidates(columns, i, st.processed, |columns|);
      if col !in st.processed && |similar| > 0 {
        ProcessedIsAllPlaced(columns, i);
        CandidatesUnplaced(columns, i, st.processed, |columns|);
        var ms := st.matches + [ColumnMatch(col, similar, GroupScore)];
        forall k1, k2 | 0 <= k1 < k2 < |ms| ensures Placed(ms[k1]) !! Placed(ms[k2]) {
          if k2 == |ms| - 1 {
            PlacedWithinAll(st.matches, k1);
          }
        }
      }
    }
  }

  lemma SubsetCardinality(a: set<int>, b: set<int>)
    requires a <= b
    ensures |a| <= |b|
  {
    assert b == a + (b - a);
    assert a * (b - a) == {};
  }

  /** The positions whose names are in `p`. */
  ghost function PositionsIn(columns: seq<string>, p: set<string>): set<int>
  {
    set i | 0 <= i < |columns| && columns[i] in p
  }

  lemma {:induction false} PositionsInBound(columns: seq<string>, p: set<string>)
    ensures |PositionsIn(columns, p)| <= |columns|
    decreases |columns|
  {
    if |columns| > 0 {
      var init := columns[..|columns| - 1];
      PositionsInBound(init, p);
      assert PositionsIn(columns, p) <= PositionsIn(init, p) + {|columns| - 1};
      SubsetCardinality(PositionsIn(columns, p), PositionsIn(init, p) + {|columns| - 1});
    }
  }

  /** A newly emitted group places two positions that were free: its representative's and its first member's. */
  lemma NewGroupPositions(columns: seq<string>, i: nat)
    requires i < |columns|
    requires columns[i] !in Scan(columns, i).processed
    requires |Candidates(columns, i, Scan(columns, i).processed, |columns|)| > 0
    ensures |PositionsIn(columns, Scan(columns, i).processed)| + 2 <= |PositionsIn(columns, Scan(columns, i + 1).processed)|
  {
    var p := Scan(columns, i).processed;
    var similar := Candidates(columns, i, p, |columns|);
    var ix := CandidatePositions(columns, i, p, |columns|);
    var m := ix[0];
    assert Qualifies(columns, i, p, m) && columns[m] == similar[0];
    ScanStep(columns, i);
    var before := PositionsIn(columns, p);
    var after := PositionsIn(columns, Scan(columns, i + 1).processed);
    assert before + {i, m} <= after;
    assert |before + {i, m}| == |before| + 2;
    SubsetCardinality(before + {i, m}, after);
  }

  /** Every group consumes at least two positions not consumed before. */
  lemma {:induction false} GroupsUseTwoPositions(columns: seq<string>, n: nat)
    requires n <= |columns|
    ensures 2 * |Scan(columns, n).matches| <= |PositionsIn(columns, Scan(columns, n).processed)|
    decreases n
  {
    if n > 0 {
      GroupsUseTwoPositions(columns, n - 1);
      var i := n - 1;
      var p := Scan(columns, i).processed;
      ScanStep(columns, i);
      if columns[i] !in p && |Candidates(columns, i, p, |columns|)| > 0 {
        NewGroupPositions(columns, i);
      } else {
        assert Scan(columns, n) == Scan(columns, i);
      }
    }
  }

  /** There are at most half as many groups as columns; in particular no columns give no groups. */
  lemma AtMostHalf(columns: seq<string>)
    ensures 2 * |SimilarColumns(columns)| <= |columns|
  {
    GroupsUseTwoPositions(columns, |columns|);
    PositionsInBound(columns, Scan(columns, |columns|).processed);
  }

  /**
   * A name that was not yet placed when the pass reached it and found no
   * partner there is placed by no group at all, earlier or later.
   */
  lemma {:induction false} UnmatchedColumnStaysUngrouped(columns: seq<string>, idx: nat, n: nat)
    requires idx < n <= |columns|
    requires columns[idx] !in Scan(columns, idx).processed
    requires Candidates(columns, idx, Scan(columns, idx).processed, |columns|) == []
    ensures columns[idx] !in Scan(columns, n).processed
    decreases n
  {
    if n > idx + 1 {
      var j := n - 1;
      UnmatchedColumnStaysUngrouped(columns, idx, j);
      ScanStep(columns, j);
      var st := Scan(columns, j);
      var similar := Candidates(columns, j, st.processed, |columns|);
      if columns[j] !in st.processed && |similar| > 0 {
        var p0 := Scan(columns, idx).processed;
        ProcessedGrows(columns, idx, j);
        // idx found no partner, in particular not j
        NoneCollected(columns, idx, p0, |columns|, j);
        assert !Similar(columns[idx], columns[j]);
        SimilarSymmetric(columns[j], columns[idx]);
        forall t | 0 <= t < |similar| ensures similar[t] != columns[idx] {
          var k := CollectedPosition(columns, j, st.processed, |columns|, t);
        }
        var k0 := CollectedPosition(columns, j, st.processed, |columns|, 0);
        NoneCollected(columns, idx, p0, |columns|, k0);
        assert columns[idx] != columns[j];
      }
    }
  }

  /** A name that no group places found no qualifying partner when the pass reached it. */
  lemma NoPartnerFound(columns: seq<string>, i: nat, k: nat)
    requires i < |columns| && k < |columns|
    requires columns[i] !in Scan(columns, |columns|).processed
    ensures !Qualifies(columns, i, Scan(columns, i).processed, k)
  {
    var p := Scan(columns, i).processed;
    assert Candidates(columns, i, p, |columns|) == [] by {
      ProcessedGrows(columns, i + 1, |columns|);
      UnplacedFoundNothing(columns, i);
    }
    NoneCollected(columns, i, p, |columns|, k);
  }

  /** A name still unplaced after its own iteration collected nothing there. */
  lemma UnplacedFoundNothing(columns: seq<string>, i: nat)
    requires i < |columns|
    requires columns[i] !in Scan(columns, i + 1).processed
    ensures Candidates(columns, i, Scan(columns, i).processed, |columns|) == []
  {
    ScanStep(columns, i);
  }

  lemma UngroupedPair(columns: seq<string>, i: nat, j: nat)
    requires i < j < |columns|
    requires columns[i] !in Scan(columns, |columns|).processed
    requires columns[j] !in Scan(columns, |columns|).processed
    ensures !Similar(columns[i], columns[j])
  {
    ProcessedGrows(columns, i, |columns|);
    NoPartnerFound(columns, i, j);
  }

  /** Greedy maximality: no two names that the pass leaves ungrouped are similar. */
  lemma UngroupedPairsDissimilar(columns: seq<string>)
    ensures forall i, j ::
      (0 <= i < |columns| && 0 <= j < |columns| && i != j &&
       columns[i] !in AllPlaced(SimilarColumns(columns)) && columns[j] !in AllPlaced(SimilarColumns(columns))) ==>
      !Similar(columns[i], columns[j])
  {
    ProcessedIsAllPlaced(columns, |columns|);
    forall i, j | 0 <= i < |columns| && 0 <= j < |columns| && i != j &&
      columns[i] !in AllPlaced(SimilarColumns(columns)) && columns[j] !in AllPlaced(SimilarColumns(columns))
      ensures !Similar(columns[i], columns[j])
    {
      if i < j {
        UngroupedPair(columns, i, j);
      } else {
        UngroupedPair(columns, j, i);
        SimilarSymmetric(columns[j], columns[i]);
      }
    }
  }

  /** If no two different positions hold similar names, the pass emits nothing. */
  lemma {:induction false} NoSimilarPairNoGroups(columns: seq<string>, n: nat)
    requires n <= |columns|
    requires forall i, j :: 0 <= i < |columns| && 0 <= j < |columns| && i != j ==> !Similar(columns[i], columns[j])
    ensures Scan(columns, n) == PassState([], {})
    decreases n
  {
    if n > 0 {
      NoSimilarPairNoGroups(columns, n - 1);
      var none: set<string> := {};
      var i := n - 1;
      forall k | 0 <= k < |columns| ensures !Qualifies(columns, i, none, k) {
        if k != i {
          assert !Similar(columns[i], columns[k]);
        }
      }
      NothingQualifies(columns, i, none, |columns|);
      ScanStep(columns, i);
    }
  }

  /** The pass emits no group exactly when no two different positions hold similar names. */
  lemma NoGroupsIffNoSimilarPair(columns: seq<string>)
    ensures SimilarColumns(columns) == [] <==>
      forall i, j :: 0 <= i < |columns| && 0 <= j < |columns| && i != j ==> !Similar(columns[i], columns[j])
  {
    if forall i, j :: 0 <= i < |columns| && 0 <= j < |columns| && i != j ==> !Similar(columns[i], columns[j]) {
      NoSimilarPairNoGroups(columns, |columns|);
    }
    UngroupedPairsDissimilar(columns);
    assert AllPlaced([]) == {};
  }
}
