/**
 * Worked inputs for the clustering pass: a pair of names with a common prefix
 * that yields no group, and a duplicated name that shows up among its own
 * group's members.
 */
module GroupingExamples {
  import opened EditDistance
  import opened ColumnGrouping
  import opened GroupingProperties

  lemma LowerOfLowercase(s: string)
    requires forall k :: 0 <= k < |s| ==> !('A' <= s[k] <= 'Z')
    ensures Lower(s) == s
  {
  }

  /**
   * A shared prefix is not enough: `flux` and `Flux_Corrected` are at least
   * ten edits apart over fourteen characters, so the two are not grouped.
   */
  lemma FluxScenario()
    ensures !Similar("flux", "Flux_Corrected")
    ensures SimilarColumns(["flux", "Flux_Corrected"]) == []
  {
    var c := ["flux", "Flux_Corrected"];
    LengthGapNeverSimilar(c[0], c[1]);
    NoGroupsIffNoSimilarPair(c);
  }

  /** `col_a` and `col_b` are one edit apart over five characters. */
  lemma ColANearColB()
    ensures Similar("col_a", "col_b") && Similar("col_a", "col_a")
  {
    LowerOfLowercase("col_a");
    LowerOfLowercase("col_b");
    assert Init("col_a") == "col_" && Init("col_b") == "col_";
    LevZeroIffEqual("col_", "col_");
    assert Lev("col_a", "col_b") == 1;
    SimilarToItself("col_a", "");
  }

  /** The first position of `[x, y, x]` takes `y` and the second `x` into its group. */
  lemma DuplicateFirstGroup(x: string, y: string)
    requires Similar(x, y) && x != y
    ensures Scan([x, y, x], 1) == PassState([ColumnMatch(x, [y, x], GroupScore)], {x, y})
  {
    var c := [x, y, x];
    DuplicateCandidates(x, y);
    assert Elems([y, x]) == {y, x};
    ScanStep(c, 0);
  }

  /** The inner scan for the first `x` of `[x, y, x]` collects `y`, then the second `x`. */
  lemma DuplicateCandidates(x: string, y: string)
    requires Similar(x, y) && x != y
    ensures Candidates([x, y, x], 0, {}, 3) == [y, x]
  {
    var c := [x, y, x];
    var none: set<string> := {};
    SimilarToItself(x, y);
    assert Qualifies(c, 0, none, 1) && Qualifies(c, 0, none, 2);
    assert Candidates(c, 0, none, 1) == [];
    assert Candidates(c, 0, none, 2) == [y];
  }

  /**
   * A duplicated name: the first `x` takes both `y` and the second `x` (a
   * different position holding the same name), after which both names are
   * placed and the later positions are skipped.
   */
  lemma DuplicateNameGrouping(x: string, y: string)
    requires Similar(x, y) && x != y
    ensures SimilarColumns([x, y, x]) == [ColumnMatch(x, [y, x], GroupScore)]
  {
    var c := [x, y, x];
    DuplicateFirstGroup(x, y);
    ScanStep(c, 1);
    ScanStep(c, 2);
  }

  lemma DuplicateNameScenario()
    ensures SimilarColumns(["col_a", "col_b", "col_a"]) ==
      [ColumnMatch("col_a", ["col_b", "col_a"], GroupScore)]
  {
    ColANearColB();
    DuplicateNameGrouping("col_a", "col_b");
  }
}
