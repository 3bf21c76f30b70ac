/**
 * The clustering pass of the column analysis (`findSimilarColumns`): a greedy
 * single pass over the column names that groups each not-yet-placed name with
 * every other not-yet-placed name whose case-insensitive similarity is above
 * 0.6, and records the placed names by value.
 *
 * `Scan` states what the pass has produced after its first `n` iterations;
 * `FindSimilarColumns` is the loop itself and is proved to produce
 * `SimilarColumns(columns)`.  The lemmas state what the source promises of
 * that result.
 */
module ColumnGrouping {
  import opened EditDistance

  /** The score every emitted group carries, whatever its members' similarities. */
  const GroupScore: real := 0.8

  datatype ColumnMatch = ColumnMatch(original: string, similar: seq<string>, similarity: real)

  /** Lower-cases the ASCII letters and leaves every other character alone. */
  function LowerChar(c: char): char
  {
    if 'A' <= c <= 'Z' then (c as int - 'A' as int + 'a' as int) as char else c
  }

  /** Character-by-character lower-casing; it never changes the length. */
  function Lower(s: string): (r: string)
    ensures |r| == |s|
  {
    seq(|s|, k requires 0 <= k < |s| => LowerChar(s[k]))
  }

  /**
   * The grouping test `1 - d / maxLen > 0.6` multiplied out by `maxLen`:
   * `d` is the distance of the lower-cased names and `maxLen` the longer of
   * the two ORIGINAL lengths.  Two empty names give 0 > 0, which is false,
   * as the source's NaN comparison is.
   */
  ghost predicate Similar(col: string, other: string): (r: bool)
    ensures r ==> col != [] && other != []
  {
    2 * Max(|col|, |other|) > 5 * Lev(Lower(col), Lower(other))
  }

  function Elems(s: seq<string>): set<string>
  {
    set x | x in s
  }

  /** Index `k` is taken into the group of index `idx`: another position, not yet placed, similar. */
  ghost predicate Qualifies(columns: seq<string>, idx: nat, processed: set<string>, k: nat)
    requires idx < |columns| && k < |columns|
  {
    k != idx && columns[k] !in processed && Similar(columns[idx], columns[k])
  }

  /** The names the inner scan has collected for `columns[idx]` after looking at indices below `upto`. */
  ghost function Candidates(columns: seq<string>, idx: nat, processed: set<string>, upto: nat): seq<string>
    requires idx < |columns| && upto <= |columns|
    decreases upto
  {
    if upto == 0 then []
    else if Qualifies(columns, idx, processed, upto - 1) then
      Candidates(columns, idx, processed, upto - 1) + [columns[upto - 1]]
    else
      Candidates(columns, idx, processed, upto - 1)
  }

  datatype PassState = PassState(matches: seq<ColumnMatch>, processed: set<string>)

  /** The emitted groups and the placed names after the outer loop has visited indices below `n`. */
  ghost function Scan(columns: seq<string>, n: nat): PassState
    requires n <= |columns|
  {
    if n == 0 then PassState([], {})
    else
      var st := Scan(columns, n - 1);
      var col := columns[n - 1];
      var similar := Candidates(columns, n - 1, st.processed, |columns|);
      if col !in st.processed && |similar| > 0 then
        PassState(st.matches + [ColumnMatch(col, similar, GroupScore)], st.processed + {col} + Elems(similar))
      else
        st
  }

  ghost function SimilarColumns(columns: seq<string>): seq<ColumnMatch>
  {
    Scan(columns, |columns|).matches
  }

  /** The greedy pass, with the `processed` set of placed names. */
  method FindSimilarColumns(columns: seq<string>) returns (matches: seq<ColumnMatch>)
    ensures matches == SimilarColumns(columns)
  {
    matches := [];
    var processed: set<string> := {};
    for idx := 0 to |columns|
      invariant PassState(matches, processed) == Scan(columns, idx)
    {
      var col := columns[idx];
      if col !in processed {
        var similar := CollectSimilar(columns, idx, processed);
        if |similar| > 0 {
          matches := matches + [ColumnMatch(col, similar, GroupScore)];
          processed := processed + {col};
          ghost var withCol := processed;
          for t := 0 to |similar|
            invariant processed == withCol + Elems(similar[..t])
          {
            assert similar[..t + 1] == similar[..t] + [similar[t]];
            processed := processed + {similar[t]};
          }
          assert similar[..|similar|] == similar;
        }
      }
    }
  }

  /** The inner loop: the not-yet-placed names at other positions that are similar to `columns[idx]`, in order. */
  method CollectSimilar(columns: seq<string>, idx: nat, processed: set<string>) returns (similar: seq<string>)
    requires idx < |columns|
    ensures similar == Candidates(columns, idx, processed, |columns|)
  {
    var col := columns[idx];
    similar := [];
    for otherIdx := 0 to |columns|
      invariant similar == Candidates(columns, idx, processed, otherIdx)
    {
      var other := columns[otherIdx];
      if idx != otherIdx && other !in processed {
        var distance := LevenshteinDistance(Lower(col), Lower(other));
        var maxLen := Max(|col|, |other|);
        if 2 * maxLen > 5 * distance {
          similar := similar + [other];
        }
      }
    }
  }
}
