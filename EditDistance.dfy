/**
 * The edit-distance engine of the column analysis: the Levenshtein distance
 * between two strings, computed by filling a (|b|+1) x (|a|+1) table.
 *
 * `Lev` is the recurrence the table follows, stated on prefixes: cell [i, j]
 * of the table holds `Lev(a[..j], b[..i])`.  When the last characters agree
 * the cell copies its diagonal neighbour; otherwise it is one more than the
 * smallest of its three neighbours.
 */
module EditDistance {

  function Min3(x: nat, y: nat, z: nat): (m: nat)
    ensures m <= x && m <= y && m <= z
    ensures m == x || m == y || m == z
  {
    if x <= y && x <= z then x else if y <= z then y else z
  }

  function Max(x: nat, y: nat): (m: nat)
    ensures m >= x && m >= y
    ensures m == x || m == y
  {
    if x >= y then x else y
  }

  /** All but the last element of a non-empty string. */
  function Init(s: string): string
    requires |s| > 0
  {
    s[..|s| - 1]
  }

  function Last(s: string): char
    requires |s| > 0
  {
    s[|s| - 1]
  }

  /** The Levenshtein recurrence on prefixes, as the table is filled. */
  ghost function Lev(a: string, b: string): nat
    decreases |a| + |b|
  {
    if |a| == 0 then |b|
    else if |b| == 0 then |a|
    else if Last(a) == Last(b) then Lev(Init(a), Init(b))
    else Min3(Lev(Init(a), Init(b)) + 1, Lev(Init(a), b) + 1, Lev(a, Init(b)) + 1)
  }

  /**
   * The value cell [i, j] of the table receives: row 0 and column 0 count up
   * from 0; an inner cell copies its diagonal neighbour when `b[i - 1]` and
   * `a[j - 1]` agree, and is otherwise one more than the least of its
   * diagonal, left and upper neighbours.
   */
  ghost function TableCell(a: string, b: string, i: nat, j: nat): nat
    requires i <= |b| && j <= |a|
    decreases i + j
  {
    if j == 0 then i
    else if i == 0 then j
    else if b[i - 1] == a[j - 1] then TableCell(a, b, i - 1, j - 1)
    else Min3(TableCell(a, b, i - 1, j - 1) + 1, TableCell(a, b, i, j - 1) + 1, TableCell(a, b, i - 1, j) + 1)
  }

  /**
   * Assignment to index `j` of a growable array: it overwrites an existing
   * element, or appends when `j` is the current length.
   */
  function Store(row: seq<nat>, j: nat, v: nat): (r: seq<nat>)
    requires j <= |row|
    ensures |r| == if j == |row| then |row| + 1 else |row|
    ensures r[j] == v
    ensures forall k :: 0 <= k < |row| && k != j ==> r[k] == row[k]
  {
    if j == |row| then row + [v] else row[j := v]
  }

  /** Row `i` of the table is complete: it holds one cell per prefix of `a`. */
  ghost predicate RowDone(row: seq<nat>, a: string, b: string, i: nat)
    requires i <= |b|
  {
    |row| == |a| + 1 && forall j :: 0 <= j <= |a| ==> row[j] == TableCell(a, b, i, j)
  }

  /**
   * Fills the table row by row, each row a growable array: column 0 of every
   * row, then row 0, then the inner cells, and returns the bottom-right
   * cell, which is the distance.
   */
  method LevenshteinDistance(a: string, b: string) returns (d: nat)
    ensures d == Lev(a, b)
  {
    var matrix := InitTable(a, b);
    for i := 1 to |b| + 1
      invariant |matrix| == |b| + 1
      invariant forall i' :: 0 <= i' < i ==> RowDone(matrix[i'], a, b, i')
      invariant forall i' :: i <= i' <= |b| ==> matrix[i'] == [i']
    {
      matrix := FillRow(matrix, a, b, i);
    }
    d := matrix[|b|][|a|];
    TableIsLev(a, b, |b|, |a|);
    assert a[..|a|] == a && b[..|b|] == b;
  }

  /** The first two loops: every row starts with its index, and row 0 counts up to `|a|`. */
  method InitTable(a: string, b: string) returns (matrix: seq<seq<nat>>)
    ensures |matrix| == |b| + 1
    ensures RowDone(matrix[0], a, b, 0)
    ensures forall i :: 1 <= i <= |b| ==> matrix[i] == [i]
  {
    matrix := [];
    for i := 0 to |b| + 1
      invariant |matrix| == i
      invariant forall i' :: 0 <= i' < i ==> matrix[i'] == [i']
    {
      matrix := matrix + [[i]];
    }
    for j := 0 to |a| + 1
      invariant |matrix| == |b| + 1 && |matrix[0]| == if j == 0 then 1 else j
      invariant forall j' :: 0 <= j' < |matrix[0]| ==> matrix[0][j'] == j'
      invariant forall i' :: 1 <= i' <= |b| ==> matrix[i'] == [i']
    {
      matrix := matrix[0 := Store(matrix[0], j, j)];
    }
  }

  /**
   * The inner loop for row `i`: given complete rows above and rows from `i`
   * on that hold only their index, it completes row `i` and changes no other row.
   */
  method FillRow(matrix: seq<seq<nat>>, a: string, b: string, i: nat) returns (m: seq<seq<nat>>)
    requires |matrix| == |b| + 1 && 1 <= i <= |b|
    requires forall i' :: 0 <= i' < i ==> RowDone(matrix[i'], a, b, i')
    requires forall i' :: i <= i' <= |b| ==> matrix[i'] == [i']
    ensures |m| == |b| + 1
    ensures forall i' :: 0 <= i' <= i ==> RowDone(m[i'], a, b, i')
    ensures forall i' :: i < i' <= |b| ==> m[i'] == [i']
  {
    m := matrix;
    ghost var above := matrix[i - 1];
    assert RowDone(above, a, b, i - 1);
    for j := 1 to |a| + 1
      invariant |m| == |b| + 1 && |m[i]| == j
      invariant forall i' :: 0 <= i' <= |b| && i' != i ==> m[i'] == matrix[i']
      invariant forall j' :: 0 <= j' < j ==> m[i][j'] == TableCell(a, b, i, j')
    {
      var cell: nat;
      if b[i - 1] == a[j - 1] {
        cell := m[i - 1][j - 1];
      } else {
        cell := Min3(m[i - 1][j - 1] + 1, m[i][j - 1] + 1, m[i - 1][j] + 1);
      }
      assert cell == TableCell(a, b, i, j);
      m := m[i := Store(m[i], j, cell)];
    }
  }

  /** Cell [i, j] of the table is the distance between the prefixes `a[..j]` and `b[..i]`. */
  lemma {:induction false} TableIsLev(a: string, b: string, i: nat, j: nat)
    requires i <= |b| && j <= |a|
    ensures TableCell(a, b, i, j) == Lev(a[..j], b[..i])
    decreases i + j
  {
    if i > 0 && j > 0 {
      TableIsLev(a, b, i - 1, j - 1);
      TableIsLev(a, b, i, j - 1);
      TableIsLev(a, b, i - 1, j);
      TableStep(a, b, i, j);
    } else {
      TableEdge(a, b, i, j);
    }
  }

  /** The first row and the first column. */
  lemma TableEdge(a: string, b: string, i: nat, j: nat)
    requires i <= |b| && j <= |a| && (i == 0 || j == 0)
    ensures TableCell(a, b, i, j) == Lev(a[..j], b[..i])
  {
    assert |a[..j]| == j && |b[..i]| == i;
  }

  /** An inner cell follows the recurrence when its three neighbours do. */
  lemma TableStep(a: string, b: string, i: nat, j: nat)
    requires 1 <= i <= |b| && 1 <= j <= |a|
    requires TableCell(a, b, i - 1, j - 1) == Lev(a[..j - 1], b[..i - 1])
    requires TableCell(a, b, i, j - 1) == Lev(a[..j - 1], b[..i])
    requires TableCell(a, b, i - 1, j) == Lev(a[..j], b[..i - 1])
    ensures TableCell(a, b, i, j) == Lev(a[..j], b[..i])
  {
    LevCell(a, b, i, j);
  }

  /** The recurrence on prefixes, for one inner cell. */
  lemma LevCell(a: string, b: string, i: nat, j: nat)
    requires 1 <= i <= |b| && 1 <= j <= |a|
    ensures Lev(a[..j], b[..i]) ==
      if b[i - 1] == a[j - 1] then Lev(a[..j - 1], b[..i - 1])
      else Min3(Lev(a[..j - 1], b[..i - 1]) + 1, Lev(a[..j - 1], b[..i]) + 1, Lev(a[..j], b[..i - 1]) + 1)
  {
    var x, y := a[..j], b[..i];
    assert Init(x) == a[..j - 1] && Last(x) == a[j - 1];
    assert Init(y) == b[..i - 1] && Last(y) == b[i - 1];
  }

  /** The distance does not depend on the order of its arguments. */
  lemma {:induction false} LevSymmetric(a: string, b: string)
    ensures Lev(a, b) == Lev(b, a)
    decreases |a| + |b|
  {
    if |a| > 0 && |b| > 0 {
      LevSymmetric(Init(a), Init(b));
      LevSymmetric(Init(a), b);
      LevSymmetric(a, Init(b));
    }
  }

  /** The distance is zero exactly when the two strings are equal. */
  lemma {:induction false} LevZeroIffEqual(a: string, b: string)
    ensures Lev(a, b) == 0 <==> a == b
    decreases |a| + |b|
  {
    if |a| > 0 && |b| > 0 {
      LevZeroIffEqual(Init(a), Init(b));
      assert a == Init(a) + [Last(a)] && b == Init(b) + [Last(b)];
    }
  }

  /** The distance is at least the difference of the lengths and at most the longer length. */
  lemma {:induction false} LevBounds(a: string, b: string)
    ensures |a| - |b| <= Lev(a, b) && |b| - |a| <= Lev(a, b)
    ensures Lev(a, b) <= Max(|a|, |b|)
    ensures |b| == 0 ==> Lev(a, b) == |a|
    ensures |a| == 0 ==> Lev(a, b) == |b|
    decreases |a| + |b|
  {
    if |a| > 0 && |b| > 0 {
      LevBounds(Init(a), Init(b));
      LevBounds(Init(a), b);
      LevBounds(a, Init(b));
    }
  }

  /** Removing the last character of the first string changes the distance by at most one. */
  lemma {:induction false} LevDropLastOfFirst(a: string, b: string)
    requires |a| > 0
    ensures Lev(a, b) <= Lev(Init(a), b) + 1
    ensures Lev(Init(a), b) <= Lev(a, b) + 1
    decreases |a| + |b|
  {
    if |b| == 0 {
    } else if |Init(a)| == 0 {
      LevBounds(a, b);
    } else {
      // the same fact about the second argument, for Init(a) against b
      LevDropLastOfFirst(b, Init(a));
      LevSymmetric(b, Init(a));
      LevSymmetric(Init(b), Init(a));
      if Last(a) != Last(b) {
        LevDropLastOfFirst(a, Init(b));
      }
    }
  }

  /** Removing the last character of the second string changes the distance by at most one. */
  lemma LevDropLastOfSecond(a: string, b: string)
    requires |b| > 0
    ensures Lev(a, b) <= Lev(a, Init(b)) + 1
    ensures Lev(a, Init(b)) <= Lev(a, b) + 1
  {
    LevDropLastOfFirst(b, a);
    LevSymmetric(a, b);
    LevSymmetric(a, Init(b));
  }

  /** Strings with no character in common are as far apart as the longer one is long. */
  lemma {:induction false} LevNoCommonCharacter(a: string, b: string)
    requires forall i, j :: 0 <= i < |a| && 0 <= j < |b| ==> a[i] != b[j]
    ensures Lev(a, b) == Max(|a|, |b|)
    decreases |a| + |b|
  {
    if |a| > 0 && |b| > 0 {
      LevNoCommonCharacter(Init(a), Init(b));
      LevNoCommonCharacter(Init(a), b);
      LevNoCommonCharacter(a, Init(b));
    }
  }

  /** A common suffix does not change the distance. */
  lemma {:induction false} LevCommonSuffix(a: string, b: string, s: string)
    ensures Lev(a + s, b + s) == Lev(a, b)
    decreases |s|
  {
    if |s| > 0 {
      assert |a + s| > 0 && |b + s| > 0;
      assert Init(a + s) == a + Init(s) && Last(a + s) == Last(s);
      assert Init(b + s) == b + Init(s) && Last(b + s) == Last(s);
      assert Lev(a + s, b + s) == Lev(a + Init(s), b + Init(s));
      LevCommonSuffix(a, b, Init(s));
    } else {
      assert a + s == a && b + s == b;
    }
  }
}
