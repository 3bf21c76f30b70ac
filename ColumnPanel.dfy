/**
 * The column-analysis panel around the clustering pass: it shows nothing for
 * an empty column list, and for each emitted group its merge button hands the
 * group's names, representative first, to the merge hook together with the
 * standard name typed for that group, or the representative's own name when
 * nothing was typed.
 *
 * The typed names are a plain map from a group's representative to the text
 * in its input box.
 */
module ColumnPanel {
  import opened Wrappers
  import opened ColumnGrouping
  import opened GroupingProperties

  /** The arguments of one call of the merge hook. */
  datatype MergeCall = MergeCall(columns: seq<string>, newName: string)

  /**
   * The panel's content: nothing for an empty column list, the groups of the
   * clustering pass otherwise.
   */
  method AnalyzeColumns(columns: seq<string>) returns (r: Option<seq<ColumnMatch>>)
    ensures r.None? <==> |columns| == 0
    ensures r.Some? ==> r.value == SimilarColumns(columns) && 2 * |r.value| <= |columns|
  {
    if |columns| == 0 {
      return None;
    }
    var matches := FindSimilarColumns(columns);
    AtMostHalf(columns);
    r := Some(matches);
  }

  /**
   * The name a merge uses: the text typed for `original` when there is some,
   * `original` itself when the entry is missing or empty.
   */
  function NewName(typed: map<string, string>, original: string): (name: string)
    ensures original in typed && typed[original] != "" ==> name == typed[original]
    ensures !(original in typed && typed[original] != "") ==> name == original
    ensures original != "" ==> name != ""
  {
    if original in typed && typed[original] != "" then typed[original] else original
  }

  /** Typing into a group's input box replaces that group's entry. */
  function Type(typed: map<string, string>, original: string, text: string): (r: map<string, string>)
    ensures original in r && r[original] == text
    ensures forall o :: o in typed && o != original ==> o in r && r[o] == typed[o]
    ensures forall o :: o in r ==> o in typed || o == original
  {
    typed[original := text]
  }

  /**
   * The merge button: with no hook nothing is called; with a hook it is
   * called once, with the representative followed by the members in order.
   */
  function Merge(g: ColumnMatch, typed: map<string, string>, hasMergeHook: bool): (call: Option<MergeCall>)
    ensures call.Some? <==> hasMergeHook
    ensures call.Some? ==>
      |call.value.columns| == |g.similar| + 1 &&
      call.value.columns[0] == g.original &&
      call.value.columns[1..] == g.similar &&
      call.value.newName == NewName(typed, g.original)
  {
    if hasMergeHook then Some(MergeCall([g.original] + g.similar, NewName(typed, g.original))) else None
  }

  /**
   * After typing `text` for a group, its merge uses `text` unless `text` is
   * empty, in which case it falls back to the representative; typing for one
   * group never changes another group's merge name.
   */
  lemma TypedNameIsUsed(typed: map<string, string>, original: string, text: string, other: string)
    ensures NewName(Type(typed, original, text), original) == if text != "" then text else original
    ensures other != original ==> NewName(Type(typed, original, text), other) == NewName(typed, other)
  {
  }

  /**
   * For a group emitted by the clustering pass, the merge call lists at least
   * two names, all taken from the column list; the first is the
   * representative and every later one is similar to it; the names listed are
   * exactly the names the group placed.
   */
  lemma MergeOfEmittedGroup(columns: seq<string>, k: nat, typed: map<string, string>)
    requires k < |SimilarColumns(columns)|
    ensures var g := SimilarColumns(columns)[k];
      var call := Merge(g, typed, true);
      call.Some? &&
      |call.value.columns| >= 2 &&
      call.value.columns[0] == g.original &&
      (forall t :: 1 <= t < |call.value.columns| ==> Similar(call.value.columns[0], call.value.columns[t])) &&
      (forall t :: 0 <= t < |call.value.columns| ==> call.value.columns[t] in columns) &&
      Elems(call.value.columns) == Placed(g)
  {
    var g := SimilarColumns(columns)[k];
    var rep, members := GroupShape(columns, k);
    var cs := [g.original] + g.similar;
    forall t | 1 <= t < |cs| ensures Similar(cs[0], cs[t]) && cs[t] in columns {
      assert cs[t] == g.similar[t - 1] == columns[members[t - 1]];
    }
    assert Elems(cs) == Placed(g);
  }
}
