/**
 * An independent definition of edit distance: the cheapest sequence of
 * single-character insertions, deletions and substitutions that turns one
 * string into another.  `Lev`, the recurrence the table follows, is shown to
 * be exactly that minimum: some script costs `Lev(a, b)` (`Alignment`) and no
 * script costs less (`LevIsOptimal`).
 */
module EditScripts {
  import opened Wrappers
  import opened EditDistance

  /** One edit step.  Keep copies a character at no cost; the others cost one. */
  datatype EditOp = Keep | Substitute(c: char) | Insert(c: char) | Delete

  function OpCost(op: EditOp): nat
  {
    if op.Keep? then 0 else 1
  }

  ghost function Cost(script: seq<EditOp>): nat
  {
    if |script| == 0 then 0 else Cost(script[..|script| - 1]) + OpCost(script[|script| - 1])
  }

  /**
   * Runs a script over `a` from left to right, so that its last step deals
   * with the end of `a`.  None when the script does not fit `a` (it
   * consumes more or fewer characters than `a` has).
   */
  ghost function Apply(script: seq<EditOp>, a: string): Option<string>
    decreases |script|
  {
    if |script| == 0 then
      if |a| == 0 then Some([]) else None
    else
      var rest := script[..|script| - 1];
      match script[|script| - 1]
      case Insert(c) =>
        (match Apply(rest, a)
         case Some(s) => Some(s + [c])
         case None => None)
      case Delete =>
        if |a| == 0 then None else Apply(rest, Init(a))
      case Keep =>
        if |a| == 0 then None
        else (match Apply(rest, Init(a))
              case Some(s) => Some(s + [Last(a)])
              case None => None)
      case Substitute(c) =>
        if |a| == 0 then None
        else (match Apply(rest, Init(a))
              case Some(s) => Some(s + [c])
              case None => None)
  }

  lemma AppendInsert(r: seq<EditOp>, a: string, s: string, c: char)
    requires Apply(r, a) == Some(s)
    ensures Apply(r + [Insert(c)], a) == Some(s + [c])
    ensures Cost(r + [Insert(c)]) == Cost(r) + 1
  {
    assert (r + [Insert(c)])[..|r|] == r;
  }

  lemma AppendDelete(r: seq<EditOp>, a: string, s: string)
    requires |a| > 0 && Apply(r, Init(a)) == Some(s)
    ensures Apply(r + [Delete], a) == Some(s)
    ensures Cost(r + [Delete]) == Cost(r) + 1
  {
    assert (r + [Delete])[..|r|] == r;
  }

  lemma AppendKeep(r: seq<EditOp>, a: string, s: string)
    requires |a| > 0 && Apply(r, Init(a)) == Some(s)
    ensures Apply(r + [Keep], a) == Some(s + [Last(a)])
    ensures Cost(r + [Keep]) == Cost(r)
  {
    assert (r + [Keep])[..|r|] == r;
  }

  lemma AppendSubstitute(r: seq<EditOp>, a: string, s: string, c: char)
    requires |a| > 0 && Apply(r, Init(a)) == Some(s)
    ensures Apply(r + [Substitute(c)], a) == Some(s + [c])
    ensures Cost(r + [Substitute(c)]) == Cost(r) + 1
  {
    assert (r + [Substitute(c)])[..|r|] == r;
  }

  /** A script that turns `a` into `b` at cost `Lev(a, b)`, following the table's choices. */
  ghost function Alignment(a: string, b: string): (script: seq<EditOp>)
    ensures Apply(script, a) == Some(b)
    ensures Cost(script) == Lev(a, b)
    decreases |a| + |b|
  {
    if |a| == 0 && |b| == 0 then []
    else if |b| == 0 then
      var r := Alignment(Init(a), b);
      AppendDelete(r, a, b);
      r + [Delete]
    else
      assert Init(b) + [Last(b)] == b;
      if |a| == 0 then
        var r := Alignment(a, Init(b));
        AppendInsert(r, a, Init(b), Last(b));
        r + [Insert(Last(b))]
      else if Last(a) == Last(b) then
        var r := Alignment(Init(a), Init(b));
        AppendKeep(r, a, Init(b));
        r + [Keep]
      else if Lev(a, b) == Lev(Init(a), Init(b)) + 1 then
        var r := Alignment(Init(a), Init(b));
        AppendSubstitute(r, a, Init(b), Last(b));
        r + [Substitute(Last(b))]
      else if Lev(a, b) == Lev(a, Init(b)) + 1 then
        var r := Alignment(a, Init(b));
        AppendInsert(r, a, Init(b), Last(b));
        r + [Insert(Last(b))]
      else
        var r := Alignment(Init(a), b);
        AppendDelete(r, a, b);
        r + [Delete]
  }

  /** No script that turns `a` into `b` costs less than `Lev(a, b)`. */
  lemma {:induction false} LevIsOptimal(script: seq<EditOp>, a: string, b: string)
    requires Apply(script, a) == Some(b)
    ensures Lev(a, b) <= Cost(script)
    decreases |script|
  {
    if |script| > 0 {
      var rest := script[..|script| - 1];
      match script[|script| - 1]
      case Insert(c) =>
        var s := Apply(rest, a).value;
        assert b == s + [c] && Init(b) == s;
        LevIsOptimal(rest, a, s);
        LevDropLastOfSecond(a, b);
      case Delete =>
        LevIsOptimal(rest, Init(a), b);
        LevDropLastOfFirst(a, b);
      case Keep =>
        var s := Apply(rest, Init(a)).value;
        assert b == s + [Last(a)] && Init(b) == s && Last(b) == Last(a);
        LevIsOptimal(rest, Init(a), s);
      case Substitute(c) =>
        var s := Apply(rest, Init(a)).value;
        assert b == s + [c] && Init(b) == s;
        LevIsOptimal(rest, Init(a), s);
    }
  }
}
