/** The line diff of two documents. */
module Diff {
  import opened Text
  import Lcs

  datatype Kind = Same | Add | Remove

  datatype DiffLine<T> = DiffLine(kind: Kind, text: T)

  /** The lines of a script that belong to the new document (`taken`) or to the old one. */
  function Side<T>(script: seq<DiffLine<T>>, taken: bool): seq<T> {
    if script == [] then [] else Keep(script[0], taken) + Side(script[1..], taken)
  }

  function Keep<T>(line: DiffLine<T>, taken: bool): seq<T> {
    if line.kind == Same || (line.kind == Add) == taken then [line.text] else []
  }

  /** How many lines of a script have the given kind. */
  function Count<T>(script: seq<DiffLine<T>>, kind: Kind): nat {
    if script == [] then 0
    else (if script[0].kind == kind then 1 else 0) + Count(script[1..], kind)
  }

  /** The texts a script says survive. */
  function Survivors<T>(script: seq<DiffLine<T>>): seq<T> {
    if script == [] then []
    else (if script[0].kind == Same then [script[0].text] else []) + Survivors(script[1..])
  }

  // ----- diffLines

  /** The walk over the table from its first cell, as a function of what is left to read. */
  function Script<T(==)>(a: seq<T>, b: seq<T>): seq<DiffLine<T>>
    decreases |a| + |b|
  {
    if a == [] && b == [] then []
    else if b == [] then [DiffLine(Remove, a[0])] + Script(a[1..], b)
    else if a == [] then [DiffLine(Add, b[0])] + Script(a, b[1..])
    else if a[0] == b[0] then [DiffLine(Same, a[0])] + Script(a[1..], b[1..])
    else if Lcs.Length(a[1..], b) >= Lcs.Length(a, b[1..]) then [DiffLine(Remove, a[0])] + Script(a[1..], b)
    else [DiffLine(Add, b[0])] + Script(a, b[1..])
  }

  method DiffLines(before: string, after: string) returns (out: seq<DiffLine<string>>)
    ensures out == Script(SplitLines(before), SplitLines(after))
  {
    var a, b := SplitLines(before), SplitLines(after);
    var lengths := Lcs.Table(a, b);
    out := Walk(a, b, lengths);
  }

  /** The three loops that walk the filled table. */
  method Walk<T(==)>(a: seq<T>, b: seq<T>, lengths: array2<nat>) returns (out: seq<DiffLine<T>>)
    requires Lcs.IsTable(lengths, a, b)
    ensures out == Script(a, b)
  {
    out := [];
    var i, j := 0, 0;
    while i < |a| && j < |b|
      invariant 0 <= i <= |a| && 0 <= j <= |b|
      invariant Reached(a, b, i, j, out)
      decreases |a| - i + |b| - j
    {
      assert i + 1 <= |a| && lengths[i + 1, j] == Lcs.Length(a[i + 1..], b[j..]);
      assert j + 1 <= |b| && lengths[i, j + 1] == Lcs.Length(a[i..], b[j + 1..]);
      if a[i] == b[j] {
        ReachedSame(a, b, i, j, out);
        out := out + [DiffLine(Same, a[i])];
        i, j := i + 1, j + 1;
      } else if lengths[i + 1, j] >= lengths[i, j + 1] {
        ReachedRemove(a, b, i, j, out);
        out := out + [DiffLine(Remove, a[i])];
        i := i + 1;
      } else {
        ReachedAdd(a, b, i, j, out);
        out := out + [DiffLine(Add, b[j])];
        j := j + 1;
      }
    }
    while i < |a|
      invariant 0 <= i <= |a| && 0 <= j <= |b| && (i < |a| ==> j == |b|)
      invariant Reached(a, b, i, j, out)
    {
      ReachedRemove(a, b, i, j, out);
      out := out + [DiffLine(Remove, a[i])];
      i := i + 1;
    }
    while j < |b|
      invariant i == |a| && 0 <= j <= |b|
      invariant Reached(a, b, i, j, out)
    {
      ReachedAdd(a, b, i, j, out);
      out := out + [DiffLine(Add, b[j])];
      j := j + 1;
    }
  }

  /** The walk stands at `(i, j)` having emitted `out`: what is left completes the script. */
  ghost predicate Reached<T>(a: seq<T>, b: seq<T>, i: nat, j: nat, out: seq<DiffLine<T>>)
    requires i <= |a| && j <= |b|
  {
    out + Script(a[i..], b[j..]) == Script(a, b)
  }

  lemma {:induction false} ReachedSame<T>(a: seq<T>, b: seq<T>, i: nat, j: nat, out: seq<DiffLine<T>>)
    requires i < |a| && j < |b| && a[i] == b[j]
    requires Reached(a, b, i, j, out)
    ensures Reached(a, b, i + 1, j + 1, out + [DiffLine(Same, a[i])])
  {
    assert a[i..][1..] == a[i + 1..] && b[j..][1..] == b[j + 1..];
  }

  lemma {:induction false} ReachedRemove<T>(a: seq<T>, b: seq<T>, i: nat, j: nat, out: seq<DiffLine<T>>)
    requires i < |a| && j <= |b|
    requires j < |b| ==> a[i] != b[j] && Lcs.Length(a[i + 1..], b[j..]) >= Lcs.Length(a[i..], b[j + 1..])
    requires Reached(a, b, i, j, out)
    ensures Reached(a, b, i + 1, j, out + [DiffLine(Remove, a[i])])
  {
    assert a[i..][1..] == a[i + 1..];
    assert j < |b| ==> b[j..][1..] == b[j + 1..];
  }

  lemma {:induction false} ReachedAdd<T>(a: seq<T>, b: seq<T>, i: nat, j: nat, out: seq<DiffLine<T>>)
    requires i <= |a| && j < |b|
    requires i < |a| ==> a[i] != b[j] && Lcs.Length(a[i + 1..], b[j..]) < Lcs.Length(a[i..], b[j + 1..])
    requires Reached(a, b, i, j, out)
    ensures Reached(a, b, i, j + 1, out + [DiffLine(Add, b[j])])
  {
    assert i < |a| ==> a[i..][1..] == a[i + 1..];
    assert b[j..][1..] == b[j + 1..];
  }

  /** Reading one side of the diff gives that document back, line for line. */
  lemma {:induction false} ScriptSides<T>(a: seq<T>, b: seq<T>)
    ensures Side(Script(a, b), false) == a
    ensures Side(Script(a, b), true) == b
    decreases |a| + |b|
  {
    if a == [] && b == [] {
    } else if b == [] {
      ScriptSides(a[1..], b);
    } else if a == [] {
      ScriptSides(a, b[1..]);
    } else if a[0] == b[0] {
      ScriptSides(a[1..], b[1..]);
    } else {
      ScriptSides(a[1..], b);
      ScriptSides(a, b[1..]);
    }
  }

  lemma {:induction false} ScriptSurvivors<T>(a: seq<T>, b: seq<T>)
    ensures |Survivors(Script(a, b))| == Lcs.Length(a, b)
    decreases |a| + |b|
  {
    if a == [] && b == [] {
    } else if b == [] {
      ScriptSurvivors(a[1..], b);
    } else if a == [] {
      ScriptSurvivors(a, b[1..]);
    } else if a[0] == b[0] {
      ScriptSurvivors(a[1..], b[1..]);
    } else {
      ScriptSurvivors(a[1..], b);
      ScriptSurvivors(a, b[1..]);
    }
  }

  /** What any script says survives is a subsequence of each side. */
  lemma {:induction false} SurvivorsAreCommon<T>(script: seq<DiffLine<T>>, taken: bool)
    ensures Lcs.IsSubsequence(Survivors(script), Side(script, taken))
  {
    if script != [] {
      SurvivorsAreCommon(script[1..], taken);
      var rest, side := Survivors(script[1..]), Side(script[1..], taken);
      if script[0].kind == Same {
        var x := script[0].text;
        assert ([x] + rest)[1..] == rest && ([x] + side)[1..] == side;
      } else if Keep(script[0], taken) == [] {
        assert [] + side == side && [] + rest == rest;
      } else {
        assert ([script[0].text] + side)[1..] == side && [] + rest == rest;
      }
    }
  }

  lemma {:induction false} SideLength<T>(script: seq<DiffLine<T>>)
    ensures |Side(script, false)| == |Survivors(script)| + Count(script, Remove)
    ensures |Side(script, true)| == |Survivors(script)| + Count(script, Add)
  {
    if script != [] {
      SideLength(script[1..]);
    }
  }

  /**
    * The diff is minimal: of all the scripts that turn one document into the other, none keeps
    * more lines and none makes fewer changes.
    */
  lemma {:induction false} DiffIsMinimal<T>(a: seq<T>, b: seq<T>, other: seq<DiffLine<T>>)
    requires Side(other, false) == a && Side(other, true) == b
    ensures |Survivors(other)| <= |Survivors(Script(a, b))|
    ensures Count(Script(a, b), Remove) <= Count(other, Remove)
    ensures Count(Script(a, b), Add) <= Count(other, Add)
  {
    ScriptSides(a, b);
    ScriptSurvivors(a, b);
    SurvivorsAreCommon(other, false);
    SurvivorsAreCommon(other, true);
    Lcs.CommonSubsequenceBound(a, b, Survivors(other));
    SideLength(other);
    SideLength(Script(a, b));
  }

  /** The surviving lines are a longest common subsequence of the two documents. */
  lemma {:induction false} SurvivorsAreLongest<T>(a: seq<T>, b: seq<T>, c: seq<T>)
    ensures var kept := Survivors(Script(a, b));
            Lcs.IsSubsequence(kept, a) && Lcs.IsSubsequence(kept, b)
    ensures Lcs.IsSubsequence(c, a) && Lcs.IsSubsequence(c, b) ==> |c| <= |Survivors(Script(a, b))|
  {
    ScriptSides(a, b);
    ScriptSurvivors(a, b);
    SurvivorsAreCommon(Script(a, b), false);
    SurvivorsAreCommon(Script(a, b), true);
    if Lcs.IsSubsequence(c, a) && Lcs.IsSubsequence(c, b) {
      Lcs.CommonSubsequenceBound(a, b, c);
    }
  }

  /** An addition is followed by more additions until an unchanged line, never by a removal. */
  lemma {:induction false} RemovalsComeFirst<T>(a: seq<T>, b: seq<T>, k: nat)
    requires k + 1 < |Script(a, b)| && Script(a, b)[k].kind == Add
    ensures Script(a, b)[k + 1].kind != Remove
    decreases |a| + |b|
  {
    if a == [] {
      if k > 0 { RemovalsComeFirst(a, b[1..], k - 1); }
    } else if b == [] {
      RemovalsComeFirst(a[1..], b, k - 1);
    } else if a[0] == b[0] {
      RemovalsComeFirst(a[1..], b[1..], k - 1);
    } else if Lcs.Length(a[1..], b) >= Lcs.Length(a, b[1..]) {
      RemovalsComeFirst(a[1..], b, k - 1);
    } else if k > 0 {
      RemovalsComeFirst(a, b[1..], k - 1);
    } else {
      // The table drops when `a[0]` is skipped here, so it still drops one column on.
      Lcs.LengthMonotone(a[1..], b);
      assert Script(a, b)[1] == Script(a, b[1..])[0];
    }
  }
}
