/** Accepting some hunks of a diff and leaving the rest. */
module Compose {
  import opened Text
  import opened Diff
  import opened Hunks

  /** Is line `i` of the diff owned by a selected hunk? */
  predicate Taken(hunks: seq<Hunk>, selected: set<int>, i: nat) {
    exists h :: 0 <= h < |hunks| && h in selected && Within(hunks[h], i)
  }

  /** The line-by-line rule over `[lo, hi)` of the diff. */
  function Picks<T>(script: seq<DiffLine<T>>, hunks: seq<Hunk>, selected: set<int>, lo: nat, hi: nat): seq<T>
    requires lo <= hi <= |script|
  {
    if lo == hi then []
    else Picks(script, hunks, selected, lo, hi - 1) + Keep(script[hi - 1], Taken(hunks, selected, hi - 1))
  }

  /** The hunk-by-hunk reading of the first `k` hunks: `after` inside a selected one, `before` elsewhere. */
  function Choice<T>(script: seq<DiffLine<T>>, hunks: seq<Hunk>, selected: set<int>, k: nat): seq<T>
    requires k <= |hunks| && InOrder(hunks, |script|)
  {
    if k == 0 then []
    else
      var hunk := hunks[k - 1];
      Choice(script, hunks, selected, k - 1)
      + Side(script[EndOf(hunks, k - 1)..hunk.start], false)
      + Side(script[hunk.start..hunk.end], k - 1 in selected)
  }

  /** The whole document that the selection gives. */
  function Composition<T>(script: seq<DiffLine<T>>, hunks: seq<Hunk>, selected: set<int>): seq<T>
    requires InOrder(hunks, |script|)
  {
    Choice(script, hunks, selected, |hunks|) + Side(script[EndOf(hunks, |hunks|)..], false)
  }

  /** Where the first `k` hunks end. */
  function EndOf(hunks: seq<Hunk>, k: nat): nat
    requires k <= |hunks|
  {
    if k == 0 then 0 else hunks[k - 1].end
  }

  ghost predicate InOrder(hunks: seq<Hunk>, n: nat) {
    && (forall h :: 0 <= h < |hunks| ==> hunks[h].start < hunks[h].end <= n)
    && (forall h, k :: 0 <= h < k < |hunks| ==> hunks[h].end <= hunks[k].start)
  }

  /** The ordered, disjoint hunks that between them hold every changed line. */
  ghost predicate Owns<T>(hunks: seq<Hunk>, script: seq<DiffLine<T>>) {
    && InOrder(hunks, |script|)
    && forall i :: 0 <= i < |script| && Changed(script, i) ==> Covered(hunks, i)
  }

  lemma {:induction false} DiffHunksOwn<T>(script: seq<DiffLine<T>>, context: nat)
    ensures Owns(HunksOf(script, context), script)
  {
    HunksAreOrdered(script, context);
    forall i | 0 <= i < |script| && Changed(script, i)
      ensures Covered(HunksOf(script, context), i)
    {
      var h := EveryChangeInOneHunk(script, context, i);
      assert Within(HunksOf(script, context)[h], i);
    }
  }

  lemma {:induction false} SideAppend<T>(s: seq<DiffLine<T>>, t: seq<DiffLine<T>>, taken: bool)
    ensures Side(s + t, taken) == Side(s, taken) + Side(t, taken)
  {
    if s == [] {
      assert [] + t == t;
    } else {
      assert (s + t)[1..] == s[1..] + t;
      SideAppend(s[1..], t, taken);
    }
  }

  lemma {:induction false} SideSnoc<T>(script: seq<DiffLine<T>>, lo: nat, hi: nat, taken: bool)
    requires lo < hi <= |script|
    ensures Side(script[lo..hi], taken) == Side(script[lo..hi - 1], taken) + Keep(script[hi - 1], taken)
  {
    assert script[lo..hi] == script[lo..hi - 1] + [script[hi - 1]];
    SideAppend(script[lo..hi - 1], [script[hi - 1]], taken);
    assert Side([script[hi - 1]], taken) == Keep(script[hi - 1], taken);
  }

  lemma {:induction false} PicksSplit<T>(
      script: seq<DiffLine<T>>, hunks: seq<Hunk>, selected: set<int>, lo: nat, mid: nat, hi: nat)
    requires lo <= mid <= hi <= |script|
    ensures Picks(script, hunks, selected, lo, hi)
            == Picks(script, hunks, selected, lo, mid) + Picks(script, hunks, selected, mid, hi)
    decreases hi
  {
    if mid < hi {
      PicksSplit(script, hunks, selected, lo, mid, hi - 1);
    }
  }

  /** Inside one hunk the line rule takes one side throughout. */
  lemma {:induction false} PicksInside<T>(
      script: seq<DiffLine<T>>, hunks: seq<Hunk>, selected: set<int>, h: nat, hi: nat)
    requires InOrder(hunks, |script|) && h < |hunks| && hunks[h].start <= hi <= hunks[h].end
    ensures Picks(script, hunks, selected, hunks[h].start, hi)
            == Side(script[hunks[h].start..hi], h in selected)
    decreases hi
  {
    if hunks[h].start < hi {
      PicksInside(script, hunks, selected, h, hi - 1);
      SideSnoc(script, hunks[h].start, hi, h in selected);
      assert Within(hunks[h], hi - 1);
      assert Taken(hunks, selected, hi - 1) <==> h in selected;
    }
  }

  /** Between hunks nothing is changed, so the line rule keeps the old lines. */
  lemma {:induction false} PicksOutside<T>(
      script: seq<DiffLine<T>>, hunks: seq<Hunk>, selected: set<int>, lo: nat, hi: nat)
    requires lo <= hi <= |script| && Quiet(script, lo, hi)
    ensures Picks(script, hunks, selected, lo, hi) == Side(script[lo..hi], false)
    decreases hi
  {
    if lo < hi {
      PicksOutside(script, hunks, selected, lo, hi - 1);
      SideSnoc(script, lo, hi, false);
      assert !Changed(script, hi - 1);
    }
  }

  lemma {:induction false} PicksNextHunk<T>(script: seq<DiffLine<T>>, hunks: seq<Hunk>, selected: set<int>, k: nat)
    requires Owns(hunks, script) && 0 < k <= |hunks|
    ensures EndOf(hunks, k - 1) <= hunks[k - 1].start <= hunks[k - 1].end <= |script|
    ensures Picks(script, hunks, selected, 0, hunks[k - 1].end)
            == Picks(script, hunks, selected, 0, EndOf(hunks, k - 1))
               + Side(script[EndOf(hunks, k - 1)..hunks[k - 1].start], false)
               + Side(script[hunks[k - 1].start..hunks[k - 1].end], k - 1 in selected)
  {
    var hunk, prior := hunks[k - 1], EndOf(hunks, k - 1);
    GapIsQuiet(script, hunks, k - 1);
    PicksOutside(script, hunks, selected, prior, hunk.start);
    PicksInside(script, hunks, selected, k - 1, hunk.end);
    PicksSplit(script, hunks, selected, 0, prior, hunk.start);
    PicksSplit(script, hunks, selected, 0, hunk.start, hunk.end);
  }

  lemma {:induction false} GapIsQuiet<T>(script: seq<DiffLine<T>>, hunks: seq<Hunk>, k: nat)
    requires Owns(hunks, script) && k < |hunks|
    ensures EndOf(hunks, k) <= hunks[k].start <= hunks[k].end <= |script|
    ensures Quiet(script, EndOf(hunks, k), hunks[k].start)
  {
  }

  lemma {:induction false} PicksAreChoice<T>(
      script: seq<DiffLine<T>>, hunks: seq<Hunk>, selected: set<int>, k: nat)
    requires Owns(hunks, script) && k <= |hunks|
    ensures EndOf(hunks, k) <= |script|
    ensures Picks(script, hunks, selected, 0, EndOf(hunks, k)) == Choice(script, hunks, selected, k)
  {
    if k > 0 {
      PicksNextHunk(script, hunks, selected, k);
      assert InOrder(hunks, |script|) && EndOf(hunks, k - 1) <= |script|;
      hide Picks, Taken, Owns, Side, InOrder;
      assert Picks(script, hunks, selected, 0, EndOf(hunks, k - 1)) == Choice(script, hunks, selected, k - 1) by {
        PicksAreChoice(script, hunks, selected, k - 1);
      }
    }
  }

  /** The line rule over the whole diff is hunk-wise choice. */
  lemma {:induction false} PicksAreComposition<T>(script: seq<DiffLine<T>>, hunks: seq<Hunk>, selected: set<int>)
    requires Owns(hunks, script)
    ensures Picks(script, hunks, selected, 0, |script|) == Composition(script, hunks, selected)
  {
    hide Picks, Choice, Side, Taken;
    var last := EndOf(hunks, |hunks|);
    PicksAreChoice(script, hunks, selected, |hunks|);
    assert Quiet(script, last, |script|);
    hide Owns, Quiet, InOrder;
    PicksOutside(script, hunks, selected, last, |script|);
    PicksSplit(script, hunks, selected, 0, last, |script|);
    assert script[last..|script|] == script[last..];
  }

  method ComposeFromHunks(before: string, after: string, selected: set<int>, context: nat := DIFF_CONTEXT)
    returns (text: string)
    ensures var script := Script(SplitLines(before), SplitLines(after));
            Owns(HunksOf(script, context), script)
            && text == Join(Composition(script, HunksOf(script, context), selected))
  {
    var script := DiffLines(before, after);
    var hunks := DiffHunks(script, context);
    DiffHunksOwn(script, context);
    var owner := OwnerOf(script, hunks);
    var out: seq<string> := [];
    for i := 0 to |script|
      invariant out == Picks(script, hunks, selected, 0, i)
    {
      if script[i].kind == Same {
        out := out + [script[i].text];
        continue;
      }
      assert Changed(script, i) && Within(hunks[owner[i]], i);
      var taken := owner[i] in selected;
      assert taken <==> Taken(hunks, selected, i);
      if (if script[i].kind == Add then taken else !taken) {
        out := out + [script[i].text];
      }
    }
    PicksAreComposition(script, hunks, selected);
    text := Join(out);
  }

  /** The map from a changed line to the hunk that owns it. */
  method OwnerOf<T>(script: seq<DiffLine<T>>, hunks: seq<Hunk>) returns (owner: map<nat, nat>)
    requires Owns(hunks, script)
    ensures forall i: nat :: i in owner <==> Changed(script, i)
    ensures forall i: nat :: i in owner ==> owner[i] < |hunks| && Within(hunks[owner[i]], i)
  {
    owner := map[];
    for h := 0 to |hunks|
      invariant forall i: nat :: i in owner <==> Changed(script, i) && i < EndOf(hunks, h)
      invariant forall i: nat :: i in owner ==> owner[i] < h && Within(hunks[owner[i]], i)
    {
      GapIsQuiet(script, hunks, h);
      for i := hunks[h].start to hunks[h].end
        invariant forall j: nat :: j in owner <==>
                    Changed(script, j) && j < (if i == hunks[h].start then EndOf(hunks, h) else i)
        invariant forall j: nat :: j in owner ==> owner[j] <= h && Within(hunks[owner[j]], j)
      {
        if script[i].kind != Same {
          owner := owner[i := h];
        }
      }
    }
    assert Quiet(script, EndOf(hunks, |hunks|), |script|);
  }

  // ----- what a composition is

  lemma {:induction false} ChoiceIsSide<T>(
      script: seq<DiffLine<T>>, hunks: seq<Hunk>, selected: set<int>, taken: bool, k: nat)
    requires Owns(hunks, script) && k <= |hunks|
    requires forall h :: 0 <= h < |hunks| ==> (h in selected <==> taken)
    ensures Choice(script, hunks, selected, k) == Side(script[..EndOf(hunks, k)], taken)
  {
    if k > 0 {
      hide Side, Quiet;
      var hunk, prior := hunks[k - 1], EndOf(hunks, k - 1);
      ChoiceIsSide(script, hunks, selected, taken, k - 1);
      GapIsQuiet(script, hunks, k - 1);
      QuietSides(script, prior, hunk.start);
      SideOfPrefix(script, prior, hunk.start, hunk.end, taken);
    }
  }

  lemma {:induction false} QuietSides<T>(script: seq<DiffLine<T>>, lo: nat, hi: nat)
    requires lo <= hi <= |script| && Quiet(script, lo, hi)
    ensures Side(script[lo..hi], true) == Side(script[lo..hi], false)
    decreases hi
  {
    if lo < hi {
      QuietSides(script, lo, hi - 1);
      SideSnoc(script, lo, hi, true);
      SideSnoc(script, lo, hi, false);
      assert !Changed(script, hi - 1);
    }
  }

  lemma {:induction false} CompositionIsSide<T>(script: seq<DiffLine<T>>, hunks: seq<Hunk>, selected: set<int>,
                                                taken: bool)
    requires Owns(hunks, script)
    requires forall h :: 0 <= h < |hunks| ==> (h in selected <==> taken)
    ensures Composition(script, hunks, selected) == Side(script, taken)
  {
    var last := EndOf(hunks, |hunks|);
    assert Quiet(script, last, |script|);
    hide Side, Choice, Owns;
    ChoiceIsSide(script, hunks, selected, taken, |hunks|);
    QuietSides(script, last, |script|);
    assert script[last..|script|] == script[last..];
    assert script == script[..last] + script[last..];
    SideAppend(script[..last], script[last..], taken);
  }

  /** Taking every hunk reproduces `after` exactly, and taking none reproduces `before`. */
  lemma {:induction false} AllOrNothing(before: string, after: string, selected: set<int>, context: nat)
    ensures var script := Script(SplitLines(before), SplitLines(after));
            var hunks := HunksOf(script, context);
            && Owns(hunks, script)
            && ((forall h :: 0 <= h < |hunks| ==> h in selected) ==>
                  Join(Composition(script, hunks, selected)) == after)
            && ((forall h :: 0 <= h < |hunks| ==> h !in selected) ==>
                  Join(Composition(script, hunks, selected)) == before)
  {
    var script := Script(SplitLines(before), SplitLines(after));
    var hunks := HunksOf(script, context);
    DiffHunksOwn(script, context);
    ScriptSides(SplitLines(before), SplitLines(after));
    JoinSplitLines(before);
    JoinSplitLines(after);
    if forall h :: 0 <= h < |hunks| ==> h in selected {
      CompositionIsSide(script, hunks, selected, true);
    }
    if forall h :: 0 <= h < |hunks| ==> h !in selected {
      CompositionIsSide(script, hunks, selected, false);
    }
  }

  /** What the selected ones among the first `k` hunks add, less what they remove. */
  function NetLines(hunks: seq<Hunk>, selected: set<int>, k: nat): int
    requires k <= |hunks|
  {
    if k == 0 then 0
    else
      NetLines(hunks, selected, k - 1)
      + (if k - 1 in selected then hunks[k - 1].added - hunks[k - 1].removed else 0)
  }

  lemma {:induction false} SideOfPrefix<T>(script: seq<DiffLine<T>>, x: nat, y: nat, z: nat, taken: bool)
    requires x <= y <= z <= |script|
    ensures Side(script[..z], taken) == Side(script[..x], taken) + Side(script[x..y], taken) + Side(script[y..z], taken)
  {
    assert script[..y] == script[..x] + script[x..y];
    assert script[..z] == script[..y] + script[y..z];
    SideAppend(script[..x], script[x..y], taken);
    SideAppend(script[..y], script[y..z], taken);
  }

  lemma {:induction false} ChoiceLength<T>(script: seq<DiffLine<T>>, context: nat, selected: set<int>, k: nat)
    requires Owns(HunksOf(script, context), script) && k <= |HunksOf(script, context)|
    ensures var hunks := HunksOf(script, context);
            |Choice(script, hunks, selected, k)|
            == |Side(script[..EndOf(hunks, k)], false)| + NetLines(hunks, selected, k)
  {
    var hunks := HunksOf(script, context);
    if k > 0 {
      ChoiceLength(script, context, selected, k - 1);
      GapIsQuiet(script, hunks, k - 1);
      HunksAreOrdered(script, context);
      SideLength(script[hunks[k - 1].start..hunks[k - 1].end]);
      SideOfPrefix(script, EndOf(hunks, k - 1), hunks[k - 1].start, hunks[k - 1].end, false);
    }
  }

  /** The composed document has the lines of `before`, plus the selected additions, less the selected removals. */
  lemma {:induction false} CompositionLength<T>(a: seq<T>, b: seq<T>, context: nat, selected: set<int>)
    ensures var script := Script(a, b);
            var hunks := HunksOf(script, context);
            Owns(hunks, script)
            && |Composition(script, hunks, selected)| == |a| + NetLines(hunks, selected, |hunks|)
  {
    hide Script, HunksOf, Choice, NetLines;
    var script := Script(a, b);
    var hunks := HunksOf(script, context);
    DiffHunksOwn(script, context);
    ScriptSides(a, b);
    ChoiceLength(script, context, selected, |hunks|);
    var last := EndOf(hunks, |hunks|);
    assert last <= |script|;
    hide Owns, InOrder, Side;
    assert script == script[..last] + script[last..];
    SideAppend(script[..last], script[last..], false);
  }
}
