/** The hunks of a diff. */
module Hunks {
  import opened Diff

  const DIFF_CONTEXT: nat := 3

  /** `[start, end)` of the diff, with the number of lines added and removed in it. */
  datatype Hunk = Hunk(start: nat, end: nat, added: nat, removed: nat)

  function Min(x: nat, y: nat): nat {
    if x < y then x else y
  }

  predicate Changed<T>(script: seq<DiffLine<T>>, i: nat) {
    i < |script| && script[i].kind != Same
  }

  /** Where a hunk that opens at line `i` starts. */
  function Lead(i: nat, context: nat): nat {
    if i < context then 0 else i - context
  }

  // ----- diffHunks

  /** The hunks as the first pass leaves them after `n` lines: no trailing context, no counts. */
  function Opened<T>(script: seq<DiffLine<T>>, context: nat, n: nat): seq<Hunk>
    requires n <= |script|
  {
    if n == 0 then []
    else
      var hunks := Opened(script, context, n - 1);
      if script[n - 1].kind == Same then hunks else Open(hunks, n - 1, context)
  }

  /** A changed line either widens the last hunk or opens a new one. */
  function Open(hunks: seq<Hunk>, i: nat, context: nat): seq<Hunk> {
    var start := Lead(i, context);
    if hunks != [] && start <= hunks[|hunks| - 1].end + context
    then hunks[|hunks| - 1 := hunks[|hunks| - 1].(end := i + 1)]
    else hunks + [Hunk(start, i + 1, 0, 0)]
  }

  /** What the second pass makes of hunk `h`: trailing context, then the counts. */
  function Close<T>(script: seq<DiffLine<T>>, context: nat, hunks: seq<Hunk>, h: nat): Hunk
    requires h < |hunks|
  {
    var limit := if h + 1 < |hunks| then hunks[h + 1].start else |script|;
    var end := Min(limit, hunks[h].end + context);
    if hunks[h].start <= end <= |script| then
      var lines := script[hunks[h].start..end];
      Hunk(hunks[h].start, end, Count(lines, Add), Count(lines, Remove))
    else Hunk(hunks[h].start, end, 0, 0)
  }

  function HunksOf<T>(script: seq<DiffLine<T>>, context: nat): seq<Hunk> {
    var hunks := Opened(script, context, |script|);
    seq(|hunks|, h requires 0 <= h < |hunks| => Close(script, context, hunks, h))
  }

  /** Opened hunks are non-empty, in order, and more than `context` lines apart. */
  ghost predicate Spaced(hunks: seq<Hunk>, context: nat, n: nat) {
    && (forall h :: 0 <= h < |hunks| ==> hunks[h].start < hunks[h].end <= n)
    && (forall h :: 0 < h < |hunks| ==> hunks[h - 1].end + context < hunks[h].start)
  }

  predicate Within(hunk: Hunk, i: nat) {
    hunk.start <= i < hunk.end
  }

  ghost predicate Covered(hunks: seq<Hunk>, i: nat) {
    exists h :: 0 <= h < |hunks| && Within(hunks[h], i)
  }

  /** No line of `[lo, hi)` is changed. */
  ghost predicate Quiet<T>(script: seq<DiffLine<T>>, lo: nat, hi: nat) {
    forall i :: lo <= i < hi ==> !Changed(script, i)
  }

  lemma {:induction false} OpenedSpaced<T>(script: seq<DiffLine<T>>, context: nat, n: nat)
    requires n <= |script|
    ensures Spaced(Opened(script, context, n), context, n)
  {
    if n > 0 {
      OpenedSpaced(script, context, n - 1);
      OpenSpaced(Opened(script, context, n - 1), n - 1, context);
      hide Spaced, Open;
    }
  }

  lemma {:induction false} OpenSpaced(hunks: seq<Hunk>, i: nat, context: nat)
    requires Spaced(hunks, context, i)
    ensures Spaced(hunks, context, i + 1) && Spaced(Open(hunks, i, context), context, i + 1)
  {
  }

  lemma {:induction false} OpenCovers(hunks: seq<Hunk>, i: nat, context: nat, x: nat)
    requires Spaced(hunks, context, i) && (x == i || (x < i && Covered(hunks, x)))
    ensures Covered(Open(hunks, i, context), x)
  {
    var after := Open(hunks, i, context);
    if x == i {
      assert Within(after[|after| - 1], x);
    } else {
      var h :| 0 <= h < |hunks| && Within(hunks[h], x);
      assert Within(after[h], x);
    }
  }

  lemma {:induction false} OpenedCovers<T>(script: seq<DiffLine<T>>, context: nat, n: nat, i: nat)
    requires i < n <= |script| && Changed(script, i)
    ensures Covered(Opened(script, context, n), i)
  {
    hide Spaced, Covered, Open;
    OpenedSpaced(script, context, n - 1);
    if i < n - 1 {
      OpenedCovers(script, context, n - 1, i);
    }
    if Changed(script, n - 1) {
      OpenCovers(Opened(script, context, n - 1), n - 1, context, i);
    }
  }

  /** Hunk `h` opened for a changed line `p` (nothing changed above it) and ends just after a changed line. */
  ghost predicate Framed<T>(script: seq<DiffLine<T>>, context: nat, hunk: Hunk, p: nat) {
    && Within(hunk, p) && Changed(script, p) && Quiet(script, hunk.start, p)
    && hunk.start == Lead(p, context) && Changed(script, hunk.end - 1)
  }

  lemma {:induction false} OpenedFramed<T>(script: seq<DiffLine<T>>, context: nat, n: nat, h: nat) returns (p: nat)
    requires n <= |script| && h < |Opened(script, context, n)|
    ensures Framed(script, context, Opened(script, context, n)[h], p)
  {
    hide Framed, Quiet, Spaced;
    var before := Opened(script, context, n - 1);
    if h < |before| {
      p := OpenedFramed(script, context, n - 1, h);
      OpenedSpaced(script, context, n - 1);
      if Changed(script, n - 1) {
        StaysFramed(script, context, before, h, p, n - 1);
      }
    } else {
      p := n - 1;
      NewHunkIsFramed(script, context, p);
    }
  }

  lemma {:induction false} StaysFramed<T>(script: seq<DiffLine<T>>, context: nat, hunks: seq<Hunk>, h: nat, p: nat,
                                          i: nat)
    requires i < |script| && Changed(script, i) && h < |hunks| && Spaced(hunks, context, i)
    requires Framed(script, context, hunks[h], p)
    ensures Framed(script, context, Open(hunks, i, context)[h], p)
  {
    hide Changed, Quiet;
  }

  lemma {:induction false} NewHunkIsFramed<T>(script: seq<DiffLine<T>>, context: nat, p: nat)
    requires p < |script| && Changed(script, p)
    requires var before := Opened(script, context, p);
             before != [] ==> Lead(p, context) > before[|before| - 1].end + context
    ensures Framed(script, context, Hunk(Lead(p, context), p + 1, 0, 0), p)
  {
    NewHunkIsQuiet(script, context, p);
    hide Opened, Quiet;
  }

  /** When a changed line opens a hunk of its own, its leading context holds no change. */
  lemma {:induction false} NewHunkIsQuiet<T>(script: seq<DiffLine<T>>, context: nat, p: nat)
    requires p < |script|
    requires var before := Opened(script, context, p);
             before != [] ==> Lead(p, context) > before[|before| - 1].end + context
    ensures Quiet(script, Lead(p, context), p)
  {
    var before := Opened(script, context, p);
    OpenedSpaced(script, context, p);
    OpenedSpacedAll(before, context, p);
    forall i | Lead(p, context) <= i < p
      ensures !Changed(script, i)
    {
      if Changed(script, i) {
        OpenedCovers(script, context, p, i);
      }
    }
  }

  lemma {:induction false} OpenedSpacedAll(hunks: seq<Hunk>, context: nat, n: nat)
    requires Spaced(hunks, context, n)
    ensures forall h, k :: 0 <= h < k < |hunks| ==> hunks[h].end + context < hunks[k].start
  {
    forall h, k | 0 <= h < k < |hunks|
      ensures hunks[h].end + context < hunks[k].start
    {
      SpacedPair(hunks, context, n, h, k);
    }
  }

  lemma {:induction false} SpacedPair(hunks: seq<Hunk>, context: nat, n: nat, h: nat, k: nat)
    requires Spaced(hunks, context, n) && h < k < |hunks|
    ensures hunks[h].end + context < hunks[k].start
  {
    if h + 1 < k {
      SpacedPair(hunks, context, n, h, k - 1);
    }
  }

  // ----- what the finished hunks promise

  /** Finished hunks are non-empty, disjoint, in document order, and count their own lines. */
  lemma {:induction false} HunksAreOrdered<T>(script: seq<DiffLine<T>>, context: nat)
    ensures var hunks := HunksOf(script, context);
            && (forall h :: 0 <= h < |hunks| ==> hunks[h].start < hunks[h].end <= |script|)
            && (forall h, k :: 0 <= h < k < |hunks| ==> hunks[h].end <= hunks[k].start)
            && (forall h :: 0 <= h < |hunks| ==>
                  && hunks[h].added == Count(script[hunks[h].start..hunks[h].end], Add)
                  && hunks[h].removed == Count(script[hunks[h].start..hunks[h].end], Remove))
  {
    var raw := Opened(script, context, |script|);
    OpenedSpaced(script, context, |script|);
    OpenedSpacedAll(raw, context, |script|);
  }

  /** Trailing context never swallows a changed line: closing a hunk leaves its changed lines alone. */
  lemma {:induction false} CloseAddsOnlyContext<T>(script: seq<DiffLine<T>>, context: nat, h: nat, i: nat)
    requires h < |HunksOf(script, context)| && Changed(script, i)
    ensures Within(HunksOf(script, context)[h], i) <==> Within(Opened(script, context, |script|)[h], i)
  {
    var raw := Opened(script, context, |script|);
    OpenedSpaced(script, context, |script|);
    OpenedSpacedAll(raw, context, |script|);
    OpenedCovers(script, context, |script|, i);
  }

  /** Every changed line lies in exactly one hunk. */
  lemma {:induction false} EveryChangeInOneHunk<T>(script: seq<DiffLine<T>>, context: nat, i: nat) returns (h: nat)
    requires Changed(script, i)
    ensures h < |HunksOf(script, context)|
    ensures forall k :: 0 <= k < |HunksOf(script, context)| ==> (Within(HunksOf(script, context)[k], i) <==> k == h)
  {
    var raw := Opened(script, context, |script|);
    OpenedCovers(script, context, |script|, i);
    h :| 0 <= h < |raw| && Within(raw[h], i);
    CloseAddsOnlyContext(script, context, h, i);
    HunksAreOrdered(script, context);
  }

  /**
    * A hunk reaches exactly `context` lines above its first change and below its last, clipped to
    * the document.
    */
  lemma {:induction false} HunkExtent<T>(script: seq<DiffLine<T>>, context: nat, h: nat) returns (p: nat, q: nat)
    requires h < |HunksOf(script, context)|
    ensures var hunk := HunksOf(script, context)[h];
            && p <= q && Changed(script, p) && Changed(script, q)
            && Quiet(script, hunk.start, p) && Quiet(script, q + 1, hunk.end)
            && hunk.start == Lead(p, context) && hunk.end == Min(|script|, q + 1 + context)
  {
    var raw := Opened(script, context, |script|);
    OpenedSpaced(script, context, |script|);
    p := OpenedFramed(script, context, |script|, h);
    q := raw[h].end - 1;
    forall i | q + 1 <= i < HunksOf(script, context)[h].end
      ensures !Changed(script, i)
    {
      if Changed(script, i) {
        CloseAddsOnlyContext(script, context, h, i);
      }
    }
  }

  ghost predicate Together(hunks: seq<Hunk>, p: nat, q: nat) {
    exists h :: 0 <= h < |hunks| && Within(hunks[h], p) && Within(hunks[h], q)
  }

  /** When the next changed line arrives, the open hunk still ends just after the previous one. */
  lemma {:induction false} OpenedEndsAtLastChange<T>(script: seq<DiffLine<T>>, context: nat, p: nat, q: nat)
    requires p < q <= |script| && Changed(script, p) && Quiet(script, p + 1, q)
    ensures var hunks := Opened(script, context, q); hunks != [] && hunks[|hunks| - 1].end == p + 1
    decreases q
  {
    if p + 1 < q {
      OpenedEndsAtLastChange(script, context, p, q - 1);
      assert !Changed(script, q - 1);
    }
  }

  lemma {:induction false} TogetherWhenOpened<T>(script: seq<DiffLine<T>>, context: nat, p: nat, q: nat)
    requires p < q < |script| && Changed(script, p) && Changed(script, q) && Quiet(script, p + 1, q)
    ensures Together(Opened(script, context, q + 1), p, q) <==> q - p - 1 <= 2 * context
  {
    var before, after := Opened(script, context, q), Opened(script, context, q + 1);
    OpenedEndsAtLastChange(script, context, p, q);
    OpenedSpaced(script, context, q);
    OpenedSpacedAll(before, context, q);
    OpenedCovers(script, context, q, p);
    assert after == Open(before, q, context);
    hide Opened, Quiet, Changed, Spaced, Together, Open;
    var h :| 0 <= h < |before| && Within(before[h], p);
    assert h == |before| - 1;
    TogetherWhenOpen(before, context, p, q);
  }

  lemma {:induction false} TogetherWhenOpen(hunks: seq<Hunk>, context: nat, p: nat, q: nat)
    requires p < q && Spaced(hunks, context, q) && hunks != []
    requires Within(hunks[|hunks| - 1], p) && hunks[|hunks| - 1].end == p + 1
    ensures Together(Open(hunks, q, context), p, q) <==> q - p - 1 <= 2 * context
  {
    var after := Open(hunks, q, context);
    OpenedSpacedAll(hunks, context, q);
    assert Within(after[|after| - 1], q) && Within(after[|hunks| - 1], p);
    hide Spaced;
  }

  /** A later line changes no membership of the lines already placed. */
  lemma {:induction false} OpenKeepsMembers(hunks: seq<Hunk>, i: nat, context: nat, x: nat, k: nat)
    requires Spaced(hunks, context, i) && x < i && Covered(hunks, x)
    requires k < |Open(hunks, i, context)|
    ensures Within(Open(hunks, i, context)[k], x) <==> k < |hunks| && Within(hunks[k], x)
  {
    OpenedSpacedAll(hunks, context, i);
    var h :| 0 <= h < |hunks| && Within(hunks[h], x);
  }

  lemma {:induction false} TogetherForever<T>(script: seq<DiffLine<T>>, context: nat, p: nat, q: nat, n: nat)
    requires p < q < n <= |script| && Changed(script, p) && Changed(script, q)
    ensures Together(Opened(script, context, n), p, q) <==> Together(Opened(script, context, q + 1), p, q)
    decreases n
  {
    if q + 1 < n {
      TogetherForever(script, context, p, q, n - 1);
      if Changed(script, n - 1) {
        OpenedSpaced(script, context, n - 1);
        OpenedCovers(script, context, n - 1, p);
        OpenedCovers(script, context, n - 1, q);
        OpenKeepsTogether(Opened(script, context, n - 1), n - 1, context, p, q);
      }
    }
  }

  lemma {:induction false} OpenKeepsTogether(hunks: seq<Hunk>, i: nat, context: nat, p: nat, q: nat)
    requires Spaced(hunks, context, i) && p < q < i && Covered(hunks, p) && Covered(hunks, q)
    ensures Together(Open(hunks, i, context), p, q) <==> Together(hunks, p, q)
  {
    var after := Open(hunks, i, context);
    forall k | 0 <= k < |after|
      ensures Within(after[k], p) <==> k < |hunks| && Within(hunks[k], p)
      ensures Within(after[k], q) <==> k < |hunks| && Within(hunks[k], q)
    {
      OpenKeepsMembers(hunks, i, context, p, k);
      OpenKeepsMembers(hunks, i, context, q, k);
    }
  }

  /** Two neighbouring changes share a hunk exactly when their context lines would touch or overlap. */
  lemma {:induction false} NeighboursShareHunk<T>(script: seq<DiffLine<T>>, context: nat, p: nat, q: nat)
    requires p < q < |script| && Changed(script, p) && Changed(script, q) && Quiet(script, p + 1, q)
    ensures Together(HunksOf(script, context), p, q) <==> q - p - 1 <= 2 * context
  {
    var raw, hunks := Opened(script, context, |script|), HunksOf(script, context);
    TogetherWhenOpened(script, context, p, q);
    TogetherForever(script, context, p, q, |script|);
    forall h | 0 <= h < |hunks|
      ensures Within(hunks[h], p) <==> Within(raw[h], p)
      ensures Within(hunks[h], q) <==> Within(raw[h], q)
    {
      CloseAddsOnlyContext(script, context, h, p);
      CloseAddsOnlyContext(script, context, h, q);
    }
  }

  /** The two passes over the diff. */
  method DiffHunks<T>(script: seq<DiffLine<T>>, context: nat := DIFF_CONTEXT) returns (hunks: seq<Hunk>)
    ensures hunks == HunksOf(script, context)
  {
    hunks := [];
    for i := 0 to |script|
      invariant hunks == Opened(script, context, i)
    {
      if script[i].kind == Same {
        continue;
      }
      var start := if i < context then 0 else i - context;
      if hunks != [] && start <= hunks[|hunks| - 1].end + context {
        hunks := hunks[|hunks| - 1 := hunks[|hunks| - 1].(end := i + 1)];
      } else {
        hunks := hunks + [Hunk(start, i + 1, 0, 0)];
      }
    }
    OpenedSpaced(script, context, |script|);
    forall h | 0 <= h < |hunks|
      ensures hunks[h].added == 0 && hunks[h].removed == 0
    {
      OpenedCountsZero(script, context, |script|, h);
    }
    hunks := CloseHunks(script, context, hunks);
  }

  /** The second pass: trailing context and counts, hunk by hunk. */
  method CloseHunks<T>(script: seq<DiffLine<T>>, context: nat, first: seq<Hunk>) returns (hunks: seq<Hunk>)
    requires Spaced(first, context, |script|)
    requires forall h :: 0 <= h < |first| ==> first[h].added == 0 && first[h].removed == 0
    ensures hunks == seq(|first|, h requires 0 <= h < |first| => Close(script, context, first, h))
  {
    hunks := first;
    for h := 0 to |hunks|
      invariant |hunks| == |first|
      invariant forall k :: 0 <= k < h ==> hunks[k] == Close(script, context, first, k)
      invariant forall k :: h <= k < |first| ==> hunks[k] == first[k]
    {
      var limit := if h + 1 < |hunks| then hunks[h + 1].start else |script|;
      var end := Min(limit, hunks[h].end + context);
      var added, removed := CountChanges(script, hunks[h].start, end);
      hunks := hunks[h := Hunk(hunks[h].start, end, hunks[h].added + added, hunks[h].removed + removed)];
    }
  }

  lemma {:induction false} OpenedCountsZero<T>(script: seq<DiffLine<T>>, context: nat, n: nat, h: nat)
    requires n <= |script| && h < |Opened(script, context, n)|
    ensures Opened(script, context, n)[h].added == 0 && Opened(script, context, n)[h].removed == 0
  {
    if h < |Opened(script, context, n - 1)| {
      OpenedCountsZero(script, context, n - 1, h);
    }
  }

  method CountChanges<T>(script: seq<DiffLine<T>>, start: nat, end: nat) returns (added: nat, removed: nat)
    requires start <= end <= |script|
    ensures added == Count(script[start..end], Add) && removed == Count(script[start..end], Remove)
  {
    added, removed := 0, 0;
    for i := start to end
      invariant added == Count(script[start..i], Add) && removed == Count(script[start..i], Remove)
    {
      assert script[start..i + 1] == script[start..i] + [script[i]];
      CountAppend(script[start..i], [script[i]], Add);
      CountAppend(script[start..i], [script[i]], Remove);
      if script[i].kind == Add {
        added := added + 1;
      } else if script[i].kind == Remove {
        removed := removed + 1;
      }
    }
  }

  lemma {:induction false} CountAppend<T>(s: seq<DiffLine<T>>, t: seq<DiffLine<T>>, kind: Kind)
    ensures Count(s + t, kind) == Count(s, kind) + Count(t, kind)
  {
    if s == [] {
      assert [] + t == t;
    } else {
      assert (s + t)[1..] == s[1..] + t;
      CountAppend(s[1..], t, kind);
    }
  }

  /** With the context nobody asked to change, that is six unchanged lines between them. */
  lemma {:induction false} SharedByDefault<T>(script: seq<DiffLine<T>>, p: nat, q: nat)
    requires p < q < |script| && Changed(script, p) && Changed(script, q) && Quiet(script, p + 1, q)
    ensures Together(HunksOf(script, DIFF_CONTEXT), p, q) <==> q - p - 1 <= 6
  {
    NeighboursShareHunk(script, DIFF_CONTEXT, p, q);
  }
}
