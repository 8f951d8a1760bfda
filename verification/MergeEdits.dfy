/** Two edits in different places of one document, and exactly when the merge takes both. */
module MergeEdits {
  import opened Text
  import Lcs
  import opened Merge
  import opened MergeLaws

  ghost predicate Distinct<T>(s: seq<T>) {
    forall i, j :: 0 <= i < j < |s| ==> s[i] != s[j]
  }

  ghost predicate Fresh<T>(s: seq<T>, b: seq<T>) {
    forall i :: 0 <= i < |s| ==> s[i] !in b
  }

  /** The matching of an `n`-line document with one where `x` lines at `p` became `x'` fresh ones. */
  ghost predicate IsEdit(m: map<nat, nat>, p: nat, x: nat, x': nat, n: nat) {
    && (forall k: nat :: k in m <==> k < p || p + x <= k < n)
    && (forall k :: k in m ==> m[k] == if k < p then k else k - x + x')
  }

  // ----- the matching of one edit

  lemma {:induction false} SuffixIsSubsequence<T>(z: seq<T>, r: seq<T>)
    ensures Lcs.IsSubsequence(r, z + r)
    decreases |z|
  {
    if z == [] {
      assert z + r == r;
      Lcs.SubsequenceReflexive(r);
    } else {
      assert (z + r)[1..] == z[1..] + r;
      SuffixIsSubsequence(z[1..], r);
    }
  }

  /** Past a fresh or removed stretch the table still sees the whole common suffix. */
  lemma {:induction false} SuffixLength<T>(z: seq<T>, w: seq<T>, r: seq<T>)
    ensures Lcs.Length(z + r, w + r) >= |r|
  {
    SuffixIsSubsequence(z, r);
    SuffixIsSubsequence(w, r);
    Lcs.CommonSubsequenceBound(z + r, w + r, r);
  }

  /** Both documents read the same from `(i, j)` to the end, so the walk pairs them line for line. */
  lemma {:induction false} MatchSuffix<T>(a: seq<T>, c: seq<T>, i: nat, j: nat)
    requires i <= |a| && j <= |c| && a[i..] == c[j..]
    ensures forall k: nat :: k in Matches(a, c, i, j) <==> i <= k < |a|
    ensures forall k :: k in Matches(a, c, i, j) ==> Matches(a, c, i, j)[k] == k - i + j
    decreases |a| - i
  {
    if i < |a| {
      assert a[i] == a[i..][0] == c[j..][0] == c[j];
      assert a[i + 1..] == a[i..][1..] == c[j..][1..] == c[j + 1..];
      MatchSuffix(a, c, i + 1, j + 1);
    }
  }

  /** With the fresh lines used up, the table says to skip a removed line: the suffix is worth more. */
  lemma {:induction false} SkipRemoved<T>(a: seq<T>, c: seq<T>, i: nat, ai: nat, cj: nat)
    requires i < ai < |a| && cj < |c| && a[ai..] == c[cj..]
    ensures Lcs.Length(a[i + 1..], c[cj..]) >= Lcs.Length(a[i..], c[cj + 1..])
  {
    var r := a[ai..];
    assert a[i + 1..] == a[i + 1..ai] + r && c[cj..] == [] + r;
    SuffixLength(a[i + 1..ai], [], r);
    Lcs.LengthMonotone(a[i..], c[cj + 1..]);
  }

  /** With the removed lines used up, the table says to skip a fresh line. */
  lemma {:induction false} SkipFresh<T>(a: seq<T>, c: seq<T>, j: nat, ai: nat, cj: nat)
    requires ai < |a| && j < cj < |c| && a[ai..] == c[cj..]
    ensures Lcs.Length(a[ai + 1..], c[j..]) < Lcs.Length(a[ai..], c[j + 1..])
  {
    var r := a[ai..];
    assert a[ai..] == [] + r && c[j + 1..] == c[j + 1..cj] + r;
    SuffixLength([], c[j + 1..cj], r);
    Lcs.LengthMonotone(a[ai + 1..], c[j..]);
  }

  /** Inside the edit nothing pairs: the walk leaves it at the start of the common suffix. */
  lemma {:induction false} SkipEdit<T>(a: seq<T>, c: seq<T>, i: nat, j: nat, ai: nat, cj: nat)
    requires i <= ai <= |a| && j <= cj <= |c| && a[ai..] == c[cj..]
    requires Distinct(a) && Fresh(c[j..cj], a)
    ensures Matches(a, c, i, j) == Matches(a, c, ai, cj)
    decreases ai - i + cj - j
  {
    hide Lcs.Length;
    assert |a| - ai == |a[ai..]| == |c[cj..]| == |c| - cj;
    if j < cj {
      assert c[j..cj][0] == c[j];
      assert c[j + 1..cj] == c[j..cj][1..];
      SkipEdit(a, c, i, j + 1, ai, cj);
      if i < ai {
        SkipEdit(a, c, i + 1, j, ai, cj);
      } else if ai < |a| {
        SkipFresh(a, c, j, ai, cj);
      }
    } else if i < ai {
      SkipEdit(a, c, i + 1, j, ai, cj);
      if ai < |a| {
        assert c[cj] == c[cj..][0] == a[ai..][0] == a[ai];
        SkipRemoved(a, c, i, ai, cj);
      }
    }
  }

  lemma {:induction false} MatchPrefix<T>(a: seq<T>, c: seq<T>, i: nat, p: nat)
    requires i <= p <= |a| && p <= |c| && a[..p] == c[..p]
    requires forall k: nat :: k in Matches(a, c, p, p) ==> k >= p
    ensures forall k: nat :: k in Matches(a, c, i, i) <==> i <= k < p || k in Matches(a, c, p, p)
    ensures forall k: nat :: k in Matches(a, c, i, i) ==>
              Matches(a, c, i, i)[k] == if k < p then k else Matches(a, c, p, p)[k]
    decreases p - i
  {
    if i < p {
      assert a[i] == a[..p][i] == c[..p][i] == c[i];
      MatchPrefix(a, c, i + 1, p);
    }
  }

  /** The matching of a document with one edit of it is the identity around the edit. */
  lemma {:induction false} EditMatches<T>(p: seq<T>, x: seq<T>, x': seq<T>, r: seq<T>)
    requires Distinct(p + x + r) && Fresh(x', p + x + r)
    ensures IsEdit(Matches(p + x + r, p + x' + r, 0, 0), |p|, |x|, |x'|, |p + x + r|)
  {
    var a, c := p + x + r, p + x' + r;
    var ai, cj := |p| + |x|, |p| + |x'|;
    assert a[ai..] == r == c[cj..];
    assert c[|p|..cj] == x';
    assert a[..|p|] == p == c[..|p|];
    MatchSuffix(a, c, ai, cj);
    SkipEdit(a, c, |p|, |p|, ai, cj);
    MatchPrefix(a, c, 0, |p|);
  }

  // ----- the regions of two edits

  /** `mine` edits `x` lines at `p`, `theirs` edits `y` lines at `q`, and `p + x <= q`. */
  datatype Edits = Edits(p: nat, x: nat, x': nat, q: nat, y: nat, y': nat)

  ghost predicate TwoEdits<T>(v: Versions<T>, e: Edits) {
    && v.Valid() && e.p + e.x <= e.q && e.q + e.y <= |v.b|
    && IsEdit(v.mm, e.p, e.x, e.x', |v.b|) && |v.m| == |v.b| - e.x + e.x'
    && IsEdit(v.tm, e.q, e.y, e.y', |v.b|) && |v.t| == |v.b| - e.y + e.y'
  }

  /** The lines the two edits keep apart are enough for the merge to see two regions. */
  predicate Apart(e: Edits) {
    e.q - e.p - e.x >= 2 || (e.q - e.p - e.x == 1 && e.x > 0)
  }

  lemma {:induction false} NextSyncAt(mm: map<nat, nat>, tm: map<nat, nat>, mi: nat, ti: nat, k: nat, n: nat, next: nat)
    requires k <= next <= n
    requires forall j :: k <= j < next ==> j !in mm || j !in tm
    requires next < n ==> next in mm && next in tm && mm[next] >= mi && tm[next] >= ti
    ensures NextSync(mm, tm, mi, ti, k, n) == next
    decreases next - k
  {
    if k < next {
      NextSyncAt(mm, tm, mi, ti, k + 1, n, next);
    }
  }

  /** From the second edit on, `mine` only repeats the base, so the merge follows `theirs`. */
  lemma {:induction false} FollowTheirs<T>(v: Versions<T>, c: Cursors)
    requires v.Valid() && v.Holds(c) && |v.b| - c.bi == |v.m| - c.mi
    requires forall k: nat :: c.bi <= k < |v.b| ==> k in v.mm && v.mm[k] == k - c.bi + c.mi
    ensures MergedLines(Regions(v, c)) == v.t[c.ti..] && Conflicts(Regions(v, c)) == []
    decreases |v.b| - c.bi
  {
    if c.bi == |v.b| {
      TailOutcome(v, c);
    } else {
      RestTaken(v, c);
      FollowTheirs(v, Next(v, c));
      Prepend(v, c, v.t, c.ti, Next(v, c).ti);
    }
  }

  lemma {:induction false} RestTaken<T>(v: Versions<T>, c: Cursors)
    requires v.Valid() && v.Holds(c) && c.bi < |v.b| && |v.b| - c.bi == |v.m| - c.mi
    requires forall k: nat :: c.bi <= k < |v.b| ==> k in v.mm && v.mm[k] == k - c.bi + c.mi
    ensures Next(v, c).bi - c.bi == Next(v, c).mi - c.mi
    ensures Outcome(First(v, c)) == v.t[c.ti..Next(v, c).ti] && !IsConflict(First(v, c))
  {
    FirstReads(v, c);
    PairedStretch(v.mm, v.b, v.m, c.bi, Next(v, c).bi, c.mi);
  }

  /** Before the second edit the cursors in base and `theirs` agree, and `mine` is offset by the first edit. */
  ghost predicate BeforeSecond(e: Edits, c: Cursors) {
    && c.ti == c.bi <= e.q
    && (if c.bi <= e.p then c.mi == c.bi else e.p + e.x <= c.bi && c.mi == c.bi - e.x + e.x')
  }

  lemma {:induction false} SyncBeforeSecond<T>(v: Versions<T>, e: Edits, c: Cursors)
    requires TwoEdits(v, e) && v.Holds(c) && BeforeSecond(e, c) && c.bi < e.q
    requires c.bi != e.p || (e.x == 0 && e.x' == 0)
    ensures AtSync(v.mm, v.tm, c)
  {
    hide Alignment;
  }

  lemma {:induction false} NextBeforeSecond<T>(v: Versions<T>, e: Edits, c: Cursors)
    requires TwoEdits(v, e) && Apart(e) && v.Holds(c) && BeforeSecond(e, c) && c.bi < e.q
    ensures BeforeSecond(e, Next(v, c))
  {
    if c.bi != e.p || (e.x == 0 && e.x' == 0) {
      SyncBeforeSecond(v, e, c);
      hide TwoEdits, Alignment, NextSync, RegionEnd, AtSync;
    } else {
      FarScan(v.mm, v.tm, e, |v.b|, c);
      hide IsEdit, Alignment, NextSync, AtSync, RegionEnd;
      RegionEndAt(v, c, if e.x > 0 then e.p + e.x else e.p + 1);
      hide TwoEdits, Apart;
    }
  }

  /** The first edit's region ends before the second edit starts. */
  lemma {:induction false} FarScan(mm: map<nat, nat>, tm: map<nat, nat>, e: Edits, n: nat, c: Cursors)
    requires c.bi == c.mi == c.ti == e.p
    requires IsEdit(mm, e.p, e.x, e.x', n) && IsEdit(tm, e.q, e.y, e.y', n)
    requires e.p + e.x <= e.q <= n && Apart(e) && e.x + e.x' > 0
    ensures !AtSync(mm, tm, c)
    ensures var end := if e.x > 0 then e.p + e.x else e.p + 1;
            && NextSync(mm, tm, c.mi, c.ti, c.bi + 1, n) == end < n
            && end in mm && end in tm && mm[end] == end - e.x + e.x' && tm[end] == end
  {
    NextSyncAt(mm, tm, c.mi, c.ti, c.bi + 1, n, if e.x > 0 then e.p + e.x else e.p + 1);
  }

  lemma {:induction false} RegionEndAt<T>(v: Versions<T>, c: Cursors, next: nat)
    requires v.Valid() && v.Holds(c) && c.bi < |v.b|
    requires NextSync(v.mm, v.tm, c.mi, c.ti, c.bi + 1, |v.b|) == next
    ensures RegionEnd(v, c)
            == if next == |v.b| then Cursors(next, |v.m|, |v.t|) else Cursors(next, v.mm[next], v.tm[next])
  {
  }

  /** A stretch that pairs up line for line reads the same on both sides. */
  lemma {:induction false} PairedStretch<T>(m: map<nat, nat>, b: seq<T>, t: seq<T>, lo: nat, hi: nat, at: nat)
    requires Alignment(m, b, t, 0, 0) && lo <= hi <= |b| && at + hi - lo <= |t|
    requires forall k: nat :: lo <= k < hi ==> k in m && m[k] == k - lo + at
    ensures b[lo..hi] == t[at..at + hi - lo]
  {
  }

  lemma {:induction false} TheirsPaired<T>(v: Versions<T>, e: Edits, hi: nat)
    requires TwoEdits(v, e) && hi <= e.q
    ensures forall k: nat :: k < hi ==> k in v.tm && v.tm[k] == k
  {
  }

  lemma {:induction false} MineTakenBeforeSecond<T>(v: Versions<T>, e: Edits, c: Cursors)
    requires TwoEdits(v, e) && Apart(e) && v.Holds(c) && BeforeSecond(e, c) && c.bi < e.q
    ensures Outcome(First(v, c)) == v.m[c.mi..Next(v, c).mi] && !IsConflict(First(v, c))
  {
    hide First, Next, TwoEdits, Alignment, BeforeSecond, Apart;
    EditsAreValid(v, e);
    FirstReads(v, c);
    TheirsUnchanged(v, e, c);
  }

  lemma {:induction false} EditsAreValid<T>(v: Versions<T>, e: Edits)
    requires TwoEdits(v, e)
    ensures v.Valid() && e.q <= |v.b|
  {
  }

  lemma {:induction false} TheirsUnchanged<T>(v: Versions<T>, e: Edits, c: Cursors)
    requires TwoEdits(v, e) && Apart(e) && v.Holds(c) && BeforeSecond(e, c) && c.bi < e.q
    ensures v.b[c.bi..Next(v, c).bi] == v.t[c.ti..Next(v, c).ti]
  {
    hide Next, IsEdit;
    NextBeforeSecond(v, e, c);
    var next := Next(v, c);
    TheirsPaired(v, e, next.bi);
    PairedStretch(v.tm, v.b, v.t, c.bi, next.bi, c.ti);
  }

  /** Where the cursors stand when the base reaches the second edit. */
  function AtSecond(e: Edits): Cursors
    requires e.p + e.x <= e.q
  {
    Cursors(e.q, e.q - e.x + e.x', e.q)
  }

  lemma {:induction false} TakeMine<T>(v: Versions<T>, e: Edits, c: Cursors)
    requires TwoEdits(v, e) && Apart(e) && v.Holds(c) && BeforeSecond(e, c)
    ensures v.Holds(AtSecond(e)) && c.mi <= AtSecond(e).mi
    ensures MergedLines(Regions(v, c)) == v.m[c.mi..AtSecond(e).mi] + MergedLines(Regions(v, AtSecond(e)))
    ensures Conflicts(Regions(v, c)) == Conflicts(Regions(v, AtSecond(e)))
    decreases e.q - c.bi
  {
    if c.bi == e.q {
      assert c == AtSecond(e);
    } else {
      TakeMineStep(v, e, c);
      TakeMine(v, e, Next(v, c));
      SliceJoin(v.m, c.mi, Next(v, c).mi, AtSecond(e).mi, MergedLines(Regions(v, AtSecond(e))));
    }
  }

  /** Two edits far enough apart: `mine` up to the second one, then `theirs`, and no conflict. */
  lemma {:induction false} TakeMineThenTheirs<T>(v: Versions<T>, e: Edits)
    requires TwoEdits(v, e) && Apart(e)
    ensures v.Holds(AtSecond(e))
    ensures MergedLines(Regions(v, Cursors(0, 0, 0))) == v.m[..AtSecond(e).mi] + v.t[e.q..]
    ensures Conflicts(Regions(v, Cursors(0, 0, 0))) == []
  {
    TakeMine(v, e, Cursors(0, 0, 0));
    FollowTheirs(v, AtSecond(e));
  }

  lemma {:induction false} TakeMineStep<T>(v: Versions<T>, e: Edits, c: Cursors)
    requires TwoEdits(v, e) && Apart(e) && v.Holds(c) && BeforeSecond(e, c) && c.bi < e.q
    ensures BeforeSecond(e, Next(v, c))
    ensures MergedLines(Regions(v, c)) == v.m[c.mi..Next(v, c).mi] + MergedLines(Regions(v, Next(v, c)))
    ensures Conflicts(Regions(v, c)) == Conflicts(Regions(v, Next(v, c)))
  {
    NextBeforeSecond(v, e, c);
    MineTakenBeforeSecond(v, e, c);
    MergedCons(First(v, c), Regions(v, Next(v, c)));
  }

  lemma {:induction false} SliceJoin<T>(s: seq<T>, x: nat, y: nat, z: nat, rest: seq<T>)
    requires x <= y <= z <= |s|
    ensures s[x..y] + (s[y..z] + rest) == s[x..z] + rest
  {
  }

  // ----- edits too close together

  /** Both edits change something, the base repeats no line, and what they write is new. */
  ghost predicate RealEdits<T>(v: Versions<T>, e: Edits) {
    && TwoEdits(v, e) && Distinct(v.b)
    && e.x + e.x' > 0 && e.y + e.y' > 0
    && Fresh(v.m[e.p..e.p + e.x'], v.b) && Fresh(v.t[e.q..e.q + e.y'], v.b)
  }

  lemma {:induction false} SharedPrefix<T>(v: Versions<T>, e: Edits)
    requires TwoEdits(v, e)
    ensures v.Holds(Cursors(e.p, e.p, e.p))
    ensures Conflicts(Regions(v, Cursors(0, 0, 0))) == Conflicts(Regions(v, Cursors(e.p, e.p, e.p)))
  {
    StableRun(v, 0, e.p);
  }

  lemma {:induction false} StableStep<T>(v: Versions<T>, i: nat)
    requires v.Valid() && v.Holds(Cursors(i, i, i)) && i < |v.b| && AtSync(v.mm, v.tm, Cursors(i, i, i))
    ensures !IsConflict(First(v, Cursors(i, i, i))) && Next(v, Cursors(i, i, i)) == Cursors(i + 1, i + 1, i + 1)
  {
    hide Alignment, RegionEnd;
  }

  lemma {:induction false} StableRun<T>(v: Versions<T>, i: nat, p: nat)
    requires v.Valid() && i <= p && v.Holds(Cursors(p, p, p))
    requires forall k: nat :: i <= k < p ==> AtSync(v.mm, v.tm, Cursors(k, k, k))
    ensures Conflicts(Regions(v, Cursors(i, i, i))) == Conflicts(Regions(v, Cursors(p, p, p)))
    decreases p - i
  {
    hide First, Next, IsConflict, MergedLines, Conflicts, AtSync, Alignment;
    if i < p {
      var c := Cursors(i, i, i);
      StableStep(v, i);
      StableRun(v, i + 1, p);
      MergedCons(First(v, c), Regions(v, Next(v, c)));
    }
  }

  /** Where the one region that close edits share ends in the base; an insertion swallows a line. */
  function CloseEnd(e: Edits): nat {
    if e.p < e.q + e.y then e.q + e.y else e.p + 1
  }

  lemma {:induction false} CloseRegion<T>(v: Versions<T>, e: Edits)
    requires TwoEdits(v, e) && e.x + e.x' > 0 && e.y + e.y' > 0 && !Apart(e) && e.p < |v.b|
    ensures v.Holds(Cursors(e.p, e.p, e.p)) && CloseEnd(e) <= |v.b|
    ensures var next := CloseEnd(e);
            First(v, Cursors(e.p, e.p, e.p))
            == Changed(v.b[e.p..next], v.m[e.p..next - e.x + e.x'], v.t[e.p..next - e.y + e.y'])
  {
    hide RegionEnd, AtSync, TwoEdits, CloseEnd, Apart, First;
    CloseRegionEnd(v, e);
    FirstStretch(v, Cursors(e.p, e.p, e.p));
  }

  lemma {:induction false} FirstStretch<T>(v: Versions<T>, c: Cursors)
    requires v.Valid() && v.Holds(c) && c.bi < |v.b| && !AtSync(v.mm, v.tm, c)
    ensures var end := RegionEnd(v, c);
            First(v, c) == Changed(v.b[c.bi..end.bi], v.m[c.mi..end.mi], v.t[c.ti..end.ti])
  {
    hide RegionEnd, AtSync;
  }

  lemma {:induction false} CloseRegionEnd<T>(v: Versions<T>, e: Edits)
    requires TwoEdits(v, e) && e.x + e.x' > 0 && e.y + e.y' > 0 && !Apart(e) && e.p < |v.b|
    ensures v.Valid() && v.Holds(Cursors(e.p, e.p, e.p)) && CloseEnd(e) <= |v.b|
    ensures !AtSync(v.mm, v.tm, Cursors(e.p, e.p, e.p))
    ensures var next := CloseEnd(e);
            RegionEnd(v, Cursors(e.p, e.p, e.p)) == Cursors(next, next - e.x + e.x', next - e.y + e.y')
  {
    var c := Cursors(e.p, e.p, e.p);
    CloseScan(v.mm, v.tm, e, |v.b|, c);
    hide IsEdit, Alignment, NextSync, AtSync;
    RegionEndAt(v, c, CloseEnd(e));
  }

  lemma {:induction false} CloseScan(mm: map<nat, nat>, tm: map<nat, nat>, e: Edits, n: nat, c: Cursors)
    requires c.bi == c.mi == c.ti == e.p < n
    requires IsEdit(mm, e.p, e.x, e.x', n) && IsEdit(tm, e.q, e.y, e.y', n)
    requires e.p + e.x <= e.q && e.q + e.y <= n && e.x + e.x' > 0 && e.y + e.y' > 0 && !Apart(e)
    ensures !AtSync(mm, tm, c)
    ensures NextSync(mm, tm, c.mi, c.ti, c.bi + 1, n) == CloseEnd(e)
    ensures var next := CloseEnd(e);
            next < n ==> next in mm && next in tm && mm[next] == next - e.x + e.x' && tm[next] == next - e.y + e.y'
  {
    NextSyncAt(mm, tm, c.mi, c.ti, c.bi + 1, n, CloseEnd(e));
  }

  /** In `mine` everything from the first edit's end on is the base's. */
  lemma {:induction false} MineAt<T>(v: Versions<T>, e: Edits, k: nat)
    requires TwoEdits(v, e) && e.p + e.x <= k < |v.b|
    ensures v.m[k - e.x + e.x'] == v.b[k]
  {
    assert k in v.mm;
  }

  lemma {:induction false} TheirsAt<T>(v: Versions<T>, e: Edits, k: nat)
    requires TwoEdits(v, e) && k < |v.b| && (k < e.q || e.q + e.y <= k)
    ensures v.t[if k < e.q then k else k - e.y + e.y'] == v.b[k]
  {
    assert k in v.tm;
  }

  lemma {:induction false} FreshLine<T>(s: seq<T>, b: seq<T>, lo: nat, hi: nat, k: nat)
    requires lo <= k < hi <= |s| && Fresh(s[lo..hi], b)
    ensures s[k] !in b
  {
    assert s[lo..hi][k - lo] == s[k];
  }

  lemma {:induction false} CloseEditsConflict<T>(v: Versions<T>, e: Edits)
    requires RealEdits(v, e) && !Apart(e) && e.p < e.q + e.y
    ensures v.Holds(Cursors(e.p, e.p, e.p)) && e.p < |v.b|
    ensures IsConflict(First(v, Cursors(e.p, e.p, e.p)))
  {
    hide IsEdit, Alignment, Distinct, Fresh, First, Apart;
    CloseRegion(v, e);
    EdgesAreFresh(v, e);
    MineDiffers(v, e);
    TheirsDiffers(v, e);
    SidesDiffer(v, e);
  }

  lemma {:induction false} EdgesAreFresh<T>(v: Versions<T>, e: Edits)
    requires RealEdits(v, e)
    ensures e.x' > 0 ==> v.m[e.p] !in v.b
    ensures e.y' > 0 ==> v.t[e.q] !in v.b && v.t[e.q + e.y' - 1] !in v.b
  {
    hide Distinct, IsEdit, Fresh;
    if e.x' > 0 {
      FreshLine(v.m, v.b, e.p, e.p + e.x', e.p);
    }
    if e.y' > 0 {
      FreshLine(v.t, v.b, e.q, e.q + e.y', e.q);
      FreshLine(v.t, v.b, e.q, e.q + e.y', e.q + e.y' - 1);
    }
  }

  lemma {:induction false} SidesDiffer<T>(v: Versions<T>, e: Edits)
    requires TwoEdits(v, e) && Distinct(v.b) && !Apart(e) && e.p < e.q + e.y && e.x + e.x' > 0
    requires e.x' > 0 ==> v.m[e.p] !in v.b
    requires e.y' > 0 ==> v.t[e.q + e.y' - 1] !in v.b
    ensures v.m[e.p..e.q + e.y - e.x + e.x'] != v.t[e.p..e.q + e.y']
  {
    if e.x' == 0 {
      DeletionDiffers(v, e);
    } else if e.p < e.q {
      FreshStartDiffers(v, e);
    } else {
      FreshEndDiffers(v, e);
    }
  }

  lemma {:induction false} MineDiffers<T>(v: Versions<T>, e: Edits)
    requires TwoEdits(v, e) && e.x + e.x' > 0 && (e.x' > 0 ==> v.m[e.p] !in v.b)
    ensures v.b[e.p..e.q + e.y] != v.m[e.p..e.q + e.y - e.x + e.x']
  {
    var base, mine := v.b[e.p..e.q + e.y], v.m[e.p..e.q + e.y - e.x + e.x'];
    if e.x == e.x' {
      assert mine[0] == v.m[e.p] && base[0] == v.b[e.p];
    }
  }

  lemma {:induction false} TheirsDiffers<T>(v: Versions<T>, e: Edits)
    requires TwoEdits(v, e) && e.y + e.y' > 0 && (e.y' > 0 ==> v.t[e.q] !in v.b)
    ensures v.b[e.p..e.q + e.y] != v.t[e.p..e.q + e.y']
  {
    var base, theirs, i := v.b[e.p..e.q + e.y], v.t[e.p..e.q + e.y'], e.q - e.p;
    if e.y == e.y' {
      assert theirs[i] == v.t[e.q] && base[i] == v.b[e.q];
    }
  }

  /** `mine` starts with a new line, `theirs` with one of the base's. */
  lemma {:induction false} FreshStartDiffers<T>(v: Versions<T>, e: Edits)
    requires TwoEdits(v, e) && e.p < e.q && e.x' > 0 && v.m[e.p] !in v.b
    ensures v.m[e.p..e.q + e.y - e.x + e.x'] != v.t[e.p..e.q + e.y']
  {
    var mine, theirs := v.m[e.p..e.q + e.y - e.x + e.x'], v.t[e.p..e.q + e.y'];
    TheirsAt(v, e, e.p);
    assert mine[0] == v.m[e.p] && theirs[0] == v.t[e.p];
  }

  /** `mine` ends with a line of the base, `theirs` is new throughout. */
  lemma {:induction false} FreshEndDiffers<T>(v: Versions<T>, e: Edits)
    requires TwoEdits(v, e) && e.p == e.q && e.y > 0 && (e.y' > 0 ==> v.t[e.q + e.y' - 1] !in v.b)
    ensures v.m[e.p..e.q + e.y - e.x + e.x'] != v.t[e.p..e.q + e.y']
  {
    var mine, theirs, k := v.m[e.p..e.q + e.y - e.x + e.x'], v.t[e.p..e.q + e.y'], e.q + e.y - 1;
    MineAt(v, e, k);
    hide IsEdit, Alignment;
    assert mine[|mine| - 1] == v.b[k];
    if e.y' > 0 {
      assert theirs[|theirs| - 1] == v.t[e.q + e.y' - 1];
    }
  }

  /** `mine` deleted the first line of the region, `theirs` still starts with it. */
  lemma {:induction false} DeletionDiffers<T>(v: Versions<T>, e: Edits)
    requires TwoEdits(v, e) && Distinct(v.b) && !Apart(e) && e.x > 0 && e.x' == 0
    ensures v.m[e.p..e.q + e.y - e.x + e.x'] != v.t[e.p..e.q + e.y']
  {
    var mine, theirs := v.m[e.p..e.q + e.y - e.x + e.x'], v.t[e.p..e.q + e.y'];
    TheirsAt(v, e, e.p);
    assert theirs[0] == v.b[e.p];
    if e.y > 0 {
      MineAt(v, e, e.q);
      assert mine[0] == v.b[e.q];
    }
  }

  /** Two insertions at one point: they conflict, unless they insert the same lines, which land once. */
  lemma {:induction false} SamePointInsertions<T>(v: Versions<T>, e: Edits)
    requires TwoEdits(v, e) && e.p == e.q && e.x == 0 && e.y == 0 && e.x' > 0 && e.y' > 0
    requires v.mm == Matches(v.b, v.m, 0, 0) && v.tm == Matches(v.b, v.t, 0, 0)
    ensures Conflicts(Regions(v, Cursors(0, 0, 0))) == [] ==>
              MergedLines(Regions(v, Cursors(0, 0, 0))) == v.m
  {
    SharedPrefix(v, e);
    var next := if e.p < |v.b| then e.p + 1 else e.p;
    if v.m[e.p..next + e.x'] == v.t[e.p..next + e.y'] {
      SameInsertion(v, e, next);
      BothMadeOneChange(v, Cursors(0, 0, 0));
    } else {
      InsertionsConflict(v, e, next);
    }
  }

  lemma {:induction false} InsertionsConflict<T>(v: Versions<T>, e: Edits, next: nat)
    requires TwoEdits(v, e) && e.p == e.q && e.x == 0 && e.y == 0 && e.x' > 0 && e.y' > 0
    requires next == if e.p < |v.b| then e.p + 1 else e.p
    requires v.m[e.p..next + e.x'] != v.t[e.p..next + e.y']
    ensures v.Holds(Cursors(e.p, e.p, e.p)) && Conflicts(Regions(v, Cursors(e.p, e.p, e.p))) != []
  {
    if e.p < |v.b| {
      InsertionsInside(v, e);
    } else {
      InsertionsAtEnd(v, e);
    }
  }

  lemma {:induction false} InsertionsInside<T>(v: Versions<T>, e: Edits)
    requires TwoEdits(v, e) && e.p == e.q < |v.b| && e.x == 0 && e.y == 0 && e.x' > 0 && e.y' > 0
    requires v.m[e.p..e.p + 1 + e.x'] != v.t[e.p..e.p + 1 + e.y']
    ensures v.Holds(Cursors(e.p, e.p, e.p)) && Conflicts(Regions(v, Cursors(e.p, e.p, e.p))) != []
  {
    hide IsEdit, Alignment, First, Next;
    var c := Cursors(e.p, e.p, e.p);
    CloseRegion(v, e);
    assert |First(v, c).base| < |First(v, c).mine| && |First(v, c).base| < |First(v, c).theirs|;
    ConflictFirst(v, c, First(v, c), Regions(v, Next(v, c)));
  }

  lemma {:induction false} InsertionsAtEnd<T>(v: Versions<T>, e: Edits)
    requires TwoEdits(v, e) && e.p == e.q == |v.b| && e.x == 0 && e.y == 0 && e.x' > 0 && e.y' > 0
    requires v.m[e.p..e.p + e.x'] != v.t[e.p..e.p + e.y']
    ensures v.Holds(Cursors(e.p, e.p, e.p)) && Conflicts(Regions(v, Cursors(e.p, e.p, e.p))) != []
  {
    hide IsEdit, Alignment;
    var c := Cursors(e.p, e.p, e.p);
    var r := Changed([], v.m[c.mi..], v.t[c.ti..]);
    assert r.mine == v.m[e.p..e.p + e.x'] && r.theirs == v.t[e.p..e.p + e.y'];
    ConflictFirst(v, c, r, []);
  }

  lemma {:induction false} ConflictFirst<T>(v: Versions<T>, c: Cursors, r: Region<T>, rest: seq<Region<T>>)
    requires v.Valid() && v.Holds(c) && Regions(v, c) == [r] + rest && IsConflict(r)
    ensures Conflicts(Regions(v, c)) != []
  {
    hide Regions, IsConflict;
    MergedCons(r, rest);
  }

  lemma {:induction false} SameMatching(mm: map<nat, nat>, tm: map<nat, nat>, p: nat, x': nat, n: nat)
    requires IsEdit(mm, p, 0, x', n) && IsEdit(tm, p, 0, x', n)
    ensures mm == tm
  {
    forall k
      ensures k in mm <==> k in tm
    {
    }
  }

  lemma {:induction false} SameInsertion<T>(v: Versions<T>, e: Edits, next: nat)
    requires TwoEdits(v, e) && e.p == e.q && e.x == 0 && e.y == 0
    requires e.p <= next <= |v.b| && v.m[e.p..next + e.x'] == v.t[e.p..next + e.y']
    ensures v.m == v.t && v.mm == v.tm
  {
    assert |v.m[e.p..next + e.x']| == |v.t[e.p..next + e.y']|;
    SameMatching(v.mm, v.tm, e.p, e.x', |v.b|);
    hide IsEdit, Alignment;
    forall k | 0 <= k < |v.m|
      ensures v.m[k] == v.t[k]
    {
      SameInsertionAt(v, e, next, k);
    }
  }

  lemma {:induction false} SameInsertionAt<T>(v: Versions<T>, e: Edits, next: nat, k: nat)
    requires TwoEdits(v, e) && e.p == e.q && e.x == 0 && e.y == 0 && e.x' == e.y' && k < |v.m|
    requires e.p <= next <= |v.b| && v.m[e.p..next + e.x'] == v.t[e.p..next + e.y']
    ensures v.m[k] == v.t[k]
  {
    hide Alignment;
    if k < e.p {
      ReadsTheSame(v, k);
    } else if k < e.p + e.x' {
      assert v.m[k] == v.m[e.p..next + e.x'][k - e.p] == v.t[e.p..next + e.y'][k - e.p];
    } else {
      ReadsTheSame(v, k - e.x');
    }
  }

  lemma {:induction false} ReadsTheSame<T>(v: Versions<T>, k: nat)
    requires v.Valid() && k in v.mm && k in v.tm
    ensures k < |v.b| && v.mm[k] < |v.m| && v.tm[k] < |v.t| && v.m[v.mm[k]] == v.b[k] == v.t[v.tm[k]]
  {
  }

  // ----- the exact condition

  /**
    * `mine` turns X into X', `theirs` turns Y into Y', S lies between. When both really edit, write
    * only lines the base does not have, and the base repeats no line, the merge is clean and takes
    * both edits exactly when S has two lines, or one line and X is not a pure insertion.
    */
  lemma {:induction false} NonOverlappingEdits<T>(p: seq<T>, x: seq<T>, x': seq<T>, s: seq<T>, y: seq<T>, y': seq<T>,
                                                  q: seq<T>)
    requires Distinct(p + x + s + y + q)
    requires Fresh(x', p + x + s + y + q) && Fresh(y', p + x + s + y + q)
    requires (x != [] || x' != []) && (y != [] || y' != [])
    ensures var rs := MergeRegions(p + x + s + y + q, p + x' + s + y + q, p + x + s + y' + q);
            Conflicts(rs) == [] && MergedLines(rs) == p + x' + s + y' + q
            <==> |s| >= 2 || (|s| == 1 && x != [])
  {
    hide Distinct, Fresh, MergedLines, Conflicts, MergeRegions;
    if |s| >= 2 || (|s| == 1 && x != []) {
      FarEditsTaken(p, x, x', s, y, y', q);
    } else {
      CloseEditsLost(p, x, x', s, y, y', q);
    }
  }

  lemma {:induction false} MatchedVersions<T>(b: seq<T>, m: seq<T>, t: seq<T>)
    ensures Matched(b, m, t) == Versions(b, m, t, Matches(b, m, 0, 0), Matches(b, t, 0, 0))
  {
  }

  lemma {:induction false} FarEditsTaken<T>(p: seq<T>, x: seq<T>, x': seq<T>, s: seq<T>, y: seq<T>, y': seq<T>,
                                            q: seq<T>)
    requires Distinct(p + x + s + y + q)
    requires Fresh(x', p + x + s + y + q) && Fresh(y', p + x + s + y + q)
    requires (x != [] || x' != []) && (y != [] || y' != []) && (|s| >= 2 || (|s| == 1 && x != []))
    ensures var rs := MergeRegions(p + x + s + y + q, p + x' + s + y + q, p + x + s + y' + q);
            Conflicts(rs) == [] && MergedLines(rs) == p + x' + s + y' + q
  {
    hide Distinct, Fresh, MergedLines, Conflicts, Regions, TwoEdits, Matched;
    EditsOf(p, x, x', s, y, y', q);
    var b, m, t := p + x + s + y + q, p + x' + s + y + q, p + x + s + y' + q;
    var v, e := Matched(b, m, t), Edits(|p|, |x|, |x'|, |p + x + s|, |y|, |y'|);
    MatchedVersions(b, m, t);
    EditedText(p, x, x', s, y, y', q);
    FarEditsMerge(v, e, p + x' + s + y' + q);
  }

  lemma {:induction false} CloseEditsLost<T>(p: seq<T>, x: seq<T>, x': seq<T>, s: seq<T>, y: seq<T>, y': seq<T>,
                                             q: seq<T>)
    requires Distinct(p + x + s + y + q)
    requires Fresh(x', p + x + s + y + q) && Fresh(y', p + x + s + y + q)
    requires (x != [] || x' != []) && (y != [] || y' != []) && |s| <= 1 && (s == [] || x == [])
    ensures var rs := MergeRegions(p + x + s + y + q, p + x' + s + y + q, p + x + s + y' + q);
            Conflicts(rs) == [] ==> MergedLines(rs) == p + x' + s + y + q && y == [] && y' != [] && x' != []
  {
    hide Distinct, Fresh, MergedLines, Conflicts, Regions, RealEdits, Matched;
    EditsOf(p, x, x', s, y, y', q);
    var b, m, t := p + x + s + y + q, p + x' + s + y + q, p + x + s + y' + q;
    MatchedVersions(b, m, t);
    CloseEditsFail(Matched(b, m, t), Edits(|p|, |x|, |x'|, |p + x + s|, |y|, |y'|));
  }

  lemma {:induction false} FarEditsMerge<T>(v: Versions<T>, e: Edits, text: seq<T>)
    requires TwoEdits(v, e) && Apart(e)
    requires v.Holds(AtSecond(e)) && v.m[..AtSecond(e).mi] + v.t[e.q..] == text
    ensures Conflicts(Regions(v, Cursors(0, 0, 0))) == []
    ensures MergedLines(Regions(v, Cursors(0, 0, 0))) == text
  {
    TakeMineThenTheirs(v, e);
  }

  lemma {:induction false} EditedText<T>(p: seq<T>, x: seq<T>, x': seq<T>, s: seq<T>, y: seq<T>, y': seq<T>, q: seq<T>)
    ensures (p + x' + s + y + q)[..|p + x' + s|] + (p + x + s + y' + q)[|p + x + s|..] == p + x' + s + y' + q
  {
    assert (p + x' + s + y + q)[..|p + x' + s|] == p + x' + s;
    assert (p + x + s + y' + q)[|p + x + s|..] == y' + q;
  }

  /** Close edits leave a conflict, unless both are the same insertion, and then it lands once. */
  lemma {:induction false} CloseEditsFail<T>(v: Versions<T>, e: Edits)
    requires RealEdits(v, e) && !Apart(e)
    requires v.mm == Matches(v.b, v.m, 0, 0) && v.tm == Matches(v.b, v.t, 0, 0)
    ensures Conflicts(Regions(v, Cursors(0, 0, 0))) == [] ==>
              MergedLines(Regions(v, Cursors(0, 0, 0))) == v.m && e.y == 0 && e.y' > 0 && e.x' > 0
  {
    if e.p < e.q + e.y {
      var c := Cursors(e.p, e.p, e.p);
      CloseEditsConflict(v, e);
      SharedPrefix(v, e);
      MergedCons(First(v, c), Regions(v, Next(v, c)));
    } else {
      SamePointInsertions(v, e);
    }
  }

  lemma {:induction false} EditsOf<T>(p: seq<T>, x: seq<T>, x': seq<T>, s: seq<T>, y: seq<T>, y': seq<T>, q: seq<T>)
    requires Distinct(p + x + s + y + q)
    requires Fresh(x', p + x + s + y + q) && Fresh(y', p + x + s + y + q)
    requires (x != [] || x' != []) && (y != [] || y' != [])
    ensures RealEdits(Matched(p + x + s + y + q, p + x' + s + y + q, p + x + s + y' + q),
                      Edits(|p|, |x|, |x'|, |p + x + s|, |y|, |y'|))
  {
    var b, m, t := p + x + s + y + q, p + x' + s + y + q, p + x + s + y' + q;
    var r := s + y + q;
    assert p + x + r == b && p + x' + r == m;
    EditMatches(p, x, x', r);
    assert (p + x + s) + y + q == b && (p + x + s) + y' + q == t;
    EditMatches(p + x + s, y, y', q);
    assert m[|p|..|p| + |x'|] == x';
    assert t[|p + x + s|..|p + x + s| + |y'|] == y';
  }

  /** More lines make a longer text. */
  lemma {:induction false} JoinLonger(a: seq<string>, added: seq<string>, b: seq<string>)
    requires added != [] && a + b != []
    ensures |Join(a + added + b)| > |Join(a + b)|
    decreases |a|
  {
    if a == [] {
      assert a + added + b == added + b && a + b == b;
      JoinLonger'(added, b);
    } else if |a| == 1 && b == [] {
      assert a + added + b == a + added && a + b == a;
      assert (a + added)[1..] == added;
    } else {
      assert (a + added + b)[1..] == a[1..] + added + b && (a + b)[1..] == a[1..] + b;
      assert (a + added + b)[0] == a[0] == (a + b)[0];
      JoinLonger(a[1..], added, b);
    }
  }

  lemma {:induction false} JoinLonger'(added: seq<string>, b: seq<string>)
    requires added != [] && b != []
    ensures |Join(added + b)| > |Join(b)|
    decreases |added|
  {
    assert (added + b)[1..] == added[1..] + b;
    if |added| > 1 {
      JoinLonger'(added[1..], b);
    } else {
      assert added[1..] + b == b;
    }
  }

  /** The same, for documents: they merge to the text with both edits under exactly that condition. */
  lemma {:induction false} NonOverlappingEditsMerge(
      base: string, mine: string, theirs: string,
      p: seq<string>, x: seq<string>, x': seq<string>, s: seq<string>, y: seq<string>, y': seq<string>, q: seq<string>)
    requires SplitLines(base) == p + x + s + y + q && Distinct(SplitLines(base))
    requires SplitLines(mine) == p + x' + s + y + q && SplitLines(theirs) == p + x + s + y' + q
    requires Fresh(x', SplitLines(base)) && Fresh(y', SplitLines(base))
    ensures Merge3Of(base, mine, theirs) == Merge3Result(Join(p + x' + s + y' + q), true, []) <==>
              (x == [] && x' == []) || (y == [] && y' == []) || |s| >= 2 || (|s| == 1 && x != [])
  {
    hide Distinct, Fresh, MergeRegions, MergedLines, Conflicts, Join, SplitLines;
    if x == [] && x' == [] {
      MergeUnits(base, theirs);
      JoinSplitLines(base);
      JoinSplitLines(mine);
      JoinSplitLines(theirs);
    } else if y == [] && y' == [] {
      MergeUnits(base, mine);
      JoinSplitLines(base);
      JoinSplitLines(mine);
      JoinSplitLines(theirs);
    } else if |s| >= 2 || (|s| == 1 && x != []) {
      FarEditsTaken(p, x, x', s, y, y', q);
    } else {
      CloseEditsLost(p, x, x', s, y, y', q);
      if y == [] && y' != [] && x' != [] {
        JoinLonger(p + x' + s, y', q);
        assert p + x' + s + y + q == p + x' + s + q;
      }
    }
  }

  /** An insertion, one line, an edit: the insertion swallows the line, and all of it is one conflict. */
  lemma {:induction false} InsertionBesideEdit<T>(line: T, was: T, added: T, becomes: T)
    requires Distinct([line, was]) && Fresh([added], [line, was]) && Fresh([becomes], [line, was])
    ensures var rs := MergeRegions([line, was], [added, line, was], [line, becomes]);
            rs == [Changed([line, was], [added, line, was], [line, becomes])] && Conflicts(rs) == rs
  {
    hide Matches, Regions, Distinct;
    var b, m, t := [line, was], [added, line, was], [line, becomes];
    var v := Matched(b, m, t);
    assert [] + [] + [line] + [was] + [] == b && [] + [added] + [line] + [was] + [] == m
           && [] + [] + [line] + [becomes] + [] == t;
    EditsOf([], [], [added], [line], [was], [becomes], []);
    OneStretch(v);
    assert b != t by {
      assert t[1] == [becomes][0] && b[1] in b;
    }
  }

  lemma {:induction false} OneStretch<T>(v: Versions<T>)
    requires v.Valid() && |v.b| == 2 && 1 !in v.tm && (0 in v.mm ==> v.mm[0] != 0)
    ensures Regions(v, Cursors(0, 0, 0)) == [Changed(v.b, v.m, v.t)]
  {
    var c := Cursors(0, 0, 0);
    assert NextSync(v.mm, v.tm, 0, 0, 1, 2) == NextSync(v.mm, v.tm, 0, 0, 2, 2) == 2;
    assert RegionEnd(v, c) == Cursors(2, |v.m|, |v.t|);
    assert v.b[0..2] == v.b && v.m[0..] == v.m && v.t[0..] == v.t;
    assert First(v, c) == Changed(v.b, v.m, v.t);
    assert Regions(v, Next(v, c)) == [];
  }
}
