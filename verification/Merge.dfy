/** The three-way line merge. */
module Merge {
  import opened Text
  import Lcs

  // ----- matchedIndexes

  /** The matches the walk over the table records from cell `(i, j)` on. */
  function Matches<T(==)>(a: seq<T>, b: seq<T>, i: nat, j: nat): map<nat, nat>
    requires i <= |a| && j <= |b|
    decreases |a| - i + |b| - j
  {
    if i == |a| || j == |b| then map[]
    else if a[i] == b[j] then Matches(a, b, i + 1, j + 1)[i := j]
    else if Lcs.Length(a[i + 1..], b[j..]) >= Lcs.Length(a[i..], b[j + 1..]) then Matches(a, b, i + 1, j)
    else Matches(a, b, i, j + 1)
  }

  /** An order-preserving pairing of equal lines of `a[i..]` and `b[j..]`. */
  ghost predicate Alignment<T>(m: map<nat, nat>, a: seq<T>, b: seq<T>, i: nat, j: nat) {
    && (forall k :: k in m ==> i <= k < |a| && j <= m[k] < |b| && a[k] == b[m[k]])
    && (forall k, l {:trigger m[k], m[l]} :: k in m && l in m && k < l ==> m[k] < m[l])
  }

  /** Lines keep their order in the matching, and only equal lines are paired. */
  lemma {:induction false} MatchesAlign<T>(a: seq<T>, b: seq<T>, i: nat, j: nat)
    requires i <= |a| && j <= |b|
    ensures Alignment(Matches(a, b, i, j), a, b, i, j)
    decreases |a| - i + |b| - j
  {
    if i == |a| || j == |b| {
    } else if a[i] == b[j] {
      MatchesAlign(a, b, i + 1, j + 1);
    } else {
      MatchesAlign(a, b, i + 1, j);
      MatchesAlign(a, b, i, j + 1);
    }
  }

  /** The matching is as large as any common subsequence. */
  lemma {:induction false} MatchesAreLongest<T>(a: seq<T>, b: seq<T>, i: nat, j: nat)
    requires i <= |a| && j <= |b|
    ensures |Matches(a, b, i, j)| == Lcs.Length(a[i..], b[j..])
    decreases |a| - i + |b| - j
  {
    if i == |a| || j == |b| {
    } else {
      assert a[i..][1..] == a[i + 1..] && b[j..][1..] == b[j + 1..];
      if a[i] == b[j] {
        MatchesAreLongest(a, b, i + 1, j + 1);
        MatchesAlign(a, b, i + 1, j + 1);
        assert i !in Matches(a, b, i + 1, j + 1);
      } else {
        MatchesAreLongest(a, b, i + 1, j);
        MatchesAreLongest(a, b, i, j + 1);
      }
    }
  }

  method MatchedIndexes<T(==)>(from: seq<T>, to: seq<T>) returns (matches: map<nat, nat>)
    ensures matches == Matches(from, to, 0, 0)
    ensures Alignment(matches, from, to, 0, 0)
  {
    var lengths := Lcs.Table(from, to);
    matches := WalkMatches(from, to, lengths);
    MatchesAlign(from, to, 0, 0);
  }

  method WalkMatches<T(==)>(from: seq<T>, to: seq<T>, lengths: array2<nat>) returns (matches: map<nat, nat>)
    requires Lcs.IsTable(lengths, from, to)
    ensures matches == Matches(from, to, 0, 0)
  {
    matches := map[];
    var i, j := 0, 0;
    while i < |from| && j < |to|
      invariant 0 <= i <= |from| && 0 <= j <= |to|
      invariant Found(from, to, i, j, matches)
      decreases |from| - i + |to| - j
    {
      assert i + 1 <= |from| && lengths[i + 1, j] == Lcs.Length(from[i + 1..], to[j..]);
      assert j + 1 <= |to| && lengths[i, j + 1] == Lcs.Length(from[i..], to[j + 1..]);
      if from[i] == to[j] {
        FoundMatch(from, to, i, j, matches);
        matches := matches[i := j];
        i, j := i + 1, j + 1;
      } else if lengths[i + 1, j] >= lengths[i, j + 1] {
        i := i + 1;
      } else {
        j := j + 1;
      }
    }
  }

  /** At `(i, j)` the walk has recorded `matches`; what is left completes them. */
  ghost predicate Found<T>(a: seq<T>, b: seq<T>, i: nat, j: nat, matches: map<nat, nat>)
    requires i <= |a| && j <= |b|
  {
    && (forall k :: k in matches ==> k < i)
    && matches + Matches(a, b, i, j) == Matches(a, b, 0, 0)
  }

  lemma {:induction false} FoundMatch<T>(a: seq<T>, b: seq<T>, i: nat, j: nat, matches: map<nat, nat>)
    requires i < |a| && j < |b| && a[i] == b[j] && Found(a, b, i, j, matches)
    ensures Found(a, b, i + 1, j + 1, matches[i := j])
  {
    MatchesAlign(a, b, i + 1, j + 1);
    AddEarlier(matches, Matches(a, b, i + 1, j + 1), i, j);
  }

  lemma {:induction false} AddEarlier(early: map<nat, nat>, late: map<nat, nat>, i: nat, j: nat)
    requires i !in early && i !in late
    ensures early[i := j] + late == early + late[i := j]
  {
  }

  // ----- regions

  /** A line all three documents agree on, or a stretch that at least one side may have changed. */
  datatype Region<T> =
    | Stable(line: T)
    | Changed(base: seq<T>, mine: seq<T>, theirs: seq<T>)

  /** The first line from `k` on that is matched on both sides and still reachable in both. */
  function NextSync(mm: map<nat, nat>, tm: map<nat, nat>, mi: nat, ti: nat, k: nat, n: nat): (next: nat)
    requires k <= n
    ensures k <= next <= n
    ensures next < n ==> next in mm && next in tm && mm[next] >= mi && tm[next] >= ti
    decreases n - k
  {
    if k == n then n
    else if k in mm && k in tm && mm[k] >= mi && tm[k] >= ti then k
    else NextSync(mm, tm, mi, ti, k + 1, n)
  }

  /** The three documents and what of the base each side kept. */
  datatype Versions<T> = Versions(b: seq<T>, m: seq<T>, t: seq<T>, mm: map<nat, nat>, tm: map<nat, nat>)
  {
    ghost predicate Valid() {
      Alignment(mm, b, m, 0, 0) && Alignment(tm, b, t, 0, 0)
    }

    ghost predicate Holds(c: Cursors) {
      c.bi <= |b| && c.mi <= |m| && c.ti <= |t|
    }
  }

  /** Where the merge loop stands in the base, in `mine` and in `theirs`. */
  datatype Cursors = Cursors(bi: nat, mi: nat, ti: nat)

  /** Where the region that starts at `c` ends. */
  function RegionEnd<T>(v: Versions<T>, c: Cursors): Cursors
    requires v.Valid() && v.Holds(c) && c.bi < |v.b|
    ensures v.Holds(RegionEnd(v, c)) && c.bi < RegionEnd(v, c).bi && c.mi <= RegionEnd(v, c).mi &&
            c.ti <= RegionEnd(v, c).ti
  {
    var nextB := NextSync(v.mm, v.tm, c.mi, c.ti, c.bi + 1, |v.b|);
    if nextB == |v.b| then Cursors(nextB, |v.m|, |v.t|) else Cursors(nextB, v.mm[nextB], v.tm[nextB])
  }

  function Stretch<T>(v: Versions<T>, c: Cursors, end: Cursors): Region<T>
    requires v.Holds(end) && c.bi <= end.bi && c.mi <= end.mi && c.ti <= end.ti
  {
    Changed(v.b[c.bi..end.bi], v.m[c.mi..end.mi], v.t[c.ti..end.ti])
  }

  /** The next region: one synchronized line, or a stretch up to the next one. */
  function First<T(==)>(v: Versions<T>, c: Cursors): Region<T>
    requires v.Valid() && v.Holds(c) && c.bi < |v.b|
  {
    if AtSync(v.mm, v.tm, c) then Stable(v.b[c.bi]) else Stretch(v, c, RegionEnd(v, c))
  }

  /** Where the cursors stand after that region. */
  function Next<T(==)>(v: Versions<T>, c: Cursors): (next: Cursors)
    requires v.Valid() && v.Holds(c) && c.bi < |v.b|
    ensures v.Holds(next) && c.bi < next.bi && c.mi <= next.mi && c.ti <= next.ti
  {
    if AtSync(v.mm, v.tm, c) then Cursors(c.bi + 1, c.mi + 1, c.ti + 1) else RegionEnd(v, c)
  }

  /** What either side appended past the end of the base. */
  function Tail<T>(v: Versions<T>, c: Cursors): seq<Region<T>>
    requires v.Holds(c)
  {
    if c.mi < |v.m| || c.ti < |v.t| then [Changed([], v.m[c.mi..], v.t[c.ti..])] else []
  }

  /** The regions that the merge loop cuts from the cursors on. */
  function Regions<T(==)>(v: Versions<T>, c: Cursors): seq<Region<T>>
    requires v.Valid() && v.Holds(c)
    decreases |v.b| - c.bi
  {
    if c.bi == |v.b| then Tail(v, c) else [First(v, c)] + Regions(v, Next(v, c))
  }

  /** All three cursors sit on one line that both sides kept. */
  predicate AtSync(mm: map<nat, nat>, tm: map<nat, nat>, c: Cursors) {
    c.bi in mm && mm[c.bi] == c.mi && c.bi in tm && tm[c.bi] == c.ti
  }

  predicate IsConflict<T(==)>(r: Region<T>) {
    r.Changed? && r.base != r.mine && r.base != r.theirs && r.mine != r.theirs
  }

  /** The lines a region contributes to the merged document. */
  function Outcome<T(==)>(r: Region<T>): seq<T> {
    match r
    case Stable(line) => [line]
    case Changed(base, mine, theirs) => if base == mine then theirs else mine
  }

  function MergedLines<T(==)>(rs: seq<Region<T>>): seq<T> {
    if rs == [] then [] else Outcome(rs[0]) + MergedLines(rs[1..])
  }

  function Conflicts<T(==)>(rs: seq<Region<T>>): seq<Region<T>> {
    if rs == [] then []
    else (if IsConflict(rs[0]) then [rs[0]] else []) + Conflicts(rs[1..])
  }

  /** The regions of a whole merge, over the matchings of the two sides with the base. */
  function MergeRegions<T(==)>(b: seq<T>, m: seq<T>, t: seq<T>): seq<Region<T>> {
    Regions(Matched(b, m, t), Cursors(0, 0, 0))
  }

  function Matched<T(==)>(b: seq<T>, m: seq<T>, t: seq<T>): (v: Versions<T>)
    ensures v.Valid()
  {
    MatchesAlign(b, m, 0, 0);
    MatchesAlign(b, t, 0, 0);
    Versions(b, m, t, Matches(b, m, 0, 0), Matches(b, t, 0, 0))
  }

  // ----- merge3

  datatype Merge3Result = Merge3Result(merged: string, clean: bool, conflicts: seq<Region<string>>)

  /** What `merge3` returns, read off its regions. */
  function Merge3Of(base: string, mine: string, theirs: string): Merge3Result {
    var rs := MergeRegions(SplitLines(base), SplitLines(mine), SplitLines(theirs));
    Merge3Result(Join(MergedLines(rs)), Conflicts(rs) == [], Conflicts(rs))
  }

  method Merge3(base: string, mine: string, theirs: string) returns (r: Merge3Result)
    ensures r == Merge3Of(base, mine, theirs)
  {
    var b, m, t := SplitLines(base), SplitLines(mine), SplitLines(theirs);
    var mineMatches := MatchedIndexes(b, m);
    var theirsMatches := MatchedIndexes(b, t);
    var out, conflicts := MergeLoop(Versions(b, m, t, mineMatches, theirsMatches));
    r := Merge3Result(Join(out), |conflicts| == 0, conflicts);
  }

  /** The cursor loop, emitting lines and conflicts as it goes. */
  method MergeLoop<T(==)>(v: Versions<T>) returns (out: seq<T>, conflicts: seq<Region<T>>)
    requires v.Valid()
    ensures out == MergedLines(Regions(v, Cursors(0, 0, 0)))
    ensures conflicts == Conflicts(Regions(v, Cursors(0, 0, 0)))
  {
    out, conflicts := [], [];
    var c := Cursors(0, 0, 0);
    while c.bi < |v.b|
      invariant v.Holds(c)
      invariant Cut(v, c, out, conflicts)
      decreases |v.b| - c.bi
    {
      CutNext(v, c, out, conflicts);
      if AtSync(v.mm, v.tm, c) {
        out := out + [v.b[c.bi]];
        c := Cursors(c.bi + 1, c.mi + 1, c.ti + 1);
        continue;
      }
      var end := FindRegionEnd(v, c);
      out, conflicts := EmitRegion(
        out, conflicts, v.b[c.bi..end.bi], v.m[c.mi..end.mi], v.t[c.ti..end.ti]);
      c := end;
    }
    CutTail(v, c, out, conflicts);
    if c.mi < |v.m| || c.ti < |v.t| {
      out, conflicts := EmitRegion(out, conflicts, [], v.m[c.mi..], v.t[c.ti..]);
    }
  }

  /** With the cursors here, `out` and `conflicts` are what the regions already cut came to. */
  ghost predicate Cut<T>(v: Versions<T>, c: Cursors, out: seq<T>, conflicts: seq<Region<T>>)
    requires v.Valid() && v.Holds(c)
  {
    && out + MergedLines(Regions(v, c)) == MergedLines(Regions(v, Cursors(0, 0, 0)))
    && conflicts + Conflicts(Regions(v, c)) == Conflicts(Regions(v, Cursors(0, 0, 0)))
  }

  lemma {:induction false} PeelLines<T>(r: Region<T>, rest: seq<Region<T>>, out: seq<T>)
    ensures out + MergedLines([r] + rest) == out + Outcome(r) + MergedLines(rest)
  {
    assert ([r] + rest)[1..] == rest;
  }

  lemma {:induction false} PeelConflicts<T>(r: Region<T>, rest: seq<Region<T>>, conflicts: seq<Region<T>>)
    ensures conflicts + Conflicts([r] + rest) == AddConflict(conflicts, r) + Conflicts(rest)
  {
    assert ([r] + rest)[1..] == rest;
  }

  function AddConflict<T(==)>(conflicts: seq<Region<T>>, r: Region<T>): seq<Region<T>> {
    if IsConflict(r) then conflicts + [r] else conflicts
  }

  lemma {:induction false} CutNext<T>(v: Versions<T>, c: Cursors, out: seq<T>, conflicts: seq<Region<T>>)
    requires v.Valid() && v.Holds(c) && c.bi < |v.b|
    requires Cut(v, c, out, conflicts)
    ensures Cut(v, Next(v, c), out + Outcome(First(v, c)), AddConflict(conflicts, First(v, c)))
  {
    PeelLines(First(v, c), Regions(v, Next(v, c)), out);
    PeelConflicts(First(v, c), Regions(v, Next(v, c)), conflicts);
  }

  lemma {:induction false} CutTail<T>(v: Versions<T>, c: Cursors, out: seq<T>, conflicts: seq<Region<T>>)
    requires v.Valid() && v.Holds(c) && c.bi == |v.b|
    requires Cut(v, c, out, conflicts)
    ensures var all := Regions(v, Cursors(0, 0, 0));
            var r := Changed([], v.m[c.mi..], v.t[c.ti..]);
            if c.mi < |v.m| || c.ti < |v.t|
            then out + Outcome(r) == MergedLines(all) && AddConflict(conflicts, r) == Conflicts(all)
            else out == MergedLines(all) && conflicts == Conflicts(all)
  {
    var r := Changed([], v.m[c.mi..], v.t[c.ti..]);
    PeelLines(r, [], out);
    PeelConflicts(r, [], conflicts);
    assert [r] + [] == [r];
  }

  /** The inner scan for the next synchronization point, and where it leaves the other two cursors. */
  method FindRegionEnd<T(==)>(v: Versions<T>, c: Cursors) returns (end: Cursors)
    requires v.Valid() && v.Holds(c) && c.bi < |v.b|
    ensures end == RegionEnd(v, c)
  {
    var nextB := c.bi + 1;
    while nextB <= |v.b|
      invariant c.bi < nextB <= |v.b|
      invariant NextSync(v.mm, v.tm, c.mi, c.ti, nextB, |v.b|) == NextSync(v.mm, v.tm, c.mi, c.ti, c.bi + 1, |v.b|)
      decreases |v.b| - nextB
    {
      if nextB == |v.b| { break; }
      if nextB in v.mm && nextB in v.tm && v.mm[nextB] >= c.mi && v.tm[nextB] >= c.ti { break; }
      nextB := nextB + 1;
    }
    var endM := if nextB == |v.b| then |v.m| else v.mm[nextB];
    var endT := if nextB == |v.b| then |v.t| else v.tm[nextB];
    end := Cursors(nextB, endM, endT);
  }

  /** What a stretch between synchronized lines adds to the output and to the conflicts. */
  method EmitRegion<T(==)>(out: seq<T>, conflicts: seq<Region<T>>, base: seq<T>, mine: seq<T>, theirs: seq<T>)
    returns (out': seq<T>, conflicts': seq<Region<T>>)
    ensures out' == out + Outcome(Changed(base, mine, theirs))
    ensures conflicts' == AddConflict(conflicts, Changed(base, mine, theirs))
  {
    out', conflicts' := out, conflicts;
    var mineChanged := base != mine;
    var theirsChanged := base != theirs;
    if !mineChanged {
      out' := out' + theirs;
      return;
    }
    if !theirsChanged {
      out' := out' + mine;
      return;
    }
    if mine == theirs {
      out' := out' + mine;
      return;
    }
    conflicts' := conflicts' + [Changed(base, mine, theirs)];
    out' := out' + mine;
  }
}
