/** What the merge promises for every three documents. */
module MergeLaws {
  import opened Text
  import Lcs
  import opened Merge

  datatype Version = Base | Mine | Theirs

  function Reading<T>(r: Region<T>, who: Version): seq<T> {
    match r
    case Stable(line) => [line]
    case Changed(base, mine, theirs) =>
      match who
      case Base => base
      case Mine => mine
      case Theirs => theirs
  }

  /** One version's lines, region after region. */
  function Spelled<T>(rs: seq<Region<T>>, who: Version): seq<T> {
    if rs == [] then [] else Reading(rs[0], who) + Spelled(rs[1..], who)
  }

  function Remaining<T>(v: Versions<T>, c: Cursors, who: Version): seq<T>
    requires v.Holds(c)
  {
    match who
    case Base => v.b[c.bi..]
    case Mine => v.m[c.mi..]
    case Theirs => v.t[c.ti..]
  }

  // ----- the regions partition all three documents

  /** A region reads, in each version, exactly the lines its cursors moved over. */
  lemma {:induction false} FirstReads<T>(v: Versions<T>, c: Cursors)
    requires v.Valid() && v.Holds(c) && c.bi < |v.b|
    ensures Reading(First(v, c), Base) == v.b[c.bi..Next(v, c).bi]
    ensures Reading(First(v, c), Mine) == v.m[c.mi..Next(v, c).mi]
    ensures Reading(First(v, c), Theirs) == v.t[c.ti..Next(v, c).ti]
  {
  }

  lemma {:induction false} SpelledCons<T>(r: Region<T>, rest: seq<Region<T>>, who: Version)
    ensures Spelled([r] + rest, who) == Reading(r, who) + Spelled(rest, who)
  {
    assert ([r] + rest)[1..] == rest;
  }

  lemma {:induction false} MergedCons<T>(r: Region<T>, rest: seq<Region<T>>)
    ensures MergedLines([r] + rest) == Outcome(r) + MergedLines(rest)
    ensures Conflicts([r] + rest) == (if IsConflict(r) then [r] else []) + Conflicts(rest)
  {
    assert ([r] + rest)[1..] == rest;
  }

  lemma {:induction false} TailSpells<T>(v: Versions<T>, c: Cursors, who: Version)
    requires v.Holds(c) && c.bi == |v.b|
    ensures Spelled(Tail(v, c), who) == Remaining(v, c, who)
  {
    if Tail(v, c) != [] {
      SpelledCons(Tail(v, c)[0], [], who);
      assert Tail(v, c) == [Tail(v, c)[0]] + [];
    }
  }

  lemma {:induction false} RegionsPartition<T>(v: Versions<T>, c: Cursors, who: Version)
    requires v.Valid() && v.Holds(c)
    ensures Spelled(Regions(v, c), who) == Remaining(v, c, who)
    decreases |v.b| - c.bi
  {
    hide First, Next, Tail, Reading, Spelled, Alignment;
    if c.bi == |v.b| {
      TailSpells(v, c, who);
    } else {
      RegionsPartition(v, Next(v, c), who);
      SpelledCons(First(v, c), Regions(v, Next(v, c)), who);
      FirstReads(v, c);
    }
  }

  /** Read in order, the regions spell `base`, `mine` and `theirs`, each completely. */
  lemma {:induction false} MergePartitions<T>(b: seq<T>, m: seq<T>, t: seq<T>)
    ensures Spelled(MergeRegions(b, m, t), Base) == b
    ensures Spelled(MergeRegions(b, m, t), Mine) == m
    ensures Spelled(MergeRegions(b, m, t), Theirs) == t
  {
    var v, start := Matched(b, m, t), Cursors(0, 0, 0);
    RegionsPartition(v, start, Base);
    RegionsPartition(v, start, Mine);
    RegionsPartition(v, start, Theirs);
  }

  /** A region is a conflict exactly when its three readings differ pairwise; otherwise the side that changed wins. */
  lemma {:induction false} ConflictsAreTheRest<T>(rs: seq<Region<T>>, r: Region<T>)
    ensures r in Conflicts(rs)
            <==> r in rs && Reading(r, Base) != Reading(r, Mine) && Reading(r, Base) != Reading(r, Theirs)
                 && Reading(r, Mine) != Reading(r, Theirs)
    ensures Reading(r, Base) == Reading(r, Mine) ==> Outcome(r) == Reading(r, Theirs)
    ensures Reading(r, Base) == Reading(r, Theirs) ==> Outcome(r) == Reading(r, Mine)
    ensures Reading(r, Base) != Reading(r, Mine) ==> Outcome(r) == Reading(r, Mine)
  {
    if rs != [] {
      ConflictsAreTheRest(rs[1..], r);
    }
  }

  // ----- lines both sides kept

  /** The base lines from `k` on that both sides kept, in base order. */
  function Kept<T>(v: Versions<T>, k: nat): seq<T>
    requires k <= |v.b|
    decreases |v.b| - k
  {
    if k == |v.b| then []
    else (if k in v.mm && k in v.tm then [v.b[k]] else []) + Kept(v, k + 1)
  }

  /** Nothing matched from here on lies behind the cursors. */
  ghost predicate Ahead<T>(v: Versions<T>, c: Cursors) {
    && (forall k :: k in v.mm && c.bi <= k ==> c.mi <= v.mm[k])
    && (forall k :: k in v.tm && c.bi <= k ==> c.ti <= v.tm[k])
  }

  lemma {:induction false} SubsequenceAppend<T>(c: seq<T>, a: seq<T>, d: seq<T>, b: seq<T>)
    requires Lcs.IsSubsequence(c, a) && Lcs.IsSubsequence(d, b)
    ensures Lcs.IsSubsequence(c + d, a + b)
    decreases |a|
  {
    if a == [] {
      assert c + d == d && a + b == b;
    } else {
      assert (a + b)[1..] == a[1..] + b;
      if c != [] && c[0] == a[0] && Lcs.IsSubsequence(c[1..], a[1..]) {
        assert (c + d)[1..] == c[1..] + d;
        SubsequenceAppend(c[1..], a[1..], d, b);
      } else {
        if c == [] {
          Lcs.SubsequenceReflexive(a[1..]);
        }
        SubsequenceAppend(c, a[1..], d, b);
        assert c + d == [] || Lcs.IsSubsequence(c + d, (a + b)[1..]);
      }
    }
  }

  lemma {:induction false} ElementIsSubsequence<T>(a: seq<T>, k: nat)
    requires k < |a|
    ensures Lcs.IsSubsequence([a[k]], a)
    decreases |a|
  {
    if k > 0 {
      assert a[1..][k - 1] == a[k];
      ElementIsSubsequence(a[1..], k - 1);
    } else {
      assert [a[0]][1..] == [];
    }
  }

  /** Nothing strictly inside a changed region was kept by both sides. */
  lemma {:induction false} NothingKeptBetween<T>(v: Versions<T>, c: Cursors, k: nat, next: nat)
    requires v.Valid() && v.Holds(c) && c.bi < k <= next <= |v.b| && Ahead(v, c)
    requires next == NextSync(v.mm, v.tm, c.mi, c.ti, k, |v.b|)
    ensures Kept(v, k) == Kept(v, next)
    decreases next - k
  {
    if k < next {
      NothingKeptBetween(v, c, k + 1, next);
    }
  }

  /** A kept line that opens a changed region is in that region's outcome. */
  lemma {:induction false} KeptLineIsEmitted<T>(v: Versions<T>, c: Cursors)
    requires v.Valid() && v.Holds(c) && c.bi < |v.b| && Ahead(v, c)
    requires c.bi in v.mm && c.bi in v.tm
    ensures Lcs.IsSubsequence([v.b[c.bi]], Outcome(Stretch(v, c, RegionEnd(v, c))))
  {
    var end := RegionEnd(v, c);
    var r := Stretch(v, c, end);
    var im, it := v.mm[c.bi] - c.mi, v.tm[c.bi] - c.ti;
    assert r.mine[im] == v.b[c.bi] && r.theirs[it] == v.b[c.bi];
    ElementIsSubsequence(r.mine, im);
    ElementIsSubsequence(r.theirs, it);
  }

  /** The cursors never pass a match, because the matchings are monotonic. */
  lemma {:induction false} AheadNext<T>(v: Versions<T>, c: Cursors)
    requires v.Valid() && v.Holds(c) && c.bi < |v.b| && Ahead(v, c)
    ensures Ahead(v, Next(v, c))
  {
  }

  lemma {:induction false} NothingIsSubsequence<T>(a: seq<T>)
    ensures Lcs.IsSubsequence([], a)
  {
  }

  /** Of the lines a region covers, both sides kept at most the first, and its outcome has it. */
  lemma {:induction false} KeptInFirst<T>(v: Versions<T>, c: Cursors)
    requires v.Valid() && v.Holds(c) && c.bi < |v.b| && Ahead(v, c)
    ensures var first := if c.bi in v.mm && c.bi in v.tm then [v.b[c.bi]] else [];
            Kept(v, c.bi) == first + Kept(v, Next(v, c).bi) && Lcs.IsSubsequence(first, Outcome(First(v, c)))
  {
    NothingIsSubsequence(Outcome(First(v, c)));
    hide Lcs.IsSubsequence;
    if AtSync(v.mm, v.tm, c) {
      Lcs.SubsequenceReflexive([v.b[c.bi]]);
    } else {
      NothingKeptBetween(v, c, c.bi + 1, RegionEnd(v, c).bi);
      if c.bi in v.mm && c.bi in v.tm {
        KeptLineIsEmitted(v, c);
      }
    }
  }

  lemma {:induction false} KeptLinesAreMerged<T>(v: Versions<T>, c: Cursors)
    requires v.Valid() && v.Holds(c) && Ahead(v, c)
    ensures Lcs.IsSubsequence(Kept(v, c.bi), MergedLines(Regions(v, c)))
    decreases |v.b| - c.bi
  {
    if c.bi < |v.b| {
      var first := if c.bi in v.mm && c.bi in v.tm then [v.b[c.bi]] else [];
      var next := Next(v, c);
      AheadNext(v, c);
      KeptLinesAreMerged(v, next);
      KeptInFirst(v, c);
      MergedCons(First(v, c), Regions(v, next));
      SubsequenceAppend(first, Outcome(First(v, c)), Kept(v, next.bi), MergedLines(Regions(v, next)));
    }
  }

  /** Every base line that both sides kept is in the merge, in base order, conflicts or not. */
  lemma {:induction false} KeptLinesSurvive<T>(b: seq<T>, m: seq<T>, t: seq<T>)
    ensures Lcs.IsSubsequence(Kept(Matched(b, m, t), 0), MergedLines(MergeRegions(b, m, t)))
  {
    KeptLinesAreMerged(Matched(b, m, t), Cursors(0, 0, 0));
  }

  // ----- one side changed nothing, or both made the same change

  ghost predicate IsIdentity(m: map<nat, nat>, n: nat) {
    (forall k: nat :: k in m <==> k < n) && (forall k :: k in m ==> m[k] == k)
  }

  lemma {:induction false} SelfMatch<T>(a: seq<T>, i: nat)
    requires i <= |a|
    ensures forall k: nat :: k in Matches(a, a, i, i) <==> i <= k < |a|
    ensures forall k :: k in Matches(a, a, i, i) ==> Matches(a, a, i, i)[k] == k
    decreases |a| - i
  {
    if i < |a| {
      SelfMatch(a, i + 1);
    }
  }

  lemma {:induction false} TailOutcome<T>(v: Versions<T>, c: Cursors)
    requires v.Valid() && v.Holds(c) && c.bi == |v.b|
    requires c.mi == |v.m| || c.ti == |v.t| || v.m[c.mi..] == v.t[c.ti..]
    ensures MergedLines(Regions(v, c)) == if c.mi == |v.m| then v.t[c.ti..] else v.m[c.mi..]
    ensures Conflicts(Regions(v, c)) == []
  {
    if Tail(v, c) != [] {
      MergedCons(Tail(v, c)[0], []);
      assert Tail(v, c) == [Tail(v, c)[0]] + [];
    }
  }

  /** A region that emits the next lines of `side`, before regions that emit the rest of it. */
  lemma {:induction false} Prepend<T>(v: Versions<T>, c: Cursors, side: seq<T>, lo: nat, hi: nat)
    requires v.Valid() && v.Holds(c) && c.bi < |v.b| && lo <= hi <= |side|
    requires Outcome(First(v, c)) == side[lo..hi] && !IsConflict(First(v, c))
    requires MergedLines(Regions(v, Next(v, c))) == side[hi..] && Conflicts(Regions(v, Next(v, c))) == []
    ensures MergedLines(Regions(v, c)) == side[lo..] && Conflicts(Regions(v, c)) == []
  {
    hide First, Next, Outcome, IsConflict;
    MergedCons(First(v, c), Regions(v, Next(v, c)));
  }

  lemma {:induction false} MineTaken<T>(v: Versions<T>, c: Cursors)
    requires v.Valid() && v.Holds(c) && c.bi < |v.b|
    requires v.t == v.b && IsIdentity(v.tm, |v.b|) && c.ti == c.bi
    ensures Next(v, c).ti == Next(v, c).bi
    ensures Outcome(First(v, c)) == v.m[c.mi..Next(v, c).mi] && !IsConflict(First(v, c))
  {
    FirstReads(v, c);
  }

  lemma {:induction false} OnlyMineChanged<T>(v: Versions<T>, c: Cursors)
    requires v.Valid() && v.Holds(c) && v.t == v.b && IsIdentity(v.tm, |v.b|) && c.ti == c.bi
    ensures MergedLines(Regions(v, c)) == v.m[c.mi..] && Conflicts(Regions(v, c)) == []
    decreases |v.b| - c.bi
  {
    if c.bi == |v.b| {
      TailOutcome(v, c);
    } else {
      MineTaken(v, c);
      OnlyMineChanged(v, Next(v, c));
      Prepend(v, c, v.m, c.mi, Next(v, c).mi);
    }
  }

  lemma {:induction false} TheirsTaken<T>(v: Versions<T>, c: Cursors)
    requires v.Valid() && v.Holds(c) && c.bi < |v.b|
    requires v.m == v.b && IsIdentity(v.mm, |v.b|) && c.mi == c.bi
    ensures Next(v, c).mi == Next(v, c).bi
    ensures Outcome(First(v, c)) == v.t[c.ti..Next(v, c).ti] && !IsConflict(First(v, c))
  {
    FirstReads(v, c);
  }

  lemma {:induction false} OnlyTheirsChanged<T>(v: Versions<T>, c: Cursors)
    requires v.Valid() && v.Holds(c) && v.m == v.b && IsIdentity(v.mm, |v.b|) && c.mi == c.bi
    ensures MergedLines(Regions(v, c)) == v.t[c.ti..] && Conflicts(Regions(v, c)) == []
    decreases |v.b| - c.bi
  {
    if c.bi == |v.b| {
      TailOutcome(v, c);
    } else {
      TheirsTaken(v, c);
      OnlyTheirsChanged(v, Next(v, c));
      Prepend(v, c, v.t, c.ti, Next(v, c).ti);
    }
  }

  lemma {:induction false} EitherTaken<T>(v: Versions<T>, c: Cursors)
    requires v.Valid() && v.Holds(c) && c.bi < |v.b|
    requires v.m == v.t && v.mm == v.tm && c.mi == c.ti
    ensures Next(v, c).mi == Next(v, c).ti
    ensures Outcome(First(v, c)) == v.m[c.mi..Next(v, c).mi] && !IsConflict(First(v, c))
  {
    FirstReads(v, c);
  }

  lemma {:induction false} BothMadeOneChange<T>(v: Versions<T>, c: Cursors)
    requires v.Valid() && v.Holds(c) && v.m == v.t && v.mm == v.tm && c.mi == c.ti
    ensures MergedLines(Regions(v, c)) == v.m[c.mi..] && Conflicts(Regions(v, c)) == []
    decreases |v.b| - c.bi
  {
    if c.bi == |v.b| {
      TailOutcome(v, c);
    } else {
      EitherTaken(v, c);
      BothMadeOneChange(v, Next(v, c));
      Prepend(v, c, v.m, c.mi, Next(v, c).mi);
    }
  }

  /** A side that changed nothing loses nothing for the other, and one edit made twice lands once. */
  lemma {:induction false} MergeUnits(base: string, edited: string)
    ensures Merge3Of(base, edited, base) == Merge3Result(edited, true, [])
    ensures Merge3Of(base, base, edited) == Merge3Result(edited, true, [])
    ensures Merge3Of(base, edited, edited) == Merge3Result(edited, true, [])
  {
    var b, e, start := SplitLines(base), SplitLines(edited), Cursors(0, 0, 0);
    SelfMatch(b, 0);
    OnlyMineChanged(Matched(b, e, b), start);
    OnlyTheirsChanged(Matched(b, b, e), start);
    BothMadeOneChange(Matched(b, e, e), start);
    JoinSplitLines(edited);
  }

  // ----- whichever side is called mine

  function Swap<T>(r: Region<T>): Region<T> {
    match r
    case Stable(_) => r
    case Changed(base, mine, theirs) => Changed(base, theirs, mine)
  }

  function SwapAll<T>(rs: seq<Region<T>>): seq<Region<T>> {
    if rs == [] then [] else [Swap(rs[0])] + SwapAll(rs[1..])
  }

  lemma {:induction false} SwappedSync(mm: map<nat, nat>, tm: map<nat, nat>, mi: nat, ti: nat, k: nat, n: nat)
    requires k <= n
    ensures NextSync(tm, mm, ti, mi, k, n) == NextSync(mm, tm, mi, ti, k, n)
    decreases n - k
  {
    if k < n {
      SwappedSync(mm, tm, mi, ti, k + 1, n);
    }
  }

  function SwapVersions<T>(v: Versions<T>): Versions<T> {
    Versions(v.b, v.t, v.m, v.tm, v.mm)
  }

  function SwapCursors(c: Cursors): Cursors {
    Cursors(c.bi, c.ti, c.mi)
  }

  lemma {:induction false} SwappedFirst<T>(v: Versions<T>, c: Cursors)
    requires v.Valid() && v.Holds(c) && c.bi < |v.b|
    ensures SwapVersions(v).Valid() && SwapVersions(v).Holds(SwapCursors(c))
    ensures First(SwapVersions(v), SwapCursors(c)) == Swap(First(v, c))
    ensures Next(SwapVersions(v), SwapCursors(c)) == SwapCursors(Next(v, c))
  {
    hide Alignment, NextSync;
    SwappedEnd(v, c);
    hide RegionEnd;
  }

  lemma {:induction false} SwappedEnd<T>(v: Versions<T>, c: Cursors)
    requires v.Valid() && v.Holds(c) && c.bi < |v.b|
    ensures SwapVersions(v).Valid() && SwapVersions(v).Holds(SwapCursors(c))
    ensures RegionEnd(SwapVersions(v), SwapCursors(c)) == SwapCursors(RegionEnd(v, c))
  {
    hide Alignment, NextSync;
    SwappedSync(v.mm, v.tm, c.mi, c.ti, c.bi + 1, |v.b|);
  }

  lemma {:induction false} SwapCons<T>(r: Region<T>, rest: seq<Region<T>>)
    ensures SwapAll([r] + rest) == [Swap(r)] + SwapAll(rest)
  {
    assert ([r] + rest)[1..] == rest;
  }

  lemma {:induction false} SwappedRegions<T>(v: Versions<T>, c: Cursors)
    requires v.Valid() && v.Holds(c)
    ensures SwapVersions(v).Valid() && SwapVersions(v).Holds(SwapCursors(c))
    ensures Regions(SwapVersions(v), SwapCursors(c)) == SwapAll(Regions(v, c))
    decreases |v.b| - c.bi
  {
    if c.bi < |v.b| {
      SwappedFirst(v, c);
      SwappedRegions(v, Next(v, c));
      SwapCons(First(v, c), Regions(v, Next(v, c)));
    } else if Tail(v, c) != [] {
      SwapCons(Tail(v, c)[0], []);
      assert Tail(v, c) == [Tail(v, c)[0]] + [];
    }
  }

  lemma {:induction false} SwappedOutcome<T>(rs: seq<Region<T>>)
    ensures Conflicts(SwapAll(rs)) == SwapAll(Conflicts(rs))
    ensures Conflicts(rs) == [] ==> MergedLines(SwapAll(rs)) == MergedLines(rs)
  {
    if rs != [] {
      SwappedOutcome(rs[1..]);
      assert rs == [rs[0]] + rs[1..];
      SwapCons(rs[0], rs[1..]);
      MergedCons(Swap(rs[0]), SwapAll(rs[1..]));
      SwapCons(rs[0], Conflicts(rs[1..]));
      assert [] + Conflicts(rs[1..]) == Conflicts(rs[1..]);
    }
  }

  /** Whether a save merges does not depend on who pressed save first. */
  lemma {:induction false} MergeSymmetric(base: string, mine: string, theirs: string)
    ensures var r, s := Merge3Of(base, mine, theirs), Merge3Of(base, theirs, mine);
            && s.clean == r.clean
            && s.conflicts == SwapAll(r.conflicts)
            && (r.clean ==> s.merged == r.merged)
  {
    var b, m, t := SplitLines(base), SplitLines(mine), SplitLines(theirs);
    SwappedRegions(Matched(b, m, t), Cursors(0, 0, 0));
    SwappedOutcome(MergeRegions(b, m, t));
  }

  // ----- in order

  lemma {:induction false} Regroup<T>(a: seq<T>, b: seq<T>, c: seq<T>)
    ensures a + b + c == a + (b + c)
  {
  }

  /** Conflicts and merged lines come region by region, in order. */
  lemma {:induction false} RegionsInOrder<T>(rs: seq<Region<T>>, more: seq<Region<T>>)
    ensures Conflicts(rs + more) == Conflicts(rs) + Conflicts(more)
    ensures MergedLines(rs + more) == MergedLines(rs) + MergedLines(more)
    decreases |rs|
  {
    if rs == [] {
      assert rs + more == more;
    } else {
      hide Conflicts, MergedLines, IsConflict, Outcome;
      var r, rest := rs[0], rs[1..];
      assert rs == [r] + rest;
      RegionsInOrder(rest, more);
      MergedCons(r, rest);
      MergedCons(r, rest + more);
      Regroup([r], rest, more);
      Regroup(if IsConflict(r) then [r] else [], Conflicts(rest), Conflicts(more));
      Regroup(Outcome(r), MergedLines(rest), MergedLines(more));
    }
  }

  lemma {:induction false} OneRegion<T>(r: Region<T>)
    ensures Conflicts([r]) == (if Reading(r, Base) != Reading(r, Mine) && Reading(r, Base) != Reading(r, Theirs)
                                  && Reading(r, Mine) != Reading(r, Theirs) then [r] else [])
    ensures MergedLines([r]) == if Reading(r, Base) == Reading(r, Mine) then Reading(r, Theirs) else Reading(r, Mine)
  {
  }
}
