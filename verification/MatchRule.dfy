/** Which of the longest matchings the walk over the table takes, in the merge and in the diff. */
module MatchRule {
  import opened Text
  import opened Lcs
  import opened Diff
  import opened Merge

  // ----- lengths of what is left

  /** The table's value for what is left from line `i` of `a` and line `j` of `b` on. */
  function Left<T(==)>(a: seq<T>, b: seq<T>, i: nat, j: nat): nat
    requires i <= |a| && j <= |b|
  {
    Length(a[i..], b[j..])
  }

  lemma {:induction false} LeftAt<T>(a: seq<T>, b: seq<T>, i: nat, j: nat)
    requires i < |a| && j < |b|
    ensures Left(a, b, i, j) ==
            if a[i] == b[j] then Left(a, b, i + 1, j + 1) + 1
            else Max(Left(a, b, i + 1, j), Left(a, b, i, j + 1))
  {
    hide Length;
    LengthAt(a, b, i, j);
  }

  lemma {:induction false} NothingLeft<T>(a: seq<T>, b: seq<T>, i: nat, j: nat)
    requires i <= |a| && j <= |b| && (i == |a| || j == |b|)
    ensures Left(a, b, i, j) == 0
  {
  }

  /** Less is left further on. */
  lemma {:induction false} LeftShrinks<T>(a: seq<T>, b: seq<T>, i: nat, j: nat, k: nat, l: nat)
    requires i <= k <= |a| && j <= l <= |b|
    ensures Left(a, b, k, l) <= Left(a, b, i, j)
    decreases k - i + l - j
  {
    hide Length;
    LengthMonotone(a[i..], b[j..]);
    if i < k {
      assert a[i..][1..] == a[i + 1..];
      LeftShrinks(a, b, i + 1, j, k, l);
    } else if j < l {
      assert b[j..][1..] == b[j + 1..];
      LeftShrinks(a, b, i, j + 1, k, l);
    }
  }

  // ----- the rule

  /**
    * The pair that comes first from `(i, j)` on: a longest matching begins with it, none begins with an earlier line of
    * `b`, and of the lines of `a` that could be paired with this line of `b` it is the first one that cannot be passed
    * over, because with the line of `b` before it still open less would be left.
    */
  ghost predicate FirstPair<T>(a: seq<T>, b: seq<T>, i: nat, j: nat, k: nat, u: nat)
    requires i <= |a| && j <= |b|
  {
    var n := Left(a, b, i, j);
    && i <= k < |a| && j <= u < |b| && a[k] == b[u] && Left(a, b, k + 1, u + 1) == n - 1
    && (forall k', u' :: i <= k' < |a| && j <= u' < u && a[k'] == b[u'] ==> Left(a, b, k' + 1, u' + 1) < n - 1)
    && (u > j ==> Left(a, b, k + 1, u - 1) < n)
    && (forall k' :: i <= k' < k && a[k'] == b[u] ==> u > j && Left(a, b, k' + 1, u - 1) == n)
  }

  lemma {:induction false} FirstPairIsUnique<T>(a: seq<T>, b: seq<T>, i: nat, j: nat, k: nat, u: nat, k2: nat, u2: nat)
    requires i <= |a| && j <= |b| && FirstPair(a, b, i, j, k, u) && FirstPair(a, b, i, j, k2, u2)
    ensures k == k2 && u == u2
  {
    hide Left;
  }

  /** From `(i, j)` on, a line of `a` is passed over: the rule does not notice. */
  lemma {:induction false} PassInA<T>(a: seq<T>, b: seq<T>, i: nat, j: nat, k: nat, u: nat)
    requires i < |a| && j < |b| && a[i] != b[j] && Left(a, b, i + 1, j) == Left(a, b, i, j) > 0
    requires FirstPair(a, b, i + 1, j, k, u)
    ensures FirstPair(a, b, i, j, k, u)
  {
    var n := Left(a, b, i, j);
    LeftAt(a, b, k, u);
    forall u' | j <= u' < u
      ensures a[i] != b[u']
    {
      if a[i] == b[u'] {
        LeftShrinks(a, b, i + 1, u' + 1, k, u);
        LeftAt(a, b, i, u');
        LeftShrinks(a, b, i, j, i, u');
      }
    }
    if a[i] == b[u] {
      LeftShrinks(a, b, i + 1, u - 1, k, u);
      LeftShrinks(a, b, i, j, i + 1, u - 1);
    }
    hide Left;
  }

  /** The same for a line of `b`, passed over because passing the line of `a` would cost a pair. */
  lemma {:induction false} PassInB<T>(a: seq<T>, b: seq<T>, i: nat, j: nat, k: nat, u: nat)
    requires i < |a| && j < |b| && a[i] != b[j]
    requires Left(a, b, i + 1, j) < Left(a, b, i, j + 1) == Left(a, b, i, j)
    requires FirstPair(a, b, i, j + 1, k, u)
    ensures FirstPair(a, b, i, j, k, u)
  {
    var n := Left(a, b, i, j);
    forall k' | i <= k' < |a| && a[k'] == b[j]
      ensures Left(a, b, k' + 1, j + 1) < n - 1
    {
      LeftAt(a, b, k', j);
      LeftShrinks(a, b, i + 1, j, k', j);
    }
    LeftShrinks(a, b, i + 1, j, k + 1, j);
    hide Left;
  }

  lemma {:induction false} PairNow<T>(a: seq<T>, b: seq<T>, i: nat, j: nat)
    requires i < |a| && j < |b| && a[i] == b[j]
    ensures Left(a, b, i, j) > 0 && FirstPair(a, b, i, j, i, j)
  {
    LeftAt(a, b, i, j);
    hide Left;
  }

  lemma {:induction false} MatchesAt<T>(a: seq<T>, b: seq<T>, i: nat, j: nat)
    requires i < |a| && j < |b|
    ensures Matches(a, b, i, j) ==
            if a[i] == b[j] then Matches(a, b, i + 1, j + 1)[i := j]
            else if Left(a, b, i + 1, j) >= Left(a, b, i, j + 1) then Matches(a, b, i + 1, j)
            else Matches(a, b, i, j + 1)
  {
    hide Length;
  }

  lemma {:induction false} NoMatches<T>(a: seq<T>, b: seq<T>, i: nat, j: nat)
    requires i <= |a| && j <= |b| && (i == |a| || j == |b|)
    ensures Matches(a, b, i, j) == map[]
  {
  }

  /** The walk takes the pairs the rule names, one after the other, until nothing more can be matched. */
  lemma {:induction false} MatchesFollowRule<T>(a: seq<T>, b: seq<T>, i: nat, j: nat) returns (k: nat, u: nat)
    requires i <= |a| && j <= |b|
    ensures Left(a, b, i, j) == 0 ==> Matches(a, b, i, j) == map[]
    ensures Left(a, b, i, j) > 0 ==>
              && FirstPair(a, b, i, j, k, u) && k < |a| && u < |b|
              && Matches(a, b, i, j) == Matches(a, b, k + 1, u + 1)[k := u]
    decreases |a| - i + |b| - j
  {
    hide Left, Matches, FirstPair;
    k, u := i, j;
    if i == |a| || j == |b| {
      NothingLeft(a, b, i, j);
      NoMatches(a, b, i, j);
    } else {
      LeftAt(a, b, i, j);
      MatchesAt(a, b, i, j);
      if a[i] == b[j] {
        PairNow(a, b, i, j);
      } else if Left(a, b, i + 1, j) >= Left(a, b, i, j + 1) {
        k, u := MatchesFollowRule(a, b, i + 1, j);
        if Left(a, b, i, j) > 0 {
          PassInA(a, b, i, j, k, u);
          PairBounds(a, b, i, j, k, u);
        }
      } else {
        k, u := MatchesFollowRule(a, b, i, j + 1);
        PassInB(a, b, i, j, k, u);
        PairBounds(a, b, i, j, k, u);
      }
    }
  }

  lemma {:induction false} PairBounds<T>(a: seq<T>, b: seq<T>, i: nat, j: nat, k: nat, u: nat)
    requires i <= |a| && j <= |b| && FirstPair(a, b, i, j, k, u)
    ensures i <= k < |a| && j <= u < |b| && a[k] == b[u] && Left(a, b, k + 1, u + 1) == Left(a, b, i, j) - 1
  {
    hide Left;
  }

  // ----- against every other longest matching

  lemma {:induction false} FirstKey(m: map<nat, nat>) returns (k: nat)
    requires m != map[]
    ensures k in m && forall l :: l in m ==> k <= l
  {
    var start: nat :| start in m;
    k := FirstKeyFrom(m, start);
  }

  lemma {:induction false} FirstKeyFrom(m: map<nat, nat>, start: nat) returns (k: nat)
    requires start in m
    ensures k in m && forall l :: l in m ==> k <= l
    decreases start
  {
    k := start;
    if l: nat :| l in m && l < start {
      k := FirstKeyFrom(m, l);
    }
  }

  /** A matching without its first pair. */
  lemma {:induction false} TailAligns<T>(m: map<nat, nat>, a: seq<T>, b: seq<T>, i: nat, j: nat, k: nat)
    requires Alignment(m, a, b, i, j) && k in m && forall l :: l in m ==> k <= l
    ensures i <= k < |a| && j <= m[k] < |b| && a[k] == b[m[k]]
    ensures Alignment(m - {k}, a, b, k + 1, m[k] + 1) && |m - {k}| == |m| - 1
    ensures m == (m - {k})[k := m[k]] && forall v :: v in m.Values ==> v >= m[k]
  {
    var rest := m - {k};
    assert m == rest[k := m[k]];
    assert m.Keys == rest.Keys + {k};
    forall l | l in rest
      ensures l > k && rest[l] > m[k]
    {
      assert m[k] < m[l];
    }
  }

  /** No matching is longer than the table says. */
  lemma {:induction false} AlignmentBound<T>(m: map<nat, nat>, a: seq<T>, b: seq<T>, i: nat, j: nat)
    requires i <= |a| && j <= |b| && Alignment(m, a, b, i, j)
    ensures |m| <= Left(a, b, i, j)
    decreases |m|
  {
    if m != map[] {
      var k := FirstKey(m);
      TailAligns(m, a, b, i, j, k);
      AlignmentBound(m - {k}, a, b, k + 1, m[k] + 1);
      LeftAt(a, b, k, m[k]);
      LeftShrinks(a, b, i, j, k, m[k]);
    }
  }

  /** The first line of `b` that only one of the two matchings uses is used by `m`. */
  ghost predicate UsesEarlier(m: map<nat, nat>, other: map<nat, nat>) {
    forall t: nat :: (forall s: nat :: s < t ==> (s in m.Values <==> s in other.Values)) && t in other.Values ==>
      t in m.Values
  }

  /**
    * Of all the longest matchings the walk's uses the earliest lines of `b`: at the first line that one of two uses and
    * the other does not, it is the walk's that uses it.
    */
  lemma {:induction false} TargetsComeFirst<T>(a: seq<T>, b: seq<T>, other: map<nat, nat>)
    requires Alignment(other, a, b, 0, 0) && |other| == |Matches(a, b, 0, 0)|
    ensures UsesEarlier(Matches(a, b, 0, 0), other)
  {
    MatchesAreLongest(a, b, 0, 0);
    TargetsComeFirstFrom(a, b, 0, 0, 0, other);
  }

  lemma {:induction false} TargetsComeFirstFrom<T>(a: seq<T>, b: seq<T>, i0: nat, i: nat, j: nat, other: map<nat, nat>)
    requires i0 <= i <= |a| && j <= |b| && Alignment(other, a, b, i0, j)
    requires |other| == Left(a, b, i0, j) == Left(a, b, i, j)
    ensures UsesEarlier(Matches(a, b, i, j), other)
    decreases |other|, 0
  {
    hide Left, Matches, FirstPair, Alignment, UsesEarlier;
    var k, u := MatchesFollowRule(a, b, i, j);
    if other == map[] {
      NothingEarlier(Matches(a, b, i, j));
    } else {
      var k1 := FirstKey(other);
      TailAligns(other, a, b, i0, j, k1);
      AlignmentBound(other - {k1}, a, b, k1 + 1, other[k1] + 1);
      PairBounds(a, b, i, j, k, u);
      NoEarlierTarget(a, b, i0, i, j, k, u, k1, other[k1]);
      MatchesAlign(a, b, k + 1, u + 1);
      LaterValues(Matches(a, b, k + 1, u + 1), a, b, k + 1, u + 1);
      if other[k1] == u {
        LaterValues(other - {k1}, a, b, k1 + 1, u + 1);
        SameTarget(a, b, i0, i, j, k, u, k1, other - {k1});
        SamePrefix(Matches(a, b, k + 1, u + 1), other - {k1}, k, k1, u);
      } else {
        LongerTail(Matches(a, b, k + 1, u + 1), other, k, u, other[k1]);
      }
    }
  }

  /** Both begin with the same line of `b`: the rest is compared from there on. */
  lemma {:induction false} SameTarget<T>(
      a: seq<T>, b: seq<T>, i0: nat, i: nat, j: nat, k: nat, u: nat, k1: nat, more: map<nat, nat>)
    requires i0 <= i <= |a| && j <= |b| && FirstPair(a, b, i, j, k, u) && i0 <= k1 < |a| && k < |a| && u < |b|
    requires a[k1] == b[u] && Left(a, b, i0, j) == Left(a, b, i, j) && Alignment(more, a, b, k1 + 1, u + 1)
    requires |more| == Left(a, b, i, j) - 1
    ensures UsesEarlier(Matches(a, b, k + 1, u + 1), more)
    decreases |more|, 1
  {
    hide Left, Matches, FirstPair, UsesEarlier;
    PairBounds(a, b, i, j, k, u);
    var low := if k1 <= k then k1 else k;
    SameLeft(a, b, i0, i, j, k, u, k1);
    Widen(more, a, b, k1 + 1, low + 1, u + 1);
    hide Alignment;
    TargetsComeFirstFrom(a, b, low + 1, k + 1, u + 1, more);
  }

  lemma {:induction false} NothingEarlier(m: map<nat, nat>)
    ensures UsesEarlier(m, map[])
  {
  }

  lemma {:induction false} Widen<T>(m: map<nat, nat>, a: seq<T>, b: seq<T>, i: nat, i0: nat, j: nat)
    requires Alignment(m, a, b, i, j) && i0 <= i
    ensures Alignment(m, a, b, i0, j)
  {
  }

  lemma {:induction false} LaterValues<T>(m: map<nat, nat>, a: seq<T>, b: seq<T>, i: nat, j: nat)
    requires Alignment(m, a, b, i, j)
    ensures (forall k :: k in m ==> k >= i) && forall v :: v in m.Values ==> v >= j
  {
  }

  lemma {:induction false} NoEarlierTarget<T>(
      a: seq<T>, b: seq<T>, i0: nat, i: nat, j: nat, k: nat, u: nat, k1: nat, u1: nat)
    requires i0 <= i <= |a| && j <= |b| && Left(a, b, i0, j) == Left(a, b, i, j) && FirstPair(a, b, i, j, k, u)
    requires i0 <= k1 < |a| && j <= u1 < |b| && a[k1] == b[u1] && Left(a, b, k1 + 1, u1 + 1) >= Left(a, b, i, j) - 1
    ensures u <= u1
  {
    if u1 < u && k1 < i {
      LeftAt(a, b, k, u);
      LeftShrinks(a, b, k1 + 1, u1 + 1, k, u);
      LeftAt(a, b, k1, u1);
      LeftShrinks(a, b, i0, j, k1, u1);
    }
    hide Left;
  }

  lemma {:induction false} SameLeft<T>(a: seq<T>, b: seq<T>, i0: nat, i: nat, j: nat, k: nat, u: nat, k1: nat)
    requires i0 <= i <= |a| && j <= |b| && Left(a, b, i0, j) == Left(a, b, i, j) && FirstPair(a, b, i, j, k, u)
    requires i0 <= k1 < |a| && a[k1] == b[u]
    ensures k1 <= k ==> Left(a, b, k1 + 1, u + 1) == Left(a, b, k + 1, u + 1)
  {
    if k1 <= k {
      LeftShrinks(a, b, k1 + 1, u + 1, k + 1, u + 1);
      LeftAt(a, b, k1, u);
      LeftShrinks(a, b, i0, j, k1, u);
    }
    hide Left;
  }

  lemma {:induction false} SamePrefix(rest: map<nat, nat>, more: map<nat, nat>, k: nat, k1: nat, u: nat)
    requires UsesEarlier(rest, more) && k !in rest && k1 !in more
    requires (forall v :: v in rest.Values ==> v > u) && forall v :: v in more.Values ==> v > u
    ensures UsesEarlier(rest[k := u], more[k1 := u])
  {
    var m, other := rest[k := u], more[k1 := u];
    assert m.Values == rest.Values + {u} by {
      ValuesWith(rest, k, u);
    }
    assert other.Values == more.Values + {u} by {
      ValuesWith(more, k1, u);
    }
    forall t: nat | (forall s: nat :: s < t ==> (s in m.Values <==> s in other.Values)) && t in other.Values
      ensures t in m.Values
    {
      if t > u {
        forall s: nat | s < t
          ensures s in rest.Values <==> s in more.Values
        {
          assert s in m.Values <==> s in other.Values;
        }
      }
    }
  }

  lemma {:induction false} ValuesWith(m: map<nat, nat>, k: nat, u: nat)
    requires k !in m
    ensures m[k := u].Values == m.Values + {u}
  {
    forall v | v in m.Values
      ensures v in m[k := u].Values
    {
      var l :| l in m && m[l] == v;
      assert m[k := u][l] == v;
    }
    assert m[k := u][k] == u;
  }

  lemma {:induction false} LongerTail(rest: map<nat, nat>, other: map<nat, nat>, k: nat, u: nat, u1: nat)
    requires k !in rest && u < u1 && forall v :: v in other.Values ==> v >= u1
    ensures UsesEarlier(rest[k := u], other)
  {
    ValuesWith(rest, k, u);
    assert u in rest[k := u].Values && u !in other.Values;
  }

  /** Not so the lines of `a`: here the walk takes the later of two equal lines. */
  lemma {:induction false} LaterSource<T>(x: T, y: T)
    requires x != y
    ensures Matches([x, x], [y, x], 0, 0) == map[1 := 1]
    ensures Alignment(map[0 := 1], [x, x], [y, x], 0, 0)
  {
    var a, b := [x, x], [y, x];
    FewLeft(a, b);
    MatchesAt(a, b, 0, 0);
    MatchesAt(a, b, 1, 0);
    MatchesAt(a, b, 1, 1);
    NoMatches(a, b, 2, 2);
  }

  /** Everything left in two lists of two lines. */
  lemma {:induction false} FewLeft<T>(a: seq<T>, b: seq<T>)
    requires |a| == |b| == 2
    ensures Left(a, b, 1, 1) == if a[1] == b[1] then 1 else 0
    ensures Left(a, b, 1, 0) == if a[1] == b[0] || a[1] == b[1] then 1 else 0
    ensures Left(a, b, 0, 1) == if a[0] == b[1] || a[1] == b[1] then 1 else 0
    ensures Left(a, b, 2, 0) == Left(a, b, 2, 1) == Left(a, b, 0, 2) == Left(a, b, 1, 2) == Left(a, b, 2, 2) == 0
  {
    hide Left;
    NothingLeft(a, b, 2, 0);
    NothingLeft(a, b, 2, 1);
    NothingLeft(a, b, 2, 2);
    NothingLeft(a, b, 0, 2);
    NothingLeft(a, b, 1, 2);
    LeftAt(a, b, 1, 1);
    LeftAt(a, b, 1, 0);
    LeftAt(a, b, 0, 1);
  }

  // ----- a merge that depends on the rule

  /** One side swaps two lines, the other deletes the first: the second one is matched, and the merge is clean. */
  lemma {:induction false} SwapMeetsDeletion<T>(x: T, y: T)
    requires x != y
    ensures var rs := MergeRegions([x, y], [y, x], [y]);
            && rs == [Changed([x], [], []), Stable(y), Changed([], [x], [])]
            && Conflicts(rs) == [] && MergedLines(rs) == [y, x]
  {
    var b, m, t := [x, y], [y, x], [y];
    SwapMatches(x, y);
    var v := Matched(b, m, t);
    assert v == Versions(b, m, t, map[1 := 0], map[1 := 0]);
    hide Matched, Matches;
    var c0, c1, c2 := Cursors(0, 0, 0), Cursors(1, 0, 0), Cursors(2, 1, 1);
    assert NextSync(v.mm, v.tm, 0, 0, 1, 2) == 1;
    assert RegionEnd(v, c0) == c1 && First(v, c0) == Changed([x], [], []) && Next(v, c0) == c1;
    assert First(v, c1) == Stable(y) && Next(v, c1) == c2;
    hide RegionEnd, First, Next;
    assert Tail(v, c2) == [Changed([], [x], [])];
    var rest := [Stable(y)] + Tail(v, c2);
    assert Regions(v, c1) == rest;
    assert Regions(v, c0) == [Changed([x], [], [])] + rest;
    SwapOutcome(x, y);
  }

  lemma {:induction false} SwapMatches<T>(x: T, y: T)
    requires x != y
    ensures Matches([x, y], [y, x], 0, 0) == map[1 := 0] && Matches([x, y], [y], 0, 0) == map[1 := 0]
  {
    var a, b, d := [x, y], [y, x], [y];
    FewLeft(a, b);
    MatchesAt(a, b, 0, 0);
    MatchesAt(a, b, 1, 0);
    NoMatches(a, b, 2, 1);
    NothingLeft(a, d, 0, 1);
    MatchesAt(a, d, 0, 0);
    MatchesAt(a, d, 1, 0);
    NoMatches(a, d, 2, 1);
  }

  lemma {:induction false} SwapOutcome<T>(x: T, y: T)
    ensures var rs := [Changed([x], [], []), Stable(y), Changed([], [x], [])];
            Conflicts(rs) == [] && MergedLines(rs) == [y, x]
  {
    var c: Region<T> := Changed([], [x], []);
    assert Conflicts([c]) == [] && MergedLines([c]) == [x];
    assert [Stable(y), c][1..] == [c];
    assert Conflicts([Stable(y), c]) == [] && MergedLines([Stable(y), c]) == [y, x];
    assert [Changed([x], [], []), Stable(y), c][1..] == [Stable(y), c];
  }

  // ----- the same rule decides the diff

  /** The lines a script keeps, by their places in the two documents. */
  function KeptPairs<T>(script: seq<DiffLine<T>>, i: nat, j: nat): map<nat, nat>
    decreases |script|
  {
    if script == [] then map[]
    else match script[0].kind
         case Same => KeptPairs(script[1..], i + 1, j + 1)[i := j]
         case Remove => KeptPairs(script[1..], i + 1, j)
         case Add => KeptPairs(script[1..], i, j + 1)
  }

  /** The diff keeps the lines that the merge matches. */
  lemma {:induction false} DiffKeepsMatches<T>(a: seq<T>, b: seq<T>, i: nat, j: nat)
    requires i <= |a| && j <= |b|
    ensures KeptPairs(Script(a[i..], b[j..]), i, j) == Matches(a, b, i, j)
    decreases |a| - i + |b| - j
  {
    hide Length;
    if i < |a| {
      assert a[i..][1..] == a[i + 1..] && a[i..][0] == a[i];
      DiffKeepsMatches(a, b, i + 1, j);
    }
    if j < |b| {
      assert b[j..][1..] == b[j + 1..] && b[j..][0] == b[j];
      DiffKeepsMatches(a, b, i, j + 1);
    }
    if i < |a| && j < |b| {
      DiffKeepsMatches(a, b, i + 1, j + 1);
    }
  }

  ghost predicate RemovalsFirst<T>(script: seq<DiffLine<T>>) {
    forall k :: 0 <= k < |script| - 1 && script[k].kind == Add ==> script[k + 1].kind != Remove
  }

  lemma {:induction false} KeptBounds<T>(script: seq<DiffLine<T>>, i: nat, j: nat)
    ensures forall k :: k in KeptPairs(script, i, j) ==> k >= i && KeptPairs(script, i, j)[k] >= j
    decreases |script|
  {
    if script != [] {
      match script[0].kind
      case Same => KeptBounds(script[1..], i + 1, j + 1);
      case Remove => KeptBounds(script[1..], i + 1, j);
      case Add => KeptBounds(script[1..], i, j + 1);
    }
  }

  /** A run of additions ends at a kept line, unless no old line is left. */
  lemma {:induction false} AdditionsEndAtKept<T>(script: seq<DiffLine<T>>, i: nat, j: nat)
    requires script != [] && script[0].kind == Add && RemovalsFirst(script) && Side(script, false) != []
    ensures i in KeptPairs(script, i, j)
    decreases |script|
  {
    var rest := script[1..];
    assert Side(script, false) == Side(rest, false);
    assert rest != [] && rest[0].kind != Remove;
    if rest[0].kind == Add {
      AdditionsEndAtKept(rest, i, j + 1);
    }
  }

  lemma {:induction false} SamePlace<T>(s: seq<DiffLine<T>>, t: seq<DiffLine<T>>, i: nat, j: nat)
    requires s != [] && t != [] && RemovalsFirst(t) && KeptPairs(s, i, j) == KeptPairs(t, i, j)
    requires Side(s, false) == Side(t, false)
    ensures s[0].kind == Same ==> t[0].kind == Same
    ensures s[0].kind == Remove ==> t[0].kind != Add
  {
    KeptBounds(s[1..], i + 1, j);
    KeptBounds(t[1..], i + 1, j);
    KeptBounds(t[1..], i, j + 1);
    assert s[0].kind == Same ==> i in KeptPairs(s, i, j) && KeptPairs(s, i, j)[i] == j;
    assert t[0].kind == Remove ==> KeptPairs(t, i, j) == KeptPairs(t[1..], i + 1, j);
    assert t[0].kind == Add ==> KeptPairs(t, i, j) == KeptPairs(t[1..], i, j + 1);
    if s[0].kind == Remove && t[0].kind == Add {
      AdditionsEndAtKept(t, i, j);
    }
  }

  lemma {:induction false} RestAgrees<T>(s: seq<DiffLine<T>>, t: seq<DiffLine<T>>, i: nat, j: nat)
    requires s != [] && t != [] && s[0].kind == t[0].kind && KeptPairs(s, i, j) == KeptPairs(t, i, j)
    requires RemovalsFirst(s) && Side(s, false) == Side(t, false) && Side(s, true) == Side(t, true)
    ensures var i', j' := if s[0].kind == Add then i else i + 1, if s[0].kind == Remove then j else j + 1;
            KeptPairs(s[1..], i', j') == KeptPairs(t[1..], i', j')
    ensures Side(s[1..], false) == Side(t[1..], false) && Side(s[1..], true) == Side(t[1..], true)
    ensures s[0] == t[0] && RemovalsFirst(s[1..])
  {
    forall taken
      ensures Side(s[1..], taken) == Side(t[1..], taken) && (Keep(s[0], taken) != [] ==> s[0].text == t[0].text)
    {
      assert Side(s, taken) == Side(t, taken);
      assert |Keep(s[0], taken)| == |Keep(t[0], taken)|;
      if Keep(s[0], taken) != [] {
        assert Side(s, taken)[0] == s[0].text && Side(t, taken)[0] == t[0].text;
        assert Side(s, taken)[1..] == Side(s[1..], taken) && Side(t, taken)[1..] == Side(t[1..], taken);
      } else {
        assert Side(s, taken) == Side(s[1..], taken) && Side(t, taken) == Side(t[1..], taken);
      }
    }
    assert Keep(s[0], true) != [] || Keep(s[0], false) != [];
    if s[0].kind == Same {
      KeptOfRest(s[1..], t[1..], i, j);
    }
  }

  lemma {:induction false} KeptOfRest<T>(s: seq<DiffLine<T>>, t: seq<DiffLine<T>>, i: nat, j: nat)
    requires KeptPairs(s, i + 1, j + 1)[i := j] == KeptPairs(t, i + 1, j + 1)[i := j]
    ensures KeptPairs(s, i + 1, j + 1) == KeptPairs(t, i + 1, j + 1)
  {
    KeptBounds(s, i + 1, j + 1);
    KeptBounds(t, i + 1, j + 1);
    var m, n := KeptPairs(s, i + 1, j + 1), KeptPairs(t, i + 1, j + 1);
    hide KeptPairs;
    assert m == m[i := j] - {i} && n == n[i := j] - {i};
  }

  /** A line of a script is in one of the two documents. */
  lemma {:induction false} EmptySides<T>(script: seq<DiffLine<T>>)
    ensures Side(script, false) == [] && Side(script, true) == [] ==> script == []
  {
    if script != [] {
      assert Keep(script[0], false) != [] || Keep(script[0], true) != [];
    }
  }

  /** A script is determined by its sides and the lines it keeps, when in each changed run removals come first. */
  lemma {:induction false} ScriptIsDetermined<T>(s: seq<DiffLine<T>>, t: seq<DiffLine<T>>, i: nat, j: nat)
    requires RemovalsFirst(s) && RemovalsFirst(t) && KeptPairs(s, i, j) == KeptPairs(t, i, j)
    requires Side(s, false) == Side(t, false) && Side(s, true) == Side(t, true)
    ensures s == t
    decreases |s| + |t|
  {
    if s != [] && t != [] {
      SamePlace(s, t, i, j);
      SamePlace(t, s, i, j);
      RestAgrees(s, t, i, j);
      RestAgrees(t, s, i, j);
      hide KeptPairs, Side, RemovalsFirst;
      var i', j' := if s[0].kind == Add then i else i + 1, if s[0].kind == Remove then j else j + 1;
      ScriptIsDetermined(s[1..], t[1..], i', j');
      assert s == [s[0]] + s[1..] && t == [t[0]] + t[1..];
    } else {
      EmptySides(s);
      EmptySides(t);
    }
  }

  /** So the diff is the one script with these sides that keeps what the rule names and removes before it adds. */
  lemma {:induction false} DiffIsDetermined<T>(a: seq<T>, b: seq<T>, other: seq<DiffLine<T>>)
    ensures other == Script(a, b) <==>
              && Side(other, false) == a && Side(other, true) == b
              && RemovalsFirst(other) && KeptPairs(other, 0, 0) == Matches(a, b, 0, 0)
  {
    ScriptSides(a, b);
    assert a[0..] == a && b[0..] == b;
    DiffKeepsMatches(a, b, 0, 0);
    forall k | 0 <= k < |Script(a, b)| - 1 && Script(a, b)[k].kind == Add
      ensures Script(a, b)[k + 1].kind != Remove
    {
      RemovalsComeFirst(a, b, k);
    }
    if Side(other, false) == a && Side(other, true) == b && RemovalsFirst(other)
       && KeptPairs(other, 0, 0) == Matches(a, b, 0, 0) {
      ScriptIsDetermined(other, Script(a, b), 0, 0);
    }
  }
}
