/** The longest-common-subsequence table that the diff and the merge both fill. */
module Lcs {

  function Max(x: nat, y: nat): nat {
    if x < y then y else x
  }

  /** The value a table cell holds for two remaining line lists. */
  function Length<T(==)>(a: seq<T>, b: seq<T>): nat
    decreases |a| + |b|
  {
    if a == [] || b == [] then 0
    else if a[0] == b[0] then Length(a[1..], b[1..]) + 1
    else Max(Length(a[1..], b), Length(a, b[1..]))
  }

  /** `c` can be had from `a` by dropping elements. */
  ghost predicate IsSubsequence<T>(c: seq<T>, a: seq<T>)
    decreases |a|
  {
    || c == []
    || (a != [] && c[0] == a[0] && IsSubsequence(c[1..], a[1..]))
    || (a != [] && IsSubsequence(c, a[1..]))
  }

  /** Every cell `(i, j)` of the table holds the length for the suffixes `a[i..]` and `b[j..]`. */
  ghost predicate IsTable<T>(lengths: array2<nat>, a: seq<T>, b: seq<T>)
    reads lengths
  {
    && lengths.Length0 == |a| + 1 && lengths.Length1 == |b| + 1
    && forall i, j :: 0 <= i <= |a| && 0 <= j <= |b| ==> lengths[i, j] == Length(a[i..], b[j..])
  }

  /** A cell from its neighbours to the right and below. */
  lemma {:induction false} LengthAt<T>(a: seq<T>, b: seq<T>, i: nat, j: nat)
    requires i <= |a| && j <= |b|
    ensures Length(a[i..], b[j..]) ==
            if i == |a| || j == |b| then 0
            else if a[i] == b[j] then Length(a[i + 1..], b[j + 1..]) + 1
            else Max(Length(a[i + 1..], b[j..]), Length(a[i..], b[j + 1..]))
  {
    if i < |a| && j < |b| {
      assert a[i..][1..] == a[i + 1..] && b[j..][1..] == b[j + 1..];
    }
  }

  /** The table, filled backwards from the empty suffixes. */
  method Table<T(==)>(a: seq<T>, b: seq<T>) returns (lengths: array2<nat>)
    ensures fresh(lengths) && IsTable(lengths, a, b)
  {
    hide Length;
    lengths := new nat[|a| + 1, |b| + 1]((_, _) => 0);
    forall q | 0 <= q <= |b|
      ensures Length(a[|a|..], b[q..]) == 0
    {
      LengthAt(a, b, |a|, q);
    }
    for i := |a| downto 0
      invariant forall p :: 0 <= p <= |a| ==> lengths[p, |b|] == 0
      invariant forall p, q :: i <= p <= |a| && 0 <= q <= |b| ==> lengths[p, q] == Length(a[p..], b[q..])
    {
      LengthAt(a, b, i, |b|);
      for j := |b| downto 0
        invariant forall p :: 0 <= p <= |a| ==> lengths[p, |b|] == 0
        invariant forall p, q :: i < p <= |a| && 0 <= q <= |b| ==> lengths[p, q] == Length(a[p..], b[q..])
        invariant forall q :: j <= q <= |b| ==> lengths[i, q] == Length(a[i..], b[q..])
      {
        LengthAt(a, b, i, j);
        lengths[i, j] :=
          if a[i] == b[j] then lengths[i + 1, j + 1] + 1
          else Max(lengths[i + 1, j], lengths[i, j + 1]);
      }
    }
  }

  lemma {:induction false} SubsequenceTail<T>(c: seq<T>, a: seq<T>)
    requires c != [] && IsSubsequence(c, a)
    ensures a != [] && IsSubsequence(c[1..], a[1..])
    decreases |a|
  {
    if !(c[0] == a[0] && IsSubsequence(c[1..], a[1..])) {
      SubsequenceTail(c, a[1..]);
    }
  }

  lemma {:induction false} SubsequenceReflexive<T>(a: seq<T>)
    ensures IsSubsequence(a, a)
    decreases |a|
  {
    if a != [] {
      SubsequenceReflexive(a[1..]);
    }
  }

  /** No common subsequence is longer than the table says. */
  lemma {:induction false} CommonSubsequenceBound<T>(a: seq<T>, b: seq<T>, c: seq<T>)
    requires IsSubsequence(c, a) && IsSubsequence(c, b)
    ensures |c| <= Length(a, b)
    decreases |a| + |b|
  {
    if c == [] || a == [] || b == [] {
    } else if a[0] == b[0] {
      SubsequenceTail(c, a);
      SubsequenceTail(c, b);
      CommonSubsequenceBound(a[1..], b[1..], c[1..]);
    } else if c[0] == a[0] {
      CommonSubsequenceBound(a, b[1..], c);
    } else {
      CommonSubsequenceBound(a[1..], b, c);
    }
  }

  /** A cell is at most the shorter of the two lists, and never grows when a line is dropped. */
  lemma {:induction false} LengthMonotone<T>(a: seq<T>, b: seq<T>)
    ensures Length(a, b) <= |a| && Length(a, b) <= |b|
    ensures a != [] ==> Length(a[1..], b) <= Length(a, b) <= Length(a[1..], b) + 1
    ensures b != [] ==> Length(a, b[1..]) <= Length(a, b) <= Length(a, b[1..]) + 1
    decreases |a| + |b|
  {
    if a == [] || b == [] {
    } else {
      LengthMonotone(a[1..], b);
      LengthMonotone(a, b[1..]);
      LengthMonotone(a[1..], b[1..]);
    }
  }
}
