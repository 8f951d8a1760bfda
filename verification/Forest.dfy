/** Parent chains, for any parent relation at all: cyclic, dangling or a proper forest. */
module Forest {
  import opened Options

  /** Who each row names as its parent. */
  type Parents = map<string, Option<string>>

  /** The parent a row names, when it is there and not the empty string. */
  function Up(pm: Parents, x: string): Option<string> {
    if x in pm && pm[x].Some? && pm[x].value != "" then pm[x] else None
  }

  /** The `k`-th ancestor. */
  function Steps(pm: Parents, x: string, k: nat): Option<string>
    decreases k
  {
    if k == 0 then Some(x)
    else match Up(pm, x)
         case None => None
         case Some(y) => Steps(pm, y, k - 1)
  }

  /** Filed under nothing. */
  predicate Root(parent: Option<string>) {
    parent.None? || parent.value == ""
  }

  /** Every parent is a row itself. */
  ghost predicate ParentsKnown(pm: Parents) {
    forall x :: Up(pm, x).Some? ==> Up(pm, x).value in pm
  }

  lemma {:induction false} ChainStaysInside(pm: Parents, x: string, k: nat)
    requires ParentsKnown(pm) && x in pm
    ensures Steps(pm, x, k).Some? ==> Steps(pm, x, k).value in pm
    decreases k
  {
    if k > 0 && Up(pm, x).Some? {
      ChainStaysInside(pm, Up(pm, x).value, k - 1);
    }
  }

  /** `a` is `x` or one of its ancestors. */
  ghost predicate OnChain(pm: Parents, a: string, x: string) {
    exists k: nat :: Steps(pm, x, k) == Some(a)
  }

  ghost predicate OffCycle(pm: Parents, x: string) {
    forall k: nat :: k > 0 ==> Steps(pm, x, k) != Some(x)
  }

  ghost predicate Acyclic(pm: Parents) {
    forall x, k: nat :: k > 0 ==> Steps(pm, x, k) != Some(x)
  }

  lemma {:induction false} StepsAdd(pm: Parents, x: string, j: nat, k: nat)
    ensures Steps(pm, x, j + k) ==
            match Steps(pm, x, j) case None => None case Some(y) => Steps(pm, y, k)
    decreases j
  {
    if j > 0 && Up(pm, x).Some? {
      StepsAdd(pm, Up(pm, x).value, j - 1, k);
    }
  }

  /** A chain that has ended stays ended. */
  lemma {:induction false} StepsEnd(pm: Parents, x: string, j: nat, k: nat)
    requires j <= k && Steps(pm, x, j) == None
    ensures Steps(pm, x, k) == None
  {
    StepsAdd(pm, x, j, k - j);
  }

  lemma {:induction false} OnChainUp(pm: Parents, a: string, x: string)
    requires Up(pm, x).Some? && OnChain(pm, a, Up(pm, x).value)
    ensures OnChain(pm, a, x)
  {
    var k: nat :| Steps(pm, Up(pm, x).value, k) == Some(a);
    assert Steps(pm, x, k + 1) == Some(a);
  }

  lemma {:induction false} OnChainSelf(pm: Parents, x: string)
    ensures OnChain(pm, x, x)
  {
    assert Steps(pm, x, 0) == Some(x);
  }

  /** A chain that ends for everyone within `n` steps cannot come back to where it started. */
  lemma {:induction false} BoundedIsAcyclic(pm: Parents, n: nat)
    requires forall x :: x in pm ==> Steps(pm, x, n) == None
    ensures Acyclic(pm)
  {
    forall x, k: nat | k > 0
      ensures Steps(pm, x, k) != Some(x)
    {
      if Steps(pm, x, k) == Some(x) {
        var m := Around(pm, x, k, n);
        StepsEnd(pm, x, n, m);
      }
    }
  }

  /** Going round a cycle often enough gets past any number of steps. */
  lemma {:induction false} Around(pm: Parents, x: string, k: nat, n: nat) returns (m: nat)
    requires k > 0 && Steps(pm, x, k) == Some(x)
    ensures m >= n && Steps(pm, x, m) == Some(x)
    decreases n
  {
    if n <= k {
      m := k;
    } else {
      m := Around(pm, x, k, n - k);
      StepsAdd(pm, x, k, m);
      m := k + m;
    }
  }

  // ----- changing one parent

  /** Chains that do not meet `g` do not notice that its parent changed. */
  lemma {:induction false} ChainUnaffected(pm: Parents, g: string, parent: Option<string>, x: string, k: nat)
    requires !OnChain(pm, g, x)
    ensures Steps(pm[g := parent], x, k) == Steps(pm, x, k)
    decreases k
  {
    OnChainSelf(pm, x);
    if k > 0 && Up(pm, x).Some? {
      if OnChain(pm, g, Up(pm, x).value) {
        OnChainUp(pm, g, x);
      }
      ChainUnaffected(pm, g, parent, Up(pm, x).value, k - 1);
    }
  }

  /** Below `g` nothing changed: the chain still climbs to it the same way. */
  lemma {:induction false} ChainBelow(pm: Parents, g: string, parent: Option<string>, x: string, j: nat)
    requires Steps(pm, x, j) == Some(g) && forall i: nat :: i < j ==> Steps(pm, x, i) != Some(g)
    ensures Steps(pm[g := parent], x, j) == Some(g)
    decreases j
  {
    if j > 0 {
      assert Steps(pm, x, 0) != Some(g);
      var y := Up(pm, x).value;
      forall i: nat | i < j - 1
        ensures Steps(pm, y, i) != Some(g)
      {
        assert Steps(pm, x, i + 1) == Steps(pm, y, i);
      }
      ChainBelow(pm, g, parent, y, j - 1);
    }
  }

  /** The first time a chain meets one of its members. */
  lemma {:induction false} FirstMeeting(pm: Parents, x: string, a: string, k: nat) returns (j: nat)
    requires Steps(pm, x, k) == Some(a)
    ensures j <= k && Steps(pm, x, j) == Some(a)
    ensures forall i: nat :: i < j ==> Steps(pm, x, i) != Some(a)
    decreases k
  {
    j := k;
    if i: nat :| i < k && Steps(pm, x, i) == Some(a) {
      j := FirstMeeting(pm, x, a, i);
    }
  }

  /** After moving `g` under `p`, a group below `g` climbs to `g`, then to `p`, then as `p` did before. */
  lemma {:induction false} ChainThrough(pm: Parents, g: string, p: string, x: string, j: nat, k: nat)
    requires p != "" && !OnChain(pm, g, p)
    requires Steps(pm, x, j) == Some(g) && forall i: nat :: i < j ==> Steps(pm, x, i) != Some(g)
    ensures Steps(pm[g := Some(p)], x, j + 1 + k) == Steps(pm, p, k)
  {
    var moved := pm[g := Some(p)];
    ChainBelow(pm, g, Some(p), x, j);
    StepsAdd(moved, x, j, 1 + k);
    assert Up(moved, g) == Some(p);
    ChainUnaffected(pm, g, Some(p), p, k);
  }

  /** Moving `g` under something on whose chain it already is closes a cycle. */
  lemma {:induction false} ClosingACycle(pm: Parents, g: string, p: string)
    requires p != "" && OnChain(pm, g, p)
    ensures !Acyclic(pm[g := Some(p)])
  {
    var moved := pm[g := Some(p)];
    var k: nat :| Steps(pm, p, k) == Some(g);
    var j := FirstMeeting(pm, p, g, k);
    ChainBelow(pm, g, Some(p), p, j);
    assert Up(moved, g) == Some(p);
    assert Steps(moved, g, j + 1) == Some(g);
  }

  ghost predicate PassedWithin(pm: Parents, x: string, k: nat, y: string) {
    exists i: nat :: i < k && Steps(pm, x, i) == Some(y)
  }

  lemma {:induction false} NotPassedBefore(pm: Parents, x: string, k: nat, y: string)
    requires Acyclic(pm) && Steps(pm, x, k) == Some(y)
    ensures !PassedWithin(pm, x, k, y)
  {
    forall i: nat | i < k
      ensures Steps(pm, x, i) != Some(y)
    {
      StepsAdd(pm, x, i, k - i);
    }
  }

  /** The members a chain passes in its first `k` steps; without a cycle they are all different. */
  lemma {:induction false} Passed(pm: Parents, x: string, k: nat) returns (members: set<string>)
    requires Acyclic(pm) && Steps(pm, x, k).Some?
    ensures members <= pm.Keys && |members| == k
    ensures forall y :: y in members ==> PassedWithin(pm, x, k, y)
    decreases k
  {
    if k == 0 {
      members := {};
    } else {
      StepsAdd(pm, x, k - 1, 1);
      var last := Steps(pm, x, k - 1).value;
      assert Up(pm, last).Some? && PassedWithin(pm, x, k, last);
      var earlier := Passed(pm, x, k - 1);
      NotPassedBefore(pm, x, k - 1, last);
      forall y | y in earlier
        ensures PassedWithin(pm, x, k, y)
      {
        var i: nat :| i < k - 1 && Steps(pm, x, i) == Some(y);
      }
      members := earlier + {last};
    }
  }

  lemma {:induction false} SubsetSize(a: set<string>, b: set<string>)
    requires a <= b
    ensures |a| <= |b|
  {
    assert b == a + (b - a);
  }

  /** Without a cycle every chain ends. */
  lemma {:induction false} AcyclicChainsEnd(pm: Parents, x: string)
    requires Acyclic(pm)
    ensures Steps(pm, x, |pm.Keys| + 1) == None
  {
    if Steps(pm, x, |pm.Keys| + 1).Some? {
      var members := Passed(pm, x, |pm.Keys| + 1);
      SubsetSize(members, pm.Keys);
    }
  }

  // ----- which moves keep chains from closing

  /** In a relation without a cycle a chain ends somewhere, also after `g` moved under what it is not above. */
  lemma {:induction false} MovedChainEnds(pm: Parents, g: string, p: string, x: string) returns (n: nat)
    requires Acyclic(pm) && p != "" && !OnChain(pm, g, p)
    ensures Steps(pm[g := Some(p)], x, n) == None
  {
    var far := |pm.Keys| + 1;
    AcyclicChainsEnd(pm, p);
    AcyclicChainsEnd(pm, x);
    if k: nat :| Steps(pm, x, k) == Some(g) {
      var j := FirstMeeting(pm, x, g, k);
      ChainThrough(pm, g, p, x, j, far);
      n := j + 1 + far;
    } else {
      ChainUnaffected(pm, g, Some(p), x, far);
      n := far;
    }
  }

  /** Cutting `g` from its parent shortens chains. */
  lemma {:induction false} CutChainEnds(pm: Parents, g: string, parent: Option<string>, x: string) returns (n: nat)
    requires Acyclic(pm) && Root(parent)
    ensures Steps(pm[g := parent], x, n) == None
  {
    AcyclicChainsEnd(pm, x);
    if k: nat :| Steps(pm, x, k) == Some(g) {
      var j := FirstMeeting(pm, x, g, k);
      ChainBelow(pm, g, parent, x, j);
      StepsAdd(pm[g := parent], x, j, 1);
      n := j + 1;
    } else {
      n := |pm.Keys| + 1;
      ChainUnaffected(pm, g, parent, x, n);
    }
  }

  /** A chain that ends does not come back to where it started. */
  lemma {:induction false} EndingIsOffCycle(pm: Parents, x: string, n: nat)
    requires Steps(pm, x, n) == None
    ensures OffCycle(pm, x)
  {
    forall k: nat | k > 0
      ensures Steps(pm, x, k) != Some(x)
    {
      if Steps(pm, x, k) == Some(x) {
        var m := Around(pm, x, k, n);
        StepsEnd(pm, x, n, m);
      }
    }
  }

  /** From a relation without a cycle, a new parent closes none exactly when the moved one is not on its chain. */
  lemma {:induction false} MoveStaysAcyclic(pm: Parents, g: string, parent: Option<string>)
    requires Acyclic(pm)
    ensures Acyclic(pm[g := parent]) <==> Root(parent) || !OnChain(pm, g, parent.value)
  {
    var moved := pm[g := parent];
    if !Root(parent) && OnChain(pm, g, parent.value) {
      ClosingACycle(pm, g, parent.value);
    } else {
      forall x, k: nat | k > 0
        ensures Steps(moved, x, k) != Some(x)
      {
        var n: nat;
        if Root(parent) {
          n := CutChainEnds(pm, g, parent, x);
        } else {
          n := MovedChainEnds(pm, g, parent.value, x);
        }
        EndingIsOffCycle(moved, x, n);
      }
    }
  }
}
