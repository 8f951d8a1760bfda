/** Runs of group creations and re-parentings that the two guards admit. */
module GroupRuns {
  import opened Options
  import opened Forest
  import opened ProductGroups

  /** Every parent is a group, and no chain is longer than the allowed depth: acyclic and shallow. */
  ghost predicate ValidTree(pm: Parents) {
    && "" !in pm && ParentsKnown(pm)
    && (forall x :: x in pm ==> Steps(pm, x, MAX_GROUP_DEPTH) == None)
  }

  datatype Change =
    | Create(id: string, parentId: Option<string>)
    | Reparent(id: string, parentId: Option<string>)
    | Delete(id: string, hasProducts: bool)

  function After(pm: Parents, change: Change): Parents {
    match change
    case Create(id, parentId) => pm[id := parentId]
    case Reparent(id, parentId) => pm[id := parentId]
    case Delete(id, _) => pm - {id}
  }

  /** The id a new group is checked under before it has one of its own. */
  const PLACEHOLDER := "new-group"

  /** What the store checks before it writes: the parent exists and both guards let the change pass. */
  ghost predicate Admitted(pm: Parents, change: Change) {
    match change
    case Create(id, parentId) =>
      && id !in pm && id != ""
      && (Root(parentId) || (parentId.value in pm && !DepthGuard(pm, PLACEHOLDER, parentId)))
    case Reparent(id, parentId) =>
      && id in pm
      && (parentId.None? || (parentId.value in pm && !CycleGuard(pm, id, parentId) && !DepthGuard(pm, id, parentId)))
    case Delete(id, hasProducts) => id in pm && !HasChildren(pm, id) && !hasProducts
  }

  ghost predicate HasChildren(pm: Parents, id: string) {
    exists x :: x in pm && pm[x] == Some(id)
  }

  // ----- depths and heights in a valid tree

  lemma {:induction false} DepthIn(pm: Parents, x: string, k: nat) returns (d: nat)
    requires ValidTree(pm) && x in pm && Steps(pm, x, k) == None
    ensures 0 < d <= k && IsDepth(pm, x, d) && Steps(pm, x, d) == None && Steps(pm, x, d - 1).Some?
    decreases k
  {
    if Steps(pm, x, k - 1) == None {
      d := DepthIn(pm, x, k - 1);
    } else {
      d := k;
      forall i: nat | i < d
        ensures Steps(pm, x, i).Some? && Steps(pm, x, i).value in pm
      {
        if Steps(pm, x, i) == None {
          StepsEnd(pm, x, i, k - 1);
        }
        ChainStaysInside(pm, x, i);
      }
    }
  }

  lemma {:induction false} ClimbersAreInside(pm: Parents, x: string, k: nat, g: string)
    requires g in pm && Steps(pm, x, k) == Some(g)
    ensures x in pm
  {
  }

  /** No climb in a valid tree takes `MAX_GROUP_DEPTH` steps. */
  lemma {:induction false} ClimbIsShort(pm: Parents, x: string, k: nat, g: string)
    requires ValidTree(pm) && g in pm && Steps(pm, x, k) == Some(g)
    ensures k < MAX_GROUP_DEPTH
  {
    ClimbersAreInside(pm, x, k, g);
    if k >= MAX_GROUP_DEPTH {
      StepsEnd(pm, x, MAX_GROUP_DEPTH, k);
    }
  }

  lemma {:induction false} HeightIn(pm: Parents, g: string, n: nat) returns (h: nat)
    requires ValidTree(pm) && g in pm
    requires forall x, k: nat :: Steps(pm, x, k) == Some(g) ==> k < n
    ensures IsHeight(pm, g, h)
    decreases n
  {
    assert Steps(pm, g, 0) == Some(g);
    if x, k: nat :| Steps(pm, x, k) == Some(g) && k == n - 1 {
      h := n;
    } else {
      h := HeightIn(pm, g, n - 1);
    }
  }

  lemma {:induction false} HeightOf(pm: Parents, g: string) returns (h: nat)
    requires ValidTree(pm)
    ensures MovedHeight(pm, g, h) && (g in pm ==> IsHeight(pm, g, h))
  {
    if g in pm {
      forall x, k: nat | Steps(pm, x, k) == Some(g)
        ensures k < MAX_GROUP_DEPTH
      {
        ClimbIsShort(pm, x, k, g);
      }
      h := HeightIn(pm, g, MAX_GROUP_DEPTH);
      HeightInTree(pm, g, h);
    } else {
      h := 1;
    }
  }

  lemma {:induction false} HeightInTree(pm: Parents, g: string, h: nat)
    requires ValidTree(pm) && g in pm
    ensures MovedHeight(pm, g, h) <==> IsHeight(pm, g, h)
  {
    BoundedIsAcyclic(pm, MAX_GROUP_DEPTH);
    HeightOffCycle(pm, g, h);
  }

  // ----- the guards are exact

  /** A tree stays valid when a group in it becomes a root. */
  lemma {:induction false} RootingIsSafe(pm: Parents, g: string, parentId: Option<string>)
    requires ValidTree(pm) && g != "" && Root(parentId)
    ensures ValidTree(pm[g := parentId])
  {
    var moved := pm[g := parentId];
    forall x | x in moved
      ensures Steps(moved, x, MAX_GROUP_DEPTH) == None
    {
      if OnChain(pm, g, x) {
        var k: nat :| Steps(pm, x, k) == Some(g);
        var j := FirstMeeting(pm, x, g, k);
        ChainBelow(pm, g, parentId, x, j);
        StepsAdd(moved, x, j, 1);
        assert Steps(moved, g, 1) == None;
        if g in pm {
          ClimbIsShort(pm, x, j, g);
        } else {
          FreshIdIsNobodysParent(pm, g, x, j);
        }
        StepsEnd(moved, x, j + 1, MAX_GROUP_DEPTH);
      } else {
        ChainUnaffected(pm, g, parentId, x, MAX_GROUP_DEPTH);
        OnChainSelf(pm, x);
      }
    }
  }

  lemma {:induction false} FreshIdIsNobodysParent(pm: Parents, g: string, x: string, j: nat)
    requires ValidTree(pm) && g !in pm && Steps(pm, x, j) == Some(g)
    ensures j == 0
  {
    if j > 0 {
      assert x in pm;
      ChainStaysInside(pm, x, j);
    }
  }

  /** How far `x` climbs after `g` moved under `p`: to `g` as before, then along `p`'s chain. */
  lemma {:induction false} MovedChain(pm: Parents, g: string, p: string, x: string, k: nat) returns (j: nat)
    requires p != "" && !OnChain(pm, g, p) && Steps(pm, x, k) == Some(g)
    ensures Steps(pm, x, j) == Some(g)
    ensures forall n: nat :: Steps(pm[g := Some(p)], x, j + 1 + n) == Steps(pm, p, n)
  {
    j := FirstMeeting(pm, x, g, k);
    forall n: nat
      ensures Steps(pm[g := Some(p)], x, j + 1 + n) == Steps(pm, p, n)
    {
      ChainThrough(pm, g, p, x, j, n);
    }
  }

  /** Both guards pass, so the moved tree is valid. */
  lemma {:induction false} AdmittedIsSafe(pm: Parents, g: string, p: string)
    requires ValidTree(pm) && g != "" && p in pm && !OnChain(pm, g, p) && !DepthGuard(pm, g, Some(p))
    ensures ValidTree(pm[g := Some(p)])
  {
    var moved := pm[g := Some(p)];
    var d := DepthIn(pm, p, MAX_GROUP_DEPTH);
    LineOfChain(pm, p, d);
    var h := HeightOf(pm, g);
    assert ParentDepth(pm, Some(p)) == d && d + h <= MAX_GROUP_DEPTH;
    forall x | x in moved
      ensures Steps(moved, x, MAX_GROUP_DEPTH) == None
    {
      if k: nat :| Steps(pm, x, k) == Some(g) {
        var j := MovedChain(pm, g, p, x, k);
        assert Steps(moved, x, j + 1 + d) == None;
        if g !in pm {
          FreshIdIsNobodysParent(pm, g, x, j);
        }
        StepsEnd(moved, x, j + 1 + d, MAX_GROUP_DEPTH);
      } else {
        ChainUnaffected(pm, g, Some(p), x, MAX_GROUP_DEPTH);
        OnChainSelf(pm, x);
      }
    }
  }

  /** What the depth guard measured: the height that moves and the depth of its new parent. */
  lemma {:induction false} TooTall(pm: Parents, g: string, p: string) returns (h: nat, d: nat)
    requires ValidTree(pm) && p in pm && p != "" && DepthGuard(pm, g, Some(p))
    ensures MovedHeight(pm, g, h) && 0 < d && d + h > MAX_GROUP_DEPTH && Steps(pm, p, d - 1).Some?
  {
    hide MovedHeight;
    h :| MovedHeight(pm, g, h) && ParentDepth(pm, Some(p)) + h > MAX_GROUP_DEPTH;
    d := DepthIn(pm, p, MAX_GROUP_DEPTH);
    LineOfChain(pm, p, d);
  }

  /** The depth guard only refuses moves that would leave some group too deep. */
  lemma {:induction false} DepthGuardIsNeeded(pm: Parents, g: string, p: string) returns (x: string)
    requires ValidTree(pm) && p in pm && !OnChain(pm, g, p) && DepthGuard(pm, g, Some(p))
    ensures x in pm[g := Some(p)] && Steps(pm[g := Some(p)], x, MAX_GROUP_DEPTH).Some?
  {
    var moved := pm[g := Some(p)];
    var h, d := TooTall(pm, g, p);
    hide DepthGuard, Line, OnChain, MovedHeight;
    x := Deepest(pm, g, h);
    var j := MovedChain(pm, g, p, x, h - 1);
    DeepestClimb(pm, g, h, x, j);
    assert Steps(moved, x, j + 1 + (d - 1)).Some?;
    if Steps(moved, x, MAX_GROUP_DEPTH) == None {
      StepsEnd(moved, x, MAX_GROUP_DEPTH, j + d);
    }
  }

  lemma {:induction false} Deepest(pm: Parents, g: string, h: nat) returns (x: string)
    requires ValidTree(pm) && MovedHeight(pm, g, h)
    ensures h > 0 && Steps(pm, x, h - 1) == Some(g) && (x in pm || x == g)
  {
    if g in pm {
      HeightInTree(pm, g, h);
      var y, k: nat :| Steps(pm, y, k) == Some(g) && k == h - 1;
      x := y;
    } else {
      x := g;
      assert Steps(pm, g, 0) == Some(g);
    }
  }

  lemma {:induction false} DeepestClimb(pm: Parents, g: string, h: nat, x: string, j: nat)
    requires ValidTree(pm) && MovedHeight(pm, g, h) && h > 0
    requires Steps(pm, x, h - 1) == Some(g) && Steps(pm, x, j) == Some(g)
    ensures j == h - 1
  {
    if g in pm {
      BoundedIsAcyclic(pm, MAX_GROUP_DEPTH);
      SameClimb(pm, g, x, j, h - 1);
    } else {
      FreshIdIsNobodysParent(pm, g, x, j);
    }
  }

  lemma {:induction false} ClimbTwice(pm: Parents, g: string, x: string, j: nat, k: nat)
    requires j < k && Steps(pm, x, j) == Some(g) && Steps(pm, x, k) == Some(g)
    ensures !Acyclic(pm)
  {
    StepsAdd(pm, x, j, k - j);
    assert Steps(pm, g, k - j) == Some(g);
  }

  /** In an acyclic relation a chain meets each member once. */
  lemma {:induction false} SameClimb(pm: Parents, g: string, x: string, j: nat, k: nat)
    requires Acyclic(pm) && Steps(pm, x, j) == Some(g) && Steps(pm, x, k) == Some(g)
    ensures j == k
  {
    if j < k {
      ClimbTwice(pm, g, x, j, k);
    } else if k < j {
      ClimbTwice(pm, g, x, k, j);
    }
  }

  /** Whatever is moved to the top of a valid tree, the depth guard lets it pass. */
  lemma {:induction false} MovingToTheTopFits(pm: Parents, g: string, top: Option<string>)
    requires ValidTree(pm) && Root(top)
    ensures !DepthGuard(pm, g, top)
  {
    forall h: nat | MovedHeight(pm, g, h)
      ensures h <= MAX_GROUP_DEPTH
    {
      var x := Deepest(pm, g, h);
      if g in pm {
        ClimbIsShort(pm, x, h - 1, g);
      }
    }
    hide ValidTree, MovedHeight;
  }

  // ----- creating under a placeholder

  /** What sits under the placeholder would still fit under `p`, or nothing fits there anyway. */
  ghost predicate PlaceholderIsHarmless(pm: Parents, p: string) {
    var d := |Line(pm, p)|;
    || d >= MAX_GROUP_DEPTH || PLACEHOLDER !in pm
    || ClimbsAreBelow(pm, PLACEHOLDER, MAX_GROUP_DEPTH - d)
  }

  /** Every climb to `g` takes fewer than `n` steps. */
  ghost predicate ClimbsAreBelow(pm: Parents, g: string, n: nat) {
    forall x, k: nat :: Steps(pm, x, k) == Some(g) ==> k < n
  }

  /** In a valid tree the guard measures one height and one depth. */
  lemma {:induction false} GuardMeasures(pm: Parents, g: string, p: string, h: nat)
    requires ValidTree(pm) && p in pm && MovedHeight(pm, g, h)
    ensures DepthGuard(pm, g, Some(p)) <==> |Line(pm, p)| + h > MAX_GROUP_DEPTH
  {
    hide Line;
    forall i: nat | MovedHeight(pm, g, i)
      ensures i == h
    {
      if g in pm {
        HeightUnique(Cut(pm, g), g, h, i);
      }
    }
  }

  lemma {:induction false} HeightFits(pm: Parents, g: string, h: nat, n: nat)
    requires IsHeight(pm, g, h)
    ensures h <= n <==> ClimbsAreBelow(pm, g, n)
  {
    var y, k: nat :| Steps(pm, y, k) == Some(g) && k == h - 1;
  }

  /** A creation is refused exactly when it has to be, exactly when the placeholder is harmless. */
  lemma {:induction false} CreationIsExact(pm: Parents, id: string, p: string)
    requires ValidTree(pm) && id !in pm && id != "" && p in pm
    ensures Admitted(pm, Create(id, Some(p))) ==> ValidTree(pm[id := Some(p)])
    ensures (Admitted(pm, Create(id, Some(p))) <==> ValidTree(pm[id := Some(p)])) <==> PlaceholderIsHarmless(pm, p)
  {
    MoveIsExact(pm, id, p);
    if OnChain(pm, id, p) {
      var k: nat :| Steps(pm, p, k) == Some(id);
      FreshIdIsNobodysParent(pm, id, p, k);
    }
    var h := HeightOf(pm, PLACEHOLDER);
    var d := |Line(pm, p)|;
    GuardMeasures(pm, id, p, 1);
    GuardMeasures(pm, PLACEHOLDER, p, h);
    HeightIsPositive(pm, PLACEHOLDER, h);
    if PLACEHOLDER in pm && d < MAX_GROUP_DEPTH {
      HeightFits(pm, PLACEHOLDER, h, MAX_GROUP_DEPTH - d);
    }
    hide ValidTree, DepthGuard, OnChain, Line, MovedHeight, IsHeight;
  }

  lemma {:induction false} HeightIsPositive(pm: Parents, g: string, h: nat)
    requires MovedHeight(pm, g, h)
    ensures h > 0 && (g !in pm ==> h == 1)
  {
    if g in pm {
      assert Steps(Cut(pm, g), g, 0) == Some(g);
    }
  }

  // ----- exactness

  /** The change is one the store is asked for: a new id, or a group it has, and a parent it has. */
  ghost predicate Sensible(pm: Parents, change: Change) {
    match change
    case Create(id, parentId) => id !in pm && id != "" && (Root(parentId) || parentId.value in pm)
    case Reparent(id, parentId) => id in pm && (parentId.None? || parentId.value in pm)
    case Delete(id, _) => id in pm
  }

  /**
    * When the checks are about the tree alone: a creation with a harmless placeholder, any re-parenting, and a deletion
    * unless it is only the group's products that stand in its way.
    */
  ghost predicate ChecksAreExact(pm: Parents, change: Change) {
    match change
    case Create(_, parentId) => Root(parentId) || PlaceholderIsHarmless(pm, parentId.value)
    case Reparent(_, _) => true
    case Delete(id, hasProducts) => hasProducts ==> HasChildren(pm, id)
  }

  /** For a re-parenting and, checked under its own id, for a creation. */
  lemma {:induction false} MoveIsExact(pm: Parents, g: string, p: string)
    requires ValidTree(pm) && g != "" && p in pm
    ensures ValidTree(pm[g := Some(p)]) <==> !OnChain(pm, g, p) && !DepthGuard(pm, g, Some(p))
  {
    if OnChain(pm, g, p) {
      ClosingACycle(pm, g, p);
      if ValidTree(pm[g := Some(p)]) {
        BoundedIsAcyclic(pm[g := Some(p)], MAX_GROUP_DEPTH);
      }
    } else if DepthGuard(pm, g, Some(p)) {
      var x := DepthGuardIsNeeded(pm, g, p);
    } else {
      AdmittedIsSafe(pm, g, p);
    }
  }

  /** Others do not notice that a group without children is gone. */
  lemma {:induction false} ChainWithout(pm: Parents, id: string, x: string, k: nat)
    requires !HasChildren(pm, id) && x != id
    ensures Steps(pm - {id}, x, k) == Steps(pm, x, k)
    decreases k
  {
    if k > 0 && Up(pm, x).Some? {
      ChainWithout(pm, id, Up(pm, x).value, k - 1);
    }
  }

  /** Deleting a group leaves a valid tree exactly when nothing is filed under it. */
  lemma {:induction false} DeletionIsExact(pm: Parents, id: string)
    requires ValidTree(pm) && id in pm
    ensures ValidTree(pm - {id}) <==> !HasChildren(pm, id)
  {
    if x :| x in pm && pm[x] == Some(id) {
      BoundedIsAcyclic(pm, MAX_GROUP_DEPTH);
      assert Steps(pm, x, 1) == Some(id);
      assert Up(pm - {id}, x) == Some(id);
    } else {
      forall x | x in pm - {id}
        ensures Steps(pm - {id}, x, MAX_GROUP_DEPTH) == None
      {
        ChainWithout(pm, id, x, MAX_GROUP_DEPTH);
      }
    }
  }

  /**
    * In a valid tree what the store admits leaves a valid tree. That it refuses a change only when the result would
    * have a cycle, a group below the allowed depth or a parent that is gone holds exactly when the checks are about the
    * tree.
    */
  lemma {:induction false} GuardsAreExact(pm: Parents, change: Change)
    requires ValidTree(pm) && Sensible(pm, change)
    ensures Admitted(pm, change) ==> ValidTree(After(pm, change))
    ensures (Admitted(pm, change) <==> ValidTree(After(pm, change))) <==> ChecksAreExact(pm, change)
  {
    hide ValidTree, DepthGuard, PlaceholderIsHarmless, HasChildren;
    assert "" !in pm by {
      NoEmptyId(pm);
    }
    match change
    case Create(id, parentId) =>
      if Root(parentId) {
        RootingIsSafe(pm, id, parentId);
      } else {
        CreationIsExact(pm, id, parentId.value);
      }
    case Reparent(id, parentId) =>
      if Root(parentId) {
        RootingIsSafe(pm, id, parentId);
      } else {
        MoveIsExact(pm, id, parentId.value);
      }
    case Delete(id, _) =>
      DeletionIsExact(pm, id);
  }

  lemma {:induction false} NoEmptyId(pm: Parents)
    requires ValidTree(pm)
    ensures "" !in pm
  {
  }

  /** Only sensible changes are admitted. */
  lemma {:induction false} AdmittedIsSensible(pm: Parents, change: Change)
    requires ValidTree(pm) && Admitted(pm, change)
    ensures Sensible(pm, change)
  {
  }

  // ----- runs

  /** A run of requests, each applied when admitted and refused otherwise. */
  ghost function Run(pm: Parents, changes: seq<Change>): Parents
    decreases |changes|
  {
    if changes == [] then pm
    else Run(if Admitted(pm, changes[0]) then After(pm, changes[0]) else pm, changes[1..])
  }

  /** However long the run, the tree stays acyclic and within the depth. */
  lemma {:induction false} RunKeepsTreeValid(pm: Parents, changes: seq<Change>)
    requires ValidTree(pm)
    ensures ValidTree(Run(pm, changes)) && Acyclic(Run(pm, changes))
    ensures forall x :: x in Run(pm, changes) ==> 0 < |Line(Run(pm, changes), x)| <= 4
    decreases |changes|
  {
    if changes == [] {
      BoundedIsAcyclic(pm, MAX_GROUP_DEPTH);
      forall x | x in pm
        ensures 0 < |Line(pm, x)| <= MAX_GROUP_DEPTH
      {
        var d := DepthIn(pm, x, MAX_GROUP_DEPTH);
        LineOfChain(pm, x, d);
      }
    } else {
      if Admitted(pm, changes[0]) {
        AdmittedIsSensible(pm, changes[0]);
        GuardsAreExact(pm, changes[0]);
        RunKeepsTreeValid(After(pm, changes[0]), changes[1..]);
      } else {
        RunKeepsTreeValid(pm, changes[1..]);
      }
    }
  }

  /** Runs of a store that hands out random ids: none of them is the placeholder. */
  ghost predicate NeverThePlaceholder(changes: seq<Change>) {
    forall i :: 0 <= i < |changes| ==> !(changes[i].Create? && changes[i].id == PLACEHOLDER)
  }

  lemma {:induction false} RunAvoidsPlaceholder(pm: Parents, changes: seq<Change>)
    requires PLACEHOLDER !in pm && NeverThePlaceholder(changes)
    ensures PLACEHOLDER !in Run(pm, changes)
    decreases |changes|
  {
    if changes != [] {
      RunAvoidsPlaceholder(if Admitted(pm, changes[0]) then After(pm, changes[0]) else pm, changes[1..]);
      hide DepthGuard, CycleGuard;
    }
  }

  /** Over such runs every refusal is exact: whatever happened before, the next change is refused only if it must be. */
  lemma {:induction false} RefusalsAreExact(pm: Parents, changes: seq<Change>, next: Change)
    requires ValidTree(pm) && PLACEHOLDER !in pm && NeverThePlaceholder(changes)
    requires Sensible(Run(pm, changes), next) && !(next.Delete? && next.hasProducts)
    ensures Admitted(Run(pm, changes), next) <==> ValidTree(After(Run(pm, changes), next))
  {
    hide ValidTree, Admitted, Run, After, Sensible;
    RunKeepsTreeValid(pm, changes);
    RunAvoidsPlaceholder(pm, changes);
    GuardsAreExact(Run(pm, changes), next);
  }

  // ----- a group under the placeholder

  const CROWDED: Parents :=
    map["new-group" := None, "s" := Some("new-group"), "a" := None, "b" := Some("a"), "c" := Some("b")]

  lemma {:induction false} CrowdedIsValid()
    ensures ValidTree(CROWDED) && IsDepth(CROWDED, "c", 3) && Steps(CROWDED, "s", 1) == Some(PLACEHOLDER)
  {
    assert Steps(CROWDED, "a", 1) == None && Steps(CROWDED, PLACEHOLDER, 1) == None;
    assert Steps(CROWDED, "b", 1) == Some("a") && Steps(CROWDED, "b", 2) == None;
    assert Steps(CROWDED, "c", 1) == Some("b") && Steps(CROWDED, "c", 2) == Some("a") && Steps(CROWDED, "c", 3) == None;
    assert Steps(CROWDED, "s", 1) == Some(PLACEHOLDER) && Steps(CROWDED, "s", 2) == None;
    forall x | x in CROWDED
      ensures Steps(CROWDED, x, MAX_GROUP_DEPTH) == None
    {
      StepsEnd(CROWDED, x, if x == "c" then 3 else 2, MAX_GROUP_DEPTH);
    }
  }

  /** A group under the placeholder has a new group refused that would be the fourth in its line. */
  lemma {:induction false} PlaceholderRefusesWrongly()
    ensures ValidTree(CROWDED) && Sensible(CROWDED, Create("n", Some("c")))
    ensures !Admitted(CROWDED, Create("n", Some("c"))) && ValidTree(After(CROWDED, Create("n", Some("c"))))
  {
    CrowdedIsValid();
    assert !ClimbsAreBelow(CROWDED, PLACEHOLDER, 1);
    LineOfChain(CROWDED, "c", 3);
    CreationIsExact(CROWDED, "n", "c");
    hide ValidTree, Line, DepthGuard;
  }
}
