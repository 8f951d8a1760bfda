/** Product groups: the walks over the group tree and the two guards on changing it. */
module ProductGroups {
  import opened Options
  import opened Forest

  const MAX_GROUP_DEPTH: nat := 4

  datatype GroupNode = GroupNode(id: string, parentId: Option<string>)

  ghost predicate UniqueIds(groups: seq<GroupNode>) {
    forall i, j :: 0 <= i < j < |groups| ==> groups[i].id != groups[j].id
  }

  /** `new Map(groups.map(g => [g.id, g.parentId]))`: a later row with the same id wins. */
  function ParentsOf(groups: seq<GroupNode>): Parents {
    if groups == [] then map[]
    else ParentsOf(groups[..|groups| - 1])[groups[|groups| - 1].id := groups[|groups| - 1].parentId]
  }

  lemma {:induction false} ParentsOfRows(groups: seq<GroupNode>)
    requires UniqueIds(groups)
    ensures forall i :: 0 <= i < |groups| ==>
            groups[i].id in ParentsOf(groups) && ParentsOf(groups)[groups[i].id] == groups[i].parentId
    ensures forall x :: x in ParentsOf(groups) ==> exists i :: 0 <= i < |groups| && groups[i].id == x
  {
    if groups != [] {
      var init := groups[..|groups| - 1];
      ParentsOfRows(init);
      forall x | x in ParentsOf(groups)
        ensures exists i :: 0 <= i < |groups| && groups[i].id == x
      {
        if x in ParentsOf(init) {
          var i :| 0 <= i < |init| && init[i].id == x;
          assert groups[i].id == x;
        } else {
          assert groups[|groups| - 1].id == x;
        }
      }
    }
  }

  // ----- walking down

  /** The rows that name `p` as their parent, in row order. */
  function ChildRows(groups: seq<GroupNode>, p: string): seq<GroupNode> {
    if groups == [] then []
    else
      var last := groups[|groups| - 1];
      ChildRows(groups[..|groups| - 1], p) + (if last.parentId == Some(p) && p != "" then [last] else [])
  }

  lemma {:induction false} ChildRowsAreRows(groups: seq<GroupNode>, p: string)
    ensures forall g :: g in ChildRows(groups, p) <==> g in groups && g.parentId == Some(p) && p != ""
  {
    if groups != [] {
      ChildRowsAreRows(groups[..|groups| - 1], p);
      assert groups == groups[..|groups| - 1] + [groups[|groups| - 1]];
    }
  }

  lemma {:induction false} ChildRowsUnique(groups: seq<GroupNode>, p: string)
    requires UniqueIds(groups)
    ensures UniqueIds(ChildRows(groups, p))
  {
    if groups != [] {
      var init, last := groups[..|groups| - 1], groups[|groups| - 1];
      ChildRowsUnique(init, p);
      ChildRowsAreRows(init, p);
      var kids := ChildRows(init, p);
      forall i | 0 <= i < |kids|
        ensures kids[i].id != last.id
      {
        assert kids[i] in init;
      }
    }
  }

  /** The rows filed under `p` are those whose chain goes to `p` in one step. */
  lemma {:induction false} ChildRowsAre(groups: seq<GroupNode>, p: string)
    requires UniqueIds(groups)
    ensures forall i :: 0 <= i < |ChildRows(groups, p)| ==> Up(ParentsOf(groups), ChildRows(groups, p)[i].id) == Some(p)
    ensures forall x :: Up(ParentsOf(groups), x) == Some(p) ==>
              exists i :: 0 <= i < |ChildRows(groups, p)| && ChildRows(groups, p)[i].id == x
  {
    var kids, pm := ChildRows(groups, p), ParentsOf(groups);
    ChildRowsAreRows(groups, p);
    ParentsOfRows(groups);
    hide ChildRows, ParentsOf;
    forall i | 0 <= i < |kids|
      ensures Up(pm, kids[i].id) == Some(p)
    {
      assert kids[i] in groups;
    }
    forall x | Up(pm, x) == Some(p)
      ensures exists i :: 0 <= i < |kids| && kids[i].id == x
    {
      var i :| 0 <= i < |groups| && groups[i].id == x;
      assert groups[i] in kids;
      var k :| 0 <= k < |kids| && kids[k] == groups[i];
      assert kids[k].id == x;
    }
  }

  lemma {:induction false} ChildRowsSnoc(groups: seq<GroupNode>, g: GroupNode)
    ensures forall p :: ChildRows(groups + [g], p) ==
                        ChildRows(groups, p) + if g.parentId == Some(p) && p != "" then [g] else []
  {
    assert (groups + [g])[..|groups|] == groups;
  }

  method ChildrenByParent(groups: seq<GroupNode>) returns (byParent: map<string, seq<GroupNode>>)
    ensures forall p :: p in byParent <==> ChildRows(groups, p) != []
    ensures forall p :: p in byParent ==> byParent[p] == ChildRows(groups, p)
  {
    byParent := map[];
    for i := 0 to |groups|
      invariant forall p :: p in byParent <==> ChildRows(groups[..i], p) != []
      invariant forall p :: p in byParent ==> byParent[p] == ChildRows(groups[..i], p)
    {
      hide ChildRows;
      assert groups[..i + 1] == groups[..i] + [groups[i]];
      var g := groups[i];
      ChildRowsSnoc(groups[..i], g);
      if g.parentId.None? || g.parentId.value == "" {
        continue;
      }
      if g.parentId.value in byParent {
        byParent := byParent[g.parentId.value := byParent[g.parentId.value] + [g]];
      } else {
        byParent := byParent[g.parentId.value := [g]];
      }
    }
    assert groups[..|groups|] == groups;
  }

  function Children(byParent: map<string, seq<GroupNode>>, id: string): seq<GroupNode> {
    if id in byParent then byParent[id] else []
  }

  /** `seen` holds only descendants of `root`, and every child of a member except those still queued. */
  ghost predicate Explored(pm: Parents, root: string, seen: set<string>, queue: seq<string>) {
    && root in seen
    && (forall x :: x in seen ==> OnChain(pm, root, x))
    && (forall i :: 0 <= i < |queue| ==> queue[i] in seen)
    && (forall x :: Up(pm, x).Some? && Up(pm, x).value in seen && Up(pm, x).value !in queue ==> x in seen)
  }

  /** The ids of `groupId` and every group below it, for any parent relation. */
  method DescendantGroupIds(groups: seq<GroupNode>, groupId: string) returns (seen: set<string>)
    requires UniqueIds(groups)
    ensures forall x :: x in seen <==> OnChain(ParentsOf(groups), groupId, x)
  {
    ghost var pm := ParentsOf(groups);
    ghost var universe := {groupId} + set g | g in groups :: g.id;
    var byParent := ChildrenByParent(groups);
    seen := {groupId};
    var queue := [groupId];
    OnChainSelf(pm, groupId);
    while queue != []
      invariant Explored(pm, groupId, seen, queue)
      invariant seen <= universe
      decreases universe - seen, |queue|
    {
      var id := queue[|queue| - 1];
      ghost var seen0, queue0 := seen, queue;
      ChildRowsAre(groups, id);
      ChildRowsAreRows(groups, id);
      ChildrenOnChain(pm, groupId, id, ChildRows(groups, id));
      seen, queue := PushUnseen(Children(byParent, id), seen, queue[..|queue| - 1]);
      ExploredAfter(pm, groupId, seen0, queue0, seen, queue, ChildRows(groups, id));
    }
    forall x | OnChain(pm, groupId, x)
      ensures x in seen
    {
      var k: nat :| Steps(pm, x, k) == Some(groupId);
      ClosedDownward(pm, groupId, seen, x, k);
    }
  }

  /** Mark and queue the children not seen before. */
  method PushUnseen(children: seq<GroupNode>, seen: set<string>, queue: seq<string>)
    returns (seen': set<string>, queue': seq<string>)
    ensures seen' == seen + set k | 0 <= k < |children| :: children[k].id
    ensures queue <= queue' && (seen' == seen ==> queue' == queue)
    ensures forall x :: x in queue'[|queue|..] <==> x in seen' && x !in seen
  {
    seen', queue' := seen, queue;
    for i := 0 to |children|
      invariant seen' == seen + set k | 0 <= k < i :: children[k].id
      invariant queue <= queue' && (seen' == seen ==> queue' == queue)
      invariant forall x :: x in queue'[|queue|..] <==> x in seen' && x !in seen
    {
      var child := children[i];
      if child.id in seen' {
        continue;
      }
      assert (queue' + [child.id])[|queue|..] == queue'[|queue|..] + [child.id];
      seen' := seen' + {child.id};
      queue' := queue' + [child.id];
    }
  }

  lemma {:induction false} ChildrenOnChain(pm: Parents, root: string, id: string, children: seq<GroupNode>)
    requires OnChain(pm, root, id)
    requires forall i :: 0 <= i < |children| ==> Up(pm, children[i].id) == Some(id)
    ensures forall i :: 0 <= i < |children| ==> OnChain(pm, root, children[i].id)
  {
    forall i | 0 <= i < |children|
      ensures OnChain(pm, root, children[i].id)
    {
      OnChainUp(pm, root, children[i].id);
    }
  }

  lemma {:induction false} ExploredAfter(pm: Parents, root: string, seen0: set<string>, queue0: seq<string>,
                      seen: set<string>, queue: seq<string>, children: seq<GroupNode>)
    requires queue0 != [] && Explored(pm, root, seen0, queue0)
    requires seen == seen0 + set k | 0 <= k < |children| :: children[k].id
    requires queue0[..|queue0| - 1] <= queue
    requires forall x :: x in queue[|queue0| - 1..] <==> x in seen && x !in seen0
    requires forall k :: 0 <= k < |children| ==> OnChain(pm, root, children[k].id)
    requires forall x :: Up(pm, x) == Some(queue0[|queue0| - 1]) ==>
            exists i :: 0 <= i < |children| && children[i].id == x
    ensures Explored(pm, root, seen, queue)
  {
    forall i | 0 <= i < |queue|
      ensures queue[i] in seen
    {
      if i < |queue0| - 1 {
        assert queue[i] == queue0[i];
      } else {
        assert queue[i] == queue[|queue0| - 1..][i - (|queue0| - 1)];
      }
    }
    forall x | Up(pm, x).Some? && Up(pm, x).value in seen && Up(pm, x).value !in queue
      ensures x in seen
    {
      var p := Up(pm, x).value;
      if p != queue0[|queue0| - 1] {
        StillQueued(queue0, queue, p);
        assert p in seen0;
      }
    }
  }

  lemma {:induction false} StillQueued(queue0: seq<string>, queue: seq<string>, p: string)
    requires queue0 != [] && queue0[..|queue0| - 1] <= queue && p != queue0[|queue0| - 1]
    ensures p in queue0 ==> p in queue
    ensures forall x :: x in queue[|queue0| - 1..] ==> x in queue
  {
    if p in queue0 {
      var i :| 0 <= i < |queue0| && queue0[i] == p;
      assert queue[i] == p;
    }
  }

  lemma {:induction false} ClosedDownward(pm: Parents, root: string, seen: set<string>, x: string, k: nat)
    requires Explored(pm, root, seen, []) && Steps(pm, x, k) == Some(root)
    ensures x in seen
    decreases k
  {
    if k > 0 {
      ClosedDownward(pm, root, seen, Up(pm, x).value, k - 1);
    }
  }

  /** A group's new parent would put it below itself. */
  ghost predicate CycleGuard(pm: Parents, groupId: string, newParentId: Option<string>) {
    newParentId.Some? && newParentId.value != "" && OnChain(pm, groupId, newParentId.value)
  }

  method WouldCreateCycle(groups: seq<GroupNode>, groupId: string, newParentId: Option<string>) returns (r: bool)
    requires UniqueIds(groups)
    ensures r <==> CycleGuard(ParentsOf(groups), groupId, newParentId)
  {
    if newParentId.None? || newParentId.value == "" {
      return false;
    }
    var below := DescendantGroupIds(groups, groupId);
    r := newParentId.value in below;
  }

  // ----- walking up, and heights

  /** The groups on the chain of `id`, itself included: a cycle is counted once, a missing parent not at all. */
  ghost function Line(pm: Parents, id: string): set<string> {
    set x | x in pm && OnChain(pm, x, id)
  }

  /** `id` is in the set and its first `d` chain members are, and no more. */
  ghost predicate IsDepth(pm: Parents, id: string, d: nat) {
    && (forall k: nat :: k < d ==> Steps(pm, id, k).Some? && Steps(pm, id, k).value in pm)
    && (Steps(pm, id, d).Some? ==> Steps(pm, id, d).value !in pm)
  }

  /** The longest climb to `id` from anywhere below it takes `h - 1` steps. */
  ghost predicate IsHeight(pm: Parents, id: string, h: nat) {
    && h > 0
    && (forall x, k: nat :: Steps(pm, x, k) == Some(id) ==> k < h)
    && exists x, k: nat :: Steps(pm, x, k) == Some(id) && k == h - 1
  }

  /** The relation with `g` cut from its parent, so that no climb goes round through `g`. */
  function Cut(pm: Parents, g: string): Parents {
    pm[g := None]
  }

  /** Depth by walking up; it stops when an ancestor repeats, so it stops on any input. */
  method GroupDepth(groups: seq<GroupNode>, groupId: string) returns (depth: nat)
    requires UniqueIds(groups)
    ensures depth == |Line(ParentsOf(groups), groupId)|
  {
    ghost var pm := ParentsOf(groups);
    var byId := ParentsOf(groups);
    var seen: set<string> := {};
    depth := 0;
    var current := if groupId in byId then Some(groupId) else None;
    while current.Some? && current.value !in seen
      invariant current.Some? ==> current.value in pm && Steps(pm, groupId, depth) == current
      invariant current.None? ==> Steps(pm, groupId, depth).Some? ==> Steps(pm, groupId, depth).value !in pm
      invariant forall x :: x in seen <==> PassedWithin(pm, groupId, depth, x)
      invariant seen <= pm.Keys && |seen| == depth
      decreases pm.Keys - seen
    {
      StepsAdd(pm, groupId, depth, 1);
      seen := seen + {current.value};
      depth := depth + 1;
      var parent := byId[current.value];
      current := if parent.Some? && parent.value != "" && parent.value in byId then parent else None;
    }
    WalkedLine(pm, groupId, depth, current, seen);
  }

  /** Where the walk up stops, it has seen the whole line. */
  lemma {:induction false} WalkedLine(pm: Parents, id: string, depth: nat, current: Option<string>, seen: set<string>)
    requires seen <= pm.Keys && (current.Some? ==> current.value in seen && Steps(pm, id, depth) == current)
    requires current.None? ==> Steps(pm, id, depth).Some? ==> Steps(pm, id, depth).value !in pm
    requires forall x :: x in seen <==> PassedWithin(pm, id, depth, x)
    ensures seen == Line(pm, id)
  {
    forall x | x in pm && OnChain(pm, x, id)
      ensures x in seen
    {
      var k: nat :| Steps(pm, id, k) == Some(x);
      if k >= depth {
        if current.Some? {
          var j: nat :| j < depth && Steps(pm, id, j) == current;
          var i := InLoop(pm, id, j, depth, k);
        } else {
          StepsAdd(pm, id, depth, k - depth);
        }
      }
    }
    forall x | x in seen
      ensures OnChain(pm, x, id)
    {
    }
  }

  lemma {:induction false} InLoop(pm: Parents, id: string, j: nat, k: nat, d: nat) returns (i: nat)
    requires j < k && Steps(pm, id, j).Some? && Steps(pm, id, j) == Steps(pm, id, k)
    ensures i < k && Steps(pm, id, i) == Steps(pm, id, d)
    decreases d
  {
    if d < k {
      i := d;
    } else {
      StepsAdd(pm, id, k, d - k);
      StepsAdd(pm, id, j, d - k);
      i := InLoop(pm, id, j, k, j + d - k);
    }
  }

  /** When the chain ends, the line is as long as the chain. */
  lemma {:induction false} LineOfChain(pm: Parents, id: string, d: nat)
    requires IsDepth(pm, id, d)
    ensures |Line(pm, id)| == d
  {
    var members := ChainMembers(pm, id, d, d);
    WalkedLine(pm, id, d, None, members);
  }

  lemma {:induction false} ChainMembers(pm: Parents, id: string, d: nat, n: nat) returns (members: set<string>)
    requires IsDepth(pm, id, d) && n <= d
    ensures members <= pm.Keys && |members| == n
    ensures forall x :: x in members <==> PassedWithin(pm, id, n, x)
    decreases n
  {
    if n == 0 {
      members := {};
    } else {
      var m: nat := n - 1;
      var earlier := ChainMembers(pm, id, d, m);
      var last := Steps(pm, id, m).value;
      if last in earlier {
        var j: nat :| j < m && Steps(pm, id, j) == Some(last);
        NoDepthOnCycle(pm, id, j, m, d);
      }
      members := earlier + {last};
      forall x
        ensures x in members <==> PassedWithin(pm, id, n, x)
      {
        if x in earlier {
          var k: nat :| k < m && Steps(pm, id, k) == Some(x);
        } else if PassedWithin(pm, id, n, x) {
          var k: nat :| k < n && Steps(pm, id, k) == Some(x);
          assert k == m || PassedWithin(pm, id, m, x);
        }
      }
    }
  }

  /** A chain that repeats never leaves the set, so it has no end. */
  lemma {:induction false} NoDepthOnCycle(pm: Parents, id: string, j: nat, k: nat, d: nat)
    requires j < k <= d && Steps(pm, id, j).Some? && Steps(pm, id, j) == Steps(pm, id, k)
    ensures !IsDepth(pm, id, d)
  {
    var i := InLoop(pm, id, j, k, d);
  }

  /** Siblings have no descendant in common, and neither has their parent below it. */
  lemma {:induction false} SiblingsDisjoint(pm: Parents, id: string, c: string, d: string, x: string)
    requires OffCycle(pm, id) && Up(pm, c) == Some(id) && Up(pm, d) == Some(id)
    requires OnChain(pm, c, x) && OnChain(pm, d, x)
    ensures c == d && x != id
  {
    var j: nat :| Steps(pm, x, j) == Some(c);
    var k: nat :| Steps(pm, x, k) == Some(d);
    if j < k {
      ClimbPastSibling(pm, id, c, d, x, j, k);
    } else if k < j {
      ClimbPastSibling(pm, id, d, c, x, k, j);
    }
    StepsAdd(pm, x, j, 1);
    assert Steps(pm, x, j + 1) == Some(id);
  }

  lemma {:induction false} ClimbPastSibling(pm: Parents, id: string, c: string, d: string, x: string, j: nat, k: nat)
    requires Up(pm, c) == Some(id) && Up(pm, d) == Some(id)
    requires j < k && Steps(pm, x, j) == Some(c) && Steps(pm, x, k) == Some(d)
    ensures !OffCycle(pm, id)
  {
    StepsAdd(pm, x, j, k - j);
    assert Steps(pm, c, k - j) == Some(d);
    StepsAdd(pm, id, k - j - 1, 1);
    assert Steps(pm, id, k - j) == Some(id);
  }

  /** What the height walk at `id` knows after its first `n` children; `root`, where the walk began, is no child. */
  ghost predicate HeightSoFar(pm: Parents, root: string, id: string, children: seq<GroupNode>, n: nat, max: nat)
    requires n <= |children|
  {
    && (forall i, x, k: nat ::
          0 <= i < n && children[i].id != root && Steps(pm, x, k) == Some(children[i].id) ==> k < max)
    && (max > 0 ==> exists x, k: nat :: Steps(pm, x, k) == Some(id) && k == max)
  }

  ghost predicate VisitedSoFar(pm: Parents, root: string, id: string, children: seq<GroupNode>, n: nat,
                               seen0: set<string>, seen: set<string>)
    requires n <= |children|
  {
    forall x :: x in seen <==>
      x in seen0 || x == id || exists i :: 0 <= i < n && children[i].id != root && OnChain(pm, children[i].id, x)
  }

  /** The rows filed under `id` are its children in `cut`, but for the root of the walk. */
  ghost predicate ChildrenOf(cut: Parents, root: string, id: string, children: seq<GroupNode>) {
    && UniqueIds(children)
    && (forall i :: 0 <= i < |children| && children[i].id != root ==> Up(cut, children[i].id) == Some(id))
    && (forall y :: Up(cut, y) == Some(id) ==> y != root && exists i :: 0 <= i < |children| && children[i].id == y)
  }

  /** `id` hangs from the root of the walk, and nothing below it has been seen. */
  ghost predicate Untouched(cut: Parents, root: string, id: string, seen: set<string>) {
    && Up(cut, root) == None && OnChain(cut, root, id) && (id == root || root in seen)
    && forall x :: x in seen ==> !OnChain(cut, id, x)
  }

  /** The recursive walk, sharing one `seen` set; a second visit counts for nothing. */
  method Walk(ghost groups: seq<GroupNode>, byParent: map<string, seq<GroupNode>>, id: string, seen: set<string>,
              ghost universe: set<string>, ghost root: string)
    returns (height: nat, seen': set<string>)
    requires UniqueIds(groups) && id in universe && seen <= universe
    requires forall g :: g in groups ==> g.id in universe
    requires forall p :: p in byParent <==> ChildRows(groups, p) != []
    requires forall p :: p in byParent ==> byParent[p] == ChildRows(groups, p)
    ensures seen <= seen' <= universe
    ensures id in seen ==> height == 0 && seen' == seen
    ensures Untouched(Cut(ParentsOf(groups), root), root, id, seen) ==>
              && IsHeight(Cut(ParentsOf(groups), root), id, height)
              && forall x :: x in seen' <==> x in seen || OnChain(Cut(ParentsOf(groups), root), id, x)
    decreases universe - seen
  {
    hide ParentsOf, Cut, OnChain, IsHeight, HeightSoFar, VisitedSoFar, Untouched, ChildrenOf;
    ghost var cut := Cut(ParentsOf(groups), root);
    ghost var tree := Untouched(cut, root, id, seen);
    if id in seen {
      SeenIsTouched(cut, root, id, seen);
      return 0, seen;
    }
    seen' := seen + {id};
    var max := 0;
    var children := Children(byParent, id);
    RowsAreChildren(groups, root, id);
    ChildRowsAreRows(groups, id);
    WalkStarts(cut, root, id, children, seen);
    for i := 0 to |children|
      invariant seen + {id} <= seen' <= universe
      invariant tree ==> HeightSoFar(cut, root, id, children, i, max)
      invariant tree ==> VisitedSoFar(cut, root, id, children, i, seen, seen')
    {
      if tree && children[i].id != root {
        UnseenChild(cut, root, id, children, i, seen, seen');
      }
      ghost var before, max0 := seen', max;
      var h;
      h, seen' := Walk(groups, byParent, children[i].id, seen', universe, root);
      max := if h > max then h else max;
      if tree {
        if children[i].id == root {
          RootIsSeen(cut, root, id, seen);
          RootSkipped(cut, root, id, children, i, max0, seen, before);
        } else {
          HeightAfter(cut, root, id, children, i, max0, h, max);
          VisitedAfter(cut, root, id, children, i, seen, before, seen');
        }
      }
    }
    height := 1 + max;
    if tree {
      WholeHeight(cut, root, id, children, max);
      WholeVisit(cut, root, id, children, seen, seen');
    }
  }

  lemma {:induction false} SeenIsTouched(cut: Parents, root: string, id: string, seen: set<string>)
    requires id in seen
    ensures !Untouched(cut, root, id, seen)
  {
    OnChainSelf(cut, id);
  }

  lemma {:induction false} RootIsSeen(cut: Parents, root: string, id: string, seen: set<string>)
    requires Untouched(cut, root, id, seen)
    ensures root in seen + {id}
  {
  }

  lemma {:induction false} WalkStarts(cut: Parents, root: string, id: string, children: seq<GroupNode>,
                                      seen: set<string>)
    ensures HeightSoFar(cut, root, id, children, 0, 0)
    ensures VisitedSoFar(cut, root, id, children, 0, seen, seen + {id})
  {
  }

  /** The root comes up as a child when it lies on a cycle; it has been seen and counts for nothing. */
  lemma {:induction false} RootSkipped(cut: Parents, root: string, id: string, children: seq<GroupNode>, n: nat,
                                       max: nat, seen0: set<string>, seen: set<string>)
    requires n < |children| && children[n].id == root
    requires HeightSoFar(cut, root, id, children, n, max) && VisitedSoFar(cut, root, id, children, n, seen0, seen)
    ensures HeightSoFar(cut, root, id, children, n + 1, max)
    ensures VisitedSoFar(cut, root, id, children, n + 1, seen0, seen)
  {
  }

  lemma {:induction false} RowsAreChildren(groups: seq<GroupNode>, root: string, id: string)
    requires UniqueIds(groups)
    ensures ChildrenOf(Cut(ParentsOf(groups), root), root, id, ChildRows(groups, id))
  {
    ChildRowsAre(groups, id);
    ChildRowsUnique(groups, id);
    var pm, cut := ParentsOf(groups), Cut(ParentsOf(groups), root);
    assert forall y :: y != root ==> Up(cut, y) == Up(pm, y);
    hide ParentsOf, ChildRows;
  }

  lemma {:induction false} RootedIsOffCycle(pm: Parents, root: string, id: string)
    requires Up(pm, root) == None && OnChain(pm, root, id)
    ensures OffCycle(pm, id)
  {
    var n: nat :| Steps(pm, id, n) == Some(root);
    StepsAdd(pm, id, n, 1);
    forall k: nat | k > 0
      ensures Steps(pm, id, k) != Some(id)
    {
      if Steps(pm, id, k) == Some(id) {
        var m := Around(pm, id, k, n + 1);
        StepsEnd(pm, id, n + 1, m);
      }
    }
  }

  lemma {:induction false} UnseenChild(pm: Parents, root: string, id: string, children: seq<GroupNode>, n: nat,
                                       seen0: set<string>, seen: set<string>)
    requires n < |children| && ChildrenOf(pm, root, id, children) && children[n].id != root
    requires Untouched(pm, root, id, seen0) && VisitedSoFar(pm, root, id, children, n, seen0, seen)
    ensures Untouched(pm, root, children[n].id, seen)
  {
    var c := children[n].id;
    RootedIsOffCycle(pm, root, id);
    OnChainUp(pm, root, c);
    forall x | x in seen
      ensures !OnChain(pm, c, x)
    {
      if OnChain(pm, c, x) {
        OnChainParent(pm, id, c, x);
        SiblingsDisjoint(pm, id, c, c, x);
        var i :| 0 <= i < n && children[i].id != root && OnChain(pm, children[i].id, x);
        SiblingsDisjoint(pm, id, children[i].id, c, x);
      }
    }
  }

  /** Below a child is below its parent. */
  lemma {:induction false} OnChainParent(pm: Parents, id: string, c: string, x: string)
    requires Up(pm, c) == Some(id) && OnChain(pm, c, x)
    ensures OnChain(pm, id, x)
  {
    var k: nat :| Steps(pm, x, k) == Some(c);
    StepsAdd(pm, x, k, 1);
    assert Steps(pm, x, k + 1) == Some(id);
  }

  lemma {:induction false} HeightAfter(pm: Parents, root: string, id: string, children: seq<GroupNode>, n: nat,
                                       max0: nat, h: nat, max: nat)
    requires n < |children| && ChildrenOf(pm, root, id, children) && children[n].id != root
    requires HeightSoFar(pm, root, id, children, n, max0) && IsHeight(pm, children[n].id, h)
    requires max == if h > max0 then h else max0
    ensures HeightSoFar(pm, root, id, children, n + 1, max)
  {
    var x, k: nat :| Steps(pm, x, k) == Some(children[n].id) && k == h - 1;
    StepsAdd(pm, x, k, 1);
    assert Steps(pm, x, k + 1) == Some(id);
  }

  lemma {:induction false} VisitedAfter(pm: Parents, root: string, id: string, children: seq<GroupNode>, n: nat,
                                        seen0: set<string>, before: set<string>, seen: set<string>)
    requires n < |children| && VisitedSoFar(pm, root, id, children, n, seen0, before) && children[n].id != root
    requires forall x :: x in seen <==> x in before || OnChain(pm, children[n].id, x)
    ensures VisitedSoFar(pm, root, id, children, n + 1, seen0, seen)
  {
  }

  /** A climb to `id` of one step or more comes through one of its children. */
  lemma {:induction false} LastStep(pm: Parents, root: string, id: string, children: seq<GroupNode>, x: string, k: nat)
    returns (i: nat)
    requires k > 0 && Steps(pm, x, k) == Some(id) && ChildrenOf(pm, root, id, children)
    ensures i < |children| && children[i].id != root && Steps(pm, x, k - 1) == Some(children[i].id)
  {
    StepsAdd(pm, x, k - 1, 1);
    var y := Steps(pm, x, k - 1).value;
    assert Steps(pm, y, 1) == Some(id);
    i :| 0 <= i < |children| && children[i].id == y;
  }

  lemma {:induction false} WholeHeight(pm: Parents, root: string, id: string, children: seq<GroupNode>, max: nat)
    requires HeightSoFar(pm, root, id, children, |children|, max) && ChildrenOf(pm, root, id, children)
    ensures IsHeight(pm, id, 1 + max)
  {
    forall x, k: nat | Steps(pm, x, k) == Some(id)
      ensures k < 1 + max
    {
      if k > 0 {
        var i := LastStep(pm, root, id, children, x, k);
      }
    }
    if max == 0 {
      assert Steps(pm, id, 0) == Some(id);
    }
  }

  lemma {:induction false} WholeVisit(pm: Parents, root: string, id: string, children: seq<GroupNode>,
                                      seen0: set<string>, seen: set<string>)
    requires VisitedSoFar(pm, root, id, children, |children|, seen0, seen) && ChildrenOf(pm, root, id, children)
    ensures forall x :: x in seen <==> x in seen0 || OnChain(pm, id, x)
  {
    forall x
      ensures x in seen <==> x in seen0 || OnChain(pm, id, x)
    {
      if OnChain(pm, id, x) && x != id {
        var k: nat :| Steps(pm, x, k) == Some(id);
        var i := LastStep(pm, root, id, children, x, k);
        assert OnChain(pm, children[i].id, x);
      }
      if i :| 0 <= i < |children| && children[i].id != root && OnChain(pm, children[i].id, x) {
        OnChainParent(pm, id, children[i].id, x);
      }
      if x == id {
        OnChainSelf(pm, x);
      }
    }
  }

  /** For any relation, cyclic or not: one more than the longest climb to the group that does not pass it. */
  method SubtreeHeight(groups: seq<GroupNode>, groupId: string) returns (height: nat)
    requires UniqueIds(groups)
    ensures IsHeight(Cut(ParentsOf(groups), groupId), groupId, height)
  {
    var byParent := ChildrenByParent(groups);
    ghost var universe := {groupId} + set g | g in groups :: g.id;
    OnChainSelf(Cut(ParentsOf(groups), groupId), groupId);
    var seen;
    height, seen := Walk(groups, byParent, groupId, {}, universe, groupId);
  }

  /** Off a cycle the cut changes nothing: the longest climb of all. */
  lemma {:induction false} HeightOffCycle(pm: Parents, g: string, h: nat)
    requires OffCycle(pm, g)
    ensures IsHeight(Cut(pm, g), g, h) <==> IsHeight(pm, g, h)
  {
    forall x, k: nat
      ensures Steps(Cut(pm, g), x, k) == Some(g) <==> Steps(pm, x, k) == Some(g)
    {
      CutKeepsClimb(pm, g, x, k);
    }
  }

  lemma {:induction false} CutKeepsClimb(pm: Parents, g: string, x: string, k: nat)
    requires OffCycle(pm, g)
    ensures Steps(Cut(pm, g), x, k) == Some(g) <==> Steps(pm, x, k) == Some(g)
    decreases k
  {
    if k > 0 {
      if x == g {
        assert Up(Cut(pm, g), g) == None;
      } else if Up(pm, x).Some? {
        CutKeepsClimb(pm, g, Up(pm, x).value, k - 1);
      }
    }
  }

  // ----- the depth guard

  ghost function ParentDepth(pm: Parents, parent: Option<string>): nat {
    if parent.Some? && parent.value != "" then |Line(pm, parent.value)| else 0
  }

  ghost predicate MovedHeight(pm: Parents, groupId: string, h: nat) {
    if groupId in pm then IsHeight(Cut(pm, groupId), groupId, h) else h == 1
  }

  /** The line above the new parent and the subtree below it are together longer than the allowed depth. */
  ghost predicate DepthGuard(pm: Parents, groupId: string, newParentId: Option<string>) {
    exists h: nat :: MovedHeight(pm, groupId, h) && ParentDepth(pm, newParentId) + h > MAX_GROUP_DEPTH
  }

  method WouldExceedDepth(groups: seq<GroupNode>, groupId: string, newParentId: Option<string>) returns (r: bool)
    requires UniqueIds(groups)
    ensures r <==> DepthGuard(ParentsOf(groups), groupId, newParentId)
  {
    ghost var pm := ParentsOf(groups);
    var parentDepth := 0;
    if newParentId.Some? && newParentId.value != "" {
      parentDepth := GroupDepth(groups, newParentId.value);
    }
    ParentsOfRows(groups);
    var exists' := exists i :: 0 <= i < |groups| && groups[i].id == groupId;
    var height := 1;
    if exists' {
      height := SubtreeHeight(groups, groupId);
    }
    assert MovedHeight(pm, groupId, height);
    forall h: nat | MovedHeight(pm, groupId, h)
      ensures h == height
    {
      if groupId in pm {
        HeightUnique(Cut(pm, groupId), groupId, height, h);
      }
    }
    r := parentDepth + height > MAX_GROUP_DEPTH;
  }

  lemma {:induction false} HeightUnique(pm: Parents, id: string, h: nat, i: nat)
    requires IsHeight(pm, id, h) && IsHeight(pm, id, i)
    ensures h == i
  {
  }
}
