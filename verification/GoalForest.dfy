/** Building the goal forest, and what building then flattening it promises. */
module GoalForest {
  import opened Options
  import opened Forest
  import opened Goals
  import opened GoalTree

  function AllIds(goals: seq<Goal>): set<string> {
    set i | 0 <= i < |goals| :: goals[i].id
  }

  lemma {:induction false} SameIdSameGoal(goals: seq<Goal>, g: Goal, h: Goal)
    requires UniqueIds(goals) && g in goals && h in goals && g.id == h.id
    ensures g == h
  {
    var i :| 0 <= i < |goals| && goals[i] == g;
    var j :| 0 <= j < |goals| && goals[j] == h;
    assert i == j;
  }

  /** The goals `build` recurses into: filed under this one, not seen yet, in display order. */
  function ToBuild(collate: Collation, all: seq<Goal>, id: string, seen: set<string>): seq<Goal> {
    SortGoals(collate, Unseen(Filed(all, all, Some(id)), seen))
  }

  lemma {:induction false} ToBuildAre(collate: Collation, all: seq<Goal>, id: string, seen: set<string>)
    requires IsCollation(collate) && UniqueIds(all)
    ensures InOrder(collate, ToBuild(collate, all, id, seen)) && UniqueIds(ToBuild(collate, all, id, seen))
    ensures forall g :: g in ToBuild(collate, all, id, seen) <==>
              g in all && FiledUnder(all, g) == Some(id) && g.id !in seen
  {
    var filed := Filed(all, all, Some(id));
    FiledAre(all, all, Some(id));
    UnseenAre(filed, seen);
    SortedAre(collate, Unseen(filed, seen));
  }

  /** Sorting keeps the goals, and so keeps their ids distinct. */
  lemma {:induction false} SortedAre(collate: Collation, goals: seq<Goal>)
    requires IsCollation(collate) && UniqueIds(goals)
    ensures InOrder(collate, SortGoals(collate, goals)) && UniqueIds(SortGoals(collate, goals))
    ensures forall g :: g in SortGoals(collate, goals) <==> g in goals
  {
    var sorted := SortGoals(collate, goals);
    SortedGoals(collate, goals);
    forall g
      ensures g in sorted <==> g in goals
    {
      assert g in multiset(sorted) <==> g in sorted;
      assert g in multiset(goals) <==> g in goals;
    }
    forall i, j | 0 <= i < j < |sorted|
      ensures sorted[i].id != sorted[j].id
    {
      if sorted[i].id == sorted[j].id {
        SameIdSameGoal(goals, sorted[i], sorted[j]);
        TwiceInSeq(sorted, i, j);
        OnceInSeq(goals, sorted[i]);
      }
    }
  }

  lemma {:induction false} TwiceInSeq<T>(s: seq<T>, i: nat, j: nat)
    requires i < j < |s| && s[i] == s[j]
    ensures multiset(s)[s[i]] >= 2
  {
    assert s == s[..j] + [s[j]] + s[j + 1..];
    assert s[..j][i] == s[i];
    assert s[i] in multiset(s[..j]);
  }

  lemma {:induction false} OnceInSeq(goals: seq<Goal>, g: Goal)
    requires UniqueIds(goals)
    ensures multiset(goals)[g] == if g in goals then 1 else 0
  {
    if goals != [] {
      var init, last := goals[..|goals| - 1], goals[|goals| - 1];
      assert goals == init + [last];
      OnceInSeq(init, g);
    }
  }

  /** The maps the first loop leaves, over goals with distinct ids and a lawful title order. */
  ghost predicate Ready(collate: Collation, all: seq<Goal>, childrenOf: map<string, seq<Goal>>) {
    && IsCollation(collate) && UniqueIds(all)
    && forall p :: Children(childrenOf, p) == Filed(all, all, Some(p))
  }

  /** `toBuild` is what is filed under `id` and not in `base`; its first `i` goals are built. */
  ghost predicate Building(collate: Collation, all: seq<Goal>, base: set<string>, toBuild: seq<Goal>, i: nat,
                           depth: nat, id: string, children: seq<GoalTreeNode>, seen: set<string>)
    requires i <= |toBuild|
  {
    && id in base && UniqueIds(toBuild)
    && (forall g :: g in toBuild ==> g in all && FiledUnder(all, g) == Some(id) && g.id !in base)
    && Heads(children) == toBuild[..i]
    && PlacedUnder(collate, all, children, depth, Some(id))
    && Grown(all, base, AllIds(toBuild[..i]), RowsOfAll(children), seen)
  }

  /** Place a goal and everything below it that is not placed yet. */
  method Build(collate: Collation, all: seq<Goal>, childrenOf: map<string, seq<Goal>>,
               goal: Goal, depth: nat, seen: set<string>)
    returns (node: GoalTreeNode, seen': set<string>)
    requires Ready(collate, all, childrenOf)
    requires goal in all && goal.id !in seen
    ensures node.goal == goal && node.depth == depth && WellPlaced(collate, all, node)
    ensures Grown(all, seen, {goal.id}, RowsOf(node), seen')
    decreases AllIds(all) - seen, 0
  {
    hide Grown, WellPlaced, PlacedUnder, RowsOf, RowsOfAll, InOrder, Building, SortGoals, Unseen, FiledUnder, AllIds;
    IdIsAmong(all, goal);
    var toBuild := SortGoals(collate, Unseen(Children(childrenOf, goal.id), seen + {goal.id}));
    ToBuildAre(collate, all, goal.id, seen + {goal.id});
    var children;
    children, seen' := BuildChildren(collate, all, childrenOf, toBuild, depth + 1, goal.id, seen + {goal.id});
    node := GoalTreeNode(goal, depth, depth == 0 && goal.parentGoalId.Some?, children);
    NodeBuilt(collate, all, seen, toBuild, node, seen');
  }

  lemma {:induction false} IdIsAmong(goals: seq<Goal>, goal: Goal)
    requires goal in goals
    ensures goal.id in AllIds(goals)
  {
  }

  /** A goal over the children built for it. */
  lemma {:induction false} NodeBuilt(collate: Collation, all: seq<Goal>, seen: set<string>, toBuild: seq<Goal>,
                                     node: GoalTreeNode, seen': set<string>)
    requires UniqueIds(all) && node.goal in all && node.goal.id !in seen && InOrder(collate, toBuild)
    requires node.orphaned == (node.depth == 0 && node.goal.parentGoalId.Some?)
    requires forall g :: g in toBuild <==>
               g in all && FiledUnder(all, g) == Some(node.goal.id) && g.id !in seen + {node.goal.id}
    requires Building(collate, all, seen + {node.goal.id}, toBuild, |toBuild|, node.depth + 1, node.goal.id,
                      node.children, seen')
    ensures WellPlaced(collate, all, node) && Grown(all, seen, {node.goal.id}, RowsOf(node), seen')
  {
    assert toBuild[..|toBuild|] == toBuild;
    hide Grown, RowsOf, RowsOfAll, PlacedUnder, InOrder, FiledUnder, AllIds, Heads;
    NodeIsGrown(collate, all, seen, toBuild, node, seen');
  }

  /** `children.map((child) => build(child, depth + 1))`, each call seeing what the earlier ones placed. */
  method BuildChildren(collate: Collation, all: seq<Goal>, childrenOf: map<string, seq<Goal>>,
                       toBuild: seq<Goal>, depth: nat, id: string, base: set<string>)
    returns (children: seq<GoalTreeNode>, seen: set<string>)
    requires Ready(collate, all, childrenOf)
    requires id in base && UniqueIds(toBuild)
    requires forall g :: g in toBuild ==> g in all && FiledUnder(all, g) == Some(id) && g.id !in base
    ensures Building(collate, all, base, toBuild, |toBuild|, depth, id, children, seen)
    decreases AllIds(all) - base, 1
  {
    children, seen := [], base;
    NothingBuilt(collate, all, base, toBuild, depth, id);
    for i := 0 to |toBuild|
      invariant base <= seen && Building(collate, all, base, toBuild, i, depth, id, children, seen)
    {
      StillUnseen(collate, all, base, toBuild, i, depth, id, children, seen);
      ghost var before := seen;
      var child;
      child, seen := Build(collate, all, childrenOf, toBuild[i], depth, seen);
      ChildBuilt(collate, all, base, toBuild, i, depth, id, children, before, child, seen);
      children := children + [child];
    }
  }

  lemma {:induction false} NothingBuilt(
      collate: Collation, all: seq<Goal>, base: set<string>, toBuild: seq<Goal>, depth: nat, id: string)
    requires id in base && UniqueIds(toBuild)
    requires forall g :: g in toBuild ==> g in all && FiledUnder(all, g) == Some(id) && g.id !in base
    ensures Building(collate, all, base, toBuild, 0, depth, id, [], base)
  {
    assert toBuild[..0] == [] && AllIds([]) == {} && RowsOfAll([]) == [] && IdSet([]) == {};
  }

  /** A goal filed under `id` is not swept up while a sibling of it is built. */
  lemma {:induction false} StillUnseen(
      collate: Collation, all: seq<Goal>, base: set<string>, toBuild: seq<Goal>, i: nat,
      depth: nat, id: string, children: seq<GoalTreeNode>, seen: set<string>)
    requires i < |toBuild| && Building(collate, all, base, toBuild, i, depth, id, children, seen)
    ensures toBuild[i] in all && toBuild[i].id !in seen
  {
    assert toBuild[i] in toBuild;
    NotAmongEarlier(toBuild, i);
  }

  lemma {:induction false} ChildBuilt(
      collate: Collation, all: seq<Goal>, base: set<string>, toBuild: seq<Goal>, i: nat,
      depth: nat, id: string, children: seq<GoalTreeNode>, before: set<string>, child: GoalTreeNode, seen: set<string>)
    requires i < |toBuild| && Building(collate, all, base, toBuild, i, depth, id, children, before)
    requires child.goal == toBuild[i] && child.depth == depth && WellPlaced(collate, all, child)
    requires Grown(all, before, {child.goal.id}, RowsOf(child), seen)
    ensures base <= before <= seen
    ensures Building(collate, all, base, toBuild, i + 1, depth, id, children + [child], seen)
  {
    assert base <= before <= seen;
    hide Grown;
    assert toBuild[i] in toBuild;
    AddChild(collate, all, children, child, depth, id);
    GrownByChild(all, base, toBuild, i, children, before, child, seen);
    HeadsAppend(children, child, toBuild, i);
  }

  lemma {:induction false} NotAmongEarlier(goals: seq<Goal>, i: nat)
    requires i < |goals| && UniqueIds(goals)
    ensures goals[i].id !in AllIds(goals[..i])
  {
    assert forall j :: 0 <= j < i ==> goals[..i][j] == goals[j];
  }

  lemma {:induction false} HeadsAppend(children: seq<GoalTreeNode>, child: GoalTreeNode, toBuild: seq<Goal>, i: nat)
    requires i < |toBuild| && Heads(children) == toBuild[..i] && child.goal == toBuild[i]
    ensures Heads(children + [child]) == toBuild[..i + 1]
  {
    assert |children| == |Heads(children)| == i;
    forall k | 0 <= k < i
      ensures (children + [child])[k].goal == toBuild[k]
    {
      assert Heads(children)[k] == toBuild[..i][k];
    }
  }

  lemma {:induction false} AddChild(collate: Collation, all: seq<Goal>, children: seq<GoalTreeNode>,
                                    child: GoalTreeNode, depth: nat, id: string)
    requires PlacedUnder(collate, all, children, depth, Some(id))
    requires child.depth == depth && FiledUnder(all, child.goal) == Some(id) && WellPlaced(collate, all, child)
    ensures PlacedUnder(collate, all, children + [child], depth, Some(id))
  {
    assert [child][1..] == [];
    PlacedAppend(collate, all, children, [child], depth, Some(id));
  }

  lemma {:induction false} GrownByChild(all: seq<Goal>, base: set<string>, toBuild: seq<Goal>, i: nat,
                                        children: seq<GoalTreeNode>,
                     before: set<string>, child: GoalTreeNode, seen: set<string>)
    requires i < |toBuild| && child.goal == toBuild[i]
    requires Grown(all, base, AllIds(toBuild[..i]), RowsOfAll(children), before)
    requires Grown(all, before, {child.goal.id}, RowsOf(child), seen)
    ensures Grown(all, base, AllIds(toBuild[..i + 1]), RowsOfAll(children + [child]), seen)
  {
    assert RowsOfAll([child]) == RowsOf(child) by {
      assert RowsOfAll([child][1..]) == [];
    }
    GrownAppend(all, base, AllIds(toBuild[..i]), RowsOfAll(children), before, {child.goal.id}, RowsOf(child), seen);
    RowsOfAllAppend(children, [child]);
    NextIds(toBuild, i);
  }

  lemma {:induction false} RowsOfAllAppend(nodes: seq<GoalTreeNode>, more: seq<GoalTreeNode>)
    ensures RowsOfAll(nodes + more) == RowsOfAll(nodes) + RowsOfAll(more)
    decreases |nodes|
  {
    if nodes == [] {
      assert nodes + more == more;
    } else {
      assert (nodes + more)[1..] == nodes[1..] + more;
      RowsOfAllAppend(nodes[1..], more);
    }
  }

  lemma {:induction false} NextIds(goals: seq<Goal>, i: nat)
    requires i < |goals|
    ensures AllIds(goals[..i + 1]) == AllIds(goals[..i]) + {goals[i].id}
  {
    forall x | x in AllIds(goals[..i]) + {goals[i].id}
      ensures x in AllIds(goals[..i + 1])
    {
      if x == goals[i].id {
        assert goals[..i + 1][i].id == x;
      } else {
        var j :| 0 <= j < i && goals[..i][j].id == x;
        assert goals[..i + 1][j].id == x;
      }
    }
    forall x | x in AllIds(goals[..i + 1])
      ensures x in AllIds(goals[..i]) + {goals[i].id}
    {
      var j :| 0 <= j < i + 1 && goals[..i + 1][j].id == x;
      if j < i {
        assert goals[..i][j].id == x;
      }
    }
  }

  lemma {:induction false} NodeIsGrown(collate: Collation, all: seq<Goal>, seen: set<string>, toBuild: seq<Goal>,
                                       node: GoalTreeNode, seen': set<string>)
    requires UniqueIds(all) && node.goal in all && node.goal.id !in seen
    requires forall g :: g in toBuild <==>
               g in all && FiledUnder(all, g) == Some(node.goal.id) && g.id !in seen + {node.goal.id}
    requires Heads(node.children) == toBuild
    requires Grown(all, seen + {node.goal.id}, AllIds(toBuild), RowsOfAll(node.children), seen')
    ensures Grown(all, seen, {node.goal.id}, RowsOf(node), seen')
  {
    forall g | g in all && g.id in AllIds(toBuild)
      ensures FiledUnder(all, g) == Some(node.goal.id)
    {
      var i :| 0 <= i < |toBuild| && toBuild[i].id == g.id;
      SameIdSameGoal(all, g, toBuild[i]);
    }
    forall g | g in all && FiledUnder(all, g) == Some(node.goal.id)
      ensures g.id in seen'
    {
      if g.id !in seen + {node.goal.id} {
        var i :| 0 <= i < |toBuild| && toBuild[i] == g;
        TopsArePlaced(node.children, i);
      }
    }
    GrownNode(all, seen, AllIds(toBuild), Row(node.goal, node.depth, node.orphaned), RowsOfAll(node.children), seen');
  }

  lemma {:induction false} TopsArePlaced(nodes: seq<GoalTreeNode>, i: nat)
    requires i < |nodes|
    ensures nodes[i].goal.id in IdSet(RowsOfAll(nodes))
    decreases |nodes|
  {
    IdSetAppend(RowsOf(nodes[0]), RowsOfAll(nodes[1..]));
    if i == 0 {
      assert RowsOf(nodes[0])[0].goal.id in IdSet(RowsOf(nodes[0]));
    } else {
      TopsArePlaced(nodes[1..], i - 1);
    }
  }

  // ----- the whole forest

  /** Who each goal is filed under. */
  function Filing(all: seq<Goal>, goals: seq<Goal>): Parents {
    if goals == [] then map[]
    else
      var last := goals[|goals| - 1];
      Filing(all, goals[..|goals| - 1])[last.id := FiledUnder(all, last)]
  }

  lemma {:induction false} FilingIs(all: seq<Goal>, goals: seq<Goal>, g: Goal)
    requires UniqueIds(goals) && g in goals
    ensures Up(Filing(all, goals), g.id) == FiledUnder(all, g)
  {
    var init, last := goals[..|goals| - 1], goals[|goals| - 1];
    var k :| 0 <= k < |goals| && goals[k] == g;
    if k < |goals| - 1 {
      assert init[k] == g;
      FilingIs(all, init, g);
    }
  }

  function GoalsOf(rows: seq<Row>): seq<Goal> {
    seq(|rows|, i requires 0 <= i < |rows| => rows[i].goal)
  }

  method BuildGoalTree(collate: Collation, goals: seq<Goal>) returns (nodes: seq<GoalTreeNode>)
    requires IsCollation(collate) && UniqueIds(goals)
    ensures PlacedUnder(collate, goals, nodes, 0, None)
    ensures multiset(GoalsOf(RowsOfAll(nodes))) == multiset(goals)
    ensures Heads(nodes) == TopGoals(collate, goals)
    ensures Acyclic(Filing(goals, goals)) ==> Heads(nodes) == SortGoals(collate, Filed(goals, goals, None))
  {
    var childrenOf, roots := FileGoals(goals);
    FiledAre(goals, goals, None);
    SortedAre(collate, roots);
    hide Grown, PlacedUnder, Filing, Filed, InOrder, AllIds, RowsOfAll, GoalsOf, Heads, SortGoals, Acyclic;
    var sortedRoots := SortGoals(collate, roots);
    ghost var tops;
    var seen;
    nodes, seen := BuildRoots(collate, goals, childrenOf, sortedRoots);
    if Acyclic(Filing(goals, goals)) {
      RootsReachAll(goals, sortedRoots, nodes, seen);
    }
    var sorted := SortGoals(collate, goals);
    SortedAre(collate, goals);
    nodes, seen, tops := BuildRest(collate, goals, childrenOf, sorted, sortedRoots, nodes, seen, AllIds(sortedRoots));
    assert forall g :: g in goals ==> g in sorted;
    EachListedOnce(goals, tops, RowsOfAll(nodes), seen);
  }

  /** `roots.slice().sort(compareGoals).map((goal) => build(goal, 0))`. */
  method BuildRoots(collate: Collation, all: seq<Goal>, childrenOf: map<string, seq<Goal>>, roots: seq<Goal>)
    returns (nodes: seq<GoalTreeNode>, seen: set<string>)
    requires Ready(collate, all, childrenOf) && UniqueIds(roots)
    requires forall g :: g in roots ==> g in all && FiledUnder(all, g).None?
    ensures PlacedUnder(collate, all, nodes, 0, None) && Heads(nodes) == roots
    ensures Grown(all, {}, AllIds(roots), RowsOfAll(nodes), seen)
  {
    nodes, seen := [], {};
    assert roots[..0] == [] && AllIds([]) == {} && IdSet([]) == {};
    for i := 0 to |roots|
      invariant PlacedUnder(collate, all, nodes, 0, None) && Heads(nodes) == roots[..i]
      invariant Grown(all, {}, AllIds(roots[..i]), RowsOfAll(nodes), seen)
    {
      assert roots[i] in roots;
      NotAmongEarlier(roots, i);
      ghost var before := seen;
      var node;
      node, seen := Build(collate, all, childrenOf, roots[i], 0, seen);
      AddTop(collate, all, nodes, node);
      GrownByChild(all, {}, roots, i, nodes, before, node, seen);
      HeadsAppend(nodes, node, roots, i);
      nodes := nodes + [node];
    }
    assert roots[..|roots|] == roots;
  }

  lemma {:induction false} AddTop(collate: Collation, all: seq<Goal>, nodes: seq<GoalTreeNode>, node: GoalTreeNode)
    requires PlacedUnder(collate, all, nodes, 0, None) && node.depth == 0 && WellPlaced(collate, all, node)
    ensures PlacedUnder(collate, all, nodes + [node], 0, None)
  {
    assert [node][1..] == [];
    PlacedAppend(collate, all, nodes, [node], 0, None);
  }

  /** The last loop, before its `i`-th goal: the first `i` are placed, and those of them that surface are at the top. */
  ghost predicate Resting(collate: Collation, all: seq<Goal>, sorted: seq<Goal>, roots: seq<Goal>, i: nat,
                          nodes: seq<GoalTreeNode>, tops: set<string>, seen: set<string>)
    requires i <= |sorted|
  {
    && PlacedUnder(collate, all, nodes, 0, None) && Grown(all, {}, tops, RowsOfAll(nodes), seen)
    && (forall j :: 0 <= j < i ==> sorted[j].id in seen)
    && Heads(nodes) == roots + Surfacing(all, sorted, i)
  }

  /** The last loop: whatever no root reached is surfaced at the top level. */
  method BuildRest(collate: Collation, all: seq<Goal>, childrenOf: map<string, seq<Goal>>, sorted: seq<Goal>,
                   ghost roots: seq<Goal>, built: seq<GoalTreeNode>, seen0: set<string>, ghost tops0: set<string>)
    returns (nodes: seq<GoalTreeNode>, seen: set<string>, ghost tops: set<string>)
    requires Ready(collate, all, childrenOf)
    requires forall g :: g in sorted <==> g in all
    requires Heads(built) == roots && forall g :: g in roots <==> g in all && FiledUnder(all, g).None?
    requires PlacedUnder(collate, all, built, 0, None) && Grown(all, {}, tops0, RowsOfAll(built), seen0)
    ensures Resting(collate, all, sorted, roots, |sorted|, nodes, tops, seen)
    ensures (forall g :: g in all ==> g.id in seen0) ==> nodes == built
  {
    nodes, seen, tops := built, seen0, tops0;
    assert roots + [] == roots;
    assert Resting(collate, all, sorted, roots, 0, nodes, tops, seen);
    hide Resting, Grown, PlacedUnder, WellPlaced;
    for i := 0 to |sorted|
      invariant Resting(collate, all, sorted, roots, i, nodes, tops, seen)
      invariant (forall g :: g in all ==> g.id in seen0) ==> nodes == built && seen == seen0
    {
      assert sorted[i] in sorted;
      if sorted[i].id !in seen {
        ghost var before := seen;
        var node;
        node, seen := Build(collate, all, childrenOf, sorted[i], 0, seen);
        TopBuilt(collate, all, sorted, roots, i, nodes, tops, before, node, seen);
        nodes, tops := nodes + [node], tops + {node.goal.id};
      } else {
        TopSkipped(collate, all, sorted, roots, i, nodes, tops, seen);
      }
    }
  }

  lemma {:induction false} TopBuilt(
      collate: Collation, all: seq<Goal>, sorted: seq<Goal>, roots: seq<Goal>, i: nat,
      nodes: seq<GoalTreeNode>, tops: set<string>, before: set<string>, node: GoalTreeNode, seen: set<string>)
    requires UniqueIds(all) && i < |sorted| && forall g :: g in sorted <==> g in all
    requires forall g :: g in roots <==> g in all && FiledUnder(all, g).None?
    requires Resting(collate, all, sorted, roots, i, nodes, tops, before) && sorted[i].id !in before
    requires node.goal == sorted[i] && node.depth == 0 && WellPlaced(collate, all, node)
    requires Grown(all, before, {node.goal.id}, RowsOf(node), seen)
    ensures Resting(collate, all, sorted, roots, i + 1, nodes + [node], tops + {node.goal.id}, seen)
  {
    hide PlacedUnder, Grown, RowsOfAll, Heads, WellPlaced, Surfaces;
    SurfacesExactly(collate, all, sorted, roots, nodes, tops, before, i);
    AddTop(collate, all, nodes, node);
    GrownByTop(all, tops, nodes, before, node, seen);
    HeadsSnoc(nodes, node);
    assert Heads(nodes) + [sorted[i]] == roots + (Surfacing(all, sorted, i) + [sorted[i]]);
  }

  lemma {:induction false} TopSkipped(
      collate: Collation, all: seq<Goal>, sorted: seq<Goal>, roots: seq<Goal>, i: nat,
      nodes: seq<GoalTreeNode>, tops: set<string>, seen: set<string>)
    requires UniqueIds(all) && i < |sorted| && forall g :: g in sorted <==> g in all
    requires forall g :: g in roots <==> g in all && FiledUnder(all, g).None?
    requires Resting(collate, all, sorted, roots, i, nodes, tops, seen) && sorted[i].id in seen
    ensures Resting(collate, all, sorted, roots, i + 1, nodes, tops, seen)
  {
    hide PlacedUnder, Grown, RowsOfAll, Heads, Surfaces;
    SurfacesExactly(collate, all, sorted, roots, nodes, tops, seen, i);
    assert Surfacing(all, sorted, i) + [] == Surfacing(all, sorted, i);
  }

  lemma {:induction false} GrownByTop(all: seq<Goal>, tops: set<string>, nodes: seq<GoalTreeNode>,
                                      before: set<string>, node: GoalTreeNode, seen: set<string>)
    requires Grown(all, {}, tops, RowsOfAll(nodes), before) && Grown(all, before, {node.goal.id}, RowsOf(node), seen)
    ensures before <= seen && node.goal.id in seen
    ensures Grown(all, {}, tops + {node.goal.id}, RowsOfAll(nodes + [node]), seen)
  {
    assert before <= seen;
    assert RowsOf(node)[0].goal.id in IdSet(RowsOf(node));
    hide Grown;
    assert RowsOfAll([node]) == RowsOf(node) by {
      assert RowsOfAll([node][1..]) == [];
    }
    GrownAppend(all, {}, tops, RowsOfAll(nodes), before, {node.goal.id}, RowsOf(node), seen);
    RowsOfAllAppend(nodes, [node]);
  }

  lemma {:induction false} HeadsSnoc(nodes: seq<GoalTreeNode>, node: GoalTreeNode)
    ensures Heads(nodes + [node]) == Heads(nodes) + [node.goal]
  {
  }

  // ----- what surfaces at the top

  /** No root is on the goal's chain, and no goal that sorts before it. */
  ghost predicate Surfaces(all: seq<Goal>, sorted: seq<Goal>, i: nat)
    requires i < |sorted|
  {
    && (forall g :: g in all && FiledUnder(all, g).None? ==> !OnChain(Filing(all, all), g.id, sorted[i].id))
    && (forall k :: 0 <= k < i ==> !OnChain(Filing(all, all), sorted[k].id, sorted[i].id))
  }

  /** Those among the first `n`, in order. */
  ghost function Surfacing(all: seq<Goal>, sorted: seq<Goal>, n: nat): seq<Goal>
    requires n <= |sorted|
  {
    if n == 0 then []
    else Surfacing(all, sorted, n - 1) + if Surfaces(all, sorted, n - 1) then [sorted[n - 1]] else []
  }

  /** The roots in display order, then of each group of goals that no root reaches the first in display order. */
  ghost function TopGoals(collate: Collation, goals: seq<Goal>): seq<Goal> {
    var sorted := SortGoals(collate, goals);
    SortGoals(collate, Filed(goals, goals, None)) + Surfacing(goals, sorted, |sorted|)
  }

  lemma {:induction false} SurfacingAre(all: seq<Goal>, sorted: seq<Goal>, n: nat)
    requires n <= |sorted|
    ensures forall g :: g in Surfacing(all, sorted, n) ==> exists k :: 0 <= k < n && sorted[k] == g
  {
    hide Surfaces;
    if n > 0 {
      SurfacingAre(all, sorted, n - 1);
    }
  }

  ghost predicate UnderHead(all: seq<Goal>, nodes: seq<GoalTreeNode>, id: string) {
    exists t :: t in Heads(nodes) && OnChain(Filing(all, all), t.id, id)
  }

  /** What is placed so far is what has one of the tops on its chain. */
  lemma {:induction false} PlacedIsUnderHeads(collate: Collation, all: seq<Goal>, nodes: seq<GoalTreeNode>,
                                              tops: set<string>, seen: set<string>, g: Goal)
    requires UniqueIds(all) && g in all && PlacedUnder(collate, all, nodes, 0, None)
    requires Grown(all, {}, tops, RowsOfAll(nodes), seen)
    ensures g.id in seen <==> UnderHead(all, nodes, g.id)
  {
    var rows := RowsOfAll(nodes);
    if g.id in seen {
      var i :| 0 <= i < |rows| && rows[i].goal.id == g.id;
      var t := DepthClimb(collate, all, nodes, i, rows[i].depth);
      TopRows(collate, all, nodes, 0, None, t);
      assert OnChain(Filing(all, all), rows[t].goal.id, g.id);
    }
    if t :| t in Heads(nodes) && OnChain(Filing(all, all), t.id, g.id) {
      var i :| 0 <= i < |nodes| && nodes[i].goal == t;
      TopsArePlaced(nodes, i);
      var k: nat :| Steps(Filing(all, all), g.id, k) == Some(t.id);
      hide Filing, PlacedUnder, RowsOfAll;
      BelowPlaced(all, seen, g, t.id, k);
    }
  }

  lemma {:induction false} BelowPlaced(all: seq<Goal>, seen: set<string>, g: Goal, t: string, k: nat)
    requires UniqueIds(all) && g in all && t in seen && Steps(Filing(all, all), g.id, k) == Some(t)
    requires forall h :: h in all && FiledUnder(all, h).Some? && FiledUnder(all, h).value in seen ==> h.id in seen
    ensures g.id in seen
    decreases k
  {
    hide Filing, FiledUnder, UniqueIds;
    FilingIs(all, all, g);
    if k > 0 {
      var parent := ParentGoal(all, g);
      BelowPlaced(all, seen, parent, t, k - 1);
    }
  }

  lemma {:induction false} ChainOfChain(pm: Parents, a: string, b: string, x: string)
    requires OnChain(pm, a, b) && OnChain(pm, b, x)
    ensures OnChain(pm, a, x)
  {
    var j: nat :| Steps(pm, b, j) == Some(a);
    var k: nat :| Steps(pm, x, k) == Some(b);
    StepsAdd(pm, x, k, j);
  }

  /** When the last loop comes to a goal, it is not placed yet exactly when it surfaces. */
  lemma {:induction false} SurfacesExactly(collate: Collation, all: seq<Goal>, sorted: seq<Goal>, roots: seq<Goal>,
                                           nodes: seq<GoalTreeNode>, tops: set<string>, seen: set<string>, i: nat)
    requires UniqueIds(all) && i < |sorted| && forall g :: g in sorted <==> g in all
    requires forall g :: g in roots <==> g in all && FiledUnder(all, g).None?
    requires PlacedUnder(collate, all, nodes, 0, None) && Grown(all, {}, tops, RowsOfAll(nodes), seen)
    requires Heads(nodes) == roots + Surfacing(all, sorted, i) && forall j :: 0 <= j < i ==> sorted[j].id in seen
    ensures sorted[i].id !in seen <==> Surfaces(all, sorted, i)
  {
    hide PlacedUnder, Grown, RowsOfAll, Filing, FiledUnder, Heads;
    var pm, g := Filing(all, all), sorted[i];
    assert g in all;
    PlacedIsUnderHeads(collate, all, nodes, tops, seen, g);
    SurfacingAre(all, sorted, i);
    hide Surfacing;
    if t :| t in Heads(nodes) && OnChain(pm, t.id, g.id) {
      assert !Surfaces(all, sorted, i);
    } else {
      forall k | 0 <= k < i
        ensures !OnChain(pm, sorted[k].id, g.id)
      {
        NotUnderEarlier(collate, all, nodes, tops, seen, sorted[k], g);
      }
    }
  }

  lemma {:induction false} NotUnderEarlier(collate: Collation, all: seq<Goal>, nodes: seq<GoalTreeNode>,
                                           tops: set<string>, seen: set<string>, h: Goal, g: Goal)
    requires UniqueIds(all) && h in all && PlacedUnder(collate, all, nodes, 0, None)
    requires Grown(all, {}, tops, RowsOfAll(nodes), seen) && h.id in seen
    requires !UnderHead(all, nodes, g.id)
    ensures !OnChain(Filing(all, all), h.id, g.id)
  {
    hide PlacedUnder, Grown, RowsOfAll, Filing, Heads;
    PlacedIsUnderHeads(collate, all, nodes, tops, seen, h);
    var t :| t in Heads(nodes) && OnChain(Filing(all, all), t.id, h.id);
    if OnChain(Filing(all, all), h.id, g.id) {
      ChainOfChain(Filing(all, all), t.id, h.id, g.id);
    }
  }

  /** The rows at the top level, in order, are the top goals. */
  function TopLevel(rows: seq<Row>): seq<Goal> {
    if rows == [] then [] else IfTop(rows[0]) + TopLevel(rows[1..])
  }

  function IfTop(row: Row): seq<Goal> {
    if row.depth == 0 then [row.goal] else []
  }

  lemma {:induction false} TopLevelAppend(rows: seq<Row>, more: seq<Row>)
    ensures TopLevel(rows + more) == TopLevel(rows) + TopLevel(more)
    decreases |rows|
  {
    hide IfTop;
    if rows == [] {
      assert rows + more == more;
    } else {
      assert (rows + more)[1..] == rows[1..] + more && (rows + more)[0] == rows[0];
      TopLevelAppend(rows[1..], more);
    }
  }

  lemma {:induction false} NothingAtTop(rows: seq<Row>)
    requires forall i :: 0 <= i < |rows| ==> rows[i].depth > 0
    ensures TopLevel(rows) == []
  {
    if rows != [] {
      NothingAtTop(rows[1..]);
    }
  }

  lemma {:induction false} TopLevelIsHeads(collate: Collation, all: seq<Goal>, nodes: seq<GoalTreeNode>)
    requires PlacedUnder(collate, all, nodes, 0, None)
    ensures TopLevel(RowsOfAll(nodes)) == Heads(nodes)
    decreases |nodes|
  {
    if nodes != [] {
      var node, own, below := nodes[0], RowsOf(nodes[0]), RowsOfAll(nodes[0].children);
      forall i | 0 <= i < |below|
        ensures below[i].depth > 0
      {
        RowsAreDeep(collate, all, node.children, 1, Some(node.goal.id), i);
      }
      NothingAtTop(below);
      assert own[1..] == below && own[0].depth == 0;
      TopLevelIsHeads(collate, all, nodes[1..]);
      TopLevelAppend(own, RowsOfAll(nodes[1..]));
      assert Heads(nodes) == [node.goal] + Heads(nodes[1..]);
    }
  }

  // ----- every goal exactly once

  lemma {:induction false} EachListedOnce(goals: seq<Goal>, tops: set<string>, rows: seq<Row>, seen: set<string>)
    requires UniqueIds(goals) && Grown(goals, {}, tops, rows, seen) && forall g :: g in goals ==> g.id in seen
    ensures multiset(GoalsOf(rows)) == multiset(goals)
  {
    var listed := GoalsOf(rows);
    forall i, j | 0 <= i < j < |listed|
      ensures listed[i].id != listed[j].id
    {
      assert Ids(rows)[i] != Ids(rows)[j];
    }
    forall g
      ensures multiset(listed)[g] == multiset(goals)[g]
    {
      OnceInSeq(listed, g);
      OnceInSeq(goals, g);
      if g in goals {
        var i :| 0 <= i < |rows| && rows[i].goal.id == g.id;
        SameIdSameGoal(goals, g, rows[i].goal);
        assert listed[i] == g;
      }
      if g in listed {
        var i :| 0 <= i < |listed| && listed[i] == g;
        assert rows[i].goal in goals;
      }
    }
  }

  /** The roots are seen, and so is every goal filed under a seen one. */
  ghost predicate ClosedBelow(goals: seq<Goal>, seen: set<string>) {
    && (forall g :: g in goals && FiledUnder(goals, g).None? ==> g.id in seen)
    && (forall g :: g in goals && FiledUnder(goals, g).Some? && FiledUnder(goals, g).value in seen ==> g.id in seen)
  }

  /** Without a cycle the roots and what is filed below them are all the goals. */
  lemma {:induction false} RootsReachAll(goals: seq<Goal>, roots: seq<Goal>, nodes: seq<GoalTreeNode>,
                                         seen: set<string>)
    requires UniqueIds(goals) && Acyclic(Filing(goals, goals))
    requires forall g :: g in goals && FiledUnder(goals, g).None? ==> g in roots
    requires Heads(nodes) == roots && Grown(goals, {}, AllIds(roots), RowsOfAll(nodes), seen)
    ensures forall g :: g in goals ==> g.id in seen
  {
    forall g | g in goals && FiledUnder(goals, g).None?
      ensures g.id in seen
    {
      var i :| 0 <= i < |roots| && roots[i] == g;
      TopsArePlaced(nodes, i);
    }
    assert ClosedBelow(goals, seen);
    forall g | g in goals
      ensures g.id in seen
    {
      AcyclicChainsEnd(Filing(goals, goals), g.id);
      ChainReached(goals, seen, g, |Filing(goals, goals).Keys| + 1);
    }
  }

  lemma {:induction false} ChainReached(goals: seq<Goal>, seen: set<string>, g: Goal, k: nat)
    requires UniqueIds(goals) && g in goals && Steps(Filing(goals, goals), g.id, k) == None
    requires ClosedBelow(goals, seen)
    ensures g.id in seen
    decreases k
  {
    hide Filing, FiledUnder, UniqueIds;
    FilingIs(goals, goals, g);
    if FiledUnder(goals, g).Some? {
      var parent := ParentGoal(goals, g);
      ChainReached(goals, seen, parent, k - 1);
    }
  }

  lemma {:induction false} ParentGoal(goals: seq<Goal>, g: Goal) returns (parent: Goal)
    requires FiledUnder(goals, g).Some?
    ensures parent in goals && parent.id == FiledUnder(goals, g).value
  {
    var i :| 0 <= i < |goals| && goals[i].id == FiledUnder(goals, g).value;
    parent := goals[i];
  }

  // ----- where each row sits

  /** Row `j` is the nearest row above row `i` that is one level up, and it is what `i` is filed under. */
  ghost predicate NearestAbove(all: seq<Goal>, rows: seq<Row>, j: nat, i: nat) {
    && j < i < |rows|
    && rows[j].depth + 1 == rows[i].depth
    && FiledUnder(all, rows[i].goal) == Some(rows[j].goal.id)
    && forall k :: j < k < i ==> rows[k].depth >= rows[i].depth
  }

  lemma {:induction false} NearestAboveShift(all: seq<Goal>, before: seq<Row>, rows: seq<Row>, after: seq<Row>,
                                             j: nat, i: nat)
    requires NearestAbove(all, rows, j, i)
    ensures NearestAbove(all, before + rows + after, |before| + j, |before| + i)
  {
    var whole := before + rows + after;
    assert forall k :: 0 <= k < |rows| ==> whole[|before| + k] == rows[k];
    forall k | |before| + j < k < |before| + i
      ensures whole[k].depth >= whole[|before| + i].depth
    {
      assert whole[k] == rows[k - |before|];
    }
  }

  lemma {:induction false} RowsAreDeep(collate: Collation, all: seq<Goal>, nodes: seq<GoalTreeNode>, depth: nat,
                                       parent: Option<string>, i: nat)
    requires PlacedUnder(collate, all, nodes, depth, parent) && i < |RowsOfAll(nodes)|
    ensures RowsOfAll(nodes)[i].depth >= depth
    ensures RowsOfAll(nodes)[i].depth == depth && parent.Some? ==> FiledUnder(all, RowsOfAll(nodes)[i].goal) == parent
    decreases nodes
  {
    var own := RowsOf(nodes[0]);
    if 0 < i < |own| {
      RowsAreDeep(collate, all, nodes[0].children, depth + 1, Some(nodes[0].goal.id), i - 1);
    } else if |own| <= i {
      RowsAreDeep(collate, all, nodes[1..], depth, parent, i - |own|);
    }
  }

  /** A row one level below the first node has that node for its parent. */
  lemma {:induction false} ChildOfFirst(
      collate: Collation, all: seq<Goal>, nodes: seq<GoalTreeNode>, depth: nat, parent: Option<string>, i: nat)
    requires PlacedUnder(collate, all, nodes, depth, parent) && nodes != []
    requires 0 < i <= |RowsOfAll(nodes[0].children)| && RowsOfAll(nodes[0].children)[i - 1].depth == depth + 1
    ensures i < |RowsOfAll(nodes)| && NearestAbove(all, RowsOfAll(nodes), 0, i)
  {
    var node := nodes[0];
    var id, top := Some(node.goal.id), [Row(node.goal, node.depth, node.orphaned)];
    var below, rest := RowsOfAll(node.children), RowsOfAll(nodes[1..]);
    assert RowsOfAll(nodes) == top + below + rest;
    hide RowsOfAll, FiledUnder, WellPlaced;
    assert PlacedUnder(collate, all, node.children, depth + 1, id) by {
      ChildrenArePlaced(collate, all, nodes, depth, parent);
    }
    hide PlacedUnder;
    RowsAreDeep(collate, all, node.children, depth + 1, id, i - 1);
    forall k | 0 < k < i
      ensures RowsOfAll(nodes)[k].depth >= depth + 1
    {
      assert RowsOfAll(nodes)[k] == below[k - 1];
      RowsAreDeep(collate, all, node.children, depth + 1, id, k - 1);
    }
  }

  lemma {:induction false} ChildrenArePlaced(
      collate: Collation, all: seq<Goal>, nodes: seq<GoalTreeNode>, depth: nat, parent: Option<string>)
    requires PlacedUnder(collate, all, nodes, depth, parent) && nodes != []
    ensures nodes[0].depth == depth && PlacedUnder(collate, all, nodes[1..], depth, parent)
    ensures PlacedUnder(collate, all, nodes[0].children, depth + 1, Some(nodes[0].goal.id))
  {
  }

  /** In a flattened forest every row below the top has its parent as the nearest earlier row one level up. */
  lemma {:induction false} ParentIsNearestAbove(
      collate: Collation, all: seq<Goal>, nodes: seq<GoalTreeNode>, depth: nat, parent: Option<string>, i: nat)
    returns (j: nat)
    requires PlacedUnder(collate, all, nodes, depth, parent)
    requires i < |RowsOfAll(nodes)| && RowsOfAll(nodes)[i].depth > depth
    ensures NearestAbove(all, RowsOfAll(nodes), j, i)
    decreases nodes
  {
    var node := nodes[0];
    var top := [Row(node.goal, node.depth, node.orphaned)];
    var below, rest := RowsOfAll(node.children), RowsOfAll(nodes[1..]);
    assert RowsOfAll(nodes) == top + below + rest;
    hide NearestAbove, WellPlaced, RowsOfAll;
    ChildrenArePlaced(collate, all, nodes, depth, parent);
    hide PlacedUnder;
    if i <= |below| {
      var id := Some(node.goal.id);
      assert RowsOfAll(nodes)[i] == below[i - 1];
      RowsAreDeep(collate, all, node.children, depth + 1, id, i - 1);
      if below[i - 1].depth > depth + 1 {
        j := ParentIsNearestAbove(collate, all, node.children, depth + 1, id, i - 1);
        NearestAboveShift(all, top, below, rest, j, i - 1);
        j := j + 1;
      } else {
        j := 0;
        ChildOfFirst(collate, all, nodes, depth, parent, i);
      }
    } else {
      var n := 1 + |below|;
      assert RowsOfAll(nodes)[i] == rest[i - n];
      j := ParentIsNearestAbove(collate, all, nodes[1..], depth, parent, i - n);
      assert top + below + rest + [] == RowsOfAll(nodes);
      NearestAboveShift(all, top + below, rest, [], j, i - n);
      j := n + j;
    }
  }

  /** A row climbs to the top row it hangs from in exactly `depth` steps. */
  lemma {:induction false} DepthClimb(collate: Collation, all: seq<Goal>, nodes: seq<GoalTreeNode>, i: nat, d: nat)
    returns (t: nat)
    requires UniqueIds(all) && PlacedUnder(collate, all, nodes, 0, None)
    requires i < |RowsOfAll(nodes)| && RowsOfAll(nodes)[i].depth == d
    requires forall k :: 0 <= k < |RowsOfAll(nodes)| ==> RowsOfAll(nodes)[k].goal in all
    ensures t <= i && RowsOfAll(nodes)[t].depth == 0
    ensures Steps(Filing(all, all), RowsOfAll(nodes)[i].goal.id, d) == Some(RowsOfAll(nodes)[t].goal.id)
    decreases d
  {
    if d == 0 {
      t := i;
    } else {
      var j := ParentIsNearestAbove(collate, all, nodes, 0, None, i);
      FilingIs(all, all, RowsOfAll(nodes)[i].goal);
      t := DepthClimb(collate, all, nodes, j, d - 1);
    }
  }

  lemma {:induction false} RowsAreGoals(collate: Collation, all: seq<Goal>, nodes: seq<GoalTreeNode>, depth: nat,
                                        parent: Option<string>, k: nat)
    requires PlacedUnder(collate, all, nodes, depth, parent) && k < |RowsOfAll(nodes)|
    ensures RowsOfAll(nodes)[k].goal in all
    decreases nodes
  {
    var own := RowsOf(nodes[0]);
    if 0 < k < |own| {
      RowsAreGoals(collate, all, nodes[0].children, depth + 1, Some(nodes[0].goal.id), k - 1);
    } else if |own| <= k {
      RowsAreGoals(collate, all, nodes[1..], depth, parent, k - |own|);
    }
  }

  /** The rows at the top are the forest's own nodes. */
  lemma {:induction false} TopRows(collate: Collation, all: seq<Goal>, nodes: seq<GoalTreeNode>, depth: nat,
                                   parent: Option<string>, i: nat)
    requires PlacedUnder(collate, all, nodes, depth, parent)
    requires i < |RowsOfAll(nodes)| && RowsOfAll(nodes)[i].depth == depth
    ensures RowsOfAll(nodes)[i].goal in Heads(nodes)
    decreases |nodes|
  {
    var own := RowsOf(nodes[0]);
    if 0 < i < |own| {
      RowsAreDeep(collate, all, nodes[0].children, depth + 1, Some(nodes[0].goal.id), i - 1);
    } else if |own| <= i {
      TopRows(collate, all, nodes[1..], depth, parent, i - |own|);
      var j :| 0 <= j < |Heads(nodes[1..])| && Heads(nodes[1..])[j] == RowsOfAll(nodes)[i].goal;
      assert Heads(nodes)[j + 1] == RowsOfAll(nodes)[i].goal;
    } else {
      assert Heads(nodes)[0] == RowsOfAll(nodes)[i].goal;
    }
  }

  /** Without a cycle a row's depth is the number of its ancestors in the set. */
  lemma {:induction false} DepthCountsAncestors(collate: Collation, all: seq<Goal>, nodes: seq<GoalTreeNode>, i: nat)
    requires IsCollation(collate) && UniqueIds(all) && PlacedUnder(collate, all, nodes, 0, None)
    requires Heads(nodes) == SortGoals(collate, Filed(all, all, None))
    requires i < |RowsOfAll(nodes)|
    ensures var row := RowsOfAll(nodes)[i];
            && Steps(Filing(all, all), row.goal.id, row.depth).Some?
            && Steps(Filing(all, all), row.goal.id, row.depth + 1).None?
  {
    hide Filing, RowsOfAll, PlacedUnder, Heads, FiledUnder, SortGoals, Filed;
    var row := RowsOfAll(nodes)[i];
    forall k | 0 <= k < |RowsOfAll(nodes)|
      ensures RowsOfAll(nodes)[k].goal in all
    {
      RowsAreGoals(collate, all, nodes, 0, None, k);
    }
    var t := DepthClimb(collate, all, nodes, i, row.depth);
    TopRowIsRoot(collate, all, nodes, t);
    FilingIs(all, all, RowsOfAll(nodes)[t].goal);
    StepsAdd(Filing(all, all), row.goal.id, row.depth, 1);
  }

  lemma {:induction false} TopRowIsRoot(collate: Collation, all: seq<Goal>, nodes: seq<GoalTreeNode>, t: nat)
    requires IsCollation(collate) && UniqueIds(all) && PlacedUnder(collate, all, nodes, 0, None)
    requires Heads(nodes) == SortGoals(collate, Filed(all, all, None))
    requires t < |RowsOfAll(nodes)| && RowsOfAll(nodes)[t].depth == 0
    ensures RowsOfAll(nodes)[t].goal in all && FiledUnder(all, RowsOfAll(nodes)[t].goal).None?
  {
    TopRows(collate, all, nodes, 0, None, t);
    hide PlacedUnder, Heads, RowsOfAll;
    FiledAre(all, all, None);
    SortedAre(collate, Filed(all, all, None));
  }

  /** Rows `i` and `j` stand at one level with nothing above that level between them. */
  ghost predicate Siblings(rows: seq<Row>, i: nat, j: nat) {
    && i < j < |rows| && rows[i].depth == rows[j].depth
    && forall k :: i < k < j ==> rows[k].depth >= rows[i].depth
  }

  lemma {:induction false} SiblingsShift(before: seq<Row>, rows: seq<Row>, after: seq<Row>, i: nat, j: nat)
    requires i < j < |rows|
    ensures Siblings(before + rows + after, |before| + i, |before| + j) ==> Siblings(rows, i, j)
  {
    var whole := before + rows + after;
    assert forall k :: 0 <= k < |rows| ==> whole[|before| + k] == rows[k];
    if Siblings(whole, |before| + i, |before| + j) {
      forall k | i < k < j
        ensures rows[k].depth >= rows[i].depth
      {
        assert whole[|before| + k].depth >= whole[|before| + i].depth;
      }
    }
  }

  /** The top rows come in the order of the nodes. */
  lemma {:induction false} TopRowAt(collate: Collation, all: seq<Goal>, nodes: seq<GoalTreeNode>, depth: nat,
                                    parent: Option<string>, i: nat, j: nat)
    requires PlacedUnder(collate, all, nodes, depth, parent) && InOrder(collate, Heads(nodes))
    requires i < j < |RowsOfAll(nodes)| && RowsOfAll(nodes)[i].depth == depth == RowsOfAll(nodes)[j].depth
    ensures CompareGoals(collate, RowsOfAll(nodes)[i].goal, RowsOfAll(nodes)[j].goal) <= 0
    decreases |nodes|
  {
    hide CompareGoals;
    var n := |RowsOf(nodes[0])|;
    assert Heads(nodes)[0] == nodes[0].goal;
    assert forall h :: 0 <= h < |nodes| - 1 ==> Heads(nodes[1..])[h] == Heads(nodes)[h + 1];
    if j < n {
      RowsAreDeep(collate, all, nodes[0].children, depth + 1, Some(nodes[0].goal.id), j - 1);
      assert false;
    } else if i >= n {
      TopRowAt(collate, all, nodes[1..], depth, parent, i - n, j - n);
    } else {
      if i > 0 {
        RowsAreDeep(collate, all, nodes[0].children, depth + 1, Some(nodes[0].goal.id), i - 1);
      }
      TopRows(collate, all, nodes[1..], depth, parent, j - n);
      var h :| 0 <= h < |Heads(nodes[1..])| && Heads(nodes[1..])[h] == RowsOfAll(nodes)[j].goal;
      assert Heads(nodes)[h + 1] == RowsOfAll(nodes)[j].goal;
    }
  }

  /** Siblings come in display order. */
  lemma {:induction false} SiblingsInOrder(collate: Collation, all: seq<Goal>, nodes: seq<GoalTreeNode>, depth: nat,
                                           parent: Option<string>, i: nat, j: nat)
    requires PlacedUnder(collate, all, nodes, depth, parent) && Siblings(RowsOfAll(nodes), i, j)
    requires RowsOfAll(nodes)[i].depth > depth || InOrder(collate, Heads(nodes))
    ensures CompareGoals(collate, RowsOfAll(nodes)[i].goal, RowsOfAll(nodes)[j].goal) <= 0
    decreases nodes
  {
    hide CompareGoals;
    RowsAreDeep(collate, all, nodes, depth, parent, i);
    if RowsOfAll(nodes)[i].depth == depth {
      TopRowAt(collate, all, nodes, depth, parent, i, j);
    } else {
      var node := nodes[0];
      var top := [Row(node.goal, node.depth, node.orphaned)];
      var below, rest := RowsOfAll(node.children), RowsOfAll(nodes[1..]);
      assert RowsOfAll(nodes) == top + below + rest;
      if j <= |below| {
        SiblingsShift(top, below, rest, i - 1, j - 1);
        SiblingsInOrder(collate, all, node.children, depth + 1, Some(node.goal.id), i - 1, j - 1);
      } else if i > |below| {
        var n := 1 + |below|;
        assert top + below + rest + [] == RowsOfAll(nodes);
        SiblingsShift(top + below, rest, [], i - n, j - n);
        SiblingsInOrder(collate, all, nodes[1..], depth, parent, i - n, j - n);
      } else {
        NodeBetween(collate, all, nodes, depth, parent, i, j);
      }
    }
  }

  lemma {:induction false} NodeBetween(collate: Collation, all: seq<Goal>, nodes: seq<GoalTreeNode>, depth: nat,
                                       parent: Option<string>, i: nat, j: nat)
    requires PlacedUnder(collate, all, nodes, depth, parent) && Siblings(RowsOfAll(nodes), i, j)
    requires nodes != [] && i < |RowsOf(nodes[0])| <= j
    ensures RowsOfAll(nodes)[i].depth <= depth
  {
    var n := |RowsOf(nodes[0])|;
    var rest := nodes[1..];
    assert |RowsOfAll(nodes)| == n + |RowsOfAll(rest)|;
    assert rest != [];
    assert RowsOfAll(rest)[0] == RowsOf(rest[0])[0] && rest[0].depth == depth;
    assert RowsOfAll(nodes)[n] == RowsOfAll(rest)[0];
    assert RowsOfAll(nodes)[n].depth == depth;
  }

  /** A row is marked as orphaned when it is at the top although it names a parent. */
  lemma {:induction false} OrphansAreMarked(collate: Collation, all: seq<Goal>, nodes: seq<GoalTreeNode>, depth: nat,
                                            parent: Option<string>, i: nat)
    requires PlacedUnder(collate, all, nodes, depth, parent) && i < |RowsOfAll(nodes)|
    ensures var row := RowsOfAll(nodes)[i]; row.orphaned <==> row.depth == 0 && row.goal.parentGoalId.Some?
    decreases nodes
  {
    var own := RowsOf(nodes[0]);
    if 0 < i < |own| {
      OrphansAreMarked(collate, all, nodes[0].children, depth + 1, Some(nodes[0].goal.id), i - 1);
    } else if |own| <= i {
      OrphansAreMarked(collate, all, nodes[1..], depth, parent, i - |own|);
    }
  }

  /** A goal is filed under the goal it names, if there is one of that id and it is not the goal itself. */
  lemma {:induction false} FiledExactly(all: seq<Goal>, g: Goal, p: string)
    requires UniqueIds(all) && g in all
    ensures Up(Filing(all, all), g.id) == Some(p) <==>
              g.parentGoalId == Some(p) && p != "" && p != g.id && exists h :: h in all && h.id == p
  {
    FilingIs(all, all, g);
    hide Filing, UniqueIds;
    if HasId(all, p) {
      var i :| 0 <= i < |all| && all[i].id == p;
      assert all[i] in all;
    }
    if h :| h in all && h.id == p {
      var i :| 0 <= i < |all| && all[i] == h;
      assert all[i].id == p;
    }
  }

  /** Build, then flatten: the whole promise, for any parent relation over distinct ids. */
  method GoalRows(collate: Collation, goals: seq<Goal>) returns (rows: seq<Row>)
    requires IsCollation(collate) && UniqueIds(goals)
    ensures multiset(GoalsOf(rows)) == multiset(goals)
    ensures forall i: nat :: i < |rows| && rows[i].depth > 0 ==> exists j: nat :: NearestAbove(goals, rows, j, i)
    ensures TopLevel(rows) == TopGoals(collate, goals)
    ensures forall i: nat :: i < |rows| ==>
              (rows[i].orphaned <==> rows[i].depth == 0 && rows[i].goal.parentGoalId.Some?)
    ensures Acyclic(Filing(goals, goals)) ==> forall i: nat :: i < |rows| ==>
              && Steps(Filing(goals, goals), rows[i].goal.id, rows[i].depth).Some?
              && Steps(Filing(goals, goals), rows[i].goal.id, rows[i].depth + 1).None?
    ensures forall i: nat, j: nat :: Siblings(rows, i, j) && (rows[i].depth > 0 || Acyclic(Filing(goals, goals))) ==>
              CompareGoals(collate, rows[i].goal, rows[j].goal) <= 0
  {
    hide CompareGoals, TopGoals, TopLevel;
    var nodes := BuildGoalTree(collate, goals);
    rows := FlattenGoalTree(nodes);
    TopLevelIsHeads(collate, goals, nodes);
    forall i: nat | i < |rows|
      ensures rows[i].orphaned <==> rows[i].depth == 0 && rows[i].goal.parentGoalId.Some?
    {
      OrphansAreMarked(collate, goals, nodes, 0, None, i);
    }
    if Acyclic(Filing(goals, goals)) {
      FiledAre(goals, goals, None);
      SortedAre(collate, Filed(goals, goals, None));
    }
    forall i: nat, j: nat | Siblings(rows, i, j) && (rows[i].depth > 0 || Acyclic(Filing(goals, goals)))
      ensures CompareGoals(collate, rows[i].goal, rows[j].goal) <= 0
    {
      SiblingsInOrder(collate, goals, nodes, 0, None, i, j);
    }
    forall i: nat | i < |rows| && rows[i].depth > 0
      ensures exists j: nat :: NearestAbove(goals, rows, j, i)
    {
      var j := ParentIsNearestAbove(collate, goals, nodes, 0, None, i);
    }
    if Acyclic(Filing(goals, goals)) {
      forall i: nat | i < |rows|
        ensures Steps(Filing(goals, goals), rows[i].goal.id, rows[i].depth).Some?
        ensures Steps(Filing(goals, goals), rows[i].goal.id, rows[i].depth + 1).None?
      {
        DepthCountsAncestors(collate, goals, nodes, i);
      }
    }
  }
}
