/** The goal store: the guard and the changes over the stored rows. */
module GoalStore {
  import opened Options
  import opened Forest
  import opened Goals
  import opened GoalTree
  import opened GoalRuns
  import ProductGroups
  import GroupStore

  // ----- rows and the relation they stand for

  function Node(goal: Goal): ProductGroups.GroupNode {
    ProductGroups.GroupNode(goal.id, goal.parentGoalId)
  }

  function Nodes(goals: seq<Goal>): (nodes: seq<ProductGroups.GroupNode>)
    ensures |nodes| == |goals| && forall i :: 0 <= i < |goals| ==> nodes[i] == Node(goals[i])
  {
    seq(|goals|, i requires 0 <= i < |goals| => Node(goals[i]))
  }

  lemma {:induction false} NodesStandForTheSame(goals: seq<Goal>)
    ensures ProductGroups.ParentsOf(Nodes(goals)) == ParentsOf(goals)
    ensures ProductGroups.UniqueIds(Nodes(goals)) <==> UniqueIds(goals)
  {
    if goals != [] {
      var init := goals[..|goals| - 1];
      NodesStandForTheSame(init);
      assert Nodes(goals)[..|goals| - 1] == Nodes(init);
    }
  }

  lemma {:induction false} ParentsOfGoals(goals: seq<Goal>)
    requires UniqueIds(goals)
    ensures forall i :: 0 <= i < |goals| ==>
              goals[i].id in ParentsOf(goals) && ParentsOf(goals)[goals[i].id] == goals[i].parentGoalId
    ensures forall x :: x in ParentsOf(goals) ==> exists i :: 0 <= i < |goals| && goals[i].id == x
  {
    NodesStandForTheSame(goals);
    ProductGroups.ParentsOfRows(Nodes(goals));
    hide ParentsOf, ProductGroups.ParentsOf;
    forall x | x in ParentsOf(goals)
      ensures exists i :: 0 <= i < |goals| && goals[i].id == x
    {
      var i :| 0 <= i < |Nodes(goals)| && Nodes(goals)[i].id == x;
      assert goals[i].id == x;
    }
  }

  // ----- one change

  /** A new goal goes to the end, a linked one stays where it is, and a deleted one leaves its children at the top. */
  function RowsAfter(goals: seq<Goal>, change: Change): seq<Goal> {
    match change
    case Create(goal) => goals + [goal]
    case Link(id, parentId) =>
      seq(|goals|, i requires 0 <= i < |goals| =>
        if goals[i].id == id then goals[i].(parentGoalId := parentId) else goals[i])
    case Delete(id) => Without(goals, id)
  }

  /** The rows but one, those filed under it put at the top. */
  function Without(goals: seq<Goal>, id: string): seq<Goal> {
    if goals == [] then []
    else
      var last := goals[|goals| - 1];
      Without(goals[..|goals| - 1], id) + if last.id == id then [] else [Orphaned(last, id)]
  }

  function Orphaned(goal: Goal, id: string): Goal {
    if goal.parentGoalId == Some(id) then goal.(parentGoalId := None) else goal
  }

  lemma {:induction false} WithoutIds(goals: seq<Goal>, id: string)
    ensures forall i :: 0 <= i < |Without(goals, id)| ==> HasId(goals, Without(goals, id)[i].id)
  {
    if goals != [] {
      var init, last, rest := goals[..|goals| - 1], goals[|goals| - 1], Without(goals[..|goals| - 1], id);
      WithoutIds(init, id);
      forall i | 0 <= i < |rest|
        ensures HasId(goals, rest[i].id)
      {
        var k :| 0 <= k < |init| && init[k].id == rest[i].id;
        assert goals[k].id == rest[i].id;
      }
      assert HasId(goals, last.id);
      hide HasId;
    }
  }

  lemma {:induction false} WithoutIsUnique(goals: seq<Goal>, id: string)
    requires UniqueIds(goals)
    ensures UniqueIds(Without(goals, id))
  {
    if goals != [] {
      var init, last, rest := goals[..|goals| - 1], goals[|goals| - 1], Without(goals[..|goals| - 1], id);
      WithoutIsUnique(init, id);
      WithoutIds(init, id);
      forall i | 0 <= i < |rest|
        ensures rest[i].id != last.id
      {
        var k :| 0 <= k < |init| && init[k].id == rest[i].id;
      }
      hide HasId;
    }
  }

  /** Deleting after filing one more. */
  lemma {:induction false} DeletedLater(pm: Parents, x: string, parentId: Option<string>, id: string)
    ensures After(pm[x := parentId], Delete(id)) ==
            if x == id then After(pm, Delete(id))
            else After(pm, Delete(id))[x := if parentId == Some(id) then None else parentId]
  {
  }

  lemma {:induction false} DeletedGoals(goals: seq<Goal>, id: string)
    ensures ParentsOf(Without(goals, id)) == After(ParentsOf(goals), Delete(id))
  {
    if goals == [] {
    } else {
      hide After;
      var init, last, rows := goals[..|goals| - 1], goals[|goals| - 1], Without(goals, id);
      DeletedGoals(init, id);
      DeletedLater(ParentsOf(init), last.id, last.parentGoalId, id);
      if last.id != id {
        assert rows == Without(init, id) + [Orphaned(last, id)];
        assert rows[..|rows| - 1] == Without(init, id);
      } else {
        assert rows == Without(init, id);
      }
    }
  }

  lemma {:induction false} CreatedGoals(goals: seq<Goal>, goal: Goal)
    requires UniqueIds(goals) && goal.id !in ParentsOf(goals)
    ensures UniqueIds(goals + [goal])
    ensures ParentsOf(goals + [goal]) == ParentsOf(goals)[goal.id := goal.parentGoalId]
  {
    ParentsOfGoals(goals);
    assert (goals + [goal])[..|goals|] == goals;
  }

  lemma {:induction false} LinkedGoals(goals: seq<Goal>, id: string, parentId: Option<string>)
    requires UniqueIds(goals) && id in ParentsOf(goals)
    ensures UniqueIds(RowsAfter(goals, Link(id, parentId)))
    ensures ParentsOf(RowsAfter(goals, Link(id, parentId))) == ParentsOf(goals)[id := parentId]
  {
    var rows, nodes := RowsAfter(goals, Link(id, parentId)), Nodes(goals);
    NodesStandForTheSame(goals);
    NodesStandForTheSame(rows);
    hide ParentsOf, ProductGroups.ParentsOf, UniqueIds, ProductGroups.UniqueIds;
    GroupStore.MovedRows(nodes, id, parentId);
    assert Nodes(rows) == GroupStore.Moved(nodes, id, parentId);
  }

  /** Writing the rows is changing the relation they stand for. */
  lemma {:induction false} RowsAfterChange(goals: seq<Goal>, change: Change)
    requires UniqueIds(goals) && Admitted(ParentsOf(goals), change)
    ensures UniqueIds(RowsAfter(goals, change))
    ensures ParentsOf(RowsAfter(goals, change)) == After(ParentsOf(goals), change)
  {
    hide UniqueIds, ParentsOf, CycleGuard;
    match change
    case Create(goal) => CreatedGoals(goals, goal);
    case Link(id, parentId) => LinkedGoals(goals, id, parentId);
    case Delete(id) =>
      WithoutIsUnique(goals, id);
      DeletedGoals(goals, id);
  }

  /** The decision as the store makes it over rows. */
  method Admits(goals: seq<Goal>, change: Change) returns (ok: bool)
    requires UniqueIds(goals)
    ensures ok <==> Admitted(ParentsOf(goals), change)
  {
    ParentsOfGoals(goals);
    hide ParentsOf;
    match change
    case Create(goal) =>
      ok := !HasId(goals, goal.id) && goal.id != ""
            && (Root(goal.parentGoalId) || HasId(goals, goal.parentGoalId.value));
    case Link(id, parentId) =>
      if !HasId(goals, id) {
        return false;
      }
      if parentId.None? {
        return true;
      }
      if !HasId(goals, parentId.value) {
        return false;
      }
      var cycle := WouldCreateGoalCycle(goals, id, parentId);
      ok := !cycle;
    case Delete(id) =>
      ok := HasId(goals, id);
  }

  // ----- runs

  /** A run of requests over the stored rows: each writes the rows when the guard lets it pass. */
  method ApplyAll(goals: seq<Goal>, changes: seq<Change>) returns (rows: seq<Goal>)
    requires UniqueIds(goals) && ValidGoals(ParentsOf(goals))
    ensures UniqueIds(rows) && ParentsOf(rows) == Run(ParentsOf(goals), changes)
    ensures ValidGoals(ParentsOf(rows))
  {
    hide Run, Admitted, ValidGoals, UniqueIds, ParentsOf;
    rows := goals;
    for i := 0 to |changes|
      invariant UniqueIds(rows)
      invariant Run(ParentsOf(rows), changes[i..]) == Run(ParentsOf(goals), changes)
    {
      RunStep(ParentsOf(rows), changes[i..]);
      assert changes[i..][1..] == changes[i + 1..];
      var ok := Admits(rows, changes[i]);
      if ok {
        RowsAfterChange(rows, changes[i]);
        rows := RowsAfter(rows, changes[i]);
      }
    }
    assert changes[|changes|..] == [];
    RunNothing(ParentsOf(rows));
    RunKeepsGoalsValid(ParentsOf(goals), changes);
  }

  lemma {:induction false} RunStep(pm: Parents, changes: seq<Change>)
    requires changes != []
    ensures Run(pm, changes) == Run(if Admitted(pm, changes[0]) then After(pm, changes[0]) else pm, changes[1..])
  {
    hide Admitted, After;
  }

  lemma {:induction false} RunNothing(pm: Parents)
    ensures Run(pm, []) == pm
  {
  }
}
