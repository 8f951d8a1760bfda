/** Runs of goal creations, links and deletions that the cycle guard admits. */
module GoalRuns {
  import opened Options
  import opened Forest
  import opened Goals

  /** No chain of goals closes, every parent is a goal, and no goal has the empty id. */
  ghost predicate ValidGoals(pm: Parents) {
    Acyclic(pm) && "" !in pm && ParentsKnown(pm)
  }

  datatype Change =
    | Create(goal: Goal)
    | Link(id: string, parentId: Option<string>)
    | Delete(id: string)

  /** Deleting a goal leaves its children at the top. */
  function After(pm: Parents, change: Change): Parents {
    match change
    case Create(goal) => pm[goal.id := goal.parentGoalId]
    case Link(id, parentId) => pm[id := parentId]
    case Delete(id) => map x | x in pm && x != id :: if pm[x] == Some(id) then None else pm[x]
  }

  /** What the store checks before it writes. */
  ghost predicate Admitted(pm: Parents, change: Change) {
    match change
    case Create(goal) =>
      goal.id !in pm && goal.id != "" && (Root(goal.parentGoalId) || goal.parentGoalId.value in pm)
    case Link(id, parentId) =>
      id in pm && (parentId.None? || (parentId.value in pm && !CycleGuard(pm, id, parentId)))
    case Delete(id) => id in pm
  }

  // ----- one change

  /**
    * From any relation without a cycle, linking a goal with an id under a new parent leaves none exactly when the
    * guard lets it pass.
    */
  lemma {:induction false} LinkIsExact(pm: Parents, childId: string, parentId: Option<string>)
    requires Acyclic(pm) && childId != ""
    ensures Acyclic(pm[childId := parentId]) <==> !CycleGuard(pm, childId, parentId)
  {
    MoveStaysAcyclic(pm, childId, parentId);
    OnChainSelf(pm, childId);
  }

  /** The same of the guard as it is computed over rows. */
  method LinkKeepsAcyclic(goals: seq<Goal>, childId: string, parentId: Option<string>) returns (ok: bool)
    requires Acyclic(ParentsOf(goals)) && childId != ""
    ensures ok <==> Acyclic(ParentsOf(goals)[childId := parentId])
  {
    var cycle := WouldCreateGoalCycle(goals, childId, parentId);
    LinkIsExact(ParentsOf(goals), childId, parentId);
    ok := !cycle;
  }

  lemma {:induction false} DeletedChain(pm: Parents, id: string, x: string, k: nat)
    ensures Steps(After(pm, Delete(id)), x, k).Some? ==> Steps(After(pm, Delete(id)), x, k) == Steps(pm, x, k)
    decreases k
  {
    var after := After(pm, Delete(id));
    if k > 0 && Up(after, x).Some? {
      DeletedChain(pm, id, Up(after, x).value, k - 1);
    }
  }

  lemma {:induction false} DeletingKeepsValid(pm: Parents, id: string)
    requires ValidGoals(pm)
    ensures ValidGoals(After(pm, Delete(id)))
  {
    var after := After(pm, Delete(id));
    forall x, k: nat | k > 0
      ensures Steps(after, x, k) != Some(x)
    {
      DeletedChain(pm, id, x, k);
    }
    forall x | Up(after, x).Some?
      ensures Up(after, x).value in after
    {
      assert Up(after, x) == Up(pm, x);
    }
  }

  lemma {:induction false} ParentsStayGoals(pm: Parents, id: string, parentId: Option<string>)
    requires ValidGoals(pm) && (Root(parentId) || parentId.value in pm)
    ensures ParentsKnown(pm[id := parentId])
  {
    var after := pm[id := parentId];
    forall x | Up(after, x).Some?
      ensures Up(after, x).value in after
    {
      assert x != id ==> Up(after, x) == Up(pm, x);
    }
  }

  lemma {:induction false} AdmittedKeepsValid(pm: Parents, change: Change)
    requires ValidGoals(pm) && Admitted(pm, change)
    ensures ValidGoals(After(pm, change))
  {
    match change
    case Delete(id) => DeletingKeepsValid(pm, id);
    case Link(id, parentId) =>
      LinkIsExact(pm, id, parentId);
      ParentsStayGoals(pm, id, parentId);
    case Create(Goal(id, parentId, _, _, _)) =>
      if !Root(parentId) {
        if k: nat :| Steps(pm, parentId.value, k) == Some(id) {
          ChainStaysInside(pm, parentId.value, k);
        }
      }
      MoveStaysAcyclic(pm, id, parentId);
      ParentsStayGoals(pm, id, parentId);
  }

  // ----- runs

  /** A run of requests, each applied when admitted and refused otherwise. */
  ghost function Run(pm: Parents, changes: seq<Change>): Parents
    decreases |changes|
  {
    if changes == [] then pm
    else Run(if Admitted(pm, changes[0]) then After(pm, changes[0]) else pm, changes[1..])
  }

  /** However long the run, no chain of goals closes, and a parent is always a goal. */
  lemma {:induction false} RunKeepsGoalsValid(pm: Parents, changes: seq<Change>)
    requires ValidGoals(pm)
    ensures ValidGoals(Run(pm, changes))
    decreases |changes|
  {
    hide ValidGoals, Admitted, After;
    if changes != [] {
      if Admitted(pm, changes[0]) {
        AdmittedKeepsValid(pm, changes[0]);
        RunKeepsGoalsValid(After(pm, changes[0]), changes[1..]);
      } else {
        RunKeepsGoalsValid(pm, changes[1..]);
      }
    }
  }
}
