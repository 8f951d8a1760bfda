/** Goals: their display order and the upward cycle guard. */
module Goals {
  import opened Options
  import opened Forest
  import Strings

  datatype GoalStatus = OnTrack | AtRisk | OffTrack | Achieved | Missed

  datatype Goal = Goal(
    id: string, parentGoalId: Option<string>, status: GoalStatus, periodEnd: Option<string>, title: string)

  // ----- compareGoals

  predicate IsClosed(status: GoalStatus) {
    status == Achieved || status == Missed
  }

  /** `localeCompare`: some total preorder on titles. */
  type Collation = (string, string) -> int

  ghost predicate IsCollation(collate: Collation) {
    && (forall a, b :: collate(a, b) <= 0 || collate(b, a) <= 0)
    && (forall a, b :: collate(a, b) > 0 ==> collate(b, a) < 0)
    && (forall a, b, c :: collate(a, b) <= 0 && collate(b, c) <= 0 ==> collate(a, c) <= 0)
  }

  function CompareGoals(collate: Collation, a: Goal, b: Goal): int {
    if IsClosed(a.status) != IsClosed(b.status) then (if IsClosed(a.status) then 1 else -1)
    else if a.periodEnd != b.periodEnd then
      if a.periodEnd.None? then 1
      else if b.periodEnd.None? then -1
      else if Strings.Less(a.periodEnd.value, b.periodEnd.value) then -1 else 1
    else collate(a.title, b.title)
  }

  /** The order is total and transitive, so a sort by it is meaningful. */
  lemma {:induction false} CompareTotal(collate: Collation, a: Goal, b: Goal)
    requires IsCollation(collate)
    ensures CompareGoals(collate, a, b) <= 0 || CompareGoals(collate, b, a) <= 0
  {
    if a.periodEnd.Some? && b.periodEnd.Some? {
      Strings.Trichotomy(a.periodEnd.value, b.periodEnd.value);
    }
  }

  lemma {:induction false} CompareTransitive(collate: Collation, a: Goal, b: Goal, c: Goal)
    requires IsCollation(collate)
    requires CompareGoals(collate, a, b) <= 0 && CompareGoals(collate, b, c) <= 0
    ensures CompareGoals(collate, a, c) <= 0
  {
    if a.periodEnd.Some? && b.periodEnd.Some? && c.periodEnd.Some? {
      var x, y, z := a.periodEnd.value, b.periodEnd.value, c.periodEnd.value;
      Strings.Trichotomy(x, z);
      if Strings.Less(x, y) && Strings.Less(y, z) {
        Strings.Transitive(x, y, z);
      }
    }
  }

  // ----- sorting

  /** A stable sort by `CompareGoals`: an earlier goal goes before those it ties with. */
  function Insert(collate: Collation, x: Goal, sorted: seq<Goal>): seq<Goal> {
    if sorted == [] then [x]
    else if CompareGoals(collate, x, sorted[0]) <= 0 then [x] + sorted
    else [sorted[0]] + Insert(collate, x, sorted[1..])
  }

  function SortGoals(collate: Collation, goals: seq<Goal>): seq<Goal> {
    if goals == [] then [] else Insert(collate, goals[0], SortGoals(collate, goals[1..]))
  }

  ghost predicate InOrder(collate: Collation, goals: seq<Goal>) {
    forall i, j :: 0 <= i < j < |goals| ==> CompareGoals(collate, goals[i], goals[j]) <= 0
  }

  lemma {:induction false} InsertSorted(collate: Collation, x: Goal, sorted: seq<Goal>)
    requires IsCollation(collate) && InOrder(collate, sorted)
    ensures InOrder(collate, Insert(collate, x, sorted))
    ensures multiset(Insert(collate, x, sorted)) == multiset{x} + multiset(sorted)
  {
    hide CompareGoals, IsCollation;
    if sorted == [] {
    } else if CompareGoals(collate, x, sorted[0]) <= 0 {
      forall j | 0 <= j < |sorted|
        ensures CompareGoals(collate, x, sorted[j]) <= 0
      {
        if j > 0 {
          CompareTransitive(collate, x, sorted[0], sorted[j]);
        }
      }
    } else {
      var head, rest := sorted[0], sorted[1..];
      assert sorted == [head] + rest;
      InsertSorted(collate, x, rest);
      CompareTotal(collate, x, head);
      var inserted := Insert(collate, x, rest);
      forall j | 0 <= j < |inserted|
        ensures CompareGoals(collate, head, inserted[j]) <= 0
      {
        assert inserted[j] in multiset(inserted);
        assert inserted[j] == x || inserted[j] in rest;
      }
    }
  }

  lemma {:induction false} SortedGoals(collate: Collation, goals: seq<Goal>)
    requires IsCollation(collate)
    ensures InOrder(collate, SortGoals(collate, goals))
    ensures multiset(SortGoals(collate, goals)) == multiset(goals)
  {
    hide Insert, CompareGoals, IsCollation;
    if goals != [] {
      SortedGoals(collate, goals[1..]);
      InsertSorted(collate, goals[0], SortGoals(collate, goals[1..]));
      assert goals == [goals[0]] + goals[1..];
    }
  }

  /** What the order means in a sorted list: open goals first, then sooner period ends, undated last, then titles. */
  lemma {:induction false} DisplayOrder(collate: Collation, goals: seq<Goal>, i: nat, j: nat)
    requires InOrder(collate, goals) && i < j < |goals|
    ensures var g, h := goals[i], goals[j];
            && (g.status in {Achieved, Missed} ==> h.status in {Achieved, Missed})
            && ((g.status in {Achieved, Missed} <==> h.status in {Achieved, Missed}) ==>
                  && (g.periodEnd.None? ==> h.periodEnd.None?)
                  && (g.periodEnd.Some? && h.periodEnd.Some? ==> !Strings.Less(h.periodEnd.value, g.periodEnd.value))
                  && (g.periodEnd == h.periodEnd ==> collate(g.title, h.title) <= 0))
  {
    assert CompareGoals(collate, goals[i], goals[j]) <= 0;
    if goals[i].periodEnd.Some? && goals[j].periodEnd.Some? {
      Strings.Trichotomy(goals[i].periodEnd.value, goals[j].periodEnd.value);
    }
  }

  // ----- wouldCreateGoalCycle

  /** `new Map(goals.map(g => [g.id, g.parentGoalId]))`: a later goal with the same id wins. */
  function ParentsOf(goals: seq<Goal>): Parents {
    if goals == [] then map[]
    else ParentsOf(goals[..|goals| - 1])[goals[|goals| - 1].id := goals[|goals| - 1].parentGoalId]
  }

  /** The child is the new parent, or one of its ancestors; the empty string has no ancestors. */
  ghost predicate CycleGuard(pm: Parents, childId: string, parentId: Option<string>) {
    parentId.Some?
    && (parentId.value == childId || (parentId.value != "" && OnChain(pm, childId, parentId.value)))
  }

  method WouldCreateGoalCycle(goals: seq<Goal>, childId: string, parentId: Option<string>) returns (r: bool)
    ensures r <==> CycleGuard(ParentsOf(goals), childId, parentId)
  {
    if parentId.None? {
      return false;
    }
    if parentId.value == childId {
      return true;
    }
    var parentOf := ParentsOf(goals);
    ghost var start := parentId.value;
    ghost var universe := {start} + set x | x in parentOf && parentOf[x].Some? :: parentOf[x].value;
    var seen: set<string> := {};
    var cursor := parentId;
    ghost var k: nat := 0;
    while cursor.Some? && cursor.value != "" && cursor.value !in seen
      invariant start != "" && cursor.Some? && cursor.value != "" ==> Steps(parentOf, start, k) == cursor
      invariant cursor.Some? ==> cursor.value in universe
      invariant seen <= universe && childId !in seen
      invariant start != "" ==> start in seen || cursor == Some(start)
      invariant start == "" ==> cursor == Some("")
      invariant forall x :: x in seen ==> Closed(parentOf, seen, cursor, x)
      decreases universe - seen
    {
      if cursor.value == childId {
        return true;
      }
      StepsAdd(parentOf, start, k, 1);
      seen := seen + {cursor.value};
      k := k + 1;
      cursor := if cursor.value in parentOf then parentOf[cursor.value] else None;
    }
    if start != "" && OnChain(parentOf, childId, start) {
      var n: nat :| Steps(parentOf, start, n) == Some(childId);
      if start in seen {
        NeverLeaves(parentOf, seen, start, n);
      }
    }
    return false;
  }

  /** The parent of a visited goal is visited too, or is where the walk stands. */
  ghost predicate Closed(pm: Parents, seen: set<string>, cursor: Option<string>, x: string) {
    Up(pm, x).Some? ==> Up(pm, x).value in seen || Up(pm, x) == cursor
  }

  lemma {:induction false} NeverLeaves(pm: Parents, seen: set<string>, x: string, k: nat)
    requires x in seen && forall y :: y in seen && Up(pm, y).Some? ==> Up(pm, y).value in seen
    ensures Steps(pm, x, k).Some? ==> Steps(pm, x, k).value in seen
    decreases k
  {
    if k > 0 && Up(pm, x).Some? {
      NeverLeaves(pm, seen, Up(pm, x).value, k - 1);
    }
  }
}
