/** The two cycle guards, one walking up and one walking down, side by side. */
module CycleGuards {
  import opened Options
  import opened Forest
  import ProductGroups
  import Goals

  /**
    * Over the same parent relation, cyclic or not, the upward guard and the downward guard give the
    * same answer, and it is whether the child is on the new parent's chain. The one exception is a
    * child and a parent that are both the empty string, which no row's id is.
    */
  method BothGuards(goals: seq<Goals.Goal>, groups: seq<ProductGroups.GroupNode>, childId: string,
                    parentId: Option<string>)
    returns (up: bool, down: bool)
    requires ProductGroups.UniqueIds(groups)
    requires Goals.ParentsOf(goals) == ProductGroups.ParentsOf(groups)
    ensures up == down <==> !(childId == "" && parentId == Some(""))
    ensures parentId.Some? && parentId.value != "" ==>
              (down <==> OnChain(Goals.ParentsOf(goals), childId, parentId.value))
  {
    up := Goals.WouldCreateGoalCycle(goals, childId, parentId);
    down := ProductGroups.WouldCreateCycle(groups, childId, parentId);
    if parentId.Some? {
      OnChainSelf(Goals.ParentsOf(goals), parentId.value);
    }
  }
}
