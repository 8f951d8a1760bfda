/** The goal forest: built with a shared `seen` set, then flattened into reading order. */
module GoalTree {
  import opened Options
  import opened Goals

  datatype GoalTreeNode = GoalTreeNode(goal: Goal, depth: nat, orphaned: bool, children: seq<GoalTreeNode>)

  datatype Row = Row(goal: Goal, depth: nat, orphaned: bool)

  // ----- flattenGoalTree

  /** The rows of one node: itself, then its children's rows. */
  function RowsOf(node: GoalTreeNode): seq<Row>
    decreases node, 1
  {
    [Row(node.goal, node.depth, node.orphaned)] + RowsOfAll(node.children)
  }

  function RowsOfAll(nodes: seq<GoalTreeNode>): seq<Row>
    decreases nodes, 0
  {
    if nodes == [] then [] else RowsOf(nodes[0]) + RowsOfAll(nodes[1..])
  }

  method FlattenGoalTree(nodes: seq<GoalTreeNode>) returns (rows: seq<Row>)
    ensures rows == RowsOfAll(nodes)
  {
    rows := [];
    for i := 0 to |nodes|
      invariant rows + RowsOfAll(nodes[i..]) == RowsOfAll(nodes)
    {
      assert nodes[i..][1..] == nodes[i + 1..];
      rows := WalkNode(nodes[i], rows);
    }
  }

  method WalkNode(node: GoalTreeNode, before: seq<Row>) returns (rows: seq<Row>)
    ensures rows == before + RowsOf(node)
    decreases node
  {
    rows := before + [Row(node.goal, node.depth, node.orphaned)];
    for i := 0 to |node.children|
      invariant rows + RowsOfAll(node.children[i..]) == before + RowsOf(node)
    {
      assert node.children[i..][1..] == node.children[i + 1..];
      rows := WalkNode(node.children[i], rows);
    }
  }

  // ----- the effective parent relation

  ghost predicate UniqueIds(goals: seq<Goal>) {
    forall i, j :: 0 <= i < j < |goals| ==> goals[i].id != goals[j].id
  }

  predicate HasId(goals: seq<Goal>, id: string) {
    exists i :: 0 <= i < |goals| && goals[i].id == id
  }

  /** The parent a goal is filed under: named, in the set, and not the goal itself. */
  function FiledUnder(goals: seq<Goal>, goal: Goal): Option<string> {
    var p := goal.parentGoalId;
    if p.Some? && p.value != "" && p.value != goal.id && HasId(goals, p.value) then p else None
  }

  /** `goals` filed under `p`, in the order given; `None` collects the roots. */
  function Filed(all: seq<Goal>, goals: seq<Goal>, p: Option<string>): seq<Goal> {
    if goals == [] then []
    else
      var last := goals[|goals| - 1];
      Filed(all, goals[..|goals| - 1], p) + (if FiledUnder(all, last) == p then [last] else [])
  }

  lemma {:induction false} FiledAre(all: seq<Goal>, goals: seq<Goal>, p: Option<string>)
    ensures forall g :: g in Filed(all, goals, p) <==> g in goals && FiledUnder(all, g) == p
    ensures UniqueIds(goals) ==> UniqueIds(Filed(all, goals, p))
  {
    if goals != [] {
      var init, last := goals[..|goals| - 1], goals[|goals| - 1];
      FiledAre(all, init, p);
      assert goals == init + [last];
      if UniqueIds(goals) {
        forall i | 0 <= i < |Filed(all, init, p)|
          ensures Filed(all, init, p)[i].id != last.id
        {
          assert Filed(all, init, p)[i] in init;
        }
      }
    }
  }

  /** The first loop: children by parent id, and the roots. */
  method FileGoals(goals: seq<Goal>) returns (childrenOf: map<string, seq<Goal>>, roots: seq<Goal>)
    ensures roots == Filed(goals, goals, None)
    ensures forall p :: Children(childrenOf, p) == Filed(goals, goals, Some(p))
  {
    childrenOf, roots := map[], [];
    for i := 0 to |goals|
      invariant roots == Filed(goals, goals[..i], None)
      invariant forall p :: Children(childrenOf, p) == Filed(goals, goals[..i], Some(p))
    {
      assert goals[..i + 1][..i] == goals[..i];
      var goal := goals[i];
      var parent := goal.parentGoalId;
      if parent.None? || parent.value == "" || !HasId(goals, parent.value) || parent.value == goal.id {
        roots := roots + [goal];
        continue;
      }
      childrenOf := childrenOf[parent.value := Children(childrenOf, parent.value) + [goal]];
    }
    assert goals[..|goals|] == goals;
  }

  function Children(childrenOf: map<string, seq<Goal>>, id: string): seq<Goal> {
    if id in childrenOf then childrenOf[id] else []
  }

  function Unseen(goals: seq<Goal>, seen: set<string>): seq<Goal> {
    if goals == [] then []
    else
      var last := goals[|goals| - 1];
      Unseen(goals[..|goals| - 1], seen) + (if last.id in seen then [] else [last])
  }

  lemma {:induction false} UnseenAre(goals: seq<Goal>, seen: set<string>)
    ensures forall g :: g in Unseen(goals, seen) <==> g in goals && g.id !in seen
    ensures UniqueIds(goals) ==> UniqueIds(Unseen(goals, seen))
  {
    if goals != [] {
      var init, last := goals[..|goals| - 1], goals[|goals| - 1];
      UnseenAre(init, seen);
      assert goals == init + [last];
      if UniqueIds(goals) {
        forall i | 0 <= i < |Unseen(init, seen)|
          ensures Unseen(init, seen)[i].id != last.id
        {
          assert Unseen(init, seen)[i] in init;
        }
      }
    }
  }

  // ----- what a built forest is

  /** A row's goal ids, in order. */
  function Ids(rows: seq<Row>): seq<string> {
    seq(|rows|, i requires 0 <= i < |rows| => rows[i].goal.id)
  }

  ghost predicate NoRepeats(ids: seq<string>) {
    forall i, j :: 0 <= i < j < |ids| ==> ids[i] != ids[j]
  }

  /** Siblings are in display order, and every child sits one deeper than the goal it is filed under. */
  ghost predicate WellPlaced(collate: Collation, all: seq<Goal>, node: GoalTreeNode)
    decreases node, 1
  {
    && node.orphaned == (node.depth == 0 && node.goal.parentGoalId.Some?)
    && node.goal in all
    && PlacedUnder(collate, all, node.children, node.depth + 1, Some(node.goal.id))
    && InOrder(collate, Heads(node.children))
  }

  /** The goals at the top of each node. */
  function Heads(nodes: seq<GoalTreeNode>): seq<Goal> {
    seq(|nodes|, i requires 0 <= i < |nodes| => nodes[i].goal)
  }

  ghost predicate PlacedUnder(collate: Collation, all: seq<Goal>, nodes: seq<GoalTreeNode>, depth: nat,
                              parent: Option<string>)
    decreases nodes, 0
  {
    nodes != [] ==>
      && nodes[0].depth == depth
      && (parent.Some? ==> FiledUnder(all, nodes[0].goal) == parent)
      && WellPlaced(collate, all, nodes[0])
      && PlacedUnder(collate, all, nodes[1..], depth, parent)
  }

  lemma {:induction false} PlacedAppend(
      collate: Collation, all: seq<Goal>, nodes: seq<GoalTreeNode>, more: seq<GoalTreeNode>, depth: nat,
      parent: Option<string>)
    requires PlacedUnder(collate, all, nodes, depth, parent) && PlacedUnder(collate, all, more, depth, parent)
    ensures PlacedUnder(collate, all, nodes + more, depth, parent)
    decreases |nodes|
  {
    if nodes == [] {
      assert nodes + more == more;
    } else {
      assert (nodes + more)[1..] == nodes[1..] + more;
      PlacedAppend(collate, all, nodes[1..], more, depth, parent);
    }
  }

  function IdSet(rows: seq<Row>): set<string> {
    set i | 0 <= i < |rows| :: rows[i].goal.id
  }

  /**
    * Building `rows` took `seen` to `seen'`: each goal placed once and not before, each under a goal
    * placed with it unless it is one of `tops`, and every goal filed under a placed one was seen.
    */
  ghost predicate Grown(all: seq<Goal>, seen: set<string>, tops: set<string>, rows: seq<Row>, seen': set<string>) {
    && seen' == seen + IdSet(rows) && IdSet(rows) !! seen
    && NoRepeats(Ids(rows))
    && (forall i :: 0 <= i < |rows| ==> rows[i].goal in all)
    && (forall g :: g in all && g.id in IdSet(rows) && g.id !in tops ==>
          FiledUnder(all, g).Some? && FiledUnder(all, g).value in IdSet(rows))
    && (forall g :: g in all && FiledUnder(all, g).Some? && FiledUnder(all, g).value in IdSet(rows) ==> g.id in seen')
  }

  lemma {:induction false} IdSetAppend(rows: seq<Row>, more: seq<Row>)
    ensures IdSet(rows + more) == IdSet(rows) + IdSet(more)
  {
    forall x | x in IdSet(rows) + IdSet(more)
      ensures x in IdSet(rows + more)
    {
      if x in IdSet(rows) {
        var i :| 0 <= i < |rows| && rows[i].goal.id == x;
        assert (rows + more)[i].goal.id == x;
      } else {
        var i :| 0 <= i < |more| && more[i].goal.id == x;
        assert (rows + more)[|rows| + i].goal.id == x;
      }
    }
  }

  lemma {:induction false} NoRepeatsAppend(rows: seq<Row>, more: seq<Row>)
    requires NoRepeats(Ids(rows)) && NoRepeats(Ids(more)) && IdSet(rows) !! IdSet(more)
    ensures NoRepeats(Ids(rows + more))
  {
    var ids := Ids(rows + more);
    forall i, j | 0 <= i < j < |ids|
      ensures ids[i] != ids[j]
    {
      if i < |rows| {
        assert ids[i] == Ids(rows)[i] && ids[i] in IdSet(rows);
        if j < |rows| {
          assert ids[j] == Ids(rows)[j];
        } else {
          assert ids[j] == Ids(more)[j - |rows|] && ids[j] in IdSet(more);
        }
      } else {
        assert ids[i] == Ids(more)[i - |rows|] && ids[j] == Ids(more)[j - |rows|];
      }
    }
  }

  lemma {:induction false} GrownAppend(all: seq<Goal>, seen: set<string>, tops: set<string>, rows: seq<Row>,
                                       mid: set<string>,
                    more: set<string>, rows': seq<Row>, seen': set<string>)
    requires Grown(all, seen, tops, rows, mid) && Grown(all, mid, more, rows', seen')
    ensures Grown(all, seen, tops + more, rows + rows', seen')
  {
    IdSetAppend(rows, rows');
    NoRepeatsAppend(rows, rows');
  }

  /** A goal over the rows built from the goals filed under it. */
  lemma {:induction false} GrownNode(all: seq<Goal>, seen: set<string>, tops: set<string>, row: Row, rows: seq<Row>,
                                     seen': set<string>)
    requires Grown(all, seen + {row.goal.id}, tops, rows, seen') && row.goal.id !in seen && row.goal in all
    requires forall g :: g in all && g.id in tops ==> FiledUnder(all, g) == Some(row.goal.id)
    requires forall g :: g in all && FiledUnder(all, g) == Some(row.goal.id) ==> g.id in seen'
    ensures Grown(all, seen, {row.goal.id}, [row] + rows, seen')
  {
    IdSetAppend([row], rows);
    assert IdSet([row]) == {row.goal.id} by {
      assert [row][0].goal.id in IdSet([row]);
    }
    NoRepeatsAppend([row], rows);
  }
}
