/** The group store: the same checks and changes over the stored rows. */
module GroupStore {
  import opened Options
  import opened Forest
  import opened ProductGroups
  import opened GroupRuns

  /** The new row is added at the end; a moved group's row is changed where it stands. */
  function RowsAfter(groups: seq<GroupNode>, change: Change): seq<GroupNode> {
    match change
    case Create(id, parentId) => groups + [GroupNode(id, parentId)]
    case Reparent(id, parentId) => Moved(groups, id, parentId)
    case Delete(id, _) => Without(groups, id)
  }

  function Moved(groups: seq<GroupNode>, id: string, parentId: Option<string>): (rows: seq<GroupNode>)
    ensures |rows| == |groups|
    ensures forall i :: 0 <= i < |rows| ==>
              rows[i] == if groups[i].id == id then GroupNode(id, parentId) else groups[i]
  {
    seq(|groups|, i requires 0 <= i < |groups| =>
      if groups[i].id == id then GroupNode(id, parentId) else groups[i])
  }

  /** `groups.filter(g => g.id !== id)` */
  function Without(groups: seq<GroupNode>, id: string): (rest: seq<GroupNode>)
    ensures forall g :: g in rest <==> g in groups && g.id != id
  {
    if groups == [] then []
    else
      var last := groups[|groups| - 1];
      Without(groups[..|groups| - 1], id) + if last.id == id then [] else [last]
  }

  lemma {:induction false} CreatedRows(groups: seq<GroupNode>, id: string, parentId: Option<string>)
    requires UniqueIds(groups) && id !in ParentsOf(groups)
    ensures UniqueIds(groups + [GroupNode(id, parentId)])
    ensures ParentsOf(groups + [GroupNode(id, parentId)]) == ParentsOf(groups)[id := parentId]
  {
    ParentsOfRows(groups);
    var rows := groups + [GroupNode(id, parentId)];
    assert rows[..|rows| - 1] == groups;
  }

  /** The rows have the ids and parents of a relation. */
  ghost predicate StandFor(rows: seq<GroupNode>, pm: Parents) {
    && (forall i :: 0 <= i < |rows| ==> rows[i].id in pm && pm[rows[i].id] == rows[i].parentId)
    && (forall x :: x in pm ==> HasRow(rows, x))
  }

  predicate HasRow(rows: seq<GroupNode>, x: string) {
    exists i :: 0 <= i < |rows| && rows[i].id == x
  }

  lemma {:induction false} RowsStand(groups: seq<GroupNode>)
    requires UniqueIds(groups)
    ensures StandFor(groups, ParentsOf(groups))
  {
    ParentsOfRows(groups);
    hide ParentsOf, UniqueIds;
  }

  lemma {:induction false} SameIds(rows: seq<GroupNode>, others: seq<GroupNode>, x: string)
    requires |rows| == |others| && forall i :: 0 <= i < |rows| ==> rows[i].id == others[i].id
    requires HasRow(rows, x)
    ensures HasRow(others, x)
  {
    var i :| 0 <= i < |rows| && rows[i].id == x;
    assert others[i].id == x;
  }

  lemma {:induction false} RowsDecide(rows: seq<GroupNode>, pm: Parents)
    requires UniqueIds(rows) && StandFor(rows, pm)
    ensures ParentsOf(rows) == pm
  {
    ParentsOfRows(rows);
    hide ParentsOf;
    assert ParentsOf(rows).Keys == pm.Keys;
    forall x | x in pm
      ensures ParentsOf(rows)[x] == pm[x]
    {
      var i :| 0 <= i < |rows| && rows[i].id == x;
    }
  }

  lemma {:induction false} MovedStand(groups: seq<GroupNode>, id: string, parentId: Option<string>)
    requires UniqueIds(groups) && id in ParentsOf(groups)
    ensures StandFor(Moved(groups, id, parentId), ParentsOf(groups)[id := parentId])
  {
    hide Moved, ParentsOf, UniqueIds;
    hide HasRow;
    RowsStand(groups);
    var rows := Moved(groups, id, parentId);
    forall x | x in ParentsOf(groups)
      ensures HasRow(rows, x)
    {
      SameIds(groups, rows, x);
    }
  }

  lemma {:induction false} MovedRows(groups: seq<GroupNode>, id: string, parentId: Option<string>)
    requires UniqueIds(groups) && id in ParentsOf(groups)
    ensures UniqueIds(Moved(groups, id, parentId))
    ensures ParentsOf(Moved(groups, id, parentId)) == ParentsOf(groups)[id := parentId]
  {
    hide Moved, ParentsOf, StandFor;
    MovedStand(groups, id, parentId);
    assert forall i :: 0 <= i < |groups| ==> Moved(groups, id, parentId)[i].id == groups[i].id;
    RowsDecide(Moved(groups, id, parentId), ParentsOf(groups)[id := parentId]);
  }

  lemma {:induction false} WithoutIsUnique(groups: seq<GroupNode>, id: string)
    requires UniqueIds(groups)
    ensures UniqueIds(Without(groups, id))
  {
    if groups != [] {
      var init, last := groups[..|groups| - 1], groups[|groups| - 1];
      WithoutIsUnique(init, id);
      forall i | 0 <= i < |Without(init, id)|
        ensures Without(init, id)[i].id != last.id
      {
        assert Without(init, id)[i] in init;
      }
    }
  }

  lemma {:induction false} DeletedRows(groups: seq<GroupNode>, id: string)
    requires UniqueIds(groups)
    ensures UniqueIds(Without(groups, id)) && ParentsOf(Without(groups, id)) == ParentsOf(groups) - {id}
  {
    WithoutIsUnique(groups, id);
    RowsLeft(groups, id);
    hide Without, ParentsOf, UniqueIds, StandFor;
    RowsDecide(Without(groups, id), ParentsOf(groups) - {id});
  }

  lemma {:induction false} RowIsLeft(groups: seq<GroupNode>, id: string, x: string)
    requires HasRow(groups, x) && x != id
    ensures HasRow(Without(groups, id), x)
  {
    var k :| 0 <= k < |groups| && groups[k].id == x;
    assert groups[k] in Without(groups, id);
    var i :| 0 <= i < |Without(groups, id)| && Without(groups, id)[i] == groups[k];
    assert Without(groups, id)[i].id == x;
  }

  lemma {:induction false} RowsLeft(groups: seq<GroupNode>, id: string)
    requires UniqueIds(groups)
    ensures StandFor(Without(groups, id), ParentsOf(groups) - {id})
  {
    var rows, pm := Without(groups, id), ParentsOf(groups) - {id};
    hide Without, ParentsOf, UniqueIds, HasRow;
    RowsStand(groups);
    forall i | 0 <= i < |rows|
      ensures rows[i].id in pm && pm[rows[i].id] == rows[i].parentId
    {
      assert rows[i] in groups;
    }
    forall x | x in pm
      ensures HasRow(rows, x)
    {
      RowIsLeft(groups, id, x);
    }
  }

  /** Writing the rows is changing the relation they stand for. */
  lemma {:induction false} RowsAfterChange(groups: seq<GroupNode>, change: Change)
    requires UniqueIds(groups)
    requires change.Create? ==> change.id !in ParentsOf(groups)
    requires change.Reparent? ==> change.id in ParentsOf(groups)
    ensures UniqueIds(RowsAfter(groups, change))
    ensures ParentsOf(RowsAfter(groups, change)) == After(ParentsOf(groups), change)
  {
    hide UniqueIds, ParentsOf;
    match change
    case Create(id, parentId) => CreatedRows(groups, id, parentId);
    case Reparent(id, parentId) => MovedRows(groups, id, parentId);
    case Delete(id, _) => DeletedRows(groups, id);
  }

  /** The decision as the two guards make it over rows. */
  method Admits(groups: seq<GroupNode>, change: Change) returns (ok: bool)
    requires UniqueIds(groups)
    ensures ok <==> Admitted(ParentsOf(groups), change)
  {
    ParentsOfRows(groups);
    var known := exists i :: 0 <= i < |groups| && groups[i].id == change.id;
    match change
    case Create(id, parentId) =>
      if known || id == "" {
        return false;
      }
      if parentId.None? || parentId.value == "" {
        return true;
      }
      if !exists i :: 0 <= i < |groups| && groups[i].id == parentId.value {
        return false;
      }
      var deep := WouldExceedDepth(groups, PLACEHOLDER, parentId);
      ok := !deep;
    case Reparent(id, parentId) =>
      if !known {
        return false;
      }
      if parentId.None? {
        return true;
      }
      if !exists i :: 0 <= i < |groups| && groups[i].id == parentId.value {
        return false;
      }
      var cycle := WouldCreateCycle(groups, id, parentId);
      if cycle {
        return false;
      }
      var deep := WouldExceedDepth(groups, id, parentId);
      ok := !deep;
    case Delete(id, hasProducts) =>
      ChildrenInRows(groups, id);
      ok := known && !(exists i :: 0 <= i < |groups| && groups[i].parentId == Some(id)) && !hasProducts;
  }

  /** A group has children exactly when some row names it as its parent. */
  lemma {:induction false} ChildrenInRows(groups: seq<GroupNode>, id: string)
    requires UniqueIds(groups)
    ensures HasChildren(ParentsOf(groups), id) <==> exists i :: 0 <= i < |groups| && groups[i].parentId == Some(id)
  {
    ParentsOfRows(groups);
    hide ParentsOf;
    if i :| 0 <= i < |groups| && groups[i].parentId == Some(id) {
      assert groups[i].id in ParentsOf(groups);
    }
  }

  /** A run of requests over the stored rows: each writes the rows when both guards let it pass. */
  method ApplyAll(groups: seq<GroupNode>, changes: seq<Change>) returns (rows: seq<GroupNode>)
    requires UniqueIds(groups) && ValidTree(ParentsOf(groups))
    ensures UniqueIds(rows) && ParentsOf(rows) == Run(ParentsOf(groups), changes)
    ensures ValidTree(ParentsOf(rows)) && Acyclic(ParentsOf(rows))
  {
    hide Run, Admitted, ValidTree;
    rows := groups;
    for i := 0 to |changes|
      invariant UniqueIds(rows)
      invariant Run(ParentsOf(rows), changes[i..]) == Run(ParentsOf(groups), changes)
    {
      RunStep(ParentsOf(rows), changes[i..]);
      assert changes[i..][1..] == changes[i + 1..];
      var ok := Admits(rows, changes[i]);
      if ok {
        AdmittedIsWritable(ParentsOf(rows), changes[i]);
        RowsAfterChange(rows, changes[i]);
        rows := RowsAfter(rows, changes[i]);
      }
    }
    assert changes[|changes|..] == [];
    RunNothing(ParentsOf(rows));
    RunKeepsTreeValid(ParentsOf(groups), changes);
  }

  lemma {:induction false} RunStep(pm: Parents, changes: seq<Change>)
    requires changes != []
    ensures Run(pm, changes) == Run(if Admitted(pm, changes[0]) then After(pm, changes[0]) else pm, changes[1..])
  {
    hide Admitted, After;
  }

  lemma {:induction false} RunNothing(pm: Parents)
    ensures Run(pm, []) == pm
  {
  }

  lemma {:induction false} AdmittedIsWritable(pm: Parents, change: Change)
    requires Admitted(pm, change)
    ensures (change.Create? ==> change.id !in pm) && (change.Reparent? ==> change.id in pm)
  {
    hide DepthGuard, CycleGuard;
  }
}
