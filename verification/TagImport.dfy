/** The tag import planner: a CSV against a registry that accumulates each row's effect. */
module TagImport {
  import opened Options
  import opened Text
  import opened Csv
  import opened Tags

  const TAG_IMPORT_MAX_ROWS: nat := 1000

  datatype RowProblem = BadName(problem: Problem) | MissingSource | NoSuchTag | AlreadyRenamed | TooManyRows

  datatype Kind = Creation | Renaming | Merging | NoChange | Failure

  datatype Action =
    | Create(line: nat, name: string)
    | Rename(line: nat, from: string, to: string)
    | Merge(line: nat, from: string, to: string)
    | Unchanged(line: nat, name: string)
    | Error(line: nat, input: string, problem: RowProblem)
  {
    predicate Writes() {
      Create? || Rename? || Merge?
    }

    function Kind(): Kind {
      match this
      case Create(_, _) => Creation
      case Rename(_, _, _) => Renaming
      case Merge(_, _, _) => Merging
      case Unchanged(_, _) => NoChange
      case Error(_, _, _) => Failure
    }
  }

  datatype TagImportPlan = TagImportPlan(actions: seq<Action>, counts: map<Kind, nat>, writes: nat)

  datatype TagDef = TagDef(id: string, name: string)

  /** The projected registry: canonical name and stored id by comparison key, and the ids already used. */
  datatype View = View(byKey: map<string, string>, idByKey: map<string, string>, touched: set<string>)

  function JoinCells(cells: seq<string>): string {
    if cells == [] then "" else if |cells| == 1 then cells[0] else cells[0] + "," + JoinCells(cells[1..])
  }

  function Cell(cells: seq<string>, i: nat): string {
    if i < |cells| then cells[i] else ""
  }

  // ----- planning one row

  function CreateOf(fold: CaseFold, v: View, line: nat, input: string, name: string): (Action, View) {
    if name == "" then (Error(line, input, BadName(NameRequired)), v)
    else if TagNameError(name).Some? then (Error(line, input, BadName(TagNameError(name).value)), v)
    else
      var key := TagKey(fold, name);
      if key in v.byKey then (Unchanged(line, v.byKey[key]), v)
      else (Create(line, name), v.(byKey := v.byKey[key := name]))
  }

  /** The registry after `fromKey` is renamed to `toKey`, or dissolved into it. */
  function Renamed(v: View, fromKey: string, toKey: string, to: string, merge: bool): View {
    var id := if fromKey in v.idByKey then Some(v.idByKey[fromKey]) else None;
    var byKey := v.byKey - {fromKey};
    var idByKey := v.idByKey - {fromKey};
    View(
      if merge then byKey else byKey[toKey := to],
      if merge || id.None? then idByKey else idByKey[toKey := id.value],
      if id.None? then v.touched else v.touched + {id.value})
  }

  function RowOf(fold: CaseFold, v: View, line: nat, cells: seq<string>): (Action, View) {
    var input := JoinCells(cells);
    var from, to := NormalizeTagName(Cell(cells, 0)), NormalizeTagName(Cell(cells, 1));
    if to == "" then CreateOf(fold, v, line, input, from)
    else if from == "" then (Error(line, input, MissingSource), v)
    else if TagNameError(to).Some? then (Error(line, input, BadName(TagNameError(to).value)), v)
    else
      var fromKey, toKey := TagKey(fold, from), TagKey(fold, to);
      if fromKey !in v.byKey then (Error(line, input, NoSuchTag), v)
      else if fromKey in v.idByKey && v.idByKey[fromKey] in v.touched then (Error(line, input, AlreadyRenamed), v)
      else
        var current := v.byKey[fromKey];
        if toKey == fromKey then
          if current == to then (Unchanged(line, current), v)
          else (Rename(line, current, to), Renamed(v, fromKey, toKey, to, false))
        else if toKey in v.byKey then (Merge(line, current, v.byKey[toKey]), Renamed(v, fromKey, toKey, to, true))
        else (Rename(line, current, to), Renamed(v, fromKey, toKey, to, false))
  }

  // ----- planning a file

  /** The registry as the planner starts from it; a later tag with the same key wins. */
  function ViewOf(fold: CaseFold, registry: seq<TagDef>): View {
    if registry == [] then View(map[], map[], {})
    else
      var v, last := ViewOf(fold, registry[..|registry| - 1]), registry[|registry| - 1];
      var key := TagKey(fold, last.name);
      View(v.byKey[key := last.name], v.idByKey[key := last.id], {})
  }

  const HEADER_WORDS: set<string> := {
    "tag", "tags", "name", "names", "tag name", "existing", "existing tag", "existing name", "current",
    "current tag", "current name", "old", "old tag", "old name", "from", "new", "new tag", "new name",
    "replacement", "rename to", "to"
  }

  const SOLO_HEADER_WORDS: set<string> := {"tag", "tags", "name", "names", "tag name", "tag names"}

  function HeaderValues(fold: CaseFold, cells: seq<string>): seq<string> {
    if cells == [] then []
    else
      var t := Trim(cells[0]);
      (if t == "" then [] else [seq(|t|, i requires 0 <= i < |t| => fold(t[i]))]) + HeaderValues(fold, cells[1..])
  }

  predicate LooksLikeHeader(fold: CaseFold, cells: seq<string>) {
    var values := HeaderValues(fold, cells);
    if values == [] then false
    else if |values| == 1 then values[0] in SOLO_HEADER_WORDS
    else forall v :: v in values ==> v in HEADER_WORDS
  }

  function Body(fold: CaseFold, rows: seq<CsvRow>): seq<CsvRow> {
    if rows != [] && LooksLikeHeader(fold, rows[0].cells) then rows[1..] else rows
  }

  /** The rows from `index` on, planned in order. */
  function RowsFrom(fold: CaseFold, v: View, rows: seq<CsvRow>, index: nat): (seq<Action>, View)
    decreases |rows|
  {
    if rows == [] then ([], v)
    else if index >= TAG_IMPORT_MAX_ROWS then
      ([Error(rows[0].line, JoinCells(rows[0].cells), TooManyRows)], v)
    else
      var (action, next) := RowOf(fold, v, rows[0].line, rows[0].cells);
      var (more, last) := RowsFrom(fold, next, rows[1..], index + 1);
      ([action] + more, last)
  }

  lemma {:induction false} NoRows(fold: CaseFold, v: View, rows: seq<CsvRow>, index: nat)
    ensures rows == [] ==> RowsFrom(fold, v, rows, index).0 == []
  {
  }

  lemma {:induction false} FirstRow(fold: CaseFold, v: View, rows: seq<CsvRow>, index: nat)
    requires index < |rows|
    ensures var row, after := rows[index], rows[index + 1..];
            if index >= TAG_IMPORT_MAX_ROWS
            then RowsFrom(fold, v, rows[index..], index).0 == [Error(row.line, JoinCells(row.cells), TooManyRows)]
            else RowsFrom(fold, v, rows[index..], index).0
                 == [RowOf(fold, v, row.line, row.cells).0]
                    + RowsFrom(fold, RowOf(fold, v, row.line, row.cells).1, after, index + 1).0
  {
    hide RowOf;
    assert rows[index..][1..] == rows[index + 1..];
  }

  /** The actions of some kinds, in order. */
  function OfKinds(actions: seq<Action>, kinds: set<Kind>): seq<Action> {
    if actions == [] then []
    else KeepIf(actions[0], kinds) + OfKinds(actions[1..], kinds)
  }

  function KeepIf(action: Action, kinds: set<Kind>): seq<Action> {
    if action.Kind() in kinds then [action] else []
  }

  lemma {:induction false} OfKindsSnoc(actions: seq<Action>, last: Action, kinds: set<Kind>)
    ensures OfKinds(actions + [last], kinds) == OfKinds(actions, kinds) + KeepIf(last, kinds)
    decreases |actions|
  {
    hide KeepIf;
    var all := actions + [last];
    if actions == [] {
      assert all == [last];
      assert OfKinds(all, kinds) == KeepIf(last, kinds) + OfKinds([], kinds);
    } else {
      OfKindsSnoc(actions[1..], last, kinds);
      assert all[0] == actions[0] && all[1..] == actions[1..] + [last];
    }
  }

  const ALL_KINDS: set<Kind> := {Creation, Renaming, Merging, NoChange, Failure}

  const WRITING: set<Kind> := {Creation, Renaming, Merging}

  lemma {:induction false} OfKindsDisjoint(actions: seq<Action>, some: set<Kind>, others: set<Kind>)
    requires some !! others
    ensures |OfKinds(actions, some + others)| == |OfKinds(actions, some)| + |OfKinds(actions, others)|
    decreases |actions|
  {
    if actions != [] {
      OfKindsDisjoint(actions[1..], some, others);
    }
  }

  lemma {:induction false} OfAllKinds(actions: seq<Action>)
    ensures OfKinds(actions, ALL_KINDS) == actions
    decreases |actions|
  {
    if actions != [] {
      OfAllKinds(actions[1..]);
    }
  }

  /** The writes of a plan are its creates, renames and merges, and every action is of one of the five kinds. */
  lemma {:induction false} CountsAddUp(actions: seq<Action>)
    ensures |OfKinds(actions, WRITING)| ==
            |OfKinds(actions, {Creation})| + |OfKinds(actions, {Renaming})| + |OfKinds(actions, {Merging})|
    ensures |actions| == |OfKinds(actions, WRITING)| + |OfKinds(actions, {NoChange})| + |OfKinds(actions, {Failure})|
  {
    hide OfKinds;
    OfKindsDisjoint(actions, {Creation}, {Renaming});
    OfKindsDisjoint(actions, {Creation} + {Renaming}, {Merging});
    assert WRITING == {Creation} + {Renaming} + {Merging};
    OfKindsDisjoint(actions, WRITING, {NoChange});
    OfKindsDisjoint(actions, WRITING + {NoChange}, {Failure});
    assert ALL_KINDS == WRITING + {NoChange} + {Failure};
    OfAllKinds(actions);
  }

  function PlanOf(fold: CaseFold, csv: string, registry: seq<TagDef>): seq<Action> {
    RowsFrom(fold, ViewOf(fold, registry), Body(fold, Rows(csv)), 0).0
  }

  /** One action per row, in order and with its line, up to a cap; past it one refusal stands for the rest. */
  ghost predicate Answered(actions: seq<Action>, rows: seq<CsvRow>, cap: nat) {
    && |actions| == (if |rows| <= cap then |rows| else cap + 1)
    && (forall i :: 0 <= i < |actions| ==> actions[i].line == rows[i].line)
    && (|rows| > cap ==> actions[cap].Error? && actions[cap].problem == TooManyRows)
  }

  lemma {:induction false} RowKeepsLine(fold: CaseFold, v: View, line: nat, cells: seq<string>)
    ensures RowOf(fold, v, line, cells).0.line == line
  {
  }

  lemma {:induction false} RowsAnswered(fold: CaseFold, v: View, rows: seq<CsvRow>, index: nat)
    requires index <= TAG_IMPORT_MAX_ROWS
    ensures Answered(RowsFrom(fold, v, rows, index).0, rows, TAG_IMPORT_MAX_ROWS - index)
    decreases |rows|
  {
    hide RowOf;
    if rows != [] && index < TAG_IMPORT_MAX_ROWS {
      RowKeepsLine(fold, v, rows[0].line, rows[0].cells);
      var (action, next) := RowOf(fold, v, rows[0].line, rows[0].cells);
      RowsAnswered(fold, next, rows[1..], index + 1);
      OneMoreAnswered(action, RowsFrom(fold, next, rows[1..], index + 1).0, rows, TAG_IMPORT_MAX_ROWS - index);
      hide Answered;
    }
  }

  lemma {:induction false} OneMoreAnswered(action: Action, more: seq<Action>, rows: seq<CsvRow>, cap: nat)
    requires rows != [] && cap > 0 && action.line == rows[0].line && Answered(more, rows[1..], cap - 1)
    ensures Answered([action] + more, rows, cap)
  {
    var all := [action] + more;
    forall i | 0 < i < |all|
      ensures all[i].line == rows[i].line
    {
      assert all[i] == more[i - 1] && rows[1..][i - 1] == rows[i];
    }
  }

  lemma {:induction false} EveryRowIsAnswered(fold: CaseFold, csv: string, registry: seq<TagDef>)
    ensures Answered(PlanOf(fold, csv, registry), Body(fold, Rows(csv)), 1000)
  {
    hide RowsFrom, Rows, Body, ViewOf;
    RowsAnswered(fold, ViewOf(fold, registry), Body(fold, Rows(csv)), 0);
  }

  // ----- the planner, updating its projection in place

  class Projected {
    var byKey: map<string, string>
    var touched: set<string>
    var idByKey: map<string, string>

    ghost function Now(): View
      reads this
    {
      View(byKey, idByKey, touched)
    }

    constructor (fold: CaseFold, registry: seq<TagDef>)
      ensures Now() == ViewOf(fold, registry)
    {
      byKey, idByKey, touched := map[], map[], {};
      new;
      for i := 0 to |registry|
        invariant Now() == ViewOf(fold, registry[..i])
      {
        assert registry[..i + 1][..i] == registry[..i];
        var key := TagKey(fold, registry[i].name);
        byKey := byKey[key := registry[i].name];
        idByKey := idByKey[key := registry[i].id];
      }
      assert registry[..|registry|] == registry;
    }

    method PlanCreate(fold: CaseFold, line: nat, input: string, name: string) returns (action: Action)
      modifies this
      ensures (action, Now()) == CreateOf(fold, old(Now()), line, input, name)
    {
      if name == "" {
        return Error(line, input, BadName(NameRequired));
      }
      var problem := TagNameError(name);
      if problem.Some? {
        return Error(line, input, BadName(problem.value));
      }
      var key := TagKey(fold, name);
      if key in byKey {
        return Unchanged(line, byKey[key]);
      }
      byKey := byKey[key := name];
      return Create(line, name);
    }

    method ApplyRename(fromKey: string, toKey: string, to: string, merge: bool)
      modifies this
      ensures Now() == Renamed(old(Now()), fromKey, toKey, to, merge)
    {
      var sourceId := if fromKey in idByKey then Some(idByKey[fromKey]) else None;
      byKey := byKey - {fromKey};
      idByKey := idByKey - {fromKey};
      if !merge {
        byKey := byKey[toKey := to];
        if sourceId.Some? {
          idByKey := idByKey[toKey := sourceId.value];
        }
      }
      if sourceId.Some? {
        touched := touched + {sourceId.value};
      }
    }

    method PlanRow(fold: CaseFold, line: nat, cells: seq<string>) returns (action: Action)
      modifies this
      ensures (action, Now()) == RowOf(fold, old(Now()), line, cells)
    {
      var input := JoinCells(cells);
      var from, to := NormalizeTagName(Cell(cells, 0)), NormalizeTagName(Cell(cells, 1));
      if to == "" {
        action := PlanCreate(fold, line, input, from);
        return;
      }
      if from == "" {
        return Error(line, input, MissingSource);
      }
      var problem := TagNameError(to);
      if problem.Some? {
        return Error(line, input, BadName(problem.value));
      }
      var fromKey := TagKey(fold, from);
      if fromKey !in byKey {
        return Error(line, input, NoSuchTag);
      }
      var current := byKey[fromKey];
      if fromKey in idByKey && idByKey[fromKey] in touched {
        return Error(line, input, AlreadyRenamed);
      }
      var toKey := TagKey(fold, to);
      if toKey == fromKey {
        if current == to {
          return Unchanged(line, current);
        }
        ApplyRename(fromKey, toKey, to, false);
        return Rename(line, current, to);
      }
      if toKey in byKey {
        var target := byKey[toKey];
        ApplyRename(fromKey, toKey, to, true);
        return Merge(line, current, target);
      }
      ApplyRename(fromKey, toKey, to, false);
      return Rename(line, current, to);
    }
  }

  /** How many actions there are of each kind. */
  function Tally(actions: seq<Action>): map<Kind, nat> {
    map kind | kind in ALL_KINDS :: |OfKinds(actions, {kind})|
  }

  lemma {:induction false} TallySnoc(actions: seq<Action>, last: Action)
    ensures last.Kind() in ALL_KINDS
    ensures Tally(actions + [last]) == Tally(actions)[last.Kind() := Tally(actions)[last.Kind()] + 1]
  {
    hide OfKinds;
    forall kind | kind in ALL_KINDS
      ensures |OfKinds(actions + [last], {kind})| == |OfKinds(actions, {kind})| + if last.Kind() == kind then 1 else 0
    {
      OfKindsSnoc(actions, last, {kind});
    }
  }

  /** One count per kind, raised action by action. */
  method CountKinds(actions: seq<Action>) returns (counts: map<Kind, nat>)
    ensures counts == Tally(actions)
  {
    hide OfKinds;
    counts := map[Creation := 0, Renaming := 0, Merging := 0, NoChange := 0, Failure := 0];
    NothingTallied();
    hide Tally;
    for i := 0 to |actions|
      invariant counts == Tally(actions[..i])
    {
      assert actions[..i + 1] == actions[..i] + [actions[i]];
      TallySnoc(actions[..i], actions[i]);
      counts := counts[actions[i].Kind() := counts[actions[i].Kind()] + 1];
    }
    assert actions[..|actions|] == actions;
  }

  lemma {:induction false} TallyOfWrites(actions: seq<Action>)
    ensures Tally(actions).Keys == ALL_KINDS
    ensures Tally(actions)[Creation] + Tally(actions)[Renaming] + Tally(actions)[Merging] == |OfKinds(actions, WRITING)|
  {
    CountsAddUp(actions);
  }

  lemma {:induction false} NothingTallied()
    ensures Tally([]) == map[Creation := 0, Renaming := 0, Merging := 0, NoChange := 0, Failure := 0]
  {
  }

  method PlanTagImport(fold: CaseFold, csv: string, registry: seq<TagDef>) returns (plan: TagImportPlan)
    ensures plan.actions == PlanOf(fold, csv, registry)
    ensures plan.counts == Tally(plan.actions) && plan.writes == |OfKinds(plan.actions, WRITING)|
  {
    hide OfKinds, Tally, RowOf, ViewOf, LooksLikeHeader;
    var rows := ParseCsvRows(csv);
    var actions := [];
    var projected := new Projected(fold, registry);
    var body := if rows != [] && LooksLikeHeader(fold, rows[0].cells) then rows[1..] else rows;
    ghost var v := projected.Now();
    var index := 0;
    assert body == Body(fold, rows) && body[index..] == body;
    assert PlanOf(fold, csv, registry) == RowsFrom(fold, v, body, 0).0;
    hide RowsFrom, PlanOf, Body;
    while index < |body|
      invariant 0 <= index <= |body| && fresh(projected)
      invariant actions + RowsFrom(fold, projected.Now(), body[index..], index).0 == PlanOf(fold, csv, registry)
    {
      FirstRow(fold, projected.Now(), body, index);
      var row := body[index];
      if index >= TAG_IMPORT_MAX_ROWS {
        actions := actions + [Error(row.line, JoinCells(row.cells), TooManyRows)];
        break;
      }
      var action := projected.PlanRow(fold, row.line, row.cells);
      actions := actions + [action];
      index := index + 1;
    }
    NoRows(fold, projected.Now(), body[index..], index);
    var counts := CountKinds(actions);
    TallyOfWrites(actions);
    plan := TagImportPlan(actions, counts, counts[Creation] + counts[Renaming] + counts[Merging]);
  }
}
