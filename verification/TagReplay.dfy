/** Replaying a plan's writes on the registry it was planned against. */
module TagReplay {
  import opened Options
  import opened Csv
  import opened Tags
  import opened TagImport

  /** A row's id is the one it was stored with, or one minted by a create in this import. */
  datatype TagId = Stored(id: string) | Minted

  datatype Tag = Tag(id: TagId, name: string)

  function KeyAt(fold: CaseFold, reg: seq<Tag>, i: nat): string
    requires i < |reg|
  {
    TagKey(fold, reg[i].name)
  }

  /** No two tags have the same comparison key. */
  ghost predicate UniqueKeys(fold: CaseFold, reg: seq<Tag>) {
    forall i, j :: 0 <= i < j < |reg| ==> KeyAt(fold, reg, i) != KeyAt(fold, reg, j)
  }

  /** The row with a key, or the length when there is none. */
  function Find(fold: CaseFold, reg: seq<Tag>, key: string): (i: nat)
    ensures i <= |reg|
    ensures i < |reg| ==> KeyAt(fold, reg, i) == key
    ensures i == |reg| ==> forall j :: 0 <= j < |reg| ==> KeyAt(fold, reg, j) != key
  {
    if reg == [] then 0
    else
      var init := reg[..|reg| - 1];
      var j := Find(fold, init, key);
      if j < |init| then j else if KeyAt(fold, reg, |reg| - 1) == key then |reg| - 1
      else
        assert forall k :: 0 <= k < |init| ==> KeyAt(fold, reg, k) == KeyAt(fold, init, k);
        |reg|
  }

  predicate Has(fold: CaseFold, reg: seq<Tag>, name: string) {
    Find(fold, reg, TagKey(fold, name)) < |reg|
  }

  /** Can the store carry out this write as the registry stands? */
  predicate Enabled(fold: CaseFold, reg: seq<Tag>, action: Action) {
    match action
    case Create(_, name) => TagNameError(name).None? && !Has(fold, reg, name)
    case Rename(_, from, to) =>
      TagNameError(to).None? && Has(fold, reg, from) && (TagKey(fold, to) == TagKey(fold, from) || !Has(fold, reg, to))
    case Merge(_, from, to) => Has(fold, reg, from) && Has(fold, reg, to) && TagKey(fold, to) != TagKey(fold, from)
    case _ => true
  }

  function Apply(fold: CaseFold, reg: seq<Tag>, action: Action): seq<Tag> {
    match action
    case Create(_, name) => reg + [Tag(Minted, name)]
    case Rename(_, from, to) =>
      var i := Find(fold, reg, TagKey(fold, from));
      if i < |reg| then reg[i := Tag(reg[i].id, to)] else reg
    case Merge(_, from, _) =>
      var i := Find(fold, reg, TagKey(fold, from));
      if i < |reg| then reg[..i] + reg[i + 1..] else reg
    case _ => reg
  }

  function Replay(fold: CaseFold, reg: seq<Tag>, actions: seq<Action>): seq<Tag>
    decreases |actions|
  {
    if actions == [] then reg else Replay(fold, Apply(fold, reg, actions[0]), actions[1..])
  }

  ghost predicate AllEnabled(fold: CaseFold, reg: seq<Tag>, actions: seq<Action>)
    decreases |actions|
  {
    actions != [] ==>
      Enabled(fold, reg, actions[0]) && UniqueKeys(fold, Apply(fold, reg, actions[0]))
      && AllEnabled(fold, Apply(fold, reg, actions[0]), actions[1..])
  }

  /** The stored tag that a write renames or merges away, if it is one. */
  function SourceId(fold: CaseFold, reg: seq<Tag>, action: Action): set<string> {
    if action.Rename? || action.Merge? then
      var i := Find(fold, reg, TagKey(fold, action.from));
      if i < |reg| && reg[i].id.Stored? then {reg[i].id.id} else {}
    else {}
  }

  /** No stored tag in `used` is a source, and none is a source twice. */
  ghost predicate SourcesOnce(fold: CaseFold, reg: seq<Tag>, actions: seq<Action>, used: set<string>)
    decreases |actions|
  {
    actions != [] ==>
      var source := SourceId(fold, reg, actions[0]);
      source !! used && SourcesOnce(fold, Apply(fold, reg, actions[0]), actions[1..], used + source)
  }

  // ----- the projection mirrors the registry

  ghost predicate RowMirrored(fold: CaseFold, reg: seq<Tag>, v: View, i: nat)
    requires i < |reg|
  {
    var key := KeyAt(fold, reg, i);
    && key in v.byKey && v.byKey[key] == reg[i].name
    && (if reg[i].id.Stored? then key in v.idByKey && v.idByKey[key] == reg[i].id.id else key !in v.idByKey)
  }

  ghost predicate Mirrors(fold: CaseFold, reg: seq<Tag>, v: View) {
    && UniqueKeys(fold, reg)
    && (forall i :: 0 <= i < |reg| ==> RowMirrored(fold, reg, v, i))
    && (forall k :: k in v.byKey ==> exists i :: 0 <= i < |reg| && KeyAt(fold, reg, i) == k)
    && v.idByKey.Keys <= v.byKey.Keys
  }

  lemma {:induction false} KeyKnown(fold: CaseFold, reg: seq<Tag>, v: View, key: string)
    requires Mirrors(fold, reg, v)
    ensures key in v.byKey <==> Find(fold, reg, key) < |reg|
    ensures key in v.byKey ==>
              var i := Find(fold, reg, key);
              KeyAt(fold, reg, i) == key && RowMirrored(fold, reg, v, i)
    ensures key !in v.byKey ==> key !in v.idByKey
  {
    hide TagKey;
    var n := Find(fold, reg, key);
    if n < |reg| {
      assert RowMirrored(fold, reg, v, n);
    }
  }

  lemma {:induction false} MirrorsCreate(fold: CaseFold, reg: seq<Tag>, v: View, name: string)
    requires Mirrors(fold, reg, v) && TagKey(fold, name) !in v.byKey
    ensures Mirrors(fold, reg + [Tag(Minted, name)], v.(byKey := v.byKey[TagKey(fold, name) := name]))
  {
    hide TagKey;
    var key := TagKey(fold, name);
    var reg', v' := reg + [Tag(Minted, name)], v.(byKey := v.byKey[key := name]);
    forall i | 0 <= i < |reg|
      ensures KeyAt(fold, reg', i) == KeyAt(fold, reg, i) != key
      ensures RowMirrored(fold, reg', v', i)
    {
      assert RowMirrored(fold, reg, v, i);
    }
    forall k | k in v'.byKey
      ensures exists i :: 0 <= i < |reg'| && KeyAt(fold, reg', i) == k
    {
      if k == key {
        assert KeyAt(fold, reg', |reg|) == k;
      } else {
        var i :| 0 <= i < |reg| && KeyAt(fold, reg, i) == k;
        assert KeyAt(fold, reg', i) == k;
      }
    }
  }

  lemma {:induction false} MirrorsRename(fold: CaseFold, reg: seq<Tag>, v: View, n: nat, to: string)
    requires Mirrors(fold, reg, v) && n < |reg|
    requires TagKey(fold, to) == KeyAt(fold, reg, n) || TagKey(fold, to) !in v.byKey
    ensures Mirrors(fold, reg[n := Tag(reg[n].id, to)], Renamed(v, KeyAt(fold, reg, n), TagKey(fold, to), to, false))
  {
    hide TagKey;
    RenameKeepsRows(fold, reg, v, n, to);
    hide RowMirrored;
    RenamedKeys(fold, reg, v, n, to);
  }

  lemma {:induction false} RenameKeepsRows(fold: CaseFold, reg: seq<Tag>, v: View, n: nat, to: string)
    requires Mirrors(fold, reg, v) && n < |reg|
    requires TagKey(fold, to) == KeyAt(fold, reg, n) || TagKey(fold, to) !in v.byKey
    ensures var rows := reg[n := Tag(reg[n].id, to)];
            var renamed := Renamed(v, KeyAt(fold, reg, n), TagKey(fold, to), to, false);
            && UniqueKeys(fold, rows)
            && forall i :: 0 <= i < |rows| ==> RowMirrored(fold, rows, renamed, i)
  {
    hide TagKey;
    var fromKey, toKey := KeyAt(fold, reg, n), TagKey(fold, to);
    var reg', v' := reg[n := Tag(reg[n].id, to)], Renamed(v, fromKey, toKey, to, false);
    assert RowMirrored(fold, reg, v, n);
    assert KeyAt(fold, reg', n) == toKey;
    forall i | 0 <= i < |reg| && i != n
      ensures KeyAt(fold, reg', i) == KeyAt(fold, reg, i) && KeyAt(fold, reg, i) != fromKey &&
              KeyAt(fold, reg, i) != toKey
    {
      assert RowMirrored(fold, reg, v, i);
    }
    forall i | 0 <= i < |reg|
      ensures RowMirrored(fold, reg', v', i)
    {
      assert RowMirrored(fold, reg, v, i);
    }
  }

  lemma {:induction false} RenamedKeys(fold: CaseFold, reg: seq<Tag>, v: View, n: nat, to: string)
    requires Mirrors(fold, reg, v) && n < |reg|
    ensures var reg' := reg[n := Tag(reg[n].id, to)];
            forall k :: k in Renamed(v, KeyAt(fold, reg, n), TagKey(fold, to), to, false).byKey ==>
              exists i :: 0 <= i < |reg'| && KeyAt(fold, reg', i) == k
  {
    hide TagKey;
    var fromKey, toKey := KeyAt(fold, reg, n), TagKey(fold, to);
    var reg', v' := reg[n := Tag(reg[n].id, to)], Renamed(v, fromKey, toKey, to, false);
    forall k | k in v'.byKey
      ensures exists i :: 0 <= i < |reg| && KeyAt(fold, reg', i) == k
    {
      if k == toKey {
        assert KeyAt(fold, reg', n) == k;
      } else {
        var i :| 0 <= i < |reg| && KeyAt(fold, reg, i) == k;
        assert KeyAt(fold, reg', i) == k;
      }
    }
  }

  lemma {:induction false} MergeKeepsRows(fold: CaseFold, reg: seq<Tag>, v: View, n: nat, toKey: string, to: string)
    requires Mirrors(fold, reg, v) && n < |reg|
    ensures var rest, merged := reg[..n] + reg[n + 1..], Renamed(v, KeyAt(fold, reg, n), toKey, to, true);
            forall i :: 0 <= i < |rest| ==>
              KeyAt(fold, rest, i) == KeyAt(fold, reg, if i < n then i else i + 1) && RowMirrored(fold, rest, merged, i)
  {
    hide TagKey;
    var rest, merged := reg[..n] + reg[n + 1..], Renamed(v, KeyAt(fold, reg, n), toKey, to, true);
    forall i | 0 <= i < |rest|
      ensures KeyAt(fold, rest, i) == KeyAt(fold, reg, if i < n then i else i + 1)
      ensures RowMirrored(fold, rest, merged, i)
    {
      var j := if i < n then i else i + 1;
      assert rest[i] == reg[j];
      assert RowMirrored(fold, reg, v, j);
    }
  }

  lemma {:induction false} MirrorsMerge(fold: CaseFold, reg: seq<Tag>, v: View, n: nat, toKey: string, to: string)
    requires Mirrors(fold, reg, v) && n < |reg|
    ensures Mirrors(fold, reg[..n] + reg[n + 1..], Renamed(v, KeyAt(fold, reg, n), toKey, to, true))
  {
    hide TagKey;
    var fromKey := KeyAt(fold, reg, n);
    var reg', v' := reg[..n] + reg[n + 1..], Renamed(v, fromKey, toKey, to, true);
    MergeKeepsRows(fold, reg, v, n, toKey, to);
    hide RowMirrored;
    forall k | k in v'.byKey
      ensures exists i :: 0 <= i < |reg'| && KeyAt(fold, reg', i) == k
    {
      var i :| 0 <= i < |reg| && KeyAt(fold, reg, i) == k;
      var j := if i < n then i else i - 1;
      assert KeyAt(fold, reg', j) == KeyAt(fold, reg, if j < n then j else j + 1);
    }
  }

  // ----- one planned row, replayed

  /** What replaying one planned row does, and what the projection says it did. */
  ghost predicate Faithful(fold: CaseFold, reg: seq<Tag>, v: View, action: Action, next: View) {
    && Enabled(fold, reg, action)
    && Mirrors(fold, Apply(fold, reg, action), next)
    && SourceId(fold, reg, action) !! v.touched
    && next.touched == v.touched + SourceId(fold, reg, action)
    && |Apply(fold, reg, action)| == |reg| + (if action.Create? then 1 else 0) - (if action.Merge? then 1 else 0)
  }

  lemma {:induction false} RowIsFaithful(fold: CaseFold, reg: seq<Tag>, v: View, line: nat, cells: seq<string>)
    requires Mirrors(fold, reg, v)
    ensures Faithful(fold, reg, v, RowOf(fold, v, line, cells).0, RowOf(fold, v, line, cells).1)
  {
    hide TagKey, TagNameError, NormalizeTagName, Mirrors, Faithful, JoinCells, Renamed;
    var from, to := NormalizeTagName(Cell(cells, 0)), NormalizeTagName(Cell(cells, 1));
    var (action, next) := RowOf(fold, v, line, cells);
    match action
    case Create(_, _) => CreateIsFaithful(fold, reg, v, line, from);
    case Rename(_, _, _) => RenameIsFaithful(fold, reg, v, line, TagKey(fold, from), to);
    case Merge(_, _, _) => MergeIsFaithful(fold, reg, v, line, TagKey(fold, from), TagKey(fold, to), to);
    case _ => NoWriteIsFaithful(fold, reg, v, action);
  }

  lemma {:induction false} NoWriteIsFaithful(fold: CaseFold, reg: seq<Tag>, v: View, action: Action)
    requires Mirrors(fold, reg, v) && !action.Writes()
    ensures Faithful(fold, reg, v, action, v)
  {
  }

  lemma {:induction false} CreateIsFaithful(fold: CaseFold, reg: seq<Tag>, v: View, line: nat, name: string)
    requires Mirrors(fold, reg, v) && TagNameError(name).None? && TagKey(fold, name) !in v.byKey
    ensures Faithful(fold, reg, v, Create(line, name), v.(byKey := v.byKey[TagKey(fold, name) := name]))
  {
    hide TagKey, TagNameError;
    KeyKnown(fold, reg, v, TagKey(fold, name));
    MirrorsCreate(fold, reg, v, name);
  }

  lemma {:induction false} RenameIsFaithful(fold: CaseFold, reg: seq<Tag>, v: View, line: nat, fromKey: string,
                                            to: string)
    requires Mirrors(fold, reg, v) && TagNameError(to).None? && fromKey in v.byKey
    requires fromKey in v.idByKey ==> v.idByKey[fromKey] !in v.touched
    requires TagKey(fold, to) == fromKey || TagKey(fold, to) !in v.byKey
    ensures Faithful(fold, reg, v, Rename(line, v.byKey[fromKey], to), Renamed(v, fromKey, TagKey(fold, to), to, false))
  {
    hide TagKey, TagNameError;
    KeyKnown(fold, reg, v, fromKey);
    KeyKnown(fold, reg, v, TagKey(fold, to));
    var n := Find(fold, reg, fromKey);
    assert TagKey(fold, v.byKey[fromKey]) == fromKey;
    MirrorsRename(fold, reg, v, n, to);
    hide Mirrors;
  }

  lemma {:induction false} MergeIsFaithful(
      fold: CaseFold, reg: seq<Tag>, v: View, line: nat, fromKey: string, toKey: string, to: string)
    requires Mirrors(fold, reg, v) && fromKey in v.byKey && toKey in v.byKey && fromKey != toKey
    requires fromKey in v.idByKey ==> v.idByKey[fromKey] !in v.touched
    ensures Faithful(fold, reg, v, Merge(line, v.byKey[fromKey], v.byKey[toKey]), Renamed(v, fromKey, toKey, to, true))
  {
    hide TagKey, Mirrors, Enabled, Apply, SourceId, KeyAt;
    var n := MergeReads(fold, reg, v, line, fromKey, toKey);
    MirrorsMerge(fold, reg, v, n, toKey, to);
  }

  /** A merge of two tags that are there takes row `n` away and uses its id. */
  lemma {:induction false} MergeReads(
      fold: CaseFold, reg: seq<Tag>, v: View, line: nat, fromKey: string, toKey: string) returns (n: nat)
    requires Mirrors(fold, reg, v) && fromKey in v.byKey && toKey in v.byKey && fromKey != toKey
    ensures n < |reg| && KeyAt(fold, reg, n) == fromKey
    ensures var merge := Merge(line, v.byKey[fromKey], v.byKey[toKey]);
            && Enabled(fold, reg, merge) && Apply(fold, reg, merge) == reg[..n] + reg[n + 1..]
            && SourceId(fold, reg, merge) == if fromKey in v.idByKey then {v.idByKey[fromKey]} else {}
  {
    hide TagKey;
    KeyKnown(fold, reg, v, fromKey);
    KeyKnown(fold, reg, v, toKey);
    n := Find(fold, reg, fromKey);
    assert TagKey(fold, v.byKey[fromKey]) == fromKey && TagKey(fold, v.byKey[toKey]) == toKey;
    hide Mirrors;
  }

  // ----- a whole file, replayed

  ghost predicate PlanFaithful(fold: CaseFold, reg: seq<Tag>, v: View, actions: seq<Action>, last: View) {
    && AllEnabled(fold, reg, actions)
    && SourcesOnce(fold, reg, actions, v.touched)
    && Mirrors(fold, Replay(fold, reg, actions), last)
    && |Replay(fold, reg, actions)| == |reg| + |OfKinds(actions, {Creation})| - |OfKinds(actions, {Merging})|
  }

  lemma {:induction false} OneMoreRow(
      fold: CaseFold, reg: seq<Tag>, v: View, action: Action, next: View, more: seq<Action>, last: View)
    requires Faithful(fold, reg, v, action, next)
    requires PlanFaithful(fold, Apply(fold, reg, action), next, more, last)
    ensures PlanFaithful(fold, reg, v, [action] + more, last)
  {
    assert UniqueKeys(fold, Apply(fold, reg, action));
    hide Enabled, Apply, SourceId, Mirrors, UniqueKeys;
    assert ([action] + more)[1..] == more && ([action] + more)[0] == action;
  }

  lemma {:induction false} RowsAreFaithful(fold: CaseFold, reg: seq<Tag>, v: View, rows: seq<CsvRow>, index: nat)
    requires Mirrors(fold, reg, v)
    ensures PlanFaithful(fold, reg, v, RowsFrom(fold, v, rows, index).0, RowsFrom(fold, v, rows, index).1)
    decreases |rows|
  {
    if rows == [] {
    } else if index >= TAG_IMPORT_MAX_ROWS {
      var refusal := Error(rows[0].line, JoinCells(rows[0].cells), TooManyRows);
      NoWriteIsFaithful(fold, reg, v, refusal);
      OneMoreRow(fold, reg, v, refusal, v, [], v);
      assert [refusal] + [] == [refusal];
    } else {
      var (action, next) := RowOf(fold, v, rows[0].line, rows[0].cells);
      var (more, last) := RowsFrom(fold, next, rows[1..], index + 1);
      RowIsFaithful(fold, reg, v, rows[0].line, rows[0].cells);
      assert Mirrors(fold, Apply(fold, reg, action), next);
      hide PlanFaithful, Faithful, RowOf, Mirrors;
      RowsAreFaithful(fold, Apply(fold, reg, action), next, rows[1..], index + 1);
      OneMoreRow(fold, reg, v, action, next, more, last);
    }
  }

  /** The registry the plan was made against, as rows. */
  function RowsOf(registry: seq<TagDef>): seq<Tag> {
    seq(|registry|, i requires 0 <= i < |registry| => Tag(Stored(registry[i].id), registry[i].name))
  }

  lemma {:induction false} StartMirrors(fold: CaseFold, registry: seq<TagDef>)
    requires UniqueKeys(fold, RowsOf(registry))
    ensures Mirrors(fold, RowsOf(registry), ViewOf(fold, registry)) && ViewOf(fold, registry).touched == {}
  {
    if registry != [] {
      var init, last := registry[..|registry| - 1], registry[|registry| - 1];
      var rows, all := RowsOf(init), RowsOf(registry);
      assert forall i :: 0 <= i < |init| ==> rows[i] == all[i] && KeyAt(fold, rows, i) == KeyAt(fold, all, i);
      StartMirrors(fold, init);
      StartExtends(fold, rows, ViewOf(fold, init), last, all, ViewOf(fold, registry));
    }
  }

  lemma {:induction false} StartExtends(fold: CaseFold, rows: seq<Tag>, v: View, last: TagDef, all: seq<Tag>, w: View)
    requires Mirrors(fold, rows, v) && all == rows + [Tag(Stored(last.id), last.name)] && UniqueKeys(fold, all)
    requires var key := TagKey(fold, last.name);
             w == View(v.byKey[key := last.name], v.idByKey[key := last.id], {})
    ensures Mirrors(fold, all, w)
  {
    var key := TagKey(fold, last.name);
    assert KeyAt(fold, all, |rows|) == key;
    forall i | 0 <= i < |rows|
      ensures KeyAt(fold, all, i) == KeyAt(fold, rows, i) && RowMirrored(fold, all, w, i)
    {
      assert RowMirrored(fold, rows, v, i);
      assert KeyAt(fold, all, i) != KeyAt(fold, all, |rows|);
    }
    assert RowMirrored(fold, all, w, |rows|);
    forall k | k in w.byKey
      ensures exists i :: 0 <= i < |all| && KeyAt(fold, all, i) == k
    {
      if k != key {
        var i :| 0 <= i < |rows| && KeyAt(fold, rows, i) == k;
        assert KeyAt(fold, all, i) == k;
      }
    }
  }

  /**
    * Replayed in order on the registry it was planned against, every create, rename and merge finds
    * what it needs, keys stay unique throughout, no stored tag is renamed or merged away twice, and
    * the registry grows by the creates and shrinks by the merges.
    */
  lemma {:induction false} PlanIsFaithful(fold: CaseFold, csv: string, registry: seq<TagDef>)
    requires UniqueKeys(fold, RowsOf(registry))
    ensures var actions := PlanOf(fold, csv, registry);
            var final := Replay(fold, RowsOf(registry), actions);
            && AllEnabled(fold, RowsOf(registry), actions)
            && SourcesOnce(fold, RowsOf(registry), actions, {})
            && UniqueKeys(fold, final)
            && |final| == |registry| + |OfKinds(actions, {Creation})| - |OfKinds(actions, {Merging})|
  {
    StartMirrors(fold, registry);
    RowsAreFaithful(fold, RowsOf(registry), ViewOf(fold, registry), Body(fold, Rows(csv)), 0);
  }

  /** A plan without writes changes nothing. */
  lemma {:induction false} NoWritesNoChange(fold: CaseFold, reg: seq<Tag>, actions: seq<Action>)
    requires OfKinds(actions, WRITING) == []
    ensures Replay(fold, reg, actions) == reg
    decreases |actions|
  {
    if actions != [] {
      NoWritesNoChange(fold, Apply(fold, reg, actions[0]), actions[1..]);
    }
  }

  // ----- the plan without a projection

  /** One row planned straight off the tag list, given the stored tags the file has already used as sources. */
  function ReadRow(fold: CaseFold, reg: seq<Tag>, used: set<string>, line: nat, cells: seq<string>): Action {
    var input := JoinCells(cells);
    var from, to := NormalizeTagName(Cell(cells, 0)), NormalizeTagName(Cell(cells, 1));
    var i, j := Find(fold, reg, TagKey(fold, from)), Find(fold, reg, TagKey(fold, to));
    if to == "" then
      if TagNameError(from).Some? then Error(line, input, BadName(TagNameError(from).value))
      else if i < |reg| then Unchanged(line, reg[i].name)
      else Create(line, from)
    else if from == "" then Error(line, input, MissingSource)
    else if TagNameError(to).Some? then Error(line, input, BadName(TagNameError(to).value))
    else if i == |reg| then Error(line, input, NoSuchTag)
    else if reg[i].id.Stored? && reg[i].id.id in used then Error(line, input, AlreadyRenamed)
    else if reg[i].name == to then Unchanged(line, to)
    else if i != j < |reg| then Merge(line, reg[i].name, reg[j].name)
    else Rename(line, reg[i].name, to)
  }

  /** Each row read against the tags as the rows above it left them. */
  function ReadRows(fold: CaseFold, reg: seq<Tag>, used: set<string>, rows: seq<CsvRow>, index: nat): seq<Action>
    decreases |rows|
  {
    if rows == [] then []
    else if index >= TAG_IMPORT_MAX_ROWS then
      [Error(rows[0].line, JoinCells(rows[0].cells), TooManyRows)]
    else
      var action := ReadRow(fold, reg, used, rows[0].line, rows[0].cells);
      [action] + ReadRows(fold, Apply(fold, reg, action), used + SourceId(fold, reg, action), rows[1..], index + 1)
  }

  lemma {:induction false} FindsSameTag(fold: CaseFold, reg: seq<Tag>, a: string, b: string)
    ensures Find(fold, reg, a) < |reg| ==> (Find(fold, reg, a) == Find(fold, reg, b) <==> a == b)
  {
    hide TagKey;
  }

  lemma {:induction false} EmptyNameIsRefused()
    ensures TagNameError("") == Some(NameRequired)
  {
    Text.TrimIsExact("");
  }

  lemma {:induction false} RowReadsRegistry(fold: CaseFold, reg: seq<Tag>, v: View, line: nat, cells: seq<string>)
    requires Mirrors(fold, reg, v)
    ensures RowOf(fold, v, line, cells).0 == ReadRow(fold, reg, v.touched, line, cells)
  {
    hide NormalizeTagName, JoinCells, Renamed, Cell;
    var from, to := NormalizeTagName(Cell(cells, 0)), NormalizeTagName(Cell(cells, 1));
    EmptyNameIsRefused();
    KeyKnown(fold, reg, v, TagKey(fold, from));
    KeyKnown(fold, reg, v, TagKey(fold, to));
    FindsSameTag(fold, reg, TagKey(fold, from), TagKey(fold, to));
    hide TagNameError, Mirrors;
    var i := Find(fold, reg, TagKey(fold, from));
    if i < |reg| && reg[i].name == to {
      assert TagKey(fold, to) == KeyAt(fold, reg, i);
    }
    hide TagKey;
  }

  lemma {:induction false} RowsReadRegistry(fold: CaseFold, reg: seq<Tag>, v: View, rows: seq<CsvRow>, index: nat)
    requires Mirrors(fold, reg, v)
    ensures RowsFrom(fold, v, rows, index).0 == ReadRows(fold, reg, v.touched, rows, index)
    decreases |rows|
  {
    hide Mirrors, RowOf, ReadRow, Apply, SourceId, Enabled, JoinCells;
    if rows != [] && index < TAG_IMPORT_MAX_ROWS {
      var (action, next) := RowOf(fold, v, rows[0].line, rows[0].cells);
      RowReadsRegistry(fold, reg, v, rows[0].line, rows[0].cells);
      NextRowMirrors(fold, reg, v, rows[0].line, rows[0].cells);
      RowsReadRegistry(fold, Apply(fold, reg, action), next, rows[1..], index + 1);
    }
  }

  lemma {:induction false} NextRowMirrors(fold: CaseFold, reg: seq<Tag>, v: View, line: nat, cells: seq<string>)
    requires Mirrors(fold, reg, v)
    ensures var (action, next) := RowOf(fold, v, line, cells);
            && Mirrors(fold, Apply(fold, reg, action), next)
            && next.touched == v.touched + SourceId(fold, reg, action)
  {
    hide Mirrors, RowOf, Apply, SourceId, Enabled;
    RowIsFaithful(fold, reg, v, line, cells);
  }

  /** The plan is what reading the file top to bottom against the real tag list gives, rows seeing those above. */
  lemma {:induction false} PlanReadsTopToBottom(fold: CaseFold, csv: string, registry: seq<TagDef>)
    requires UniqueKeys(fold, RowsOf(registry))
    ensures PlanOf(fold, csv, registry) == ReadRows(fold, RowsOf(registry), {}, Body(fold, Rows(csv)), 0)
  {
    StartMirrors(fold, registry);
    RowsReadRegistry(fold, RowsOf(registry), ViewOf(fold, registry), Body(fold, Rows(csv)), 0);
  }
}
