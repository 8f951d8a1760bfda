/** Stage gates: which ones a move has to satisfy, and when one is satisfied. */
module Gates {
  import opened Options
  import opened Text

  datatype Kind = Checklist | Field

  datatype Gate = Gate(id: string, kind: Kind, fieldKey: Option<string>, productId: Option<string>, stageKey: string)

  // ----- which gates

  /** The rows of one scope, in row order. */
  function OfProduct(rows: seq<Gate>, productId: Option<string>): seq<Gate> {
    if rows == [] then []
    else (if rows[0].productId == productId then [rows[0]] else []) + OfProduct(rows[1..], productId)
  }

  function OnStages(rows: seq<Gate>, stages: set<string>): seq<Gate> {
    if rows == [] then []
    else (if rows[0].stageKey in stages then [rows[0]] else []) + OnStages(rows[1..], stages)
  }

  /** The product's own rows if there are any, else the rows without a product. */
  function GatesInScope(rows: seq<Gate>, productId: Option<string>): seq<Gate> {
    var own := if productId.Some? && productId.value != "" then OfProduct(rows, productId) else [];
    if own != [] then own else OfProduct(rows, None)
  }

  /** Inheritance first, over the whole set; only then the stages being crossed. */
  function GatesCrossing(rows: seq<Gate>, productId: Option<string>, stageKeys: seq<string>): seq<Gate> {
    var crossed := set k | k in stageKeys;
    if crossed == {} then [] else OnStages(GatesInScope(rows, productId), crossed)
  }

  lemma {:induction false} OfProductAre(rows: seq<Gate>, productId: Option<string>)
    ensures forall g :: g in OfProduct(rows, productId) <==> g in rows && g.productId == productId
  {
    if rows != [] {
      OfProductAre(rows[1..], productId);
      assert rows == [rows[0]] + rows[1..];
    }
  }

  lemma {:induction false} OnStagesAre(rows: seq<Gate>, stages: set<string>)
    ensures forall g :: g in OnStages(rows, stages) <==> g in rows && g.stageKey in stages
  {
    if rows != [] {
      OnStagesAre(rows[1..], stages);
      assert rows == [rows[0]] + rows[1..];
    }
  }

  /** A crossed gate sits on a crossed stage, in the product's own set or, if that is empty, the workspace's. */
  lemma {:induction false} GatesCrossingAre(rows: seq<Gate>, productId: Option<string>, stageKeys: seq<string>, g: Gate)
    ensures g in GatesCrossing(rows, productId, stageKeys) <==>
              && g in rows && g.stageKey in stageKeys
              && var governed := productId.Some? && productId.value != ""
                               && exists r :: r in rows && r.productId == productId;
                 g.productId == if governed then productId else None
  {
    hide OfProduct, OnStages;
    OfProductAre(rows, productId);
    OfProductAre(rows, None);
    OnStagesAre(GatesInScope(rows, productId), set k | k in stageKeys);
    SomeOfProduct(rows, productId);
  }

  /** The order the code warns about: narrow to the stages first, then inherit. */
  function NarrowThenInherit(rows: seq<Gate>, productId: Option<string>, stageKeys: seq<string>): seq<Gate> {
    GatesInScope(OnStages(rows, set k | k in stageKeys), productId)
  }

  lemma {:induction false} FiltersCommute(rows: seq<Gate>, productId: Option<string>, stages: set<string>)
    ensures OfProduct(OnStages(rows, stages), productId) == OnStages(OfProduct(rows, productId), stages)
  {
    if rows != [] {
      FiltersCommute(rows[1..], productId, stages);
      var r, on, of := rows[0], OnStages(rows[1..], stages), OfProduct(rows[1..], productId);
      assert ([r] + on)[1..] == on && ([r] + of)[1..] == of;
      assert [] + on == on && [] + of == of;
    }
  }

  lemma {:induction false} SomeOfProduct(rows: seq<Gate>, productId: Option<string>)
    ensures OfProduct(rows, productId) != [] <==> exists g :: g in rows && g.productId == productId
  {
    hide OfProduct;
    OfProductAre(rows, productId);
    if OfProduct(rows, productId) != [] {
      assert OfProduct(rows, productId)[0] in OfProduct(rows, productId);
    }
  }

  lemma {:induction false} SomeOnStages(rows: seq<Gate>, productId: Option<string>, stages: set<string>)
    ensures OnStages(OfProduct(rows, productId), stages) != [] <==>
              exists g :: g in rows && g.productId == productId && g.stageKey in stages
  {
    hide OfProduct, OnStages;
    var of := OfProduct(rows, productId);
    OfProductAre(rows, productId);
    OnStagesAre(of, stages);
    if OnStages(of, stages) != [] {
      assert OnStages(of, stages)[0] in OnStages(of, stages);
    }
  }

  lemma {:induction false} OrdersDiffer(rows: seq<Gate>, productId: Option<string>, stageKeys: seq<string>)
    requires stageKeys != []
    ensures var own, all, crossed := OfProduct(rows, productId), OfProduct(rows, None), set k | k in stageKeys;
            NarrowThenInherit(rows, productId, stageKeys) != GatesCrossing(rows, productId, stageKeys) <==>
              && productId.Some? && productId.value != ""
              && own != [] && OnStages(own, crossed) == [] && OnStages(all, crossed) != []
  {
    var crossed := set k | k in stageKeys;
    assert stageKeys[0] in crossed;
    FiltersCommute(rows, productId, crossed);
    FiltersCommute(rows, None, crossed);
    EmptyOnStages(crossed);
    hide OfProduct, OnStages;
  }

  lemma {:induction false} EmptyOnStages(stages: set<string>)
    ensures OnStages([], stages) == []
  {
  }

  /** The orders differ exactly when the product has gates, none crossed, and the workspace has one crossed. */
  lemma {:induction false} OrderMatters(rows: seq<Gate>, productId: Option<string>, stageKeys: seq<string>)
    requires stageKeys != []
    ensures NarrowThenInherit(rows, productId, stageKeys) != GatesCrossing(rows, productId, stageKeys) <==>
              && productId.Some? && productId.value != ""
              && (exists g :: g in rows && g.productId == productId)
              && (forall g :: g in rows && g.productId == productId ==> g.stageKey !in stageKeys)
              && (exists g :: g in rows && g.productId == None && g.stageKey in stageKeys)
  {
    hide OfProduct, OnStages, NarrowThenInherit, GatesCrossing;
    var crossed := set k | k in stageKeys;
    OrdersDiffer(rows, productId, stageKeys);
    SomeOfProduct(rows, productId);
    SomeOnStages(rows, productId, crossed);
    SomeOnStages(rows, None, crossed);
  }

  // ----- when a gate is satisfied

  datatype CustomValue = Unset | Text(text: string) | List(length: nat) | Other

  datatype Subject = Subject(
    assigneeId: Option<string>, releaseId: Option<string>, cycleId: Option<string>, parentId: Option<string>,
    tags: seq<string>, customFields: map<string, CustomValue>)

  const CUSTOM_PREFIX := "cf:"

  const BUILTIN_FIELDS: set<string> := {"assignee", "release", "cycle", "parent", "tags"}

  datatype Property = Property(key: string, entity: string, productId: Option<string>)

  /** The fields a gate may require: the built-in ones and the item properties, prefixed. */
  function Catalog(properties: seq<Property>): set<string> {
    BUILTIN_FIELDS + set p | p in properties && p.entity == "item" :: CUSTOM_PREFIX + p.key
  }

  predicate CustomValueIsSet(v: CustomValue) {
    match v
    case Unset => false
    case Text(text) => Trim(text) != ""
    case List(length) => length > 0
    case Other => true
  }

  predicate FieldGateSatisfied(fieldKey: string, subject: Subject, catalog: set<string>) {
    if fieldKey !in catalog then false
    else if CUSTOM_PREFIX <= fieldKey then
      var key := fieldKey[|CUSTOM_PREFIX|..];
      CustomValueIsSet(if key in subject.customFields then subject.customFields[key] else Unset)
    else if fieldKey == "assignee" then subject.assigneeId.Some?
    else if fieldKey == "release" then subject.releaseId.Some?
    else if fieldKey == "cycle" then subject.cycleId.Some?
    else if fieldKey == "parent" then subject.parentId.Some?
    else if fieldKey == "tags" then subject.tags != []
    else false
  }

  /** A gate naming a field that left the catalog can never be met by filling anything in. */
  lemma {:induction false} DeletedFieldBlocks(key: string, subject: Subject, properties: seq<Property>)
    requires forall p :: p in properties && p.entity == "item" ==> p.key != key
    ensures !FieldGateSatisfied(CUSTOM_PREFIX + key, subject, Catalog(properties))
  {
    var fieldKey := CUSTOM_PREFIX + key;
    assert fieldKey !in BUILTIN_FIELDS by {
      assert fieldKey[0] == 'c' && fieldKey[1] == 'f';
    }
    forall p | p in properties && p.entity == "item"
      ensures CUSTOM_PREFIX + p.key != fieldKey
    {
      assert (CUSTOM_PREFIX + p.key)[|CUSTOM_PREFIX|..] == p.key && fieldKey[|CUSTOM_PREFIX|..] == key;
    }
  }
}
