/** When a gate is open, read off the item and the rules. */
module GateFields {
  import opened Options
  import opened Text
  import opened Gates
  import opened UpdateStatus

  // ----- what a gate reads

  /** An item property with this key is defined, for the workspace or for the item's product. */
  ghost predicate IsDefined(rules: Rules, productId: Option<string>, key: string) {
    exists p :: p in rules.properties && p.entity == "item" && p.key == key
                && (p.productId == None || (p.productId == productId && productId != Some("")))
  }

  /** The item holds a value under the key, and not a blank text or an empty list. */
  ghost predicate HasAnswer(subject: Subject, key: string) {
    && key in subject.customFields
    && match subject.customFields[key]
       case Unset => false
       case Text(text) => exists i :: 0 <= i < |text| && !IsSpace(text[i])
       case List(length) => length != 0
       case Other => true
  }

  lemma {:induction false} PropertiesForAre(properties: seq<Property>, productId: Option<string>)
    ensures forall p :: p in PropertiesFor(properties, productId) <==>
              p in properties && (p.productId == None || (p.productId == productId && productId != Some("")))
  {
    if properties != [] {
      PropertiesForAre(properties[1..], productId);
      assert properties == [properties[0]] + properties[1..];
    }
  }

  lemma {:induction false} BlankMeansNoInk(text: string)
    ensures Trim(text) == "" <==> forall i :: 0 <= i < |text| ==> IsSpace(text[i])
  {
    hide IsSpace, Trim;
    var a, b := TrimTakesSpace(text);
    TrimIsExact(text);
    if Trim(text) == "" {
      assert text == a + b;
    } else {
      assert !IsSpace(Trim(text)[0]) && text[|a|] == Trim(text)[0];
    }
  }

  lemma {:induction false} AnswerIsSet(subject: Subject, key: string)
    ensures HasAnswer(subject, key) <==>
              CustomValueIsSet(if key in subject.customFields then subject.customFields[key] else Unset)
  {
    hide IsSpace, Trim;
    if key in subject.customFields && subject.customFields[key].Text? {
      BlankMeansNoInk(subject.customFields[key].text);
    }
  }

  /** A custom key is in the catalog exactly when a property of that name is defined. */
  lemma {:induction false} CatalogHas(rules: Rules, productId: Option<string>, key: string)
    ensures "cf:" + key in Catalog(PropertiesFor(rules.properties, productId)) <==> IsDefined(rules, productId, key)
  {
    PropertiesForAre(rules.properties, productId);
    hide PropertiesFor;
    var fieldKey, properties := "cf:" + key, PropertiesFor(rules.properties, productId);
    assert fieldKey !in BUILTIN_FIELDS by {
      assert fieldKey[0] == 'c' && fieldKey[1] == 'f';
    }
    forall p | p in properties && p.entity == "item"
      ensures CUSTOM_PREFIX + p.key == fieldKey <==> p.key == key
    {
      assert (CUSTOM_PREFIX + p.key)[3..] == p.key && fieldKey[3..] == key;
    }
  }

  lemma {:induction false} OpenIsUnsatisfied(feature: Feature, rules: Rules, stageKeys: seq<string>, g: Gate)
    requires g in GatesCrossing(rules.gates, feature.productId, stageKeys)
    ensures g in OpenGatesOf(feature, rules, stageKeys) <==> !Satisfied(g, feature, rules)
  {
    hide Satisfied, GatesCrossing;
    UnsatisfiedAre(GatesCrossing(rules.gates, feature.productId, stageKeys), feature, rules);
  }

  /** A field gate on a built-in field is open exactly while that field is empty, whatever the others hold. */
  lemma {:induction false} BuiltInGateReadsItsField(feature: Feature, rules: Rules, stageKeys: seq<string>, g: Gate)
    requires g in GatesCrossing(rules.gates, feature.productId, stageKeys) && g.kind == Field
    ensures var open := g in OpenGatesOf(feature, rules, stageKeys);
            && (g.fieldKey == Some("assignee") ==> (open <==> feature.subject.assigneeId == None))
            && (g.fieldKey == Some("release") ==> (open <==> feature.subject.releaseId == None))
            && (g.fieldKey == Some("cycle") ==> (open <==> feature.subject.cycleId == None))
            && (g.fieldKey == Some("parent") ==> (open <==> feature.subject.parentId == None))
            && (g.fieldKey == Some("tags") ==> (open <==> feature.subject.tags == []))
  {
    hide GatesCrossing, OpenGatesOf, PropertiesFor;
    OpenIsUnsatisfied(feature, rules, stageKeys, g);
    BuiltInsAreNotCustom();
  }

  lemma {:induction false} BuiltInsAreNotCustom()
    ensures forall key :: key in BUILTIN_FIELDS ==> !(CUSTOM_PREFIX <= key)
  {
    assert "assignee"[0] != 'c' && "release"[0] != 'c' && "cycle"[1] != 'f' && "parent"[0] != 'c' && "tags"[0] != 'c';
  }

  /** A field gate on a custom property is closed exactly when the property is defined and the item has an answer. */
  lemma {:induction false} CustomGateReadsItsField(
      feature: Feature, rules: Rules, stageKeys: seq<string>, g: Gate, key: string)
    requires g in GatesCrossing(rules.gates, feature.productId, stageKeys)
    requires g.kind == Field && g.fieldKey == Some("cf:" + key)
    ensures g !in OpenGatesOf(feature, rules, stageKeys) <==>
              IsDefined(rules, feature.productId, key) && HasAnswer(feature.subject, key)
  {
    hide GatesCrossing, OpenGatesOf, PropertiesFor, HasAnswer, IsDefined;
    OpenIsUnsatisfied(feature, rules, stageKeys, g);
    CatalogHas(rules, feature.productId, key);
    AnswerIsSet(feature.subject, key);
    hide Catalog, CustomValueIsSet;
    assert ("cf:" + key)[|CUSTOM_PREFIX|..] == key;
  }

  /** Any other field gate is open, and a checklist gate is open until this item has completed it. */
  lemma {:induction false} OtherGates(feature: Feature, rules: Rules, stageKeys: seq<string>, g: Gate)
    requires g in GatesCrossing(rules.gates, feature.productId, stageKeys)
    ensures var names := match g.fieldKey case None => false case Some(key) => key in BUILTIN_FIELDS || "cf:" <= key;
            g.kind == Field && !names ==> g in OpenGatesOf(feature, rules, stageKeys)
    ensures g.kind == Checklist ==>
              (g in OpenGatesOf(feature, rules, stageKeys) <==> Completion(feature.id, g.id) !in rules.completions)
  {
    hide GatesCrossing, OpenGatesOf, PropertiesFor, Catalog;
    OpenIsUnsatisfied(feature, rules, stageKeys, g);
  }

  // ----- in row order

  /** The elements with a property, in order. */
  ghost function Filtered<T>(s: seq<T>, keep: T -> bool): seq<T> {
    if s == [] then []
    else Filtered(s[..|s| - 1], keep) + if keep(s[|s| - 1]) then [s[|s| - 1]] else []
  }

  lemma {:induction false} FilteredCons<T>(x: T, s: seq<T>, keep: T -> bool)
    ensures Filtered([x] + s, keep) == (if keep(x) then [x] else []) + Filtered(s, keep)
    decreases |s|
  {
    if s == [] {
      assert [x] + s == [x] && [x][..0] == [];
    } else {
      assert ([x] + s)[..|s|] == [x] + s[..|s| - 1];
      FilteredCons(x, s[..|s| - 1], keep);
    }
  }

  lemma {:induction false} UnsatisfiedIsFilter(gates: seq<Gate>, feature: Feature, rules: Rules)
    ensures Unsatisfied(gates, feature, rules) == Filtered(gates, g => !Satisfied(g, feature, rules))
  {
    if gates != [] {
      UnsatisfiedIsFilter(gates[1..], feature, rules);
      assert gates == [gates[0]] + gates[1..];
      FilteredCons(gates[0], gates[1..], g => !Satisfied(g, feature, rules));
    }
  }

  lemma {:induction false} FilteredTwice<T>(s: seq<T>, keep: T -> bool, also: T -> bool, both: T -> bool)
    requires forall x :: both(x) <==> keep(x) && also(x)
    ensures Filtered(Filtered(s, keep), also) == Filtered(s, both)
    decreases |s|
  {
    if s != [] {
      var init, last := s[..|s| - 1], s[|s| - 1];
      FilteredTwice(init, keep, also, both);
      if keep(last) {
        assert (Filtered(init, keep) + [last])[..|Filtered(init, keep)|] == Filtered(init, keep);
      } else {
        assert Filtered(init, keep) + [] == Filtered(init, keep);
      }
    }
  }

  lemma {:induction false} FilteredNone<T>(s: seq<T>, keep: T -> bool)
    requires forall x :: !keep(x)
    ensures Filtered(s, keep) == []
    decreases |s|
  {
    if s != [] {
      FilteredNone(s[..|s| - 1], keep);
    }
  }

  lemma {:induction false} OfProductIsFilter(rows: seq<Gate>, productId: Option<string>)
    ensures OfProduct(rows, productId) == Filtered(rows, (g: Gate) => g.productId == productId)
  {
    if rows != [] {
      OfProductIsFilter(rows[1..], productId);
      assert rows == [rows[0]] + rows[1..];
      FilteredCons(rows[0], rows[1..], (g: Gate) => g.productId == productId);
    }
  }

  lemma {:induction false} OnStagesIsFilter(rows: seq<Gate>, stages: set<string>)
    ensures OnStages(rows, stages) == Filtered(rows, (g: Gate) => g.stageKey in stages)
  {
    if rows != [] {
      OnStagesIsFilter(rows[1..], stages);
      assert rows == [rows[0]] + rows[1..];
      FilteredCons(rows[0], rows[1..], (g: Gate) => g.stageKey in stages);
    }
  }

  /** The product whose gates govern: the item's own when it has any, else none, which is the workspace. */
  ghost function Governing(rows: seq<Gate>, productId: Option<string>): Option<string> {
    if productId != Some("") && exists g :: g in rows && g.productId == productId then productId else None
  }

  lemma {:induction false} GatesInScopeAre(rows: seq<Gate>, productId: Option<string>)
    ensures GatesInScope(rows, productId) == OfProduct(rows, Governing(rows, productId))
  {
    hide OfProduct;
    SomeOfProduct(rows, productId);
  }

  /** The crossed gates are the governing ones on the crossed stages, in row order. */
  lemma {:induction false} GatesCrossingInOrder(rows: seq<Gate>, productId: Option<string>, stageKeys: seq<string>)
    ensures GatesCrossing(rows, productId, stageKeys) ==
            Filtered(rows, (g: Gate) => g.productId == Governing(rows, productId) && g.stageKey in stageKeys)
  {
    hide GatesInScope, Governing, OnStages, OfProduct, Filtered;
    var governing, stages := Governing(rows, productId), set k | k in stageKeys;
    var ours, on := (g: Gate) => g.productId == governing, (g: Gate) => g.stageKey in stages;
    var both := (g: Gate) => g.productId == governing && g.stageKey in stageKeys;
    GatesInScopeAre(rows, productId);
    OfProductIsFilter(rows, governing);
    OnStagesIsFilter(OfProduct(rows, governing), stages);
    FilteredTwice(rows, ours, on, both);
    if stages == {} {
      forall g
        ensures !both(g)
      {
        assert g.stageKey in stageKeys ==> g.stageKey in stages;
      }
      FilteredNone(rows, both);
    }
  }

  /** What blocks a move is listed in row order, each row as often as it is there. */
  lemma {:induction false} OpenGatesInOrder(feature: Feature, rules: Rules, stageKeys: seq<string>)
    ensures OpenGatesOf(feature, rules, stageKeys) ==
            Filtered(rules.gates, (g: Gate) =>
              && g.productId == Governing(rules.gates, feature.productId) && g.stageKey in stageKeys
              && !Satisfied(g, feature, rules))
  {
    hide GatesCrossing, Governing, Satisfied, Unsatisfied, Filtered;
    var governing := Governing(rules.gates, feature.productId);
    var crosses := (g: Gate) => g.productId == governing && g.stageKey in stageKeys;
    var open := (g: Gate) => !Satisfied(g, feature, rules);
    var both := (g: Gate) =>
      g.productId == governing && g.stageKey in stageKeys && !Satisfied(g, feature, rules);
    GatesCrossingInOrder(rules.gates, feature.productId, stageKeys);
    UnsatisfiedIsFilter(GatesCrossing(rules.gates, feature.productId, stageKeys), feature, rules);
    FilteredTwice(rules.gates, crosses, open, both);
  }
}
