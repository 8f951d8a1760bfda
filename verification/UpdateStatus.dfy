/** The status-move tool: checks one after the other, then one write. */
module UpdateStatus {
  import opened Options
  import opened Status
  import opened Gates

  datatype Feature = Feature(id: string, productId: Option<string>, status: string, subject: Subject)

  datatype Completion = Completion(featureId: string, gateId: string)

  /** What the tool reads besides the feature itself. */
  datatype Rules = Rules(gates: seq<Gate>, completions: seq<Completion>, properties: seq<Property>)

  datatype Outcome =
    | NotFound
    | Forbidden
    | IllegalTransition
    | Blocked(open: seq<Gate>)
    | Moved

  // ----- openGates

  /** The properties an item of this product has: its product's own and the workspace's. */
  function PropertiesFor(properties: seq<Property>, productId: Option<string>): seq<Property> {
    if properties == [] then []
    else
      var p := properties[0];
      (if p.productId.None? || (productId.Some? && productId.value != "" && p.productId == productId) then [p] else [])
      + PropertiesFor(properties[1..], productId)
  }

  predicate Satisfied(g: Gate, feature: Feature, rules: Rules) {
    if g.kind == Field then
      var catalog := Catalog(PropertiesFor(rules.properties, feature.productId));
      g.fieldKey.Some? && g.fieldKey.value != "" && FieldGateSatisfied(g.fieldKey.value, feature.subject, catalog)
    else Completion(feature.id, g.id) in rules.completions
  }

  function Unsatisfied(gates: seq<Gate>, feature: Feature, rules: Rules): seq<Gate> {
    if gates == [] then []
    else (if Satisfied(gates[0], feature, rules) then [] else [gates[0]]) + Unsatisfied(gates[1..], feature, rules)
  }

  function OpenGatesOf(feature: Feature, rules: Rules, stageKeys: seq<string>): seq<Gate> {
    Unsatisfied(GatesCrossing(rules.gates, feature.productId, stageKeys), feature, rules)
  }

  method OpenGates(feature: Feature, rules: Rules, stageKeys: seq<string>) returns (open: seq<Gate>)
    ensures open == OpenGatesOf(feature, rules, stageKeys)
  {
    hide FieldGateSatisfied, GatesCrossing, Catalog, PropertiesFor, Unsatisfied;
    var gates := GatesCrossing(rules.gates, feature.productId, stageKeys);
    var done := CompletedBy(rules.completions, feature.id);
    var catalog := Catalog(PropertiesFor(rules.properties, feature.productId));
    open := [];
    assert gates[0..] == gates;
    for i := 0 to |gates|
      invariant open + Unsatisfied(gates[i..], feature, rules) == Unsatisfied(gates, feature, rules)
    {
      UnsatisfiedFrom(gates, feature, rules, i);
      var g := gates[i];
      var met :=
        if g.kind == Field then
          g.fieldKey.Some? && g.fieldKey.value != "" && FieldGateSatisfied(g.fieldKey.value, feature.subject, catalog)
        else g.id in done;
      assert met == Satisfied(g, feature, rules);
      if !met {
        open := open + [g];
      }
    }
    UnsatisfiedFrom(gates, feature, rules, |gates|);
  }

  lemma {:induction false} UnsatisfiedFrom(gates: seq<Gate>, feature: Feature, rules: Rules, i: nat)
    requires i <= |gates|
    ensures gates[0..] == gates
    ensures Unsatisfied(gates[i..], feature, rules) ==
            if i == |gates| then []
            else (if Satisfied(gates[i], feature, rules) then [] else [gates[i]])
                 + Unsatisfied(gates[i + 1..], feature, rules)
  {
    hide Satisfied;
    if i < |gates| {
      assert gates[i..][1..] == gates[i + 1..];
    }
  }

  /** `done`: the ids of the gates this feature has completed. */
  method CompletedBy(completions: seq<Completion>, featureId: string) returns (done: set<string>)
    ensures forall id :: id in done <==> Completion(featureId, id) in completions
  {
    done := {};
    for i := 0 to |completions|
      invariant forall id :: id in done <==> Completion(featureId, id) in completions[..i]
    {
      assert completions[..i + 1] == completions[..i] + [completions[i]];
      if completions[i].featureId == featureId {
        done := done + {completions[i].gateId};
      }
    }
    assert completions[..|completions|] == completions;
  }

  // ----- update_status

  /** The stages a forward move passes: its source up to, not including, its target. */
  function PassedStages(w: Workflow, from: string, to: string): seq<string>
    requires IsForwardTransition(from, to, w)
  {
    w.statuses[IndexOf(w.statuses, from)..IndexOf(w.statuses, to)]
  }

  function Decide(w: Workflow, canWrite: bool, feature: Feature, rules: Rules, status: string): Outcome {
    if !canWrite then Forbidden
    else if !CanTransition(feature.status, status, w) then IllegalTransition
    else if IsForwardTransition(feature.status, status, w) then
      var open := OpenGatesOf(feature, rules, PassedStages(w, feature.status, status));
      if open != [] then Blocked(open) else Moved
    else Moved
  }

  /** The stored row and what the tool reads beside it. */
  class Store {
    var feature: Option<Feature>
    var rules: Rules

    constructor (feature: Option<Feature>, rules: Rules)
      ensures this.feature == feature && this.rules == rules
    {
      this.feature, this.rules := feature, rules;
    }

    method Update(w: Workflow, canWrite: bool, status: string) returns (outcome: Outcome)
      modifies this`feature
      ensures old(feature).None? ==> outcome == NotFound && feature.None?
      ensures old(feature).Some? ==> outcome == Decide(w, canWrite, old(feature).value, rules, status)
      ensures old(feature).Some? ==>
                feature == Some(if outcome == Moved then old(feature).value.(status := status) else old(feature).value)
    {
      if feature.None? {
        return NotFound;
      }
      var row := feature.value;
      if !canWrite {
        return Forbidden;
      }
      if !CanTransition(row.status, status, w) {
        return IllegalTransition;
      }
      if IsForwardTransition(row.status, status, w) {
        var fromIndex, toIndex := IndexOf(w.statuses, row.status), IndexOf(w.statuses, status);
        var open := OpenGates(row, rules, w.statuses[fromIndex..toIndex]);
        if |open| > 0 {
          return Blocked(open);
        }
      }
      feature := Some(row.(status := status));
      return Moved;
    }
  }

  // ----- what an accepted move has checked

  lemma {:induction false} UnsatisfiedAre(gates: seq<Gate>, feature: Feature, rules: Rules)
    ensures forall g :: g in Unsatisfied(gates, feature, rules) <==> g in gates && !Satisfied(g, feature, rules)
  {
    if gates != [] {
      UnsatisfiedAre(gates[1..], feature, rules);
      assert gates == [gates[0]] + gates[1..];
    }
  }

  /** Every gate in scope on one stage is met. */
  ghost predicate GatesMet(feature: Feature, rules: Rules, stage: string) {
    forall g :: g in GatesInScope(rules.gates, feature.productId) && g.stageKey == stage ==>
      Satisfied(g, feature, rules)
  }

  /**
    * A permitted forward move goes through exactly when every gate in scope on every stage it passes
    * is met, including the stages it jumps over.
    */
  lemma {:induction false} ForwardMoveChecksEveryStage(w: Workflow, feature: Feature, rules: Rules, status: string)
    requires CanTransition(feature.status, status, w) && IsForwardTransition(feature.status, status, w)
    ensures Decide(w, true, feature, rules, status) == Moved <==>
              forall s :: s in PassedStages(w, feature.status, status) ==> GatesMet(feature, rules, s)
  {
    var passed := PassedStages(w, feature.status, status);
    var crossing := GatesCrossing(rules.gates, feature.productId, passed);
    var open := OpenGatesOf(feature, rules, passed);
    assert passed[0] in (set k | k in passed);
    OnStagesAre(GatesInScope(rules.gates, feature.productId), set k | k in passed);
    UnsatisfiedAre(crossing, feature, rules);
    hide OnStages, OfProduct, Satisfied, Unsatisfied;
    if open != [] {
      assert open[0] in open && open[0].stageKey in passed;
      assert !GatesMet(feature, rules, open[0].stageKey);
    } else {
      forall s, g | s in passed && g in GatesInScope(rules.gates, feature.productId) && g.stageKey == s
        ensures Satisfied(g, feature, rules)
      {
        assert g in crossing && g !in open;
      }
    }
  }

  /** `a` comes before `b` among the statuses. */
  ghost predicate ComesBefore(statuses: seq<string>, a: string, b: string) {
    exists i, j :: 0 <= i < j < |statuses| && statuses[i] == a && statuses[j] == b
                   && a !in statuses[..i] && b !in statuses[..j]
  }

  lemma {:induction false} ForwardIsLater(w: Workflow, from: string, to: string)
    ensures IsForwardTransition(from, to, w) <==> from != to && to != ARCHIVED && ComesBefore(w.statuses, from, to)
  {
    var i, j := IndexOf(w.statuses, from), IndexOf(w.statuses, to);
    if from in w.statuses && to in w.statuses {
      assert w.statuses[i] == from && w.statuses[j] == to;
      assert from !in w.statuses[..i] && to !in w.statuses[..j];
      if i', j' :| 0 <= i' < j' < |w.statuses| && w.statuses[i'] == from && w.statuses[j'] == to
                   && from !in w.statuses[..i'] && to !in w.statuses[..j'] {
        FirstPlace(w.statuses, from, i');
        FirstPlace(w.statuses, to, j');
      }
    }
  }

  lemma {:induction false} FirstPlace(statuses: seq<string>, s: string, i: nat)
    requires i < |statuses| && statuses[i] == s && s !in statuses[..i]
    ensures IndexOf(statuses, s) == i
  {
    assert forall j :: 0 <= j < i ==> statuses[j] in statuses[..i];
  }

  /** What the checks come to, each where no earlier one failed: permission, then the transition, then the gates. */
  lemma {:induction false} ChecksInOrder(w: Workflow, canWrite: bool, feature: Feature, rules: Rules, status: string)
    ensures var outcome, from := Decide(w, canWrite, feature, rules, status), feature.status;
            var legal := from == status || (from in w.transitions && status in w.transitions[from]);
            && (outcome == Forbidden <==> !canWrite)
            && (outcome == IllegalTransition <==> canWrite && !legal)
            && (outcome.Blocked? ==> canWrite && legal && status != ARCHIVED && ComesBefore(w.statuses, from, status))
            && (outcome.Blocked? ==> outcome.open != [])
            && (canWrite && legal && !outcome.Blocked? ==> outcome == Moved)
    ensures canWrite && feature.status == status ==> Decide(w, canWrite, feature, rules, status) == Moved
  {
    hide ComesBefore, OpenGatesOf, IndexOf;
    ForwardIsLater(w, feature.status, status);
  }
}
