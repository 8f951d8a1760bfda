/** Status workflows: their stages and transitions. */
module Status {
  import opened Options

  const ARCHIVED := "archived"

  const DEFAULT_STAGES: seq<string> := ["backlog", "defining", "ready", "in_progress", "in_review", "done"]

  const DEFAULT_TRANSITIONS: map<string, seq<string>> := map[
    "backlog" := ["defining", "archived"],
    "defining" := ["ready", "backlog", "archived"],
    "ready" := ["in_progress", "defining", "archived"],
    "in_progress" := ["in_review", "ready", "archived"],
    "in_review" := ["done", "in_progress", "archived"],
    "done" := ["archived", "in_progress"],
    "archived" := ["backlog"]
  ]

  datatype TransitionMode = Strict | Flexible

  datatype Workflow = Workflow(statuses: seq<string>, transitions: map<string, seq<string>>)
  {
    /** `transitions[from] ?? []` */
    function Out(from: string): seq<string> {
      if from in transitions then transitions[from] else []
    }
  }

  predicate CanTransition(from: string, to: string, w: Workflow) {
    from == to || to in w.Out(from)
  }

  /** `indexOf`, with the length standing for "not there". */
  function IndexOf(statuses: seq<string>, s: string): (i: nat)
    ensures i <= |statuses|
    ensures i < |statuses| ==> statuses[i] == s
    ensures forall j :: 0 <= j < i ==> statuses[j] != s
  {
    if statuses == [] || statuses[0] == s then 0 else 1 + IndexOf(statuses[1..], s)
  }

  predicate IsForwardTransition(from: string, to: string, w: Workflow) {
    && from != to && to != ARCHIVED
    && from in w.statuses && to in w.statuses
    && IndexOf(w.statuses, from) < IndexOf(w.statuses, to)
  }

  // ----- building a workflow

  function Others(stages: seq<string>, k: string): seq<string> {
    if stages == [] then []
    else (if stages[0] == k then [] else [stages[0]]) + Others(stages[1..], k)
  }

  lemma {:induction false} OthersAre(stages: seq<string>, k: string)
    ensures forall s :: s in Others(stages, k) <==> s in stages && s != k
  {
    if stages != [] {
      OthersAre(stages[1..], k);
      assert stages == [stages[0]] + stages[1..];
    }
  }

  /** Every stage reaches every other. */
  function FlexibleTransitions(stages: seq<string>): map<string, seq<string>> {
    map k | k in stages :: Others(stages, k)
  }

  /** One step forward, one step back, or archive. */
  function StepOf(stages: seq<string>, i: nat): seq<string>
    requires i < |stages|
  {
    (if i + 1 < |stages| && stages[i + 1] != "" then [stages[i + 1]] else [])
    + (if i > 0 && stages[i - 1] != "" then [stages[i - 1]] else [])
    + [ARCHIVED]
  }

  /** The transitions the loop has entered for the first `n` stages. */
  function PipelineSoFar(stages: seq<string>, n: nat): map<string, seq<string>>
    requires n <= |stages|
  {
    if n == 0 then map[] else PipelineSoFar(stages, n - 1)[stages[n - 1] := StepOf(stages, n - 1)]
  }

  function StrictOf(stages: seq<string>): map<string, seq<string>> {
    if stages == DEFAULT_STAGES then DEFAULT_TRANSITIONS
    else PipelineSoFar(stages, |stages|)[ARCHIVED := if stages != [] && stages[0] != "" then [stages[0]] else []]
  }

  method StrictTransitions(stages: seq<string>) returns (transitions: map<string, seq<string>>)
    ensures transitions == StrictOf(stages)
  {
    if stages == DEFAULT_STAGES {
      return DEFAULT_TRANSITIONS;
    }
    transitions := map[];
    for i := 0 to |stages|
      invariant transitions == PipelineSoFar(stages, i)
    {
      var step: seq<string> := [];
      if i + 1 < |stages| && stages[i + 1] != "" {
        step := step + [stages[i + 1]];
      }
      if i > 0 && stages[i - 1] != "" {
        step := step + [stages[i - 1]];
      }
      step := step + [ARCHIVED];
      assert step == StepOf(stages, i);
      transitions := transitions[stages[i] := step];
    }
    transitions := transitions[ARCHIVED := if stages != [] && stages[0] != "" then [stages[0]] else []];
  }

  /** The workflow over admin-defined stages, with the system status appended. */
  function WorkflowFromStages(keys: seq<string>, mode: TransitionMode): Option<Workflow> {
    if |keys| < 2 then None
    else
      var withArchived := keys + [ARCHIVED];
      Some(Workflow(withArchived, if mode == Flexible then FlexibleTransitions(withArchived) else StrictOf(keys)))
  }

  /** A workflow needs two stages; its statuses are the stages and `archived`. */
  lemma {:induction false} WorkflowExactly(keys: seq<string>, mode: TransitionMode)
    ensures |keys| < 2 <==> WorkflowFromStages(keys, mode) == None
    ensures |keys| >= 2 ==> WorkflowFromStages(keys, mode).value.statuses == keys + ["archived"]
  {
  }

  /** In flexible mode every status goes to every other one and to no other. */
  lemma {:induction false} FlexibleNeighbours(keys: seq<string>, u: string, v: string)
    requires |keys| >= 2
    ensures var w := WorkflowFromStages(keys, Flexible).value;
            v in w.Out(u) <==> u in w.statuses && v in w.statuses && u != v
  {
    OthersAre(keys + [ARCHIVED], u);
  }
}
