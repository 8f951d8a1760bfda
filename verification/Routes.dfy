/** Routes through the workflows that `workflowFromStages` builds. */
module Routes {
  import opened Status
  import opened Search

  /** Admin-defined stages: at least two, all different, none empty or the system status. */
  ghost predicate GoodStages(keys: seq<string>) {
    && |keys| >= 2
    && (forall i, j :: 0 <= i < j < |keys| ==> keys[i] != keys[j])
    && "" !in keys && ARCHIVED !in keys
  }

  /** What a strict workflow is, built-in or custom: one stage forward at most, and a way back from each. */
  ghost predicate Pipeline(w: Workflow, keys: seq<string>) {
    && w.statuses == keys + [ARCHIVED] && keys != []
    && (forall i :: 0 <= i < |keys| - 1 ==> keys[i + 1] in w.Out(keys[i]))
    && (forall i, v :: 0 <= i < |keys| && v in w.Out(keys[i]) && v != ARCHIVED ==>
          v in keys && IndexOf(keys, v) <= i + 1)
    && (forall i :: 0 < i < |keys| ==> BackFrom(w, keys, i))
    && (forall i :: 0 <= i < |keys| ==> ARCHIVED in w.Out(keys[i]))
    && w.Out(ARCHIVED) == [keys[0]]
  }

  ghost predicate BackFrom(w: Workflow, keys: seq<string>, i: nat)
    requires i < |keys|
  {
    exists k :: 0 <= k < i && keys[k] in w.Out(keys[i])
  }

  lemma {:induction false} IndexIs(keys: seq<string>, i: nat)
    requires i < |keys| && forall a, b :: 0 <= a < b < |keys| ==> keys[a] != keys[b]
    ensures IndexOf(keys, keys[i]) == i
  {
    var j := IndexOf(keys, keys[i]);
    assert forall a :: 0 <= a < j ==> keys[a] == keys[..j][a] && keys[..j][a] in keys[..j];
  }

  lemma {:induction false} PipelineEntry(keys: seq<string>, n: nat, i: nat)
    requires GoodStages(keys) && i < n <= |keys|
    ensures keys[i] in PipelineSoFar(keys, n) && PipelineSoFar(keys, n)[keys[i]] == StepOf(keys, i)
  {
    if i < n - 1 {
      PipelineEntry(keys, n - 1, i);
    }
  }

  lemma {:induction false} CustomOut(keys: seq<string>, i: nat)
    requires GoodStages(keys) && keys != DEFAULT_STAGES && i < |keys|
    ensures Workflow(keys + [ARCHIVED], StrictOf(keys)).Out(keys[i]) == StepOf(keys, i)
  {
    PipelineEntry(keys, |keys|, i);
    assert keys[i] in keys;
  }

  lemma {:induction false} StepStays(keys: seq<string>, i: nat, v: string)
    requires GoodStages(keys) && i < |keys| && v in StepOf(keys, i) && v != ARCHIVED
    ensures v in keys && IndexOf(keys, v) <= i + 1
  {
    var k := if i + 1 < |keys| && v == keys[i + 1] then i + 1 else i - 1;
    assert v == keys[k];
    IndexIs(keys, k);
  }

  lemma {:induction false} StepLeads(keys: seq<string>, i: nat)
    requires GoodStages(keys) && i < |keys|
    ensures i + 1 < |keys| ==> keys[i + 1] in StepOf(keys, i)
    ensures i > 0 ==> keys[i - 1] in StepOf(keys, i)
    ensures ARCHIVED in StepOf(keys, i)
  {
    var next := if i + 1 < |keys| && keys[i + 1] != "" then [keys[i + 1]] else [];
    var prev := if i > 0 && keys[i - 1] != "" then [keys[i - 1]] else [];
    assert StepOf(keys, i) == next + prev + [ARCHIVED];
    assert i + 1 < |keys| ==> keys[i + 1] in keys;
    assert i > 0 ==> keys[i - 1] in keys;
  }

  lemma {:induction false} CustomLeads(keys: seq<string>, i: nat)
    requires GoodStages(keys) && keys != DEFAULT_STAGES && i < |keys|
    ensures var w := Workflow(keys + [ARCHIVED], StrictOf(keys));
            && ARCHIVED in w.Out(keys[i])
            && (i < |keys| - 1 ==> keys[i + 1] in w.Out(keys[i]))
            && (0 < i ==> BackFrom(w, keys, i))
  {
    hide GoodStages, StrictOf, StepOf;
    CustomOut(keys, i);
    StepLeads(keys, i);
  }

  lemma {:induction false} CustomStays(keys: seq<string>, i: nat, v: string)
    requires GoodStages(keys) && keys != DEFAULT_STAGES && i < |keys|
    requires v in Workflow(keys + [ARCHIVED], StrictOf(keys)).Out(keys[i]) && v != ARCHIVED
    ensures v in keys && IndexOf(keys, v) <= i + 1
  {
    hide GoodStages, StrictOf, StepOf, IndexOf;
    CustomOut(keys, i);
    StepStays(keys, i, v);
  }

  lemma {:induction false} CustomReturns(keys: seq<string>)
    requires GoodStages(keys) && keys != DEFAULT_STAGES
    ensures Workflow(keys + [ARCHIVED], StrictOf(keys)).Out(ARCHIVED) == [keys[0]]
  {
    assert keys[0] in keys;
  }

  lemma {:induction false} CustomIsPipeline(keys: seq<string>)
    requires GoodStages(keys) && keys != DEFAULT_STAGES
    ensures Pipeline(Workflow(keys + [ARCHIVED], StrictOf(keys)), keys)
  {
    var w := Workflow(keys + [ARCHIVED], StrictOf(keys));
    assert keys != [];
    CustomReturns(keys);
    hide GoodStages, StrictOf, IndexOf, BackFrom;
    forall i | 0 <= i < |keys|
      ensures ARCHIVED in w.Out(keys[i])
      ensures i < |keys| - 1 ==> keys[i + 1] in w.Out(keys[i])
      ensures 0 < i ==> BackFrom(w, keys, i)
    {
      CustomLeads(keys, i);
    }
    forall i, v | 0 <= i < |keys| && v in w.Out(keys[i]) && v != ARCHIVED
      ensures v in keys && IndexOf(keys, v) <= i + 1
    {
      CustomStays(keys, i, v);
    }
  }

  lemma {:induction false} DefaultStagesAreGood()
    ensures GoodStages(DEFAULT_STAGES)
  {
  }

  /** Where a built-in transition leads, by position. */
  lemma {:induction false} DefaultStep(i: nat, v: string) returns (k: nat)
    requires i < |DEFAULT_STAGES| && v in DEFAULT_TRANSITIONS[DEFAULT_STAGES[i]] && v != ARCHIVED
    ensures k <= i + 1 && k < |DEFAULT_STAGES| && v == DEFAULT_STAGES[k]
  {
    if i == 0 {
      k := 1;
    } else if i == 5 {
      k := 3;
    } else {
      k := if v == DEFAULT_STAGES[i + 1] then i + 1 else i - 1;
    }
  }

  lemma {:induction false} DefaultLeads(w: Workflow, i: nat)
    requires w == Workflow(DEFAULT_STAGES + [ARCHIVED], StrictOf(DEFAULT_STAGES)) && i < |DEFAULT_STAGES|
    ensures w.Out(DEFAULT_STAGES[i]) == DEFAULT_TRANSITIONS[DEFAULT_STAGES[i]]
    ensures ARCHIVED in w.Out(DEFAULT_STAGES[i])
    ensures i < |DEFAULT_STAGES| - 1 ==> DEFAULT_STAGES[i + 1] in w.Out(DEFAULT_STAGES[i])
    ensures 0 < i ==> BackFrom(w, DEFAULT_STAGES, i)
  {
    if i > 0 {
      var k := if i == 5 then 3 else i - 1;
      assert DEFAULT_STAGES[k] in w.Out(DEFAULT_STAGES[i]);
    }
  }

  lemma {:induction false} DefaultStays(w: Workflow, i: nat, v: string)
    requires w == Workflow(DEFAULT_STAGES + [ARCHIVED], StrictOf(DEFAULT_STAGES)) && i < |DEFAULT_STAGES|
    requires v in w.Out(DEFAULT_STAGES[i]) && v != ARCHIVED
    ensures v in DEFAULT_STAGES && IndexOf(DEFAULT_STAGES, v) <= i + 1
  {
    hide IndexOf, StrictOf;
    DefaultStagesAreGood();
    DefaultLeads(w, i);
    var k := DefaultStep(i, v);
    IndexIs(DEFAULT_STAGES, k);
  }

  lemma {:induction false} DefaultIsPipeline()
    ensures GoodStages(DEFAULT_STAGES)
    ensures Pipeline(Workflow(DEFAULT_STAGES + [ARCHIVED], StrictOf(DEFAULT_STAGES)), DEFAULT_STAGES)
  {
    var w := Workflow(DEFAULT_STAGES + [ARCHIVED], StrictOf(DEFAULT_STAGES));
    DefaultStagesAreGood();
    assert w.Out(ARCHIVED) == [DEFAULT_STAGES[0]];
    hide IndexOf, BackFrom, StrictOf;
    forall i | 0 <= i < |DEFAULT_STAGES|
      ensures ARCHIVED in w.Out(DEFAULT_STAGES[i])
      ensures i < |DEFAULT_STAGES| - 1 ==> DEFAULT_STAGES[i + 1] in w.Out(DEFAULT_STAGES[i])
      ensures 0 < i ==> BackFrom(w, DEFAULT_STAGES, i)
    {
      DefaultLeads(w, i);
    }
    forall i, v | 0 <= i < |DEFAULT_STAGES| && v in w.Out(DEFAULT_STAGES[i]) && v != ARCHIVED
      ensures v in DEFAULT_STAGES && IndexOf(DEFAULT_STAGES, v) <= i + 1
    {
      DefaultStays(w, i, v);
    }
  }

  lemma {:induction false} StrictIsPipeline(keys: seq<string>)
    requires GoodStages(keys)
    ensures Pipeline(Workflow(keys + [ARCHIVED], StrictOf(keys)), keys)
  {
    if keys == DEFAULT_STAGES {
      DefaultIsPipeline();
    } else {
      CustomIsPipeline(keys);
    }
  }

  /** Where a strict workflow goes from a stage: the next, the one before (two from the built-in last), `archived`. */
  lemma {:induction false} StrictNeighbours(keys: seq<string>, i: nat, v: string)
    requires GoodStages(keys) && i < |keys|
    ensures var back := if keys == DEFAULT_STAGES && i == |keys| - 1 then 2 else 1;
            v in Workflow(keys + [ARCHIVED], StrictOf(keys)).Out(keys[i]) <==>
              || v == ARCHIVED
              || (i + 1 < |keys| && v == keys[i + 1])
              || (i >= back && v == keys[i - back])
  {
    if keys == DEFAULT_STAGES {
      DefaultLeads(Workflow(keys + [ARCHIVED], StrictOf(keys)), i);
      DefaultNeighbours(i, v);
    } else {
      CustomOut(keys, i);
      assert keys[i] in keys;
      assert i > 0 ==> keys[i - 1] in keys;
      assert i + 1 < |keys| ==> keys[i + 1] in keys;
    }
  }

  lemma {:induction false} DefaultNeighbours(i: nat, v: string)
    requires i < |DEFAULT_STAGES|
    ensures var back := if i == 5 then 2 else 1;
            v in DEFAULT_TRANSITIONS[DEFAULT_STAGES[i]] <==>
              || v == ARCHIVED
              || (i + 1 < |DEFAULT_STAGES| && v == DEFAULT_STAGES[i + 1])
              || (i >= back && v == DEFAULT_STAGES[i - back])
  {
    assert i == 0 || i == 1 || i == 2 || i == 3 || i == 4 || i == 5;
  }

  // ----- forward routes on a pipeline

  lemma {:induction false} EndAt(from: string, path: seq<string>, m: nat)
    requires m <= |path|
    ensures End(from, path[..m]) == if m == 0 then from else path[m - 1]
  {
  }

  lemma {:induction false} HopForward(w: Workflow, keys: seq<string>, u: string, v: string)
    requires Pipeline(w, keys) && u in keys && v in w.Out(u) && v != ARCHIVED
    ensures v in keys && IndexOf(keys, v) <= IndexOf(keys, u) + 1
  {
    var k := IndexOf(keys, u);
    assert u == keys[k];
  }

  lemma {:induction false} RouteAvoidsArchived(w: Workflow, from: string, to: string, path: seq<string>, m: nat)
    requires IsRoute(w, from, to, path) && m < |path| && to != ARCHIVED
    ensures path[m] != ARCHIVED && path[m] in w.Out(if m == 0 then from else path[m - 1])
  {
    EndAt(from, path, m);
  }

  /** A route between stages stays on stages, because only its last hop could be `archived`. */
  lemma {:induction false} RouteOnStages(w: Workflow, keys: seq<string>, i: nat, j: nat, path: seq<string>, m: nat)
    requires GoodStages(keys) && Pipeline(w, keys) && i < |keys| && j < |keys|
    requires IsRoute(w, keys[i], keys[j], path) && m < |path|
    ensures path[m] in keys && IndexOf(keys, path[m]) <= i + m + 1
    decreases m
  {
    assert keys[i] in keys && keys[j] in keys;
    RouteAvoidsArchived(w, keys[i], keys[j], path, m);
    if m == 0 {
      IndexIs(keys, i);
      HopForward(w, keys, keys[i], path[0]);
    } else {
      RouteOnStages(w, keys, i, j, path, m - 1);
      hide Pipeline, IsRoute, IndexOf;
      HopForward(w, keys, path[m - 1], path[m]);
    }
  }

  /** Counting back from the end, a route is never further behind than its remaining hops can make up. */
  lemma {:induction false} RouteNotBehind(w: Workflow, keys: seq<string>, i: nat, j: nat, path: seq<string>, m: nat)
    requires GoodStages(keys) && Pipeline(w, keys) && i < |keys| && j < |keys|
    requires IsRoute(w, keys[i], keys[j], path) && m < |path|
    ensures path[m] in keys && IndexOf(keys, path[m]) + (|path| - 1 - m) >= j
    decreases |path| - m
  {
    assert keys[j] in keys;
    RouteOnStages(w, keys, i, j, path, m);
    if m == |path| - 1 {
      IndexIs(keys, j);
    } else {
      hide GoodStages, IsRoute, Pipeline;
      RouteNotBehind(w, keys, i, j, path, m + 1);
      RouteAvoidsArchived(w, keys[i], keys[j], path, m + 1);
      HopForward(w, keys, path[m], path[m + 1]);
    }
  }

  lemma {:induction false} EveryStageIsRoute(w: Workflow, keys: seq<string>, i: nat, j: nat)
    requires GoodStages(keys) && Pipeline(w, keys) && i < j < |keys|
    ensures IsRoute(w, keys[i], keys[j], keys[i + 1..j + 1])
  {
    var path := keys[i + 1..j + 1];
    forall m | 0 <= m < |path|
      ensures path[m] in w.Out(End(keys[i], path[..m])) && path[m] != ARCHIVED
    {
      assert path[m] == keys[i + 1 + m] && keys[i + 1 + m] in keys;
      assert End(keys[i], path[..m]) == keys[i + m];
    }
  }

  /** On a strict workflow the shortest way forward is every stage after `from` up to `to`. */
  lemma {:induction false} ForwardRouteIsEveryStage(keys: seq<string>, i: nat, j: nat, path: seq<string>)
    requires GoodStages(keys) && i < j < |keys|
    requires IsShortestRoute(Workflow(keys + [ARCHIVED], StrictOf(keys)), keys[i], keys[j], path)
    ensures path == keys[i + 1..j + 1]
  {
    var w := Workflow(keys + [ARCHIVED], StrictOf(keys));
    hide IsRoute, Pipeline, StrictOf;
    StrictIsPipeline(keys);
    EveryStageIsRoute(w, keys, i, j);
    assert |path| <= j - i;
    LongEnough(w, keys, i, j, path);
    forall m | 0 <= m < |path|
      ensures path[m] == keys[i + 1 + m]
    {
      PinnedHop(w, keys, i, j, path, m);
    }
  }

  lemma {:induction false} LongEnough(w: Workflow, keys: seq<string>, i: nat, j: nat, path: seq<string>)
    requires GoodStages(keys) && Pipeline(w, keys) && i < j < |keys| && IsRoute(w, keys[i], keys[j], path)
    ensures |path| >= j - i
  {
    IndexIs(keys, j);
    RouteOnStages(w, keys, i, j, path, |path| - 1);
  }

  /** A route of exactly as many hops as stages to climb takes them one by one. */
  lemma {:induction false} PinnedHop(w: Workflow, keys: seq<string>, i: nat, j: nat, path: seq<string>, m: nat)
    requires GoodStages(keys) && Pipeline(w, keys) && i < j < |keys|
    requires IsRoute(w, keys[i], keys[j], path) && |path| == j - i && m < |path|
    ensures path[m] == keys[i + 1 + m]
  {
    hide GoodStages, Pipeline, IsRoute;
    RouteOnStages(w, keys, i, j, path, m);
    RouteNotBehind(w, keys, i, j, path, m);
  }

  // ----- every status reaches every other

  lemma {:induction false} RouteThenHop(w: Workflow, a: string, b: string, path: seq<string>, c: string)
    requires (path == [] && a == b) || (IsRoute(w, a, b, path) && b != ARCHIVED)
    requires c in w.Out(b)
    ensures IsRoute(w, a, c, path + [c])
  {
    var longer := path + [c];
    forall m | 0 <= m < |longer|
      ensures longer[m] in w.Out(End(a, longer[..m]))
      ensures m < |longer| - 1 ==> longer[m] != ARCHIVED
    {
      assert longer[..m] == path[..m];
      assert path[..|path|] == path;
    }
  }

  /** Climbing a pipeline from wherever a path has got to. */
  lemma {:induction false} Climb(w: Workflow, keys: seq<string>, a: string, path: seq<string>, i: nat, j: nat)
    returns (longer: seq<string>)
    requires GoodStages(keys) && Pipeline(w, keys) && i <= j < |keys|
    requires (path == [] && a == keys[i]) || IsRoute(w, a, keys[i], path)
    ensures (longer == path && i == j) || IsRoute(w, a, keys[j], longer)
    decreases j - i
  {
    longer := path;
    if i < j {
      assert keys[i] in keys;
      RouteThenHop(w, a, keys[i], path, keys[i + 1]);
      longer := Climb(w, keys, a, path + [keys[i + 1]], i + 1, j);
    }
  }

  /** Going back until the first stage. */
  lemma {:induction false} Descend(w: Workflow, keys: seq<string>, a: string, path: seq<string>, i: nat)
    returns (longer: seq<string>)
    requires GoodStages(keys) && Pipeline(w, keys) && i < |keys|
    requires (path == [] && a == keys[i]) || IsRoute(w, a, keys[i], path)
    ensures (longer == path && i == 0) || IsRoute(w, a, keys[0], longer)
    decreases i
  {
    longer := path;
    if i > 0 {
      assert BackFrom(w, keys, i);
      var k :| 0 <= k < i && keys[k] in w.Out(keys[i]);
      assert keys[i] in keys;
      RouteThenHop(w, a, keys[i], path, keys[k]);
      longer := Descend(w, keys, a, path + [keys[k]], k);
    }
  }

  lemma {:induction false} PipelineReaches(w: Workflow, keys: seq<string>, a: string, b: string)
    returns (path: seq<string>)
    requires GoodStages(keys) && Pipeline(w, keys)
    requires a in w.statuses && b in w.statuses && a != b
    ensures IsRoute(w, a, b, path)
  {
    if b == ARCHIVED {
      var i :| 0 <= i < |keys| && keys[i] == a;
      path := [b];
      RouteThenHop(w, a, a, [], b);
      assert [] + [b] == [b];
    } else {
      var j :| 0 <= j < |keys| && keys[j] == b;
      if a == ARCHIVED {
        RouteThenHop(w, a, a, [], keys[0]);
        path := Climb(w, keys, a, [] + [keys[0]], 0, j);
      } else {
        var i :| 0 <= i < |keys| && keys[i] == a;
        path := Descend(w, keys, a, [], i);
        path := Climb(w, keys, a, path, 0, j);
      }
    }
  }

  /** In either mode every status of a workflow over good stages can reach every other. */
  lemma {:induction false} EveryStatusReachesEvery(keys: seq<string>, mode: TransitionMode, a: string, b: string)
    returns (path: seq<string>)
    requires GoodStages(keys)
    requires a in keys + [ARCHIVED] && b in keys + [ARCHIVED] && a != b
    ensures WorkflowFromStages(keys, mode).Some?
    ensures IsRoute(WorkflowFromStages(keys, mode).value, a, b, path)
  {
    var w := WorkflowFromStages(keys, mode).value;
    if mode == Flexible {
      OthersAre(keys + [ARCHIVED], a);
      path := [b];
      RouteThenHop(w, a, a, [], b);
      assert [] + [b] == [b];
    } else {
      StrictIsPipeline(keys);
      path := PipelineReaches(w, keys, a, b);
    }
  }

  /** The search on a workflow from stages: always an answer, and in strict mode the whole way forward. */
  method RouteBetween(keys: seq<string>, mode: TransitionMode, a: string, b: string) returns (path: seq<string>)
    requires GoodStages(keys)
    requires a in keys + [ARCHIVED] && b in keys + [ARCHIVED] && a != b
    ensures IsFirstShortestRoute(WorkflowFromStages(keys, mode).value, a, b, path)
    ensures mode == Strict && a in keys && b in keys && IndexOf(keys, a) < IndexOf(keys, b) ==>
              path == keys[IndexOf(keys, a) + 1..IndexOf(keys, b) + 1]
  {
    hide GoodStages, IsRoute, StrictOf, FlexibleTransitions, IsShortestRoute, IndexOf, Hop;
    ghost var route := EveryStatusReachesEvery(keys, mode, a, b);
    WorkflowParts(keys, mode);
    hide WorkflowFromStages;
    var w := WorkflowFromStages(keys, mode).value;
    var r := ShortestTransitionPath(a, b, w);
    assert r.Some? by {
      assert IsRoute(w, a, b, route);
    }
    path := r.value;
    if mode == Strict && a in keys && b in keys && IndexOf(keys, a) < IndexOf(keys, b) {
      StrictPath(keys, a, b, path);
    }
  }

  lemma {:induction false} WorkflowParts(keys: seq<string>, mode: TransitionMode)
    requires GoodStages(keys)
    ensures WorkflowFromStages(keys, mode).Some?
    ensures WorkflowFromStages(keys, mode).value.statuses == keys + [ARCHIVED]
    ensures mode == Strict ==> WorkflowFromStages(keys, mode).value == Workflow(keys + [ARCHIVED], StrictOf(keys))
  {
  }

  lemma {:induction false} StrictPath(keys: seq<string>, a: string, b: string, path: seq<string>)
    requires GoodStages(keys) && a in keys && b in keys && IndexOf(keys, a) < IndexOf(keys, b)
    requires IsShortestRoute(Workflow(keys + [ARCHIVED], StrictOf(keys)), a, b, path)
    ensures path == keys[IndexOf(keys, a) + 1..IndexOf(keys, b) + 1]
  {
    hide IsShortestRoute, StrictOf, GoodStages;
    var i, j := IndexOf(keys, a), IndexOf(keys, b);
    assert keys[i] == a && keys[j] == b;
    hide IndexOf;
    ForwardRouteIsEveryStage(keys, i, j, path);
  }
}
