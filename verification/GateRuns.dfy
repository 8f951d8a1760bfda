/** Runs of status moves: which exit gates an item has been checked against. */
module GateRuns {
  import opened Options
  import opened Status
  import opened Routes
  import opened UpdateStatus

  /** One request, with the feature and the rules as they stood when it was made. */
  datatype Moment = Moment(feature: Feature, rules: Rules, canWrite: bool, request: string)
  {
    predicate Accepted(w: Workflow) {
      Decide(w, canWrite, feature, rules, request) == Moved
    }

    function StatusAfter(w: Workflow): string {
      if Accepted(w) then request else feature.status
    }
  }

  /**
    * A run over one workflow, started at the first stage. Between requests anything may change but the
    * status: fields, product, gates, completions.
    */
  ghost predicate IsRun(w: Workflow, run: seq<Moment>) {
    && (run != [] && w.statuses != [] ==> run[0].feature.status == w.statuses[0])
    && forall k :: 0 <= k < |run| - 1 ==> run[k + 1].feature.status == run[k].StatusAfter(w)
  }

  ghost predicate BuiltFrom(w: Workflow, keys: seq<string>, mode: TransitionMode) {
    GoodStages(keys) && WorkflowFromStages(keys, mode) == Some(w)
  }

  /** Where the item stands at moment `k`; `archived` stands after every stage. */
  function Place(w: Workflow, run: seq<Moment>, k: nat): nat
    requires k < |run|
  {
    IndexOf(w.statuses, run[k].feature.status)
  }

  ghost predicate OnStage(w: Workflow, run: seq<Moment>, k: nat) {
    k < |run| && run[k].feature.status in w.statuses && run[k].feature.status != ARCHIVED
  }

  /** `a` is the last moment up to `n` at which the item stood at or before stage `i`. */
  ghost predicate LastAtOrBefore(w: Workflow, run: seq<Moment>, n: nat, i: nat, a: nat) {
    && a < n < |run| && Place(w, run, a) <= i
    && forall t :: a < t <= n ==> Place(w, run, t) > i
  }

  /** Since it last stood at or before stage `i` the item has passed a check of the gates of `i`. */
  ghost predicate PassedCheck(w: Workflow, run: seq<Moment>, n: nat, i: nat) {
    exists a: nat :: LastAtOrBefore(w, run, n, i, a) && ForwardPast(w, run[a], i)
  }

  /** The request was granted as a forward move over stage `i`, so its gates were among those checked. */
  ghost predicate ForwardPast(w: Workflow, m: Moment, i: nat) {
    && m.Accepted(w) && IsForwardTransition(m.feature.status, m.request, w)
    && i < |w.statuses| && w.statuses[i] in PassedStages(w, m.feature.status, m.request)
    && GatesMet(m.feature, m.rules, w.statuses[i])
  }

  /** Whenever the item is on a stage, it has passed the check of every earlier one. */
  ghost predicate AlwaysChecked(w: Workflow, run: seq<Moment>) {
    forall n: nat, i: nat :: OnStage(w, run, n) && i < Place(w, run, n) ==> PassedCheck(w, run, n, i)
  }

  /** Archived at `c`, back on a stage at `d`, and archived all the time between. */
  ghost predicate ThroughArchive(w: Workflow, run: seq<Moment>, c: nat, d: nat) {
    && c + 1 < d && OnStage(w, run, c) && OnStage(w, run, d)
    && forall t :: c < t < d ==> run[t].feature.status == ARCHIVED
  }

  /** Coming back from `archived` never lands past the stage the item was archived from. */
  ghost predicate ArchiveSkipsNothing(w: Workflow, run: seq<Moment>) {
    forall c: nat, d: nat :: ThroughArchive(w, run, c, d) ==> Place(w, run, d) <= Place(w, run, c)
  }

  // ----- the vocabulary

  lemma {:induction false} TransitionsStayInside(w: Workflow, keys: seq<string>, mode: TransitionMode, from: string,
                                                 to: string)
    requires BuiltFrom(w, keys, mode) && from in w.statuses && to in w.Out(from)
    ensures to in w.statuses
  {
    if mode == Flexible {
      OthersAre(keys + [ARCHIVED], from);
    } else {
      StrictIsPipeline(keys);
      hide StrictOf;
      if from in keys {
        var i :| 0 <= i < |keys| && keys[i] == from;
        assert to == ARCHIVED || to in keys;
      }
    }
  }

  lemma {:induction false} StatusInside(w: Workflow, keys: seq<string>, mode: TransitionMode, run: seq<Moment>, k: nat)
    requires BuiltFrom(w, keys, mode) && IsRun(w, run) && k < |run|
    ensures run[k].feature.status in w.statuses
    decreases k
  {
    if k > 0 {
      StatusInside(w, keys, mode, run, k - 1);
      var m := run[k - 1];
      if m.Accepted(w) && m.request != m.feature.status {
        TransitionsStayInside(w, keys, mode, m.feature.status, m.request);
      }
    }
  }

  lemma {:induction false} StartsAtZero(w: Workflow, run: seq<Moment>)
    requires IsRun(w, run) && run != [] && w.statuses != []
    ensures Place(w, run, 0) == 0
  {
    assert run[0].feature.status == w.statuses[0];
  }

  lemma {:induction false} ArchivedIsLast(w: Workflow, keys: seq<string>, mode: TransitionMode, s: string)
    requires BuiltFrom(w, keys, mode) && s in w.statuses
    ensures IndexOf(w.statuses, s) == |keys| <==> s == ARCHIVED
    ensures IndexOf(w.statuses, s) <= |keys|
  {
    var j := IndexOf(w.statuses, s);
    assert w.statuses[j] == s;
    if s == ARCHIVED {
      assert forall i :: 0 <= i < |keys| ==> w.statuses[i] == keys[i] && keys[i] in keys;
    }
  }

  // ----- every departure forward is checked

  /** An item past stage `i` last stood at or before it at some moment. */
  lemma {:induction false} LastExists(w: Workflow, run: seq<Moment>, n: nat, m: nat, i: nat) returns (a: nat)
    requires IsRun(w, run) && m <= n < |run| && w.statuses != []
    requires forall t :: m <= t <= n ==> Place(w, run, t) > i
    ensures LastAtOrBefore(w, run, n, i, a)
    decreases m
  {
    StartsAtZero(w, run);
    if Place(w, run, m - 1) <= i {
      a := m - 1;
    } else {
      a := LastExists(w, run, n, m - 1, i);
    }
  }

  /** The move that leaves stage `i` behind is a checked forward move, or it archives the item. */
  lemma {:induction false} DepartureIsCheckedOrArchives(
      w: Workflow, keys: seq<string>, mode: TransitionMode, run: seq<Moment>, n: nat, i: nat, a: nat)
    requires BuiltFrom(w, keys, mode) && IsRun(w, run) && LastAtOrBefore(w, run, n, i, a) && i < |keys|
    ensures ForwardPast(w, run[a], i) || (run[a].Accepted(w) && run[a].request == ARCHIVED && OnStage(w, run, a))
  {
    var m := run[a];
    StatusInside(w, keys, mode, run, a);
    StatusInside(w, keys, mode, run, a + 1);
    ArchivedIsLast(w, keys, mode, m.feature.status);
    hide BuiltFrom, GatesMet;
    assert Place(w, run, a + 1) > i;
    assert m.Accepted(w) && run[a + 1].feature.status == m.request;
    if m.request != ARCHIVED {
      ForwardIsChecked(w, m, i);
    }
  }

  /** An accepted move from stage `i` or before to a later one has passed the check of `i`. */
  lemma {:induction false} ForwardIsChecked(w: Workflow, m: Moment, i: nat)
    requires m.Accepted(w) && m.feature.status in w.statuses && m.request in w.statuses && m.request != ARCHIVED
    requires IndexOf(w.statuses, m.feature.status) <= i < IndexOf(w.statuses, m.request) && m.feature.status != ARCHIVED
    ensures ForwardPast(w, m, i)
  {
    hide GatesMet;
    assert IsForwardTransition(m.feature.status, m.request, w);
    ForwardMoveChecksEveryStage(w, m.feature, m.rules, m.request);
    var from, to := IndexOf(w.statuses, m.feature.status), IndexOf(w.statuses, m.request);
    assert w.statuses[from..to][i - from] == w.statuses[i];
  }

  lemma {:induction false} OneLast(w: Workflow, run: seq<Moment>, n: nat, i: nat, a: nat, b: nat)
    requires LastAtOrBefore(w, run, n, i, a) && LastAtOrBefore(w, run, n, i, b)
    ensures a == b
  {
  }

  // ----- the exact condition

  /** The first moment after `c` that is not spent archived. */
  lemma {:induction false} FirstBack(w: Workflow, run: seq<Moment>, c: nat, t: nat, n: nat) returns (d: nat)
    requires c < t <= n < |run| && OnStage(w, run, n)
    requires forall u :: c < u < t ==> run[u].feature.status == ARCHIVED
    ensures t <= d <= n && run[d].feature.status != ARCHIVED
    ensures forall u :: c < u < d ==> run[u].feature.status == ARCHIVED
    decreases n - t
  {
    if run[t].feature.status != ARCHIVED {
      d := t;
    } else {
      d := FirstBack(w, run, c, t + 1, n);
    }
  }

  lemma {:induction false} SkippingMissesACheck(
      w: Workflow, keys: seq<string>, mode: TransitionMode, run: seq<Moment>, c: nat, d: nat)
    requires BuiltFrom(w, keys, mode) && IsRun(w, run)
    requires ThroughArchive(w, run, c, d) && Place(w, run, d) > Place(w, run, c)
    ensures !PassedCheck(w, run, d, Place(w, run, c))
  {
    var i := Place(w, run, c);
    ArchivedIsLast(w, keys, mode, run[c].feature.status);
    forall t | c < t <= d
      ensures Place(w, run, t) > i
    {
      if t < d {
        ArchivedIsLast(w, keys, mode, run[t].feature.status);
      }
    }
    assert LastAtOrBefore(w, run, d, i, c);
    assert run[c + 1].feature.status == ARCHIVED;
    forall a: nat | LastAtOrBefore(w, run, d, i, a)
      ensures !ForwardPast(w, run[a], i)
    {
      OneLast(w, run, d, i, a, c);
    }
  }

  lemma {:induction false} NotSkippingPassesTheCheck(
      w: Workflow, keys: seq<string>, mode: TransitionMode, run: seq<Moment>, n: nat, i: nat)
    requires BuiltFrom(w, keys, mode) && IsRun(w, run) && ArchiveSkipsNothing(w, run)
    requires OnStage(w, run, n) && i < Place(w, run, n)
    ensures PassedCheck(w, run, n, i)
  {
    ArchivedIsLast(w, keys, mode, run[n].feature.status);
    var a := LastExists(w, run, n, n, i);
    DepartureIsCheckedOrArchives(w, keys, mode, run, n, i, a);
    if !ForwardPast(w, run[a], i) {
      assert run[a + 1].feature.status == ARCHIVED;
      var d := FirstBack(w, run, a, a + 1, n);
      StatusInside(w, keys, mode, run, d);
      assert ThroughArchive(w, run, a, d);
      assert false;
    }
  }

  /**
    * Over any run in either mode, an item on a stage has always passed the check of every earlier
    * stage since it last stood at or before it, exactly when coming back from `archived` never lands
    * past the stage the item was archived from.
    */
  lemma {:induction false} GatesHoldExactly(w: Workflow, keys: seq<string>, mode: TransitionMode, run: seq<Moment>)
    requires BuiltFrom(w, keys, mode) && IsRun(w, run)
    ensures AlwaysChecked(w, run) <==> ArchiveSkipsNothing(w, run)
  {
    if AlwaysChecked(w, run) {
      forall c: nat, d: nat | ThroughArchive(w, run, c, d)
        ensures Place(w, run, d) <= Place(w, run, c)
      {
        if Place(w, run, d) > Place(w, run, c) {
          SkippingMissesACheck(w, keys, mode, run, c, d);
        }
      }
    }
    if ArchiveSkipsNothing(w, run) {
      forall n: nat, i: nat | OnStage(w, run, n) && i < Place(w, run, n)
        ensures PassedCheck(w, run, n, i)
      {
        NotSkippingPassesTheCheck(w, keys, mode, run, n, i);
      }
    }
  }

  /** `archived` is only ever left for the first stage. */
  ghost predicate ArchiveReturnsToStart(w: Workflow, run: seq<Moment>) {
    forall k :: 0 <= k < |run| - 1 && run[k].feature.status == ARCHIVED && run[k + 1].feature.status != ARCHIVED ==>
      Place(w, run, k + 1) == 0
  }

  lemma {:induction false} ReturningToStartIsSafe(w: Workflow, keys: seq<string>, mode: TransitionMode,
                                                  run: seq<Moment>)
    requires BuiltFrom(w, keys, mode) && IsRun(w, run) && ArchiveReturnsToStart(w, run)
    ensures AlwaysChecked(w, run)
  {
    forall c: nat, d: nat | ThroughArchive(w, run, c, d)
      ensures Place(w, run, d) <= Place(w, run, c)
    {
      assert run[d - 1].feature.status == ARCHIVED && run[(d - 1) + 1].feature.status != ARCHIVED;
    }
    GatesHoldExactly(w, keys, mode, run);
  }

  /** A strict workflow leaves `archived` only for the first stage, so there the gates always hold. */
  lemma {:induction false} StrictRunsAreAlwaysChecked(w: Workflow, keys: seq<string>, run: seq<Moment>)
    requires BuiltFrom(w, keys, Strict) && IsRun(w, run)
    ensures AlwaysChecked(w, run)
  {
    StrictIsPipeline(keys);
    hide StrictOf, Pipeline;
    forall k | 0 <= k < |run| - 1 && run[k].feature.status == ARCHIVED && run[k + 1].feature.status != ARCHIVED
      ensures Place(w, run, k + 1) == 0
    {
      StrictLeavesToFirst(w, keys, run[k]);
      assert run[k + 1].feature.status == w.statuses[0];
    }
    ReturningToStartIsSafe(w, keys, Strict, run);
  }

  lemma {:induction false} StrictLeavesToFirst(w: Workflow, keys: seq<string>, m: Moment)
    requires BuiltFrom(w, keys, Strict) && m.feature.status == ARCHIVED
    ensures m.StatusAfter(w) == ARCHIVED || m.StatusAfter(w) == w.statuses[0]
  {
    StrictIsPipeline(keys);
  }

  /** In flexible mode archiving an item and unarchiving it further on passes no check at all. */
  lemma {:induction false} FlexibleRunsCanSkip(w: Workflow, keys: seq<string>, feature: Feature, rules: Rules)
    returns (run: seq<Moment>)
    requires BuiltFrom(w, keys, Flexible) && feature.status == keys[0] && !GatesMet(feature, rules, keys[0])
    ensures IsRun(w, run) && !AlwaysChecked(w, run)
    ensures |run| == 3 && run[0].feature == feature && run[2].feature == feature.(status := keys[1])
    ensures forall k :: 0 <= k < |run| ==> run[k].rules == rules
  {
    run := [
      Moment(feature, rules, true, ARCHIVED),
      Moment(feature.(status := ARCHIVED), rules, true, keys[1]),
      Moment(feature.(status := keys[1]), rules, true, keys[1])
    ];
    assert keys[0] in keys && keys[1] in keys;
    FlexibleBackwardMove(w, keys, feature, rules, ARCHIVED);
    FlexibleBackwardMove(w, keys, feature.(status := ARCHIVED), rules, keys[1]);
    hide Decide;
    FirstPlaces(w, keys);
    SkippedStage(w, keys, run);
  }

  /** In flexible mode any move that is not forward goes through unchecked. */
  lemma {:induction false} FlexibleBackwardMove(w: Workflow, keys: seq<string>, feature: Feature, rules: Rules,
                                                to: string)
    requires BuiltFrom(w, keys, Flexible) && feature.status in w.statuses && to in w.statuses
    requires to == ARCHIVED || feature.status == ARCHIVED
    ensures Decide(w, true, feature, rules, to) == Moved
  {
    OthersAre(keys + [ARCHIVED], feature.status);
    ArchivedIsLast(w, keys, Flexible, feature.status);
    ArchivedIsLast(w, keys, Flexible, to);
  }

  lemma {:induction false} FirstPlaces(w: Workflow, keys: seq<string>)
    requires BuiltFrom(w, keys, Flexible)
    ensures IndexOf(w.statuses, keys[0]) == 0 && IndexOf(w.statuses, keys[1]) == 1
  {
    assert w.statuses[0] == keys[0] && w.statuses[1] == keys[1];
    assert keys[0] in keys && keys[1] in keys;
    forall a, b | 0 <= a < b < |w.statuses|
      ensures w.statuses[a] != w.statuses[b]
    {
      assert w.statuses[a] == keys[a] && keys[a] in keys;
    }
    IndexIs(w.statuses, 0);
    IndexIs(w.statuses, 1);
  }

  lemma {:induction false} SkippedStage(w: Workflow, keys: seq<string>, run: seq<Moment>)
    requires BuiltFrom(w, keys, Flexible) && IsRun(w, run) && |run| == 3
    requires run[0].feature.status == keys[0] && run[1].feature.status == ARCHIVED && run[2].feature.status == keys[1]
    requires IndexOf(w.statuses, keys[0]) == 0 && IndexOf(w.statuses, keys[1]) == 1
    ensures !AlwaysChecked(w, run)
  {
    assert keys[0] in keys && keys[1] in keys;
    assert ThroughArchive(w, run, 0, 2);
    assert Place(w, run, 0) == 0 && Place(w, run, 2) == 1;
    GatesHoldExactly(w, keys, Flexible, run);
  }
}
