/** The breadth-first search for a legal route through a workflow. */
module Search {
  import opened Options
  import opened Status

  /** Where a path from `from` ends. */
  function End(from: string, path: seq<string>): string {
    if path == [] then from else path[|path| - 1]
  }

  /** A transition the search may take on the way to `to`: into `archived` only when that is the goal. */
  ghost predicate Hop(w: Workflow, to: string, u: string, v: string) {
    v in w.Out(u) && (v == ARCHIVED ==> to == ARCHIVED)
  }

  ghost predicate IsWalk(w: Workflow, from: string, to: string, path: seq<string>) {
    forall i :: 0 <= i < |path| ==> Hop(w, to, End(from, path[..i]), path[i])
  }

  /** A legal route: each hop a transition, ending at `to`, never passing through `archived`. */
  ghost predicate IsRoute(w: Workflow, from: string, to: string, path: seq<string>) {
    && path != [] && End(from, path) == to
    && (forall i :: 0 <= i < |path| ==> path[i] in w.Out(End(from, path[..i])))
    && (forall i :: 0 <= i < |path| - 1 ==> path[i] != ARCHIVED)
  }

  ghost predicate IsShortestRoute(w: Workflow, from: string, to: string, path: seq<string>) {
    IsRoute(w, from, to, path) && forall q :: IsRoute(w, from, to, q) ==> |path| <= |q|
  }

  // ----- ties

  /** Of two paths of one length from `u`: where they first differ, `p` takes the transition declared sooner. */
  ghost predicate Sooner(w: Workflow, u: string, p: seq<string>, q: seq<string>)
    decreases |p|
  {
    && |p| == |q| && p != []
    && if p[0] == q[0] then Sooner(w, p[0], p[1..], q[1..])
       else IndexOf(w.Out(u), p[0]) < IndexOf(w.Out(u), q[0])
  }

  /** The shortest route that the order of the declared transitions puts before every other one. */
  ghost predicate IsFirstShortestRoute(w: Workflow, from: string, to: string, path: seq<string>) {
    && IsShortestRoute(w, from, to, path)
    && forall q :: IsShortestRoute(w, from, to, q) && q != path ==> Sooner(w, from, path, q)
  }

  lemma {:induction false} SoonerTransitive(w: Workflow, u: string, p: seq<string>, q: seq<string>, r: seq<string>)
    requires Sooner(w, u, p, q) && Sooner(w, u, q, r)
    ensures Sooner(w, u, p, r)
    decreases |p|
  {
    if p[0] == q[0] == r[0] {
      SoonerTransitive(w, p[0], p[1..], q[1..], r[1..]);
    }
  }

  lemma {:induction false} SoonerIsStrict(w: Workflow, u: string, p: seq<string>)
    ensures !Sooner(w, u, p, p)
    decreases |p|
  {
    if p != [] {
      SoonerIsStrict(w, p[0], p[1..]);
    }
  }

  /** What comes after does not undo the order. */
  lemma {:induction false} SoonerExtends(w: Workflow, u: string, p: seq<string>, q: seq<string>, a: string, b: string)
    requires Sooner(w, u, p, q)
    ensures Sooner(w, u, p + [a], q + [b])
    decreases |p|
  {
    var p', q' := p + [a], q + [b];
    assert p'[0] == p[0] && q'[0] == q[0] && p'[1..] == p[1..] + [a] && q'[1..] == q[1..] + [b];
    if p[0] == q[0] {
      SoonerExtends(w, p[0], p[1..], q[1..], a, b);
    }
  }

  /** After the same path, the transition declared sooner decides. */
  lemma {:induction false} SoonerLastHop(w: Workflow, u: string, p: seq<string>, a: string, b: string)
    requires IndexOf(w.Out(End(u, p)), a) < IndexOf(w.Out(End(u, p)), b)
    ensures Sooner(w, u, p + [a], p + [b])
    decreases |p|
  {
    if p == [] {
      assert p + [a] == [a] && p + [b] == [b];
    } else {
      assert (p + [a])[1..] == p[1..] + [a] && (p + [b])[1..] == p[1..] + [b];
      assert End(p[0], p[1..]) == End(u, p);
      SoonerLastHop(w, p[0], p[1..], a, b);
    }
  }

  lemma {:induction false} IndexOfEarlier(s: seq<string>, i: nat, a: string, b: string)
    requires i < |s| && a in s[..i] && b !in s[..i] && s[i] == b
    ensures IndexOf(s, a) < IndexOf(s, b)
  {
    var k :| 0 <= k < i && s[..i][k] == a;
    assert s[k] == a;
    assert forall j :: 0 <= j < i ==> s[j] == s[..i][j] && s[..i][j] in s[..i];
  }

  lemma {:induction false} RouteIsWalk(w: Workflow, from: string, to: string, path: seq<string>)
    requires IsRoute(w, from, to, path)
    ensures IsWalk(w, from, to, path)
  {
    forall i | 0 <= i < |path|
      ensures Hop(w, to, End(from, path[..i]), path[i])
    {
      assert i == |path| - 1 ==> path[i] == to;
    }
  }

  lemma {:induction false} WalkExtend(w: Workflow, from: string, to: string, path: seq<string>, v: string)
    requires IsWalk(w, from, to, path) && Hop(w, to, End(from, path), v)
    ensures IsWalk(w, from, to, path + [v])
  {
    var longer := path + [v];
    forall i | 0 <= i < |longer|
      ensures Hop(w, to, End(from, longer[..i]), longer[i])
    {
      assert longer[..i] == path[..i];
      assert path[..|path|] == path;
    }
  }

  datatype Entry = Entry(node: string, path: seq<string>)

  /** A queued entry carries a walk to its node whose length is the node's level. */
  ghost predicate GoodEntry(w: Workflow, from: string, to: string, level: map<string, nat>, e: Entry) {
    && e.node in level && level[e.node] == |e.path|
    && IsWalk(w, from, to, e.path) && End(from, e.path) == e.node
    && to !in e.path
  }

  ghost predicate Queued(queue: seq<Entry>, x: string) {
    exists k :: 0 <= k < |queue| && queue[k].node == x
  }

  /** Every way on from `u` has been found, at most one level further. */
  ghost predicate Expanded(w: Workflow, to: string, level: map<string, nat>, u: string) {
    u in level && forall v :: Hop(w, to, u, v) ==> v in level && level[v] <= level[u] + 1
  }

  /** The search with `queue` pending and `busy` being expanded at distance `d`. */
  ghost predicate Searching(w: Workflow, from: string, to: string, queue: seq<Entry>, level: map<string, nat>,
                            d: nat, busy: Option<string>) {
    && from in level && level[from] == 0 && to !in level
    && GoodQueue(w, from, to, queue, level, d)
    && (forall u :: u in level ==> level[u] <= d + 1)
    && (busy.Some? ==> busy.value in level && level[busy.value] == d)
    && (forall u :: u in level && !Queued(queue, u) && busy != Some(u) ==> Expanded(w, to, level, u))
  }

  /** A walk either ends at a node found no later than its length, or passes something still pending. */
  lemma {:induction false} WalkIsFound(w: Workflow, from: string, to: string, queue: seq<Entry>,
                                       level: map<string, nat>, d: nat, busy: Option<string>, path: seq<string>)
    requires Searching(w, from, to, queue, level, d, busy) && IsWalk(w, from, to, path)
    ensures (End(from, path) in level && level[End(from, path)] <= |path|)
            || ((queue != [] || busy.Some?) && d < |path|)
    decreases |path|
  {
    if path != [] {
      var init := path[..|path| - 1];
      assert forall i :: 0 <= i < |init| ==> init[..i] == path[..i];
      WalkIsFound(w, from, to, queue, level, d, busy, init);
      var u := End(from, init);
      assert Hop(w, to, u, path[|path| - 1]);
      if u in level && level[u] <= |init| {
        if Queued(queue, u) {
          var k :| 0 <= k < |queue| && queue[k].node == u;
        } else if busy != Some(u) {
          assert Expanded(w, to, level, u);
        }
      }
    }
  }

  /** Reaching `to` from the entry being expanded gives a shortest route. */
  lemma {:induction false} FoundShortest(w: Workflow, from: string, to: string, queue: seq<Entry>,
                                         level: map<string, nat>, e: Entry)
    requires Searching(w, from, to, queue, level, |e.path|, Some(e.node)) && GoodEntry(w, from, to, level, e)
    requires Hop(w, to, e.node, to)
    ensures IsShortestRoute(w, from, to, e.path + [to])
  {
    var path := e.path + [to];
    WalkExtend(w, from, to, e.path, to);
    forall i | 0 <= i < |path| - 1
      ensures path[i] != ARCHIVED
    {
      assert path[i] == e.path[i] && path[i] in e.path;
      assert Hop(w, to, End(from, path[..i]), path[i]);
    }
    forall q | IsRoute(w, from, to, q)
      ensures |path| <= |q|
    {
      RouteIsWalk(w, from, to, q);
      WalkIsFound(w, from, to, queue, level, |e.path|, Some(e.node), q);
    }
  }

  lemma {:induction false} NothingPending(w: Workflow, from: string, to: string, level: map<string, nat>, d: nat,
                                          q: seq<string>)
    requires Searching(w, from, to, [], level, d, None)
    ensures !IsRoute(w, from, to, q)
  {
    if IsRoute(w, from, to, q) {
      RouteIsWalk(w, from, to, q);
      WalkIsFound(w, from, to, [], level, d, None, q);
    }
  }

  lemma {:induction false} Popped(w: Workflow, from: string, to: string, queue: seq<Entry>, level: map<string, nat>,
                                  d: nat)
    requires queue != [] && Searching(w, from, to, queue, level, d, None)
    ensures Searching(w, from, to, queue[1..], level, |queue[0].path|, Some(queue[0].node))
    ensures GoodEntry(w, from, to, level, queue[0])
  {
    var rest := queue[1..];
    forall u | u in level && !Queued(rest, u) && u != queue[0].node
      ensures Expanded(w, to, level, u)
    {
      assert !Queued(queue, u) by {
        forall k | 0 <= k < |queue|
          ensures queue[k].node != u
        {
          assert k > 0 ==> rest[k - 1] == queue[k];
        }
      }
    }
  }

  lemma {:induction false} StillGood(w: Workflow, from: string, to: string, level: map<string, nat>, e: Entry,
                                     v: string, n: nat)
    requires GoodEntry(w, from, to, level, e) && v !in level
    ensures GoodEntry(w, from, to, level[v := n], e)
  {
  }

  lemma {:induction false} NewEntry(w: Workflow, from: string, to: string, level: map<string, nat>, e: Entry, v: string)
    requires GoodEntry(w, from, to, level, e) && Hop(w, to, e.node, v) && v != to
    ensures GoodEntry(w, from, to, level[v := |e.path| + 1], Entry(v, e.path + [v]))
  {
    WalkExtend(w, from, to, e.path, v);
  }

  /** The entries of a queue, all between `d` and `d + 1` steps out, nearest first. */
  ghost predicate GoodQueue(w: Workflow, from: string, to: string, queue: seq<Entry>, level: map<string, nat>, d: nat) {
    && (forall k :: 0 <= k < |queue| ==> GoodEntry(w, from, to, level, queue[k]) && d <= |queue[k].path| <= d + 1)
    && (forall i, j :: 0 <= i < j < |queue| ==> |queue[i].path| <= |queue[j].path|)
  }

  lemma {:induction false} PushedQueue(
      w: Workflow, from: string, to: string, queue: seq<Entry>, level: map<string, nat>, e: Entry, v: string)
    requires GoodQueue(w, from, to, queue, level, |e.path|) && GoodEntry(w, from, to, level, e)
    requires Hop(w, to, e.node, v) && v !in level && v != to
    ensures GoodQueue(w, from, to, queue + [Entry(v, e.path + [v])], level[v := |e.path| + 1], |e.path|)
  {
    hide GoodEntry, Hop;
    var queue', level' := queue + [Entry(v, e.path + [v])], level[v := |e.path| + 1];
    forall k | 0 <= k < |queue'|
      ensures GoodEntry(w, from, to, level', queue'[k])
    {
      if k < |queue| {
        StillGood(w, from, to, level, queue[k], v, |e.path| + 1);
      } else {
        NewEntry(w, from, to, level, e, v);
      }
    }
  }

  /** Queueing a newly found neighbour of the node being expanded. */
  lemma {:induction false} Pushed(w: Workflow, from: string, to: string, queue: seq<Entry>, level: map<string, nat>,
                                  e: Entry, v: string)
    requires Searching(w, from, to, queue, level, |e.path|, Some(e.node)) && GoodEntry(w, from, to, level, e)
    requires Hop(w, to, e.node, v) && v !in level && v != to
    ensures var entry := Entry(v, e.path + [v]);
            Searching(w, from, to, queue + [entry], level[v := |e.path| + 1], |e.path|, Some(e.node))
            && GoodEntry(w, from, to, level[v := |e.path| + 1], e)
  {
    hide GoodQueue, GoodEntry, Queued, Expanded, Hop;
    PushedQueue(w, from, to, queue, level, e, v);
    StillGood(w, from, to, level, e, v, |e.path| + 1);
    LevelOf(w, from, to, level, e);
    StillExpanded(w, from, to, queue, level, e, v);
  }

  lemma {:induction false} StillExpanded(w: Workflow, from: string, to: string, queue: seq<Entry>,
                                         level: map<string, nat>, e: Entry, v: string)
    requires Searching(w, from, to, queue, level, |e.path|, Some(e.node)) && v !in level
    ensures var queue', level' := queue + [Entry(v, e.path + [v])], level[v := |e.path| + 1];
            forall u :: u in level' && !Queued(queue', u) && Some(e.node) != Some(u) ==> Expanded(w, to, level', u)
  {
    var queue', level' := queue + [Entry(v, e.path + [v])], level[v := |e.path| + 1];
    assert queue'[|queue|].node == v;
    forall u | u in level' && !Queued(queue', u) && u != e.node
      ensures Expanded(w, to, level', u)
    {
      assert !Queued(queue, u) by {
        forall k | 0 <= k < |queue|
          ensures queue[k].node != u
        {
          assert queue'[k] == queue[k];
        }
      }
      assert Expanded(w, to, level, u);
    }
  }

  // ----- the paths found are the first ones

  ghost predicate NoLater(w: Workflow, from: string, p: seq<string>, q: seq<string>) {
    p == q || Sooner(w, from, p, q)
  }

  /** `best` holds a path for every node found, and no walk as short comes before it. */
  ghost predicate FirstPaths(w: Workflow, from: string, to: string, level: map<string, nat>,
                             best: map<string, seq<string>>) {
    && best.Keys == level.Keys
    && (forall u :: u in best ==> |best[u]| == level[u])
    && (forall u, q :: u in best && IsWalk(w, from, to, q) && End(from, q) == u && |q| == |best[u]| ==>
          NoLater(w, from, best[u], q))
  }

  /** Pending entries of one length are in order, and the longer ones grew from earlier ones. */
  ghost predicate QueueOrder(w: Workflow, from: string, queue: seq<Entry>, best: map<string, seq<string>>) {
    && (forall k :: 0 <= k < |queue| ==> queue[k].node in best && best[queue[k].node] == queue[k].path)
    && (forall i, j :: 0 <= i < j < |queue| && |queue[i].path| == |queue[j].path| ==>
          Sooner(w, from, queue[i].path, queue[j].path))
    && (forall i, j :: 0 <= i < |queue| && 0 <= j < |queue| && |queue[j].path| == |queue[i].path| + 1 ==>
          Sooner(w, from, queue[j].path[..|queue[i].path|], queue[i].path))
  }

  /** Where a pending entry stands to the one being expanded, whose neighbours in `done` have been seen. */
  ghost predicate Behind(w: Workflow, from: string, e: Entry, done: seq<string>, f: Entry) {
    && (|f.path| == |e.path| ==> Sooner(w, from, e.path, f.path))
    && (|f.path| == |e.path| + 1 ==>
          var init := f.path[..|e.path|];
          Sooner(w, from, init, e.path) || (init == e.path && f.path[|e.path|] in done))
  }

  ghost predicate AllBehind(w: Workflow, from: string, e: Entry, done: seq<string>, queue: seq<Entry>) {
    forall k :: 0 <= k < |queue| ==> Behind(w, from, e, done, queue[k])
  }

  lemma {:induction false} FirstPopped(w: Workflow, from: string, queue: seq<Entry>, best: map<string, seq<string>>)
    requires queue != [] && QueueOrder(w, from, queue, best)
    ensures QueueOrder(w, from, queue[1..], best) && AllBehind(w, from, queue[0], [], queue[1..])
    ensures queue[0].node in best && best[queue[0].node] == queue[0].path
  {
    var e, rest := queue[0], queue[1..];
    assert forall k :: 0 <= k < |rest| ==> rest[k] == queue[k + 1];
    hide Sooner;
  }

  lemma {:induction false} WalkInit(w: Workflow, from: string, to: string, q: seq<string>)
    requires IsWalk(w, from, to, q) && q != []
    ensures var init := q[..|q| - 1];
            IsWalk(w, from, to, init) && Hop(w, to, End(from, init), q[|q| - 1]) && q == init + [q[|q| - 1]]
  {
    hide Hop;
    var init := q[..|q| - 1];
    forall i | 0 <= i < |init|
      ensures Hop(w, to, End(from, init[..i]), init[i])
    {
      assert init[..i] == q[..i];
      assert Hop(w, to, End(from, q[..i]), q[i]);
    }
    assert Hop(w, to, End(from, q[..|init|]), q[|init|]);
  }

  /** The node before the last on a shortest walk to something new is being expanded or still pending. */
  lemma {:induction false} PenultimateIsPending(w: Workflow, from: string, to: string, queue: seq<Entry>,
                                                level: map<string, nat>, e: Entry, q: seq<string>, v: string)
    requires Searching(w, from, to, queue, level, |e.path|, Some(e.node)) && v !in level
    requires IsWalk(w, from, to, q) && |q| == |e.path| && Hop(w, to, End(from, q), v)
    ensures var u := End(from, q);
            u in level && level[u] == |e.path| && (u == e.node || Queued(queue, u))
  {
    hide Hop, IsWalk;
    WalkIsFound(w, from, to, queue, level, |e.path|, Some(e.node), q);
    var u := End(from, q);
    assert u == e.node || Queued(queue, u) || Expanded(w, to, level, u);
    if Queued(queue, u) {
      var k :| 0 <= k < |queue| && queue[k].node == u;
    }
  }

  /** What a step from the entry being expanded finds first is reached by no walk that comes before. */
  lemma {:induction false} FirstStep(w: Workflow, from: string, to: string, queue: seq<Entry>, level: map<string, nat>,
                                     best: map<string, seq<string>>, e: Entry, done: seq<string>, q: seq<string>)
    requires Searching(w, from, to, queue, level, |e.path|, Some(e.node)) && FirstPaths(w, from, to, level, best)
    requires QueueOrder(w, from, queue, best) && AllBehind(w, from, e, done, queue)
    requires e.node in best && best[e.node] == e.path
    requires IsWalk(w, from, to, q) && |q| == |e.path| + 1 && End(from, q) !in level
    ensures NoLater(w, from, e.path + [End(from, q)], q)
  {
    var init, v := q[..|q| - 1], End(from, q);
    WalkInit(w, from, to, q);
    PenultimateIsPending(w, from, to, queue, level, e, init, v);
    hide Searching, IsWalk, Sooner, Hop;
    var u := End(from, init);
    assert NoLater(w, from, best[u], init);
    if u != e.node {
      var k :| 0 <= k < |queue| && queue[k].node == u;
      assert Behind(w, from, e, done, queue[k]);
      if best[u] != init {
        SoonerTransitive(w, from, e.path, best[u], init);
      }
    }
    if e.path != init {
      SoonerExtends(w, from, e.path, init, v, v);
    }
  }

  lemma {:induction false} FirstPathsGrow(w: Workflow, from: string, to: string, level: map<string, nat>,
                                          best: map<string, seq<string>>, v: string, path: seq<string>)
    requires FirstPaths(w, from, to, level, best) && v !in level
    requires forall q :: IsWalk(w, from, to, q) && End(from, q) == v && |q| == |path| ==> NoLater(w, from, path, q)
    ensures FirstPaths(w, from, to, level[v := |path|], best[v := path])
  {
    hide IsWalk, NoLater;
  }

  /** A new entry goes behind everything pending. */
  lemma {:induction false} NewEntryIsLast(w: Workflow, from: string, e: Entry, done: seq<string>, v: string, f: Entry)
    requires Behind(w, from, e, done, f) && End(from, e.path) == e.node
    requires forall x :: x in done ==> IndexOf(w.Out(e.node), x) < IndexOf(w.Out(e.node), v)
    ensures |f.path| == |e.path| + 1 ==> Sooner(w, from, f.path, e.path + [v])
  {
    if |f.path| == |e.path| + 1 {
      var init, x := f.path[..|e.path|], f.path[|e.path|];
      assert f.path == init + [x];
      hide Sooner;
      if init == e.path {
        SoonerIsStrict(w, from, e.path);
        SoonerLastHop(w, from, e.path, x, v);
      } else {
        SoonerExtends(w, from, init, e.path, x, v);
      }
    }
  }

  lemma {:induction false} QueueOrderGrows(
      w: Workflow, from: string, queue: seq<Entry>, best: map<string, seq<string>>, e: Entry, done: seq<string>,
      v: string)
    requires QueueOrder(w, from, queue, best) && AllBehind(w, from, e, done, queue) && v !in best
    requires End(from, e.path) == e.node && forall k :: 0 <= k < |queue| ==> |queue[k].path| <= |e.path| + 1
    requires forall x :: x in done ==> IndexOf(w.Out(e.node), x) < IndexOf(w.Out(e.node), v)
    ensures QueueOrder(w, from, queue + [Entry(v, e.path + [v])], best[v := e.path + [v]])
    ensures AllBehind(w, from, e, done + [v], queue + [Entry(v, e.path + [v])])
  {
    var f := Entry(v, e.path + [v]);
    assert f.path[..|e.path|] == e.path && f.path[|e.path|] == v;
    forall k | 0 <= k < |queue|
      ensures |queue[k].path| == |f.path| ==> Sooner(w, from, queue[k].path, f.path)
      ensures |f.path| == |queue[k].path| + 1 ==> Sooner(w, from, f.path[..|queue[k].path|], queue[k].path)
      ensures Behind(w, from, e, done + [v], queue[k])
    {
      assert Behind(w, from, e, done, queue[k]);
      NewEntryIsLast(w, from, e, done, v, queue[k]);
    }
    hide Sooner;
  }

  /** Reaching `to` first gives the first of the shortest routes. */
  lemma {:induction false} FoundFirst(w: Workflow, from: string, to: string, queue: seq<Entry>, level: map<string, nat>,
                                      best: map<string, seq<string>>, e: Entry, done: seq<string>)
    requires Searching(w, from, to, queue, level, |e.path|, Some(e.node)) && GoodEntry(w, from, to, level, e)
    requires FirstPaths(w, from, to, level, best) && QueueOrder(w, from, queue, best)
    requires AllBehind(w, from, e, done, queue) && e.node in best && best[e.node] == e.path
    requires Hop(w, to, e.node, to)
    ensures IsFirstShortestRoute(w, from, to, e.path + [to])
  {
    FoundShortest(w, from, to, queue, level, e);
    assert to !in level;
    hide Searching, GoodEntry, FirstPaths, QueueOrder, AllBehind, Sooner, Hop, IsWalk;
    forall q | IsShortestRoute(w, from, to, q) && q != e.path + [to]
      ensures Sooner(w, from, e.path + [to], q)
    {
      RouteIsWalk(w, from, to, q);
      assert |q| <= |e.path + [to]| <= |q|;
      FirstStep(w, from, to, queue, level, best, e, done, q);
    }
  }

  lemma {:induction false} StillBehind(w: Workflow, from: string, e: Entry, done: seq<string>, x: string,
                                       queue: seq<Entry>)
    requires AllBehind(w, from, e, done, queue)
    ensures AllBehind(w, from, e, done + [x], queue)
  {
    hide Sooner;
    assert forall k :: 0 <= k < |queue| ==> Behind(w, from, e, done, queue[k]);
  }

  /** Queueing the `i`-th neighbour keeps paths first and the queue in order. */
  lemma {:induction false} PushedInOrder(w: Workflow, from: string, to: string, queue: seq<Entry>,
                                         level: map<string, nat>, best: map<string, seq<string>>, e: Entry, i: nat)
    requires Searching(w, from, to, queue, level, |e.path|, Some(e.node)) && GoodEntry(w, from, to, level, e)
    requires FirstPaths(w, from, to, level, best) && QueueOrder(w, from, queue, best)
    requires i < |w.Out(e.node)| && AllBehind(w, from, e, w.Out(e.node)[..i], queue)
    requires e.node in best && best[e.node] == e.path
    requires ExpandedSoFar(w, to, e.node, w.Out(e.node)[..i], level)
    requires w.Out(e.node)[i] !in level && Hop(w, to, e.node, w.Out(e.node)[i])
    ensures var v := w.Out(e.node)[i];
            && FirstPaths(w, from, to, level[v := |e.path| + 1], best[v := e.path + [v]])
            && QueueOrder(w, from, queue + [Entry(v, e.path + [v])], best[v := e.path + [v]])
            && AllBehind(w, from, e, w.Out(e.node)[..i + 1], queue + [Entry(v, e.path + [v])])
  {
    hide Searching, GoodEntry, FirstPaths, QueueOrder, AllBehind, Sooner, ExpandedSoFar, IndexOf, Hop, IsWalk;
    var nexts := w.Out(e.node);
    var v, done := nexts[i], nexts[..i];
    assert done + [v] == nexts[..i + 1];
    QueueIsNear(w, from, to, queue, level, e);
    DeclaredLater(w, to, e.node, i, level);
    NotRecorded(w, from, to, level, best, v);
    EntryEnds(w, from, to, level, e);
    NewPathIsFirst(w, from, to, queue, level, best, e, done, v);
    FirstPathsGrow(w, from, to, level, best, v, e.path + [v]);
    QueueOrderGrows(w, from, queue, best, e, done, v);
  }

  lemma {:induction false} NewPathIsFirst(w: Workflow, from: string, to: string, queue: seq<Entry>,
                                          level: map<string, nat>, best: map<string, seq<string>>, e: Entry,
                                          done: seq<string>, v: string)
    requires Searching(w, from, to, queue, level, |e.path|, Some(e.node)) && FirstPaths(w, from, to, level, best)
    requires QueueOrder(w, from, queue, best) && AllBehind(w, from, e, done, queue)
    requires e.node in best && best[e.node] == e.path && v !in level
    ensures forall q :: IsWalk(w, from, to, q) && End(from, q) == v && |q| == |e.path + [v]| ==>
              NoLater(w, from, e.path + [v], q)
  {
    hide Searching, FirstPaths, QueueOrder, AllBehind, IsWalk, NoLater;
    forall q | IsWalk(w, from, to, q) && End(from, q) == v && |q| == |e.path + [v]|
      ensures NoLater(w, from, e.path + [v], q)
    {
      FirstStep(w, from, to, queue, level, best, e, done, q);
    }
  }

  lemma {:induction false} NotRecorded(w: Workflow, from: string, to: string, level: map<string, nat>,
                                       best: map<string, seq<string>>, v: string)
    requires FirstPaths(w, from, to, level, best) && v !in level
    ensures v !in best
  {
    hide IsWalk, NoLater;
    assert best.Keys == level.Keys;
  }

  lemma {:induction false} EntryEnds(w: Workflow, from: string, to: string, level: map<string, nat>, e: Entry)
    requires GoodEntry(w, from, to, level, e)
    ensures End(from, e.path) == e.node
  {
  }

  lemma {:induction false} QueueIsNear(w: Workflow, from: string, to: string, queue: seq<Entry>,
                                       level: map<string, nat>, e: Entry)
    requires Searching(w, from, to, queue, level, |e.path|, Some(e.node))
    ensures forall k :: 0 <= k < |queue| ==> |queue[k].path| <= |e.path| + 1
  {
  }

  /** A neighbour not found yet is declared after all that have been seen. */
  lemma {:induction false} DeclaredLater(w: Workflow, to: string, u: string, i: nat, level: map<string, nat>)
    requires i < |w.Out(u)| && ExpandedSoFar(w, to, u, w.Out(u)[..i], level)
    requires w.Out(u)[i] !in level && Hop(w, to, u, w.Out(u)[i])
    ensures forall x :: x in w.Out(u)[..i] ==> IndexOf(w.Out(u), x) < IndexOf(w.Out(u), w.Out(u)[i])
  {
    var nexts := w.Out(u);
    assert nexts[i] !in nexts[..i];
    forall x | x in nexts[..i]
      ensures IndexOf(nexts, x) < IndexOf(nexts, nexts[i])
    {
      IndexOfEarlier(nexts, i, x, nexts[i]);
    }
  }

  lemma {:induction false} SearchStarts(w: Workflow, from: string, to: string)
    requires from != to
    ensures Searching(w, from, to, [Entry(from, [])], map[from := 0], 0, None)
    ensures FirstPaths(w, from, to, map[from := 0], map[from := []])
    ensures QueueOrder(w, from, [Entry(from, [])], map[from := []])
  {
    var queue := [Entry(from, [])];
    assert queue[0].node == from;
  }

  method ShortestTransitionPath(from: string, to: string, w: Workflow) returns (r: Option<seq<string>>)
    ensures from == to ==> r == Some([])
    ensures from != to && to !in w.statuses ==> r == None
    ensures from != to && r.Some? ==> IsFirstShortestRoute(w, from, to, r.value)
    ensures from != to && to in w.statuses && r == None ==> forall q :: !IsRoute(w, from, to, q)
  {
    hide Searching, IsRoute, IsFirstShortestRoute, GoodEntry, Targets, FirstPaths, QueueOrder, AllBehind;
    if from == to {
      return Some([]);
    }
    if to !in w.statuses {
      return None;
    }
    SearchStarts(w, from, to);
    ghost var universe := {from} + Targets(w);
    ghost var level: map<string, nat> := map[from := 0];
    ghost var best: map<string, seq<string>> := map[from := []];
    ghost var d: nat := 0;
    var visited := {from};
    var queue := [Entry(from, [])];
    while queue != []
      invariant Searching(w, from, to, queue, level, d, None)
      invariant FirstPaths(w, from, to, level, best) && QueueOrder(w, from, queue, best)
      invariant visited == level.Keys && visited <= universe
      decreases universe - visited, |queue|
    {
      var e := queue[0];
      Popped(w, from, to, queue, level, d);
      FirstPopped(w, from, queue, best);
      d := |e.path|;
      var found;
      found, queue, visited, level, best := Expand(w, from, to, e, queue[1..], visited, level, best, universe);
      if found.Some? {
        return found;
      }
    }
    forall q
      ensures !IsRoute(w, from, to, q)
    {
      NothingPending(w, from, to, level, d, q);
    }
    return None;
  }

  /** Every status some transition leads to. */
  ghost function Targets(w: Workflow): set<string> {
    set k, i | k in w.transitions && 0 <= i < |w.transitions[k]| :: w.transitions[k][i]
  }

  /** The neighbours of one entry: the goal ends the search, a new one is queued. */
  method Expand(w: Workflow, from: string, to: string, e: Entry, queue0: seq<Entry>, visited0: set<string>,
                ghost level0: map<string, nat>, ghost best0: map<string, seq<string>>, ghost universe: set<string>)
    returns (found: Option<seq<string>>, queue: seq<Entry>, visited: set<string>,
             ghost level: map<string, nat>, ghost best: map<string, seq<string>>)
    requires Searching(w, from, to, queue0, level0, |e.path|, Some(e.node)) && GoodEntry(w, from, to, level0, e)
    requires FirstPaths(w, from, to, level0, best0) && QueueOrder(w, from, queue0, best0)
    requires AllBehind(w, from, e, [], queue0) && e.node in best0 && best0[e.node] == e.path
    requires visited0 == level0.Keys && visited0 <= universe && Targets(w) <= universe
    ensures found.Some? ==> IsFirstShortestRoute(w, from, to, found.value)
    ensures found.None? ==>
              && Searching(w, from, to, queue, level, |e.path|, None)
              && FirstPaths(w, from, to, level, best) && QueueOrder(w, from, queue, best)
              && visited == level.Keys && visited0 <= visited <= universe
              && (visited == visited0 ==> queue == queue0)
  {
    hide Searching, GoodEntry, IsFirstShortestRoute, FirstPaths, QueueOrder, AllBehind, IndexOf;
    found, queue, visited, level, best := None, queue0, visited0, level0, best0;
    LevelOf(w, from, to, level, e);
    var nexts := w.Out(e.node);
    for i := 0 to |nexts|
      invariant Searching(w, from, to, queue, level, |e.path|, Some(e.node)) && GoodEntry(w, from, to, level, e)
      invariant visited == level.Keys && visited0 <= visited <= universe
      invariant visited == visited0 ==> queue == queue0
      invariant ExpandedSoFar(w, to, e.node, nexts[..i], level)
      invariant FirstPaths(w, from, to, level, best) && QueueOrder(w, from, queue, best)
      invariant AllBehind(w, from, e, nexts[..i], queue) && e.node in best && best[e.node] == e.path
    {
      var next := nexts[i];
      assert nexts[..i + 1] == nexts[..i] + [next];
      if next in visited {
        LevelsAreClose(w, from, to, queue, level, e, next);
        StillBehind(w, from, e, nexts[..i], next, queue);
        continue;
      }
      if next == ARCHIVED && to != ARCHIVED {
        StillBehind(w, from, e, nexts[..i], next, queue);
        continue;
      }
      assert Hop(w, to, e.node, next);
      if next == to {
        FoundFirst(w, from, to, queue, level, best, e, nexts[..i]);
        return Some(e.path + [next]), queue, visited, level, best;
      }
      PushedInOrder(w, from, to, queue, level, best, e, i);
      Pushed(w, from, to, queue, level, e, next);
      assert next in Targets(w);
      LevelOf(w, from, to, level, e);
      visited := visited + {next};
      level, best := level[next := |e.path| + 1], best[next := e.path + [next]];
      queue := queue + [Entry(next, e.path + [next])];
    }
    assert nexts[..|nexts|] == nexts;
    FullyExpanded(w, from, to, queue, level, e);
  }

  ghost predicate ExpandedSoFar(w: Workflow, to: string, u: string, nexts: seq<string>, level: map<string, nat>) {
    u in level && forall v :: v in nexts && Hop(w, to, u, v) ==> v in level && level[v] <= level[u] + 1
  }

  lemma {:induction false} LevelOf(w: Workflow, from: string, to: string, level: map<string, nat>, e: Entry)
    requires GoodEntry(w, from, to, level, e)
    ensures e.node in level && level[e.node] == |e.path|
  {
  }

  lemma {:induction false} LevelsAreClose(w: Workflow, from: string, to: string, queue: seq<Entry>,
                                          level: map<string, nat>, e: Entry, v: string)
    requires Searching(w, from, to, queue, level, |e.path|, Some(e.node)) && v in level
    ensures e.node in level && level[v] <= level[e.node] + 1
  {
  }

  lemma {:induction false} FullyExpanded(w: Workflow, from: string, to: string, queue: seq<Entry>,
                                         level: map<string, nat>, e: Entry)
    requires Searching(w, from, to, queue, level, |e.path|, Some(e.node))
    requires ExpandedSoFar(w, to, e.node, w.Out(e.node), level)
    ensures Searching(w, from, to, queue, level, |e.path|, None)
  {
  }
}
