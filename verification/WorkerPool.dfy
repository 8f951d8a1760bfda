/** A bounded worker pool: workers share a cursor, and results land in input order. */
module WorkerPool {
  import opened Options

  /** How a call settles. */
  datatype Reply<+R, +E> = Fulfilled(value: R) | Rejected(error: E)

  /** What a worker is doing between two turns of the event loop; a rejected call ends its worker. */
  datatype Worker = NotStarted | Awaiting(index: nat) | Stopped | Failed(index: nat)

  /** `failure` is the error that the combined promise rejects with: the first one to come in. */
  datatype Pool<+R, +E> = Pool(
    cursor: nat, workers: seq<Worker>, out: seq<Option<R>>, taken: seq<nat>, failure: Option<E>)

  /** What the caller of the pool sees. */
  datatype Answer<+R, +E> = Pending | Resolved(out: seq<Option<R>>) | RejectedWith(error: E)

  /** `Array.from({ length: Math.min(limit, items.length) })`: a negative length makes no workers. */
  function WorkerCount(limit: int, n: nat): (count: nat)
    ensures count <= n
  {
    var length := if limit < n then limit else n;
    if length < 0 then 0 else length
  }

  function Idle<R, E>(limit: int, n: nat): Pool<R, E> {
    Pool(0, seq(WorkerCount(limit, n), _ => NotStarted), seq(n, _ => None), [], None)
  }

  /** A worker takes the next index and calls the function on it, or returns when none is left. */
  function Take<R, E>(p: Pool<R, E>, w: nat): (next: Pool<R, E>)
    requires w < |p.workers|
    ensures |next.workers| == |p.workers| && |next.out| == |p.out|
  {
    if p.cursor >= |p.out| then
      p.(cursor := p.cursor + 1, workers := p.workers[w := Stopped])
    else
      p.(cursor := p.cursor + 1, workers := p.workers[w := Awaiting(p.cursor)], taken := p.taken + [p.cursor])
  }

  /** Starting the workers from `w` on, one after the other: each runs to its first `await`. */
  function Launch<R, E>(p: Pool<R, E>, w: nat): (next: Pool<R, E>)
    requires w <= |p.workers|
    ensures next.out == p.out && next.failure == p.failure && |next.workers| == |p.workers|
    decreases |p.workers| - w
  {
    if w == |p.workers| then p else Launch(Take(p, w), w + 1)
  }

  predicate CanResume<R, E>(p: Pool<R, E>, w: nat) {
    w < |p.workers| && p.workers[w].Awaiting? && p.workers[w].index < |p.out|
  }

  /** The call a worker awaits settles: it stores the result and takes its next turn, or fails. */
  function Resume<T, R, E>(items: seq<T>, fn: T -> Reply<R, E>, p: Pool<R, E>, w: nat): (next: Pool<R, E>)
    requires CanResume(p, w) && |items| == |p.out|
    ensures |next.workers| == |p.workers| && |next.out| == |p.out|
  {
    var i := p.workers[w].index;
    match fn(items[i])
    case Fulfilled(value) => Take(p.(out := p.out[i := Some(value)]), w)
    case Rejected(error) =>
      p.(workers := p.workers[w := Failed(i)], failure := if p.failure.Some? then p.failure else Some(error))
  }

  /** No call is outstanding. */
  predicate Quiet<R, E>(p: Pool<R, E>) {
    forall w :: 0 <= w < |p.workers| ==> p.workers[w].Stopped? || p.workers[w].Failed?
  }

  predicate Finished<R, E>(p: Pool<R, E>) {
    forall w :: 0 <= w < |p.workers| ==> p.workers[w].Stopped?
  }

  /** `Promise.all` over the workers, then the array. */
  function AnswerOf<R, E>(p: Pool<R, E>): Answer<R, E> {
    if p.failure.Some? then RejectedWith(p.failure.value)
    else if Finished(p) then Resolved(p.out)
    else Pending
  }

  /** The pool after the calls awaited by these workers have settled in this order, if they can. */
  function Run<T, R, E>(items: seq<T>, fn: T -> Reply<R, E>, limit: int, schedule: seq<nat>): (p: Option<Pool<R, E>>)
    ensures p.Some? ==> |p.value.out| == |items|
  {
    if schedule == [] then Some(Launch(Idle(limit, |items|), 0))
    else
      match Run(items, fn, limit, schedule[..|schedule| - 1])
      case None => None
      case Some(p) =>
        var w := schedule[|schedule| - 1];
        if CanResume(p, w) then Some(Resume(items, fn, p, w)) else None
  }

  // ----- counting

  /** How many workers await a call, or have failed. */
  function Tally(workers: seq<Worker>, failed: bool): (n: nat)
    ensures n <= |workers|
  {
    if workers == [] then 0
    else Tally(workers[..|workers| - 1], failed) + CountedAs(workers[|workers| - 1], failed)
  }

  function CountedAs(w: Worker, failed: bool): (n: nat)
    ensures n <= 1
  {
    if failed then (if w.Failed? then 1 else 0) else if w.Awaiting? then 1 else 0
  }

  function Filled<R>(out: seq<Option<R>>): (n: nat)
    ensures n <= |out|
  {
    if out == [] then 0
    else Filled(out[..|out| - 1]) + if out[|out| - 1].Some? then 1 else 0
  }

  lemma {:induction false} TallyAfter(workers: seq<Worker>, w: nat, next: Worker, failed: bool)
    requires w < |workers|
    ensures Tally(workers[w := next], failed) + CountedAs(workers[w], failed) ==
            Tally(workers, failed) + CountedAs(next, failed)
    decreases |workers|
  {
    hide CountedAs;
    var init := workers[..|workers| - 1];
    if w < |workers| - 1 {
      TallyAfter(init, w, next, failed);
      assert workers[w := next][..|workers| - 1] == init[w := next];
    } else {
      assert workers[w := next][..|workers| - 1] == init;
    }
  }

  lemma {:induction false} FilledAfter<R>(out: seq<Option<R>>, i: nat, value: R)
    requires i < |out| && out[i].None?
    ensures Filled(out[i := Some(value)]) == Filled(out) + 1
    decreases |out|
  {
    var init := out[..|out| - 1];
    if i < |out| - 1 {
      FilledAfter(init, i, value);
      assert out[i := Some(value)][..|out| - 1] == init[i := Some(value)];
    } else {
      assert out[i := Some(value)][..|out| - 1] == init;
    }
  }

  lemma {:induction false} TallyIsZero(workers: seq<Worker>, failed: bool)
    ensures Tally(workers, failed) == 0 <==> forall w :: 0 <= w < |workers| ==> CountedAs(workers[w], failed) == 0
    decreases |workers|
  {
    hide CountedAs;
    if workers != [] {
      TallyIsZero(workers[..|workers| - 1], failed);
      assert forall w :: 0 <= w < |workers| - 1 ==> workers[..|workers| - 1][w] == workers[w];
    }
  }

  lemma {:induction false} NoneFilled<R>(out: seq<Option<R>>)
    requires forall i :: 0 <= i < |out| ==> out[i].None?
    ensures Filled(out) == 0
    decreases |out|
  {
    if out != [] {
      NoneFilled(out[..|out| - 1]);
    }
  }

  lemma {:induction false} AllFilled<R>(out: seq<Option<R>>)
    ensures Filled(out) == |out| <==> forall i :: 0 <= i < |out| ==> out[i].Some?
    decreases |out|
  {
    if out != [] {
      AllFilled(out[..|out| - 1]);
      assert forall i :: 0 <= i < |out| - 1 ==> out[..|out| - 1][i] == out[i];
    }
  }

  // ----- what every step keeps

  /** The indexes handed out: all below the cursor, in order, once each. */
  ghost predicate TakenInOrder<R, E>(p: Pool<R, E>) {
    && |p.taken| == (if p.cursor < |p.out| then p.cursor else |p.out|)
    && forall k :: 0 <= k < |p.taken| ==> p.taken[k] == k
  }

  predicate Owns(w: Worker) {
    w.Awaiting? || w.Failed?
  }

  /** Each index awaited or failed on belongs to one worker and has no result. */
  ghost predicate OneOwner<R, E>(p: Pool<R, E>) {
    && (forall w :: 0 <= w < |p.workers| && Owns(p.workers[w]) ==>
          p.workers[w].index < |p.taken| && p.workers[w].index < |p.out| && p.out[p.workers[w].index].None?)
    && (forall v, w :: 0 <= v < w < |p.workers| && Owns(p.workers[v]) && Owns(p.workers[w]) ==>
          p.workers[v].index != p.workers[w].index)
  }

  /** Every result is the function's value at its own index, and only taken indexes have one. */
  ghost predicate ResultsInPlace<T, R, E>(items: seq<T>, fn: T -> Reply<R, E>, p: Pool<R, E>)
    requires |items| == |p.out|
  {
    forall i :: 0 <= i < |p.out| && p.out[i].Some? ==> i < |p.taken| && fn(items[i]) == Fulfilled(p.out[i].value)
  }

  /** The pool has failed exactly when a worker has, and with the error of some call. */
  ghost predicate FailureIsReal<T, R, E>(items: seq<T>, fn: T -> Reply<R, E>, p: Pool<R, E>) {
    && (p.failure.Some? <==> Tally(p.workers, true) > 0)
    && (p.failure.Some? ==> exists i :: 0 <= i < |items| && fn(items[i]) == Rejected(p.failure.value))
  }

  /** No worker stops while an item is left to take. */
  ghost predicate NoIdling<R, E>(p: Pool<R, E>, started: nat) {
    forall w :: 0 <= w < |p.workers| ==>
      match p.workers[w]
      case NotStarted => w >= started
      case Awaiting(_) => w < started
      case Failed(_) => w < started
      case Stopped => w < started && p.cursor > |p.out|
  }

  /** Everything but who may idle. */
  ghost predicate Sound<T, R, E>(items: seq<T>, fn: T -> Reply<R, E>, p: Pool<R, E>) {
    && |items| == |p.out|
    && TakenInOrder(p) && OneOwner(p) && ResultsInPlace(items, fn, p) && FailureIsReal(items, fn, p)
    && |p.taken| == Filled(p.out) + Tally(p.workers, false) + Tally(p.workers, true)
  }

  ghost predicate Inv<T, R, E>(items: seq<T>, fn: T -> Reply<R, E>, p: Pool<R, E>, started: nat) {
    Sound(items, fn, p) && NoIdling(p, started)
  }

  lemma {:induction false} IdleInv<T, R, E>(items: seq<T>, fn: T -> Reply<R, E>, limit: int)
    ensures Inv(items, fn, Idle<R, E>(limit, |items|), 0)
  {
    var p := Idle<R, E>(limit, |items|);
    NoneFilled(p.out);
    TallyIsZero(p.workers, false);
    TallyIsZero(p.workers, true);
  }

  /** A turn by a worker that owns nothing keeps the pool sound. */
  lemma {:induction false} TakeIsSound<T, R, E>(items: seq<T>, fn: T -> Reply<R, E>, p: Pool<R, E>, w: nat)
    requires w < |p.workers| && !Owns(p.workers[w]) && Sound(items, fn, p)
    ensures Sound(items, fn, Take(p, w))
  {
    var next := Take(p, w);
    assert next.workers == p.workers[w := next.workers[w]];
    TallyAfter(p.workers, w, next.workers[w], false);
    TallyAfter(p.workers, w, next.workers[w], true);
    TakeKeepsOwners(p, w);
    hide OneOwner, Tally, Filled;
  }

  lemma {:induction false} TakeKeepsOwners<R, E>(p: Pool<R, E>, w: nat)
    requires w < |p.workers| && !Owns(p.workers[w]) && TakenInOrder(p) && OneOwner(p)
    requires forall i :: 0 <= i < |p.out| && p.out[i].Some? ==> i < |p.taken|
    ensures OneOwner(Take(p, w))
  {
  }

  lemma {:induction false} LaunchInv<T, R, E>(items: seq<T>, fn: T -> Reply<R, E>, p: Pool<R, E>, w: nat)
    requires w <= |p.workers| <= |items| && Inv(items, fn, p, w) && p.cursor == w
    ensures Inv(items, fn, Launch(p, w), |p.workers|) && Launch(p, w).cursor == |p.workers|
    decreases |p.workers| - w
  {
    hide Sound;
    if w < |p.workers| {
      TakeIsSound(items, fn, p, w);
      assert |p.out| == |items| by {
        SoundLength(items, fn, p);
      }
      LaunchInv(items, fn, Take(p, w), w + 1);
    }
  }

  lemma {:induction false} SoundLength<T, R, E>(items: seq<T>, fn: T -> Reply<R, E>, p: Pool<R, E>)
    requires Sound(items, fn, p)
    ensures |items| == |p.out|
  {
  }

  /** The result is stored before the next turn: the worker then owns nothing. */
  lemma {:induction false} StoredIsSound<T, R, E>(items: seq<T>, fn: T -> Reply<R, E>, p: Pool<R, E>, w: nat, value: R)
    requires CanResume(p, w) && Sound(items, fn, p) && fn(items[p.workers[w].index]) == Fulfilled(value)
    ensures var i := p.workers[w].index;
            Sound(items, fn, p.(out := p.out[i := Some(value)], workers := p.workers[w := Stopped]))
  {
    var i := p.workers[w].index;
    FilledAfter(p.out, i, value);
    TallyAfter(p.workers, w, Stopped, false);
    TallyAfter(p.workers, w, Stopped, true);
    hide Tally, Filled;
  }

  lemma {:induction false} FulfilledInv<T, R, E>(items: seq<T>, fn: T -> Reply<R, E>, p: Pool<R, E>, w: nat, value: R)
    requires CanResume(p, w) && Inv(items, fn, p, |p.workers|) && fn(items[p.workers[w].index]) == Fulfilled(value)
    ensures Inv(items, fn, Resume(items, fn, p, w), |p.workers|)
    ensures Filled(Resume(items, fn, p, w).out) == Filled(p.out) + 1
    ensures Tally(Resume(items, fn, p, w).workers, true) == Tally(p.workers, true)
  {
    var i := p.workers[w].index;
    var stored := p.(out := p.out[i := Some(value)], workers := p.workers[w := Stopped]);
    FilledAfter(p.out, i, value);
    StoredIsSound(items, fn, p, w, value);
    TakeIsSound(items, fn, stored, w);
    ResumeTakes(items, fn, p, w, value);
    var next := Resume(items, fn, p, w);
    hide Sound, Tally, Filled, Resume;
    TallyAfter(p.workers, w, next.workers[w], true);
  }

  lemma {:induction false} ResumeTakes<T, R, E>(items: seq<T>, fn: T -> Reply<R, E>, p: Pool<R, E>, w: nat, value: R)
    requires CanResume(p, w) && |items| == |p.out| && fn(items[p.workers[w].index]) == Fulfilled(value)
    ensures var next := Resume(items, fn, p, w);
            && next == Take(p.(out := p.out[p.workers[w].index := Some(value)], workers := p.workers[w := Stopped]), w)
            && next.workers == p.workers[w := next.workers[w]] && !next.workers[w].Failed?
            && next.out == p.out[p.workers[w].index := Some(value)] && next.cursor == p.cursor + 1
            && (next.workers[w].Stopped? ==> p.cursor >= |p.out|) && !next.workers[w].NotStarted?
  {
    var stored := p.(out := p.out[p.workers[w].index := Some(value)], workers := p.workers[w := Stopped]);
    var next := Resume(items, fn, p, w);
    assert stored.workers[w := next.workers[w]] == p.workers[w := next.workers[w]];
  }

  lemma {:induction false} RejectedInv<T, R, E>(items: seq<T>, fn: T -> Reply<R, E>, p: Pool<R, E>, w: nat, error: E)
    requires CanResume(p, w) && Inv(items, fn, p, |p.workers|) && fn(items[p.workers[w].index]) == Rejected(error)
    ensures Inv(items, fn, Resume(items, fn, p, w), |p.workers|)
    ensures Resume(items, fn, p, w).out == p.out
    ensures Tally(Resume(items, fn, p, w).workers, true) == Tally(p.workers, true) + 1
  {
    var i := p.workers[w].index;
    TallyAfter(p.workers, w, Failed(i), false);
    TallyAfter(p.workers, w, Failed(i), true);
    hide Tally, Filled;
  }

  /** One settled call: one more result or one more failed worker. */
  lemma {:induction false} ResumeInv<T, R, E>(items: seq<T>, fn: T -> Reply<R, E>, p: Pool<R, E>, w: nat)
    requires CanResume(p, w) && Inv(items, fn, p, |p.workers|)
    ensures Inv(items, fn, Resume(items, fn, p, w), |p.workers|)
    ensures Settled(Resume(items, fn, p, w)) == Settled(p) + 1
  {
    hide Inv, Resume, Filled, Tally;
    assert |items| == |p.out| by {
      InvLength(items, fn, p, |p.workers|);
    }
    match fn(items[p.workers[w].index])
    case Fulfilled(value) => FulfilledInv(items, fn, p, w, value);
    case Rejected(error) => RejectedInv(items, fn, p, w, error);
  }

  lemma {:induction false} InvLength<T, R, E>(items: seq<T>, fn: T -> Reply<R, E>, p: Pool<R, E>, started: nat)
    requires Inv(items, fn, p, started)
    ensures |items| == |p.out|
  {
  }

  /** How many calls have settled, either way. */
  function Settled<R, E>(p: Pool<R, E>): nat {
    Filled(p.out) + Tally(p.workers, true)
  }

  // ----- every schedule

  lemma {:induction false} StartInv<T, R, E>(items: seq<T>, fn: T -> Reply<R, E>, limit: int)
    ensures var p := Launch(Idle<R, E>(limit, |items|), 0);
            Inv(items, fn, p, |p.workers|) && Settled(p) == 0 && p.cursor == |p.workers|
  {
    var idle := Idle<R, E>(limit, |items|);
    IdleInv(items, fn, limit);
    LaunchInv(items, fn, idle, 0);
    NoneFilled(idle.out);
    hide Launch, Filled, Tally;
  }

  lemma {:induction false} RunInv<T, R, E>(items: seq<T>, fn: T -> Reply<R, E>, limit: int, schedule: seq<nat>)
    requires Run(items, fn, limit, schedule).Some?
    ensures var p := Run(items, fn, limit, schedule).value;
            && |p.workers| == WorkerCount(limit, |items|) && (p.workers == [] ==> p.cursor == 0)
            && Inv(items, fn, p, |p.workers|) && Settled(p) == |schedule|
    decreases |schedule|
  {
    hide Inv, Resume, Settled, Launch, CanResume, WorkerCount;
    if schedule == [] {
      StartInv(items, fn, limit);
    } else {
      var init := schedule[..|schedule| - 1];
      RunInv(items, fn, limit, init);
      CanOnlyResumeWorkers(Run(items, fn, limit, init).value, schedule[|schedule| - 1]);
      ResumeInv(items, fn, Run(items, fn, limit, init).value, schedule[|schedule| - 1]);
    }
  }

  lemma {:induction false} CanOnlyResumeWorkers<R, E>(p: Pool<R, E>, w: nat)
    ensures CanResume(p, w) ==> p.workers != []
  {
  }

  /**
   * Whatever order the calls settle in: indexes are handed out once each in input order, no more calls are in flight
   * than there are workers, and `k` steps settle `k` calls, so no run is longer than the input.
   */
  lemma {:induction false} EveryRunIsBounded<T, R, E>(
      items: seq<T>, fn: T -> Reply<R, E>, limit: int, schedule: seq<nat>)
    requires Run(items, fn, limit, schedule).Some?
    ensures var p := Run(items, fn, limit, schedule).value;
            && |p.out| == |items|
            && TakenInOrder(p) && OneOwner(p) && ResultsInPlace(items, fn, p)
            && |p.taken| - Settled(p) == Tally(p.workers, false) <= |items|
            && (limit >= 0 ==> Tally(p.workers, false) <= limit)
            && Settled(p) == |schedule| <= |items|
  {
    RunInv(items, fn, limit, schedule);
  }

  /** Before anything settles, as many calls are outstanding as the limit allows and there are items for. */
  lemma {:induction false} LaunchIsFull<T, R, E>(items: seq<T>, fn: T -> Reply<R, E>, limit: int)
    ensures Run(items, fn, limit, []).Some?
    ensures Tally(Run(items, fn, limit, []).value.workers, false) ==
            if limit < 0 then 0 else if limit < |items| then limit else |items|
  {
    StartInv(items, fn, limit);
    RunInv(items, fn, limit, []);
    hide Launch, Filled, Tally;
  }

  /** While an item is left, every worker that has not failed is at work, and while one is, the run can go on. */
  lemma {:induction false} EveryRunProgresses<T, R, E>(
      items: seq<T>, fn: T -> Reply<R, E>, limit: int, schedule: seq<nat>)
    requires Run(items, fn, limit, schedule).Some?
    ensures var p := Run(items, fn, limit, schedule).value;
            && (|p.taken| < |items| ==> forall w :: 0 <= w < |p.workers| ==> Owns(p.workers[w]))
            && (Quiet(p) || exists w: nat :: CanResume(p, w))
  {
    RunInv(items, fn, limit, schedule);
    hide Run, Filled, Tally;
    var p := Run(items, fn, limit, schedule).value;
    if !Quiet(p) {
      var w: nat :| w < |p.workers| && !p.workers[w].Stopped? && !p.workers[w].Failed?;
      assert CanResume(p, w);
    }
  }

  ghost predicate AllFulfilled<T, R, E>(items: seq<T>, fn: T -> Reply<R, E>) {
    forall i :: 0 <= i < |items| ==> fn(items[i]).Fulfilled?
  }

  ghost function Mapped<T, R, E>(items: seq<T>, fn: T -> Reply<R, E>): (out: seq<Option<R>>)
    requires AllFulfilled(items, fn)
    ensures |out| == |items|
  {
    seq(|items|, i requires 0 <= i < |items| => Some(fn(items[i]).value))
  }

  /** Nothing outstanding and nobody failed: with a worker, every item has been taken and has its result. */
  lemma {:induction false} QuietIsFilled<T, R, E>(items: seq<T>, fn: T -> Reply<R, E>, p: Pool<R, E>)
    requires Inv(items, fn, p, |p.workers|) && Quiet(p) && p.failure.None? && (p.workers != [] || items == [])
    ensures Finished(p) && AllFulfilled(items, fn) && p.out == Mapped(items, fn)
  {
    TallyIsZero(p.workers, false);
    TallyIsZero(p.workers, true);
    assert |p.taken| == |items| by {
      if items != [] {
        assert CountedAs(p.workers[0], true) == 0;
        assert p.workers[0].Stopped?;
      }
    }
    AllFilled(p.out);
    hide Filled, Tally;
    forall i | 0 <= i < |items|
      ensures fn(items[i]).Fulfilled? && p.out[i] == Some(fn(items[i]).value)
    {
      assert p.out[i].Some?;
    }
    forall w | 0 <= w < |p.workers|
      ensures p.workers[w].Stopped?
    {
      assert CountedAs(p.workers[w], true) == 0;
    }
  }

  /** What the caller sees once nothing is outstanding. */
  ghost predicate GoodAnswer<T, R, E>(items: seq<T>, fn: T -> Reply<R, E>, limit: int, answer: Answer<R, E>) {
    if limit >= 1 || items == [] then
      if AllFulfilled(items, fn) then answer == Resolved(Mapped(items, fn))
      else answer.RejectedWith? && exists i :: 0 <= i < |items| && fn(items[i]) == Rejected(answer.error)
    else answer == Resolved(seq(|items|, _ => None))
  }

  lemma {:induction false} QuietAnswer<T, R, E>(items: seq<T>, fn: T -> Reply<R, E>, limit: int, p: Pool<R, E>)
    requires Inv(items, fn, p, |p.workers|) && Quiet(p) && |p.workers| == WorkerCount(limit, |items|)
    requires p.workers == [] ==> p.cursor == 0
    ensures GoodAnswer(items, fn, limit, AnswerOf(p))
  {
    if limit >= 1 || items == [] {
      if p.failure.None? {
        QuietIsFilled(items, fn, p);
      }
    } else {
      assert p.failure.None? && |p.taken| == 0;
      assert p.out == seq(|items|, _ => None);
    }
    hide Filled;
  }

  // ----- whose error

  /** How the call that settles in step `k` settles. */
  ghost function ReplyAt<T, R, E>(items: seq<T>, fn: T -> Reply<R, E>, limit: int, schedule: seq<nat>, k: nat)
    : Option<Reply<R, E>>
    requires k < |schedule|
  {
    match Run(items, fn, limit, schedule[..k])
    case None => None
    case Some(p) => if CanResume(p, schedule[k]) then Some(fn(items[p.workers[schedule[k]].index])) else None
  }

  ghost predicate FulfilledAt<T, R, E>(items: seq<T>, fn: T -> Reply<R, E>, limit: int, schedule: seq<nat>, k: nat)
    requires k < |schedule|
  {
    var reply := ReplyAt(items, fn, limit, schedule, k);
    reply.Some? && reply.value.Fulfilled?
  }

  /** Step `k` is the first of the schedule whose call rejects, with this error. */
  ghost predicate FirstRejection<T, R, E>(items: seq<T>, fn: T -> Reply<R, E>, limit: int, schedule: seq<nat>,
                                          k: nat, error: E)
  {
    && k < |schedule| && ReplyAt(items, fn, limit, schedule, k) == Some(Rejected(error))
    && forall j: nat :: j < k ==> FulfilledAt(items, fn, limit, schedule, j)
  }

  lemma {:induction false} EarlierReply<T, R, E>(items: seq<T>, fn: T -> Reply<R, E>, limit: int, schedule: seq<nat>,
                                                 k: nat)
    requires k < |schedule| - 1
    ensures ReplyAt(items, fn, limit, schedule, k) == ReplyAt(items, fn, limit, schedule[..|schedule| - 1], k)
  {
    hide Run, CanResume;
    assert schedule[..|schedule| - 1][..k] == schedule[..k];
  }

  /** Quiet or not, a run has failed with the error of its first rejection, and otherwise none of its calls rejected. */
  lemma {:induction false} FailureIsFirst<T, R, E>(items: seq<T>, fn: T -> Reply<R, E>, limit: int, schedule: seq<nat>)
    requires Run(items, fn, limit, schedule).Some?
    ensures match Run(items, fn, limit, schedule).value.failure
            case None => forall k: nat :: k < |schedule| ==> FulfilledAt(items, fn, limit, schedule, k)
            case Some(error) => exists k: nat :: FirstRejection(items, fn, limit, schedule, k, error)
    decreases |schedule|
  {
    if schedule != [] {
      var init, last := schedule[..|schedule| - 1], |schedule| - 1;
      FailureIsFirst(items, fn, limit, init);
      forall k: nat | k < last
        ensures ReplyAt(items, fn, limit, schedule, k) == ReplyAt(items, fn, limit, init, k)
        ensures FulfilledAt(items, fn, limit, init, k) ==> FulfilledAt(items, fn, limit, schedule, k)
      {
        EarlierReply(items, fn, limit, schedule, k);
      }
      var before, after := Run(items, fn, limit, init).value, Run(items, fn, limit, schedule).value;
      LastReply(items, fn, limit, schedule);
      hide Run, ReplyAt;
      if before.failure.Some? {
        var k: nat :| FirstRejection(items, fn, limit, init, k, before.failure.value);
        assert FirstRejection(items, fn, limit, schedule, k, before.failure.value);
      } else if after.failure.Some? {
        assert FirstRejection(items, fn, limit, schedule, last, after.failure.value);
      }
    }
  }

  /** What the last step does to the failure. */
  lemma {:induction false} LastReply<T, R, E>(items: seq<T>, fn: T -> Reply<R, E>, limit: int, schedule: seq<nat>)
    requires schedule != [] && Run(items, fn, limit, schedule).Some?
    ensures Run(items, fn, limit, schedule[..|schedule| - 1]).Some?
    ensures var before := Run(items, fn, limit, schedule[..|schedule| - 1]).value;
            var reply := ReplyAt(items, fn, limit, schedule, |schedule| - 1);
            && reply.Some?
            && Run(items, fn, limit, schedule).value.failure ==
               if before.failure.None? && reply.value.Rejected? then Some(reply.value.error) else before.failure
  {
  }

  /**
   * Whatever order the calls settled in, once none is outstanding the caller has the map in input order, or, when some
   * call rejects, the error of the one that settled first; below a limit of 1 nothing is called and the list is all
   * holes.
   */
  lemma {:induction false} QuietRunsAnswer<T, R, E>(
      items: seq<T>, fn: T -> Reply<R, E>, limit: int, schedule: seq<nat>)
    requires Run(items, fn, limit, schedule).Some? && Quiet(Run(items, fn, limit, schedule).value)
    ensures GoodAnswer(items, fn, limit, AnswerOf(Run(items, fn, limit, schedule).value))
    ensures var answer := AnswerOf(Run(items, fn, limit, schedule).value);
            answer.RejectedWith? ==> exists k: nat :: FirstRejection(items, fn, limit, schedule, k, answer.error)
  {
    RunInv(items, fn, limit, schedule);
    QuietAnswer(items, fn, limit, Run(items, fn, limit, schedule).value);
    FailureIsFirst(items, fn, limit, schedule);
    hide Run, Inv, Settled, GoodAnswer;
  }

  /** With calls that all succeed the answer is the map exactly when the limit is at least 1 or nothing is asked. */
  lemma {:induction false} MapExactlyWithWorkers<T, R, E>(
      items: seq<T>, fn: T -> Reply<R, E>, limit: int, schedule: seq<nat>)
    requires Run(items, fn, limit, schedule).Some? && Quiet(Run(items, fn, limit, schedule).value)
    requires AllFulfilled(items, fn)
    ensures AnswerOf(Run(items, fn, limit, schedule).value) == Resolved(Mapped(items, fn)) <==>
              limit >= 1 || items == []
  {
    QuietRunsAnswer(items, fn, limit, schedule);
    hide Run, AnswerOf;
    if limit < 1 && items != [] {
      var holes: seq<Option<R>> := seq(|items|, _ => None);
      assert Mapped(items, fn)[0].Some? && holes[0].None?;
    }
  }

  /** An answer is final: settling one more call does not change it. */
  lemma {:induction false} AnswersStand<T, R, E>(
      items: seq<T>, fn: T -> Reply<R, E>, limit: int, schedule: seq<nat>, w: nat)
    requires Run(items, fn, limit, schedule + [w]).Some?
    ensures Run(items, fn, limit, schedule).Some?
    ensures var p := Run(items, fn, limit, schedule).value;
            AnswerOf(p) != Pending ==> AnswerOf(Run(items, fn, limit, schedule + [w]).value) == AnswerOf(p)
  {
    assert (schedule + [w])[..|schedule|] == schedule;
  }

  // ----- the pool in place

  /** The shared variables of one call: the cursor, the slots, and where each worker stands. */
  class SharedPool<T, R, E> {
    const items: seq<T>
    const fn: T -> Reply<R, E>
    const out: array<Option<R>>
    var cursor: nat
    var workers: seq<Worker>
    var failure: Option<E>
    ghost var taken: seq<nat>

    ghost function View(): Pool<R, E>
      reads this, out
    {
      Pool(cursor, workers, out[..], taken, failure)
    }

    constructor (items: seq<T>, limit: int, fn: T -> Reply<R, E>)
      ensures this.items == items && this.fn == fn && fresh(out)
      ensures View() == Idle(limit, |items|)
    {
      this.items := items;
      this.fn := fn;
      out := new Option<R>[|items|](_ => None);
      cursor := 0;
      workers := seq(WorkerCount(limit, |items|), _ => NotStarted);
      failure := None;
      taken := [];
    }

    /** One turn of the loop, up to the next `await` or the return. */
    method Turn(w: nat)
      requires w < |workers|
      modifies this`cursor, this`workers, this`taken
      ensures View() == Take(old(View()), w)
    {
      var i := cursor;
      cursor := cursor + 1;
      if i >= out.Length {
        workers := workers[w := Stopped];
      } else {
        workers := workers[w := Awaiting(i)];
        taken := taken + [i];
      }
    }

    method Settle(w: nat)
      requires out.Length == |items| && CanResume(View(), w)
      modifies this, out
      ensures View() == Resume(items, fn, old(View()), w)
    {
      var i := workers[w].index;
      match fn(items[i])
      case Fulfilled(value) =>
        out[i] := Some(value);
        Turn(w);
      case Rejected(error) =>
        workers := workers[w := Failed(i)];
        if failure.None? {
          failure := Some(error);
        }
    }
  }

  /** The whole call, settling the awaited calls in an order nobody chooses, until none is outstanding. */
  method MapWithConcurrency<T, R, E>(items: seq<T>, limit: int, fn: T -> Reply<R, E>)
    returns (answer: Answer<R, E>, ghost schedule: seq<nat>)
    ensures Run(items, fn, limit, schedule).Some? && Quiet(Run(items, fn, limit, schedule).value)
    ensures answer == AnswerOf(Run(items, fn, limit, schedule).value)
    ensures GoodAnswer(items, fn, limit, answer)
  {
    hide Take, Resume, Idle, CanResume, WorkerCount, GoodAnswer;
    var pool := new SharedPool(items, limit, fn);
    ghost var count := |pool.workers|;
    var w := 0;
    while w < |pool.workers|
      invariant |pool.workers| == count && w <= count
      invariant pool.items == items && pool.fn == fn && fresh(pool) && fresh(pool.out)
      invariant Launch(pool.View(), w) == Launch(Idle(limit, |items|), 0)
      decreases count - w
    {
      pool.Turn(w);
      w := w + 1;
    }
    schedule := [];
    while exists w :: 0 <= w < |pool.workers| && pool.workers[w].Awaiting?
      invariant pool.items == items && pool.fn == fn && fresh(pool) && fresh(pool.out)
      invariant Run(items, fn, limit, schedule) == Some(pool.View())
      decreases |items| - |schedule|
    {
      var w: nat :| w < |pool.workers| && pool.workers[w].Awaiting?;
      AwaitedCanResume(items, fn, limit, schedule, w);
      pool.Settle(w);
      assert (schedule + [w])[..|schedule|] == schedule;
      schedule := schedule + [w];
      EveryRunIsBounded(items, fn, limit, schedule);
    }
    NothingAwaited(items, fn, limit, schedule);
    QuietRunsAnswer(items, fn, limit, schedule);
    answer :=
      if pool.failure.Some? then RejectedWith(pool.failure.value)
      else if forall w :: 0 <= w < |pool.workers| ==> pool.workers[w].Stopped? then Resolved(pool.out[..])
      else Pending;
  }

  lemma {:induction false} AwaitedCanResume<T, R, E>(
      items: seq<T>, fn: T -> Reply<R, E>, limit: int, schedule: seq<nat>, w: nat)
    requires Run(items, fn, limit, schedule).Some?
    requires var p := Run(items, fn, limit, schedule).value; w < |p.workers| && p.workers[w].Awaiting?
    ensures CanResume(Run(items, fn, limit, schedule).value, w)
  {
    RunInv(items, fn, limit, schedule);
    hide Run, Filled, Tally;
    assert Owns(Run(items, fn, limit, schedule).value.workers[w]);
  }

  lemma {:induction false} NothingAwaited<T, R, E>(items: seq<T>, fn: T -> Reply<R, E>, limit: int, schedule: seq<nat>)
    requires Run(items, fn, limit, schedule).Some?
    requires var p := Run(items, fn, limit, schedule).value;
             forall w :: 0 <= w < |p.workers| ==> !p.workers[w].Awaiting?
    ensures Quiet(Run(items, fn, limit, schedule).value)
  {
    RunInv(items, fn, limit, schedule);
    hide Run, Filled, Tally, Sound;
  }
}
