/** The queue of messages between sessions: attempts, backoff, cancellation and restarts. */
module Deliveries {
  import opened Wrappers
  import opened Sorting

  type Id = string

  datatype Phase = Pending | Running | Completed | Failed | Cancelled

  datatype Delivery = Delivery(source: string, target: string, message: string,
                               phase: Phase, attempts: nat, nextAt: int, createdAt: int)

  datatype Call =
    | Enqueue(newId: Id, source: string, target: string, message: string, now: int)
    | MarkRunning(id: Id)
    | MarkCompleted(id: Id)
    | MarkAttemptFailed(id: Id, now: int)
    | MarkCancelled(id: Id)
    | Defer(id: Id, until: int)
    | CancelTarget(target: string)
    | Restart(now: int)

  // ---- The effect of each call ----

  function Failure(d: Delivery, backoff: seq<int>, now: int): Delivery {
    var exhausted := d.attempts > |backoff|;
    if exhausted then d.(phase := Phase.Failed, nextAt := 0)
    else
      var index := if d.attempts >= 1 then d.attempts - 1 else 0;
      d.(phase := Pending, nextAt := now + if index < |backoff| then backoff[index] else 0)
  }

  function CancelledOne(d: Delivery): Delivery {
    if d.phase == Completed then d else d.(phase := Cancelled, nextAt := 0)
  }

  function Recovered(d: Delivery, now: int): Delivery {
    if d.phase == Running then d.(phase := Pending, nextAt := now) else d
  }

  predicate Active(d: Delivery) {
    d.phase == Pending || d.phase == Running
  }

  function After(rows: map<Id, Delivery>, backoff: seq<int>, call: Call): map<Id, Delivery> {
    match call
    case Enqueue(id, source, target, message, now) =>
      if id in rows then rows else rows[id := Delivery(source, target, message, Pending, 0, 0, now)]
    case MarkRunning(id) =>
      if id in rows && rows[id].phase == Pending
      then rows[id := rows[id].(phase := Running, attempts := rows[id].attempts + 1, nextAt := 0)] else rows
    case MarkCompleted(id) =>
      if id in rows && rows[id].phase == Running then rows[id := rows[id].(phase := Completed, nextAt := 0)] else rows
    case MarkAttemptFailed(id, now) =>
      if id in rows && rows[id].phase == Running then rows[id := Failure(rows[id], backoff, now)] else rows
    case MarkCancelled(id) => if id in rows then rows[id := CancelledOne(rows[id])] else rows
    case Defer(id, until) =>
      if id in rows && rows[id].phase == Pending
      then rows[id := rows[id].(nextAt := if until > 0 then until else 0)] else rows
    case CancelTarget(target) =>
      map id | id in rows :: if rows[id].target == target && Active(rows[id]) then CancelledOne(rows[id]) else rows[id]
    case Restart(now) => map id | id in rows :: Recovered(rows[id], now)
  }

  function Run(rows: map<Id, Delivery>, backoff: seq<int>, calls: seq<Call>): map<Id, Delivery> {
    if calls == [] then rows else After(Run(rows, backoff, calls[..|calls| - 1]), backoff, calls[|calls| - 1])
  }

  // ---- What has happened to a delivery ----

  predicate IsRunning(rows: map<Id, Delivery>, id: Id) {
    id in rows && rows[id].phase == Running
  }

  /** How many of its attempts began, were reported as failed, or were caught by a restart; how many
      completion reports, cancellations and failures beyond the backoff took effect. */
  datatype Past = Past(begun: nat, failures: nat, caught: nat, completions: nat, cancellations: nat, exhausted: nat)

  predicate Begins(rows: map<Id, Delivery>, call: Call, id: Id) {
    id in rows && call == MarkRunning(id) && rows[id].phase == Pending
  }

  predicate Completes(rows: map<Id, Delivery>, call: Call, id: Id) {
    IsRunning(rows, id) && call == MarkCompleted(id)
  }

  predicate Fails(rows: map<Id, Delivery>, call: Call, id: Id) {
    IsRunning(rows, id) && call.MarkAttemptFailed? && call.id == id
  }

  predicate Cancels(rows: map<Id, Delivery>, call: Call, id: Id) {
    && id in rows
    && ((call == MarkCancelled(id) && rows[id].phase != Completed) ||
        (call == CancelTarget(rows[id].target) && (rows[id].phase == Pending || rows[id].phase == Running)))
  }

  function One(b: bool): nat {
    if b then 1 else 0
  }

  function Later(past: Past, rows: map<Id, Delivery>, backoff: seq<int>, call: Call, id: Id): Past {
    Past(past.begun + One(Begins(rows, call, id)),
         past.failures + One(Fails(rows, call, id)),
         past.caught + One(call.Restart? && IsRunning(rows, id)),
         past.completions + One(Completes(rows, call, id)),
         past.cancellations + One(Cancels(rows, call, id)),
         past.exhausted + One(Fails(rows, call, id) && rows[id].attempts > |backoff|))
  }

  const NOTHING := Past(0, 0, 0, 0, 0, 0)

  function History(rows: map<Id, Delivery>, backoff: seq<int>, calls: seq<Call>, id: Id): Past {
    if calls == [] then NOTHING
    else
      var init, last := calls[..|calls| - 1], calls[|calls| - 1];
      Later(History(rows, backoff, init, id), Run(rows, backoff, init), backoff, last, id)
  }

  /** The phase and the attempts of a delivery, from what has happened and the n backoff steps. */
  predicate Tallies(d: Delivery, n: nat, past: Past) {
    && d.attempts == past.begun <= n + 1 + past.caught && past.completions <= 1
    && (d.phase == Completed <==> past.completions == 1)
    && (d.phase == Cancelled <==> past.cancellations >= 1)
    && (d.phase == Phase.Failed <==> past.exhausted >= 1 && past.cancellations == 0)
    && (d.phase == Pending ==> past.begun == past.failures + past.caught <= n + past.caught)
    && (d.phase == Running ==> past.begun == past.failures + past.caught + 1)
    && (d.phase == Phase.Failed ==> past.begun == past.failures + past.caught >= n + 1)
    && (d.phase == Completed ==> past.begun == past.failures + past.caught + 1)
    && (d.phase == Cancelled ==> past.failures + past.caught <= past.begun <= past.failures + past.caught + 1)
  }

  lemma AfterTallies(rows: map<Id, Delivery>, backoff: seq<int>, call: Call, id: Id, past: Past)
    requires if id in rows then Tallies(rows[id], |backoff|, past) else past == NOTHING
    ensures var rest := After(rows, backoff, call);
            var next := Later(past, rows, backoff, call, id);
            if id in rest then Tallies(rest[id], |backoff|, next) else next == NOTHING
  {
  }

  /** After every run that starts without the delivery its phase and its attempts follow from what has
      happened. It is completed exactly after one completion report that found it running, cancelled
      exactly after a cancellation, and failed exactly after a failure with the backoff used up. Its
      attempts are those begun: its failures plus the restarts that caught it, plus the attempt under
      way; they never exceed one more than the backoff steps and those restarts. */
  lemma {:induction false} RunTallies(rows: map<Id, Delivery>, backoff: seq<int>, calls: seq<Call>, id: Id)
    requires id !in rows
    ensures var now, past := Run(rows, backoff, calls), History(rows, backoff, calls, id);
            if id in now then Tallies(now[id], |backoff|, past) else past == NOTHING
    decreases |calls|
  {
    if calls != [] {
      var init := calls[..|calls| - 1];
      RunTallies(rows, backoff, init, id);
      AfterTallies(Run(rows, backoff, init), backoff, calls[|calls| - 1], id, History(rows, backoff, init, id));
      hide After, Later, Tallies;
    }
  }

  /** Without restarts a delivery is failed after exactly one failure more than there are backoff
      steps, and with that many failures it is waiting or running no more. */
  lemma FailedAfterExactly(backoff: seq<int>, calls: seq<Call>, id: Id)
    requires History(map[], backoff, calls, id).caught == 0 && id in Run(map[], backoff, calls)
    ensures var d := Run(map[], backoff, calls)[id];
            var f := History(map[], backoff, calls, id).failures;
            && d.attempts <= |backoff| + 1
            && (d.phase == Phase.Failed ==> f == |backoff| + 1 && d.attempts == f)
            && (f == |backoff| + 1 ==> d.phase == Phase.Failed || d.phase == Cancelled)
  {
    RunTallies(map[], backoff, calls, id);
  }

  predicate Over(past: Past) {
    past.completions >= 1 || past.cancellations >= 1 || past.exhausted >= 1
  }

  lemma {:induction false} StaysOver(rows: map<Id, Delivery>, backoff: seq<int>, calls: seq<Call>, id: Id, i: nat)
    requires i <= |calls| && Over(History(rows, backoff, calls[..i], id))
    ensures Over(History(rows, backoff, calls, id))
    decreases |calls|
  {
    if i == |calls| {
      assert calls[..i] == calls;
    } else {
      assert calls[..|calls| - 1][..i] == calls[..i];
      StaysOver(rows, backoff, calls[..|calls| - 1], id, i);
    }
  }

  /** What was completed, cancelled or failed for good at some point of a run is never due again. */
  lemma NeverDueAgain(rows: map<Id, Delivery>, backoff: seq<int>, calls: seq<Call>, id: Id, i: nat)
    requires id !in rows && i <= |calls| && Over(History(rows, backoff, calls[..i], id))
    ensures id in Run(rows, backoff, calls)
    ensures forall target, now :: !Due(Run(rows, backoff, calls)[id], target, now)
  {
    StaysOver(rows, backoff, calls, id, i);
    RunTallies(rows, backoff, calls, id);
  }

  // ---- A delivery whose every attempt fails ----

  /** One attempt: begun, then reported failed at the given time. */
  function Attempt(rows: map<Id, Delivery>, backoff: seq<int>, id: Id, now: int): map<Id, Delivery> {
    After(After(rows, backoff, MarkRunning(id)), backoff, MarkAttemptFailed(id, now))
  }

  function Attempts(rows: map<Id, Delivery>, backoff: seq<int>, id: Id, times: seq<int>): map<Id, Delivery> {
    if times == [] then rows
    else Attempt(Attempts(rows, backoff, id, times[..|times| - 1]), backoff, id, times[|times| - 1])
  }

  /** The k-th failure schedules a retry that is due exactly from the end of the k-th backoff step on;
      the one after the last step ends the delivery, and further attempts do nothing. */
  lemma {:induction false} FailingAttempts(rows: map<Id, Delivery>, backoff: seq<int>, id: Id, times: seq<int>)
    requires id in rows && rows[id].phase == Pending && rows[id].attempts == 0
    ensures id in Attempts(rows, backoff, id, times)
    ensures var d := Attempts(rows, backoff, id, times)[id];
            var k := |times|;
            if k == 0 then d == rows[id]
            else if k <= |backoff| then d == rows[id].(attempts := k, nextAt := times[k - 1] + backoff[k - 1])
            else d == rows[id].(phase := Phase.Failed, attempts := |backoff| + 1, nextAt := 0)
    ensures var d := Attempts(rows, backoff, id, times)[id];
            var k := |times|;
            k > 0 ==> forall now ::
              Due(d, rows[id].target, now) <==> k <= |backoff| && times[k - 1] + backoff[k - 1] <= now
    decreases |times|
  {
    if times != [] {
      FailingAttempts(rows, backoff, id, times[..|times| - 1]);
    }
  }

  // ---- What is delivered ----

  predicate Enqueues(calls: seq<Call>, i: nat, id: Id) {
    i < |calls| && calls[i].Enqueue? && calls[i].newId == id
  }

  /** The first enqueue of an id decides what is delivered and when it counts as created; without one
      there is no such delivery. Right after it the delivery is pending and due at once. */
  lemma {:induction false} FirstEnqueueDecides(rows: map<Id, Delivery>, backoff: seq<int>, calls: seq<Call>, id: Id)
    requires id !in rows
    ensures id in Run(rows, backoff, calls) <==> exists i: nat :: Enqueues(calls, i, id)
    ensures forall i: nat :: Enqueues(calls, i, id) && (forall j: nat :: j < i ==> !Enqueues(calls, j, id)) ==>
              var d := Run(rows, backoff, calls)[id];
              d.source == calls[i].source && d.target == calls[i].target && d.message == calls[i].message &&
              d.createdAt == calls[i].now
    decreases |calls|
  {
    if calls != [] {
      var n := |calls| - 1;
      var init, call := calls[..n], calls[n];
      FirstEnqueueDecides(rows, backoff, init, id);
      assert forall i: nat :: i < n ==> (Enqueues(calls, i, id) <==> Enqueues(init, i, id));
      if id in Run(rows, backoff, init) {
        CallKeepsFinal(Run(rows, backoff, init), backoff, call, id);
        hide After;
      } else {
        assert forall i: nat :: i < n ==> !Enqueues(calls, i, id);
        assert Enqueues(calls, n, id) <==> call.Enqueue? && call.newId == id;
      }
    }
  }

  lemma EnqueuedIsDue(rows: map<Id, Delivery>, backoff: seq<int>, id: Id, source: string, target: string,
                      message: string, now: int, at: int)
    requires id !in rows && at >= 0
    ensures var d := After(rows, backoff, Enqueue(id, source, target, message, now))[id];
            Due(d, target, at) && d.attempts == 0
  {
  }

  // ---- Final phases ----

  /** What a phase can become, whatever is called. */
  predicate MayBecome(d: Delivery, e: Delivery) {
    && e.source == d.source && e.target == d.target && e.message == d.message && e.createdAt == d.createdAt
    && e.attempts >= d.attempts
    && (d.phase == Completed ==> e.phase == Completed && e.attempts == d.attempts)
    && (d.phase == Cancelled ==> e.phase == Cancelled && e.attempts == d.attempts)
    && (d.phase == Phase.Failed ==> (e.phase == Phase.Failed || e.phase == Cancelled) && e.attempts == d.attempts)
  }

  /** A completed or cancelled delivery stays so and never runs again; a failed one can only be
      cancelled; no delivery changes its content or disappears. */
  lemma {:induction false} RunKeepsFinal(rows: map<Id, Delivery>, backoff: seq<int>, calls: seq<Call>, id: Id)
    requires id in rows
    ensures id in Run(rows, backoff, calls) && MayBecome(rows[id], Run(rows, backoff, calls)[id])
    decreases |calls|
  {
    if calls != [] {
      var before := Run(rows, backoff, calls[..|calls| - 1]);
      RunKeepsFinal(rows, backoff, calls[..|calls| - 1], id);
      CallKeepsFinal(before, backoff, calls[|calls| - 1], id);
    }
  }

  lemma CallKeepsFinal(rows: map<Id, Delivery>, backoff: seq<int>, call: Call, id: Id)
    requires id in rows
    ensures id in After(rows, backoff, call) && MayBecome(rows[id], After(rows, backoff, call)[id])
  {
  }

  // ---- Choosing the next delivery ----

  predicate Due(d: Delivery, target: string, now: int) {
    d.target == target && d.phase == Pending && d.nextAt <= now
  }

  predicate Waiting(d: Delivery, target: string) {
    d.target == target && d.phase == Pending
  }

  /** Oldest first, ids deciding between deliveries created at the same time. */
  predicate Earlier(rows: map<Id, Delivery>, a: Id, b: Id) {
    && a in rows && b in rows
    && (rows[a].createdAt < rows[b].createdAt || (rows[a].createdAt == rows[b].createdAt && StrLe(a, b)))
  }

  /** By the time of the next attempt, then oldest first. */
  predicate Sooner(rows: map<Id, Delivery>, a: Id, b: Id) {
    && a in rows && b in rows
    && (rows[a].nextAt < rows[b].nextAt || (rows[a].nextAt == rows[b].nextAt && Earlier(rows, a, b)))
  }

  ghost predicate OrdersAll(ids: set<Id>, le: (Id, Id) -> bool) {
    && (forall a, b :: a in ids && b in ids ==> le(a, b) || le(b, a))
    && forall a, b, c :: a in ids && b in ids && c in ids && le(a, b) && le(b, c) ==> le(a, c)
  }

  lemma EarlierOrders(rows: map<Id, Delivery>, ids: set<Id>)
    requires ids <= rows.Keys
    ensures OrdersAll(ids, (a, b) => Earlier(rows, a, b))
    ensures OrdersAll(ids, (a, b) => Sooner(rows, a, b))
  {
    forall a, b
      ensures StrLe(a, b) || StrLe(b, a)
    {
      StrLeTotal(a, b);
    }
    forall a, b, c | StrLe(a, b) && StrLe(b, c)
      ensures StrLe(a, c)
    {
      StrLeTransitive(a, b, c);
    }
  }

  function CancelledIn(rows: map<Id, Delivery>, ids: set<Id>): map<Id, Delivery> {
    map id | id in rows :: if id in ids then CancelledOne(rows[id]) else rows[id]
  }

  lemma CancelledNone(rows: map<Id, Delivery>, none: set<Id>)
    requires none == {}
    ensures CancelledIn(rows, none) == rows
  {
  }

  lemma CancelOneMore(rows: map<Id, Delivery>, backoff: seq<int>, ids: set<Id>, id: Id)
    requires id in rows && id !in ids
    ensures After(CancelledIn(rows, ids), backoff, MarkCancelled(id)) == CancelledIn(rows, ids + {id})
  {
  }

  lemma CancelledActive(rows: map<Id, Delivery>, backoff: seq<int>, target: string, active: set<Id>)
    requires forall id :: id in active <==> id in rows && rows[id].target == target && Active(rows[id])
    ensures CancelledIn(rows, active) == After(rows, backoff, CancelTarget(target))
  {
  }

  /** ORDER BY ... LIMIT 1. */
  method Least(ids: set<Id>, le: (Id, Id) -> bool) returns (least: Option<Id>)
    requires OrdersAll(ids, le)
    ensures least.None? <==> ids == {}
    ensures least.Some? ==> least.value in ids && forall b :: b in ids ==> le(least.value, b)
  {
    least := None;
    var rest := ids;
    while rest != {}
      invariant rest <= ids
      invariant least.None? <==> rest == ids
      invariant least.Some? ==> least.value in ids && forall b :: b in ids && b !in rest ==> le(least.value, b)
      decreases |rest|
    {
      var id :| id in rest;
      rest := rest - {id};
      if least.None? || !le(least.value, id) {
        least := Some(id);
      }
    }
  }

  // ---- The store ----

  class DeliveryStore {
    const backoff: seq<int>
    var rows: map<Id, Delivery>

    /** A running delivery has been attempted, so the backoff index makes sense. */
    ghost predicate Valid()
      reads this
    {
      forall id :: id in rows && rows[id].phase == Running ==> rows[id].attempts >= 1
    }

    constructor (backoff: seq<int>)
      ensures Valid() && this.backoff == backoff && rows == map[]
    {
      this.backoff, rows := backoff, map[];
    }

    /** Returns the existing delivery for a repeated call, and throws when the content differs. */
    method EnqueueDelivery(id: Id, source: string, target: string, message: string, now: int)
      returns (result: Result<Delivery, string>)
      requires Valid()
      modifies this
      ensures Valid() && rows == After(old(rows), backoff, Enqueue(id, source, target, message, now))
      ensures result.Failure? <==>
              id in old(rows) &&
              (old(rows)[id].source != source || old(rows)[id].target != target || old(rows)[id].message != message)
      ensures result.Success? ==> id in rows && result.value == rows[id]
    {
      if id in rows {
        var existing := rows[id];
        if existing.source != source || existing.target != target || existing.message != message {
          return Result.Failure("CROSS_SESSION_DELIVERY_CONFLICT");
        }
        return Success(existing);
      }
      rows := rows[id := Delivery(source, target, message, Pending, 0, 0, now)];
      return Success(rows[id]);
    }

    method Start(id: Id)
      requires Valid()
      modifies this
      ensures Valid() && rows == After(old(rows), backoff, MarkRunning(id))
    {
      if id in rows && rows[id].phase == Pending {
        rows := rows[id := rows[id].(phase := Running, attempts := rows[id].attempts + 1, nextAt := 0)];
      }
    }

    method Complete(id: Id)
      requires Valid()
      modifies this
      ensures Valid() && rows == After(old(rows), backoff, MarkCompleted(id))
    {
      if id in rows && rows[id].phase == Running {
        rows := rows[id := rows[id].(phase := Completed, nextAt := 0)];
      }
    }

    /** The array is read without a bounds test, which Valid makes safe. */
    method AttemptFailed(id: Id, now: int)
      requires Valid()
      modifies this
      ensures Valid() && rows == After(old(rows), backoff, MarkAttemptFailed(id, now))
    {
      if id !in rows || rows[id].phase != Running {
        return;
      }
      var current := rows[id];
      var exhausted := current.attempts > |backoff|;
      var nextAt := 0;
      if !exhausted {
        nextAt := now + backoff[if 0 < current.attempts - 1 then current.attempts - 1 else 0];
      }
      rows := rows[id := current.(phase := if exhausted then Phase.Failed else Pending, nextAt := nextAt)];
    }

    method Cancel(id: Id)
      requires Valid()
      modifies this
      ensures Valid() && rows == After(old(rows), backoff, MarkCancelled(id))
    {
      if id in rows && rows[id].phase != Completed {
        rows := rows[id := rows[id].(phase := Cancelled, nextAt := 0)];
      }
    }

    method DeferTo(id: Id, until: int)
      requires Valid()
      modifies this
      ensures Valid() && rows == After(old(rows), backoff, Defer(id, until))
      ensures id in rows && rows[id].phase == Pending ==>
                forall now :: now >= 0 ==> (Due(rows[id], rows[id].target, now) <==> until <= now)
    {
      if id in rows && rows[id].phase == Pending {
        rows := rows[id := rows[id].(nextAt := if until > 0 then until else 0)];
      }
    }

    /** Cancels the active deliveries of a target one by one. */
    method CancelAllFor(target: string) returns (count: nat)
      requires Valid()
      modifies this
      ensures Valid() && rows == After(old(rows), backoff, CancelTarget(target))
      ensures count == |set id | id in old(rows) && old(rows)[id].target == target && Active(old(rows)[id])|
    {
      var active := set id | id in rows && rows[id].target == target && Active(rows[id]);
      count := |active|;
      hide CancelledIn, After;
      CancelledNone(old(rows), {});
      var rest := active;
      assert active - rest == {};
      while rest != {}
        invariant Valid() && rest <= active && active <= old(rows).Keys
        invariant rows == CancelledIn(old(rows), active - rest)
        decreases |rest|
      {
        var id :| id in rest;
        CancelOneMore(old(rows), backoff, active - rest, id);
        assert active - (rest - {id}) == active - rest + {id};
        Cancel(id);
        rest := rest - {id};
      }
      assert active - rest == active;
      CancelledActive(old(rows), backoff, target, active);
    }

    /** Puts what was running back in the queue and names the targets with work to do. */
    method RecoverAfterRestart(now: int) returns (targets: set<string>)
      requires Valid()
      modifies this
      ensures Valid() && rows == After(old(rows), backoff, Restart(now))
      ensures forall id :: id in rows ==> rows[id].phase != Running
      ensures forall id :: IsRunning(old(rows), id) ==>
                Due(rows[id], rows[id].target, now) && rows[id].attempts == old(rows)[id].attempts
      ensures targets == set id | id in old(rows) && Active(old(rows)[id]) :: old(rows)[id].target
    {
      targets := set id | id in rows && Active(rows[id]) :: rows[id].target;
      rows := map id | id in rows :: Recovered(rows[id], now);
    }

    method NextDue(target: string, now: int) returns (next: Option<Id>)
      ensures next.None? <==> forall id :: id in rows ==> !Due(rows[id], target, now)
      ensures next.Some? ==>
                && next.value in rows && Due(rows[next.value], target, now)
                && forall id :: id in rows && Due(rows[id], target, now) ==>
                     rows[next.value].createdAt < rows[id].createdAt ||
                     (rows[next.value].createdAt == rows[id].createdAt && StrLe(next.value, id))
    {
      var due := set id | id in rows && Due(rows[id], target, now);
      var all := rows;
      EarlierOrders(all, due);
      next := Least(due, (a, b) => Earlier(all, a, b));
      assert forall id :: id in due <==> id in rows && Due(rows[id], target, now);
      assert next.Some? ==> forall id :: id in due ==> Earlier(all, next.value, id);
    }

    method NextPending(target: string) returns (next: Option<Id>)
      ensures next.None? <==> forall id :: id in rows ==> !Waiting(rows[id], target)
      ensures next.Some? ==>
                && next.value in rows && Waiting(rows[next.value], target)
                && forall id :: id in rows && Waiting(rows[id], target) ==>
                     var a, b := rows[next.value], rows[id];
                     a.nextAt < b.nextAt ||
                     (a.nextAt == b.nextAt &&
                      (a.createdAt < b.createdAt || (a.createdAt == b.createdAt && StrLe(next.value, id))))
    {
      var waiting := set id | id in rows && Waiting(rows[id], target);
      var all := rows;
      EarlierOrders(all, waiting);
      next := Least(waiting, (a, b) => Sooner(all, a, b));
      assert forall id :: id in waiting <==> id in rows && Waiting(rows[id], target);
      assert next.Some? ==> forall id :: id in waiting ==> Sooner(all, next.value, id);
    }
  }

  /** Of all waiting deliveries the one that nextPending names comes due first: if it is not due at
      some time, none is. */
  lemma NextPendingIsDueFirst(rows: map<Id, Delivery>, target: string, next: Id, now: int)
    requires next in rows && Waiting(rows[next], target)
    requires forall id :: id in rows && Waiting(rows[id], target) ==> Sooner(rows, next, id)
    ensures Due(rows[next], target, now) <==> exists id :: id in rows && Due(rows[id], target, now)
  {
  }
}
