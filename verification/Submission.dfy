/** The arena's in-memory queue of comparisons and the one asynchronous write that empties it. */
module Submission {
  import opened Wrappers

  const MAX_QUEUE := 28

  /** A comparison as queued: the two videos, the verdict and the reason. */
  datatype Item = Item(a: string, b: string, verdict: string, reason: string)

  /** How the awaited write ends: with a pin id, with no usable answer, or with an error. */
  datatype Outcome = Confirmed | Unknown | Rejected

  datatype Status = Busy | Unavailable | Empty | Invalid | Sent

  /** The queue, and the snapshot a write in flight has taken of it. */
  datatype Arena = Arena(items: seq<Item>, flight: Option<seq<Item>>)

  datatype Event =
    | Add(item: Item)
    | RemoveAt(index: int)
    | Submit(bridge: bool, valid: bool)
    | Settle(outcome: Outcome)

  // ---- The effect of each event ----

  /** The items whose index is not listed. */
  function Without(items: seq<Item>, drop: set<int>): seq<Item> {
    if items == [] then []
    else
      var init := Without(items[..|items| - 1], drop);
      if |items| - 1 in drop then init else init + [items[|items| - 1]]
  }

  function FirstIndices(n: nat): (s: set<int>)
    ensures forall i :: i in s <==> 0 <= i < n
  {
    if n == 0 then {} else FirstIndices(n - 1) + {n - 1}
  }

  function Answer(s: Arena, bridge: bool, valid: bool): Status {
    if s.flight.Some? then Busy
    else if !bridge then Unavailable
    else if s.items == [] then Empty
    else if !valid then Invalid
    else Sent
  }

  function After(s: Arena, e: Event): Arena {
    match e
    case Add(item) => if |s.items| >= MAX_QUEUE then s else s.(items := s.items + [item])
    case RemoveAt(i) => if i < 0 || i >= |s.items| then s else s.(items := s.items[..i] + s.items[i + 1..])
    case Submit(bridge, valid) => if Answer(s, bridge, valid) == Sent then s.(flight := Some(s.items)) else s
    case Settle(outcome) =>
      if s.flight.None? then s
      else if outcome == Confirmed then Arena(Without(s.items, FirstIndices(|s.flight.value|)), None)
      else s.(flight := None)
  }

  lemma {:induction false} WithoutFirst(items: seq<Item>, n: nat)
    ensures Without(items, FirstIndices(n)) == if n <= |items| then items[n..] else []
  {
    if items != [] {
      var init := items[..|items| - 1];
      WithoutFirst(init, n);
      if n < |items| {
        assert init[n..] + [items[|items| - 1]] == items[n..];
      }
    }
  }

  /** What is kept are exactly the items at the other indices, in order. */
  lemma {:induction false} WithoutKeeps(items: seq<Item>, drop: set<int>) returns (at: seq<nat>)
    ensures |at| == |Without(items, drop)|
    ensures forall k :: 0 <= k < |at| ==> at[k] < |items| && Without(items, drop)[k] == items[at[k]]
    ensures forall k, l :: 0 <= k < l < |at| ==> at[k] < at[l]
    ensures forall i: nat :: i in at <==> i < |items| && i !in drop
  {
    at := [];
    if items != [] {
      var n := |items| - 1;
      at := WithoutKeeps(items[..n], drop);
      if n !in drop {
        at := at + [n];
      }
    }
  }

  // ---- Histories ----

  /** What has happened so far: every item added and removed, every batch confirmed, and how many
      writes were begun and settled. */
  datatype World = World(now: Arena, added: multiset<Item>, removed: multiset<Item>, confirmed: seq<seq<Item>>,
                         begun: nat, settled: nat)

  ghost function Next(w: World, e: Event): World {
    var now := After(w.now, e);
    match e
    case Add(item) =>
      w.(now := now, added := if |w.now.items| >= MAX_QUEUE then w.added else w.added + multiset{item})
    case RemoveAt(i) =>
      w.(now := now, removed := if i < 0 || i >= |w.now.items| then w.removed else w.removed + multiset{w.now.items[i]})
    case Submit(bridge, valid) =>
      w.(now := now, begun := if Answer(w.now, bridge, valid) == Sent then w.begun + 1 else w.begun)
    case Settle(outcome) =>
      if w.now.flight.None? then w
      else w.(now := now, settled := w.settled + 1,
              confirmed := if outcome == Confirmed then w.confirmed + [w.now.flight.value] else w.confirmed)
  }

  ghost function Run(w: World, events: seq<Event>): World {
    if events == [] then w else Next(Run(w, events[..|events| - 1]), events[|events| - 1])
  }

  const START := World(Arena([], None), multiset{}, multiset{}, [], 0, 0)

  ghost function InBatches(batches: seq<seq<Item>>): multiset<Item> {
    if batches == [] then multiset{}
    else InBatches(batches[..|batches| - 1]) + multiset(batches[|batches| - 1])
  }

  /** Every item ever added is, counted with repetitions, in exactly one place: still queued,
      removed, or in one confirmed batch. */
  ghost predicate Conserved(w: World) {
    w.added == multiset(w.now.items) + w.removed + InBatches(w.confirmed)
  }

  /** The queue still begins with what the write in flight carries. */
  ghost predicate FlightIsPrefix(s: Arena) {
    s.flight.Some? ==> s.flight.value <= s.items
  }

  /** A removal that hits an item the write in flight carries. */
  ghost predicate HitsFlight(s: Arena, e: Event) {
    e.RemoveAt? && s.flight.Some? && 0 <= e.index < |s.flight.value| && e.index < |s.items|
  }

  /** The write is confirmed although the front of the queue is no longer what it carried. */
  ghost predicate Misclears(s: Arena, e: Event) {
    && e == Settle(Confirmed) && s.flight.Some?
    && var n := |s.flight.value|;
       multiset(if n <= |s.items| then s.items[..n] else s.items) != multiset(s.flight.value)
  }

  /** One event loses or doubles an item in exactly one case: a confirmation that clears other items
      than those confirmed. */
  lemma NextConservesIff(w: World, e: Event)
    requires Conserved(w)
    ensures Conserved(Next(w, e)) <==> !Misclears(w.now, e)
  {
    match e
    case Add(item) => AddConserves(w, item);
    case RemoveAt(i) => RemoveConserves(w, i);
    case Submit(_, _) => hide InBatches;
    case Settle(outcome) =>
      if w.now.flight.Some? && outcome == Confirmed {
        ConfirmConservesIff(w);
      } else {
        hide InBatches, Without;
      }
  }

  lemma AddConserves(w: World, item: Item)
    requires Conserved(w)
    ensures Conserved(Next(w, Add(item)))
  {
    hide InBatches;
    assert multiset(w.now.items + [item]) == multiset(w.now.items) + multiset{item};
  }

  lemma RemoveConserves(w: World, i: int)
    requires Conserved(w)
    ensures Conserved(Next(w, RemoveAt(i)))
  {
    hide InBatches;
    if 0 <= i < |w.now.items| {
      RemoveOne(w.now.items, i);
    }
  }

  lemma RemoveOne(items: seq<Item>, i: nat)
    requires i < |items|
    ensures multiset(items) == multiset(items[..i] + items[i + 1..]) + multiset{items[i]}
  {
    assert items == items[..i] + [items[i]] + items[i + 1..];
  }

  lemma ConfirmConservesIff(w: World)
    requires Conserved(w) && w.now.flight.Some?
    ensures Conserved(Next(w, Settle(Confirmed))) <==> !Misclears(w.now, Settle(Confirmed))
  {
    var q, items := w.now.flight.value, w.now.items;
    var u := Next(w, Settle(Confirmed));
    WithoutFirst(items, |q|);
    assert u.confirmed[..|u.confirmed| - 1] == w.confirmed;
    assert InBatches(u.confirmed) == InBatches(w.confirmed) + multiset(q);
    hide InBatches, Without;
    SwapBatch(items, u.now.items, q, w.removed, InBatches(w.confirmed), w.added);
  }

  /** Clearing the first |q| items and recording q keeps the count exactly when they are the same. */
  lemma SwapBatch(items: seq<Item>, rest: seq<Item>, q: seq<Item>, removed: multiset<Item>,
                  batches: multiset<Item>, added: multiset<Item>)
    requires rest == if |q| <= |items| then items[|q|..] else []
    requires added == multiset(items) + removed + batches
    ensures added == multiset(rest) + removed + (batches + multiset(q)) <==>
            multiset(if |q| <= |items| then items[..|q|] else items) == multiset(q)
  {
    var front := if |q| <= |items| then items[..|q|] else items;
    assert items == front + rest;
    var others := multiset(rest) + removed + batches;
    assert added == others + multiset(front);
    assert multiset(rest) + removed + (batches + multiset(q)) == others + multiset(q);
    CancelSum(others, multiset(front), multiset(q));
  }

  lemma CancelSum(rest: multiset<Item>, a: multiset<Item>, b: multiset<Item>)
    ensures rest + a == rest + b <==> a == b
  {
    if rest + a == rest + b {
      forall x
        ensures a[x] == b[x]
      {
        assert (rest + a)[x] == rest[x] + a[x] && (rest + b)[x] == rest[x] + b[x];
      }
    }
  }

  // ---- Runs ----

  lemma NextKeepsPrefixUnlessHit(s: Arena, e: Event)
    requires FlightIsPrefix(s) && !HitsFlight(s, e)
    ensures FlightIsPrefix(After(s, e))
  {
  }

  lemma PrefixNeverMisclears(s: Arena, e: Event)
    requires FlightIsPrefix(s)
    ensures !Misclears(s, e)
  {
    if s.flight.Some? {
      assert s.items[..|s.flight.value|] == s.flight.value;
    }
  }

  ghost predicate SparesFlight(w: World, events: seq<Event>) {
    forall i :: 0 <= i < |events| ==> !HitsFlight(Run(w, events[..i]).now, events[i])
  }

  lemma SparesPrefix(w: World, events: seq<Event>)
    requires SparesFlight(w, events) && events != []
    ensures SparesFlight(w, events[..|events| - 1])
  {
    var init := events[..|events| - 1];
    forall i | 0 <= i < |init|
      ensures !HitsFlight(Run(w, init[..i]).now, init[i])
    {
      assert init[..i] == events[..i];
    }
  }

  lemma NowAfter(w: World, e: Event)
    ensures Next(w, e).now == After(w.now, e)
  {
  }

  /** In every interleaving in which no removal hits the write in flight (items may be added, and
      later items removed, at any time) nothing is lost and nothing is sent twice. */
  lemma {:induction false} RunConserves(w: World, events: seq<Event>)
    requires Conserved(w) && FlightIsPrefix(w.now) && SparesFlight(w, events)
    ensures Conserved(Run(w, events)) && FlightIsPrefix(Run(w, events).now)
    decreases |events|
  {
    if events != [] {
      var before, e := Run(w, events[..|events| - 1]), events[|events| - 1];
      SparesPrefix(w, events);
      RunConserves(w, events[..|events| - 1]);
      PrefixNeverMisclears(before.now, e);
      NextConservesIff(before, e);
      NextKeepsPrefixUnlessHit(before.now, e);
      NowAfter(before, e);
    }
  }

  /** A confirmed write takes exactly what it carried off the front, any other outcome nothing; what
      was added meanwhile stays, in order. */
  lemma SettledQueue(s: Arena, outcome: Outcome)
    requires FlightIsPrefix(s) && s.flight.Some?
    ensures s.items == (if outcome == Confirmed then s.flight.value else []) + After(s, Settle(outcome)).items
    ensures After(s, Settle(outcome)).flight.None?
  {
    WithoutFirst(s.items, |s.flight.value|);
  }

  // ---- What a write carries ----

  /** A submit that is not refused: nothing in flight, a bridge, something queued and a valid payload. */
  ghost predicate Starts(s: Arena, e: Event) {
    e.Submit? && e.bridge && e.valid && s.flight.None? && s.items != []
  }

  /** Event i of the run began a write that nothing has settled since. */
  ghost predicate OpenSince(w: World, events: seq<Event>, i: nat) {
    && i < |events| && Starts(Run(w, events[..i]).now, events[i])
    && forall k :: i < k < |events| ==> !events[k].Settle?
  }

  /** A write is in flight exactly while one that was begun is unsettled, and it carries the whole queue
      as it stood then. */
  lemma {:induction false} FlightIsQueueAtSubmit(w: World, events: seq<Event>)
    requires w.now.flight.None?
    ensures Run(w, events).now.flight.Some? <==> exists i: nat :: OpenSince(w, events, i)
    ensures forall i: nat :: OpenSince(w, events, i) ==>
              Run(w, events).now.flight == Some(Run(w, events[..i]).now.items)
    decreases |events|
  {
    if events != [] {
      var n := |events| - 1;
      var init, e := events[..n], events[n];
      FlightIsQueueAtSubmit(w, init);
      var before := Run(w, init);
      NowAfter(before, e);
      FlightAfter(before.now, e);
      assert Run(w, events) == Next(before, e);
      hide After, Next, Starts, Run, OpenSince;
      forall i: nat
        ensures OpenSince(w, events, i) <==>
                if i < n then OpenSince(w, init, i) && !e.Settle? else i == n && Starts(before.now, e)
        ensures i <= n ==> events[..i] == init[..i]
      {
        OpenOneMore(w, init, e, i);
        assert init + [e] == events;
        assert i <= n ==> events[..i] == init[..i];
      }
      if before.now.flight.Some? && !e.Settle? {
        var i: nat :| OpenSince(w, init, i);
        OpenIsEarlier(w, init, i);
        assert OpenSince(w, events, i);
      }
    } else {
      hide OpenSince, After;
      NothingOpen(w);
    }
  }

  lemma NothingOpen(w: World)
    ensures forall i: nat :: !OpenSince(w, [], i)
  {
  }

  lemma OpenIsEarlier(w: World, events: seq<Event>, i: nat)
    requires OpenSince(w, events, i)
    ensures i < |events|
  {
  }

  lemma OpenOneMore(w: World, events: seq<Event>, e: Event, i: nat)
    ensures OpenSince(w, events + [e], i) <==>
            if i < |events| then OpenSince(w, events, i) && !e.Settle?
            else i == |events| && Starts(Run(w, events).now, e)
  {
    var all := events + [e];
    hide Run, Starts;
    assert forall k :: 0 <= k < |events| ==> all[k] == events[k];
    assert i < |events| ==> all[..i] == events[..i];
    assert all[..|events|] == events;
    assert all[|events|] == e;
  }

  lemma FlightAfter(s: Arena, e: Event)
    ensures After(s, e).flight ==
            if e.Settle? then None else if Starts(s, e) then Some(s.items) else s.flight
    ensures Starts(s, e) ==> s.flight.None?
  {
    hide Without;
  }

  /** What a confirmation adds to the confirmed batches is exactly the queue as it stood when the open
      write was begun; no other event adds any. */
  lemma BatchIsQueueAtSubmit(w: World, events: seq<Event>, e: Event)
    requires w.now.flight.None?
    ensures var before, after := Run(w, events), Run(w, events + [e]);
            && (e == Settle(Confirmed) ==> forall i: nat :: OpenSince(w, events, i) ==>
                  after.confirmed == before.confirmed + [Run(w, events[..i]).now.items])
            && (after.confirmed != before.confirmed ==>
                  e == Settle(Confirmed) && exists i: nat :: OpenSince(w, events, i))
  {
    assert (events + [e])[..|events|] == events;
    FlightIsQueueAtSubmit(w, events);
    hide OpenSince, After, Run;
  }

  /** When nothing hit the write in flight, its confirmation leaves exactly what was added since the
      submit and not removed; so nothing, when it follows the submit at once. */
  lemma ConfirmedLeavesLater(w: World, events: seq<Event>, i: nat)
    requires Conserved(w) && w.now.flight.None? && SparesFlight(w, events) && OpenSince(w, events, i)
    ensures var at, before, after := Run(w, events[..i]), Run(w, events), Run(w, events + [Settle(Confirmed)]);
            && before.now.items == at.now.items + after.now.items
            && multiset(after.now.items) + after.removed + at.added == after.added + at.removed
            && (i == |events| - 1 ==> after.now.items == [])
  {
    var at, before, after := Run(w, events[..i]), Run(w, events), Run(w, events + [Settle(Confirmed)]);
    RunConserves(w, events);
    SparesFront(w, events, i);
    RunConserves(w, events[..i]);
    FlightIsQueueAtSubmit(w, events);
    assert (events + [Settle(Confirmed)])[..|events|] == events;
    NowAfter(before, Settle(Confirmed));
    SettledQueue(before.now, Confirmed);
    SameBatches(w, events, i);
    if i == |events| - 1 {
      SubmitKeepsItems(at, events[i]);
    }
    assert after.added == before.added && after.removed == before.removed;
    hide Run, Next, After, OpenSince, SparesFlight, InBatches, FlightIsPrefix;
    BalanceOfRest(at, before, after.now.items);
  }

  lemma SparesFront(w: World, events: seq<Event>, i: nat)
    requires SparesFlight(w, events) && i <= |events|
    ensures SparesFlight(w, events[..i])
  {
    forall k | 0 <= k < i
      ensures !HitsFlight(Run(w, events[..i][..k]).now, events[..i][k])
    {
      assert events[..i][..k] == events[..k];
    }
  }

  lemma SubmitKeepsItems(w: World, e: Event)
    requires e.Submit?
    ensures Next(w, e).now.items == w.now.items
  {
  }

  /** While a write is open no batch is confirmed. */
  lemma {:induction false} SameBatches(w: World, events: seq<Event>, i: nat)
    requires OpenSince(w, events, i)
    ensures Run(w, events).confirmed == Run(w, events[..i]).confirmed
    decreases |events|
  {
    var n := |events| - 1;
    var init, e := events[..n], events[n];
    assert Run(w, events) == Next(Run(w, init), e);
    hide Run, Next, Starts;
    assert init + [e] == events;
    OpenOneMore(w, init, e, i);
    assert !e.Settle?;
    OnlySettleConfirms(Run(w, init), e);
    if i < n {
      assert init[..i] == events[..i];
      SameBatches(w, init, i);
    } else {
      assert init == events[..i];
    }
  }

  lemma OnlySettleConfirms(w: World, e: Event)
    requires !e.Settle?
    ensures Next(w, e).confirmed == w.confirmed
  {
  }

  lemma BalanceOfRest(at: World, before: World, rest: seq<Item>)
    requires Conserved(at) && Conserved(before) && before.confirmed == at.confirmed
    requires before.now.items == at.now.items + rest
    ensures multiset(rest) + before.removed + at.added == before.added + at.removed
  {
    hide InBatches;
    assert multiset(before.now.items) == multiset(at.now.items) + multiset(rest);
  }

  ghost predicate OneWrite(w: World) {
    w.begun == w.settled + if w.now.flight.Some? then 1 else 0
  }

  /** At every moment at most one write is outstanding, and the queue never exceeds its limit. */
  lemma {:induction false} RunHasOneWrite(w: World, events: seq<Event>)
    requires OneWrite(w) && |w.now.items| <= MAX_QUEUE
    ensures OneWrite(Run(w, events)) && |Run(w, events).now.items| <= MAX_QUEUE
    decreases |events|
  {
    if events != [] {
      var before := Run(w, events[..|events| - 1]);
      RunHasOneWrite(w, events[..|events| - 1]);
      NextHasOneWrite(before, events[|events| - 1]);
    }
  }

  lemma NextHasOneWrite(w: World, e: Event)
    requires OneWrite(w) && |w.now.items| <= MAX_QUEUE
    ensures OneWrite(Next(w, e)) && |Next(w, e).now.items| <= MAX_QUEUE
  {
    if w.now.flight.Some? {
      WithoutFirst(w.now.items, |w.now.flight.value|);
    }
    hide Without;
  }

  /** What the page promises from the start. */
  lemma FromStart(events: seq<Event>)
    ensures OneWrite(Run(START, events)) && |Run(START, events).now.items| <= MAX_QUEUE
    ensures SparesFlight(START, events) ==> Conserved(Run(START, events))
  {
    RunHasOneWrite(START, events);
    if SparesFlight(START, events) {
      RunConserves(START, events);
    }
  }

  /** The remove button works while a write is in flight, and then an item can vanish: x is removed
      and confirmed, while y, added in its place, is in none of the three. */
  lemma RemovalInFlightLosesItem(x: Item, y: Item)
    requires x != y
    ensures var w := Run(START, [Add(x), Submit(true, true), RemoveAt(0), Add(y), Settle(Confirmed)]);
            && w.added == multiset{x, y} && w.now.items == []
            && w.removed == multiset{x} && InBatches(w.confirmed) == multiset{x} && !Conserved(w)
  {
    var events := [Add(x), Submit(true, true), RemoveAt(0), Add(y), Settle(Confirmed)];
    var w5 := World(Arena([], None), multiset{x, y}, multiset{x}, [[x]], 1, 1);
    RemovedInFlight(x);
    ConfirmedInstead(x, y);
    OneBatch(x);
    RunFive(START, events);
    hide InBatches, Next, Run;
    assert Run(START, events) == w5;
    assert multiset{x, y}[y] == 1;
  }

  lemma RemovedInFlight(x: Item)
    ensures Next(Next(Next(START, Add(x)), Submit(true, true)), RemoveAt(0)) ==
            World(Arena([], Some([x])), multiset{x}, multiset{x}, [], 1, 0)
  {
    assert Next(START, Add(x)) == World(Arena([x], None), multiset{x}, multiset{}, [], 0, 0);
  }

  lemma ConfirmedInstead(x: Item, y: Item)
    ensures Next(Next(World(Arena([], Some([x])), multiset{x}, multiset{x}, [], 1, 0), Add(y)), Settle(Confirmed)) ==
            World(Arena([], None), multiset{x, y}, multiset{x}, [[x]], 1, 1)
  {
    var w3 := World(Arena([], Some([x])), multiset{x}, multiset{x}, [], 1, 0);
    assert Next(w3, Add(y)) == World(Arena([y], Some([x])), multiset{x, y}, multiset{x}, [], 1, 0);
    WithoutFirst([y], 1);
  }

  lemma OneBatch(x: Item)
    ensures InBatches([[x]]) == multiset{x}
  {
    assert [[x]][..0] == [];
  }

  lemma RunFive(w: World, events: seq<Event>)
    requires |events| == 5
    ensures Run(w, events) == Next(Next(Next(Next(Next(w, events[0]), events[1]), events[2]), events[3]), events[4])
  {
    hide Next;
    assert events[..1][..0] == [] && events[..2][..1] == events[..1] && events[..3][..2] == events[..2];
    assert events[..4][..3] == events[..3] && events[..5][..4] == events[..4] && events[..5] == events;
    assert Run(w, []) == w;
    assert Run(w, events[..1]) == Next(w, events[0]);
    assert Run(w, events[..2]) == Next(Run(w, events[..1]), events[1]);
    assert Run(w, events[..3]) == Next(Run(w, events[..2]), events[2]);
    assert Run(w, events[..4]) == Next(Run(w, events[..3]), events[3]);
  }

  // ---- The two objects ----

  class Queue {
    var items: seq<Item>

    constructor ()
      ensures items == []
    {
      items := [];
    }

    method AddItem(item: Item) returns (ok: bool)
      modifies this
      ensures ok <==> |old(items)| < 28
      ensures items == if ok then old(items) + [item] else old(items)
      ensures forall flight :: Arena(items, flight) == After(Arena(old(items), flight), Add(item))
    {
      if |items| >= MAX_QUEUE {
        return false;
      }
      items := items + [item];
      return true;
    }

    method RemoveItemAt(index: int) returns (ok: bool)
      modifies this
      ensures ok <==> 0 <= index < |old(items)|
      ensures items == if ok then old(items)[..index] + old(items)[index + 1..] else old(items)
      ensures forall flight :: Arena(items, flight) == After(Arena(old(items), flight), RemoveAt(index))
    {
      if index < 0 || index >= |items| {
        return false;
      }
      items := items[..index] + items[index + 1..];
      return true;
    }

    /** Keeps the items whose index is not among the given ones. */
    method RemoveRange(indices: seq<int>)
      modifies this
      ensures items == Without(old(items), set i | i in indices)
    {
      var drop := set i | i in indices;
      var kept := [];
      for k := 0 to |items|
        invariant items == old(items) && kept == Without(items[..k], drop)
      {
        assert items[..k + 1][..k] == items[..k];
        if k !in drop {
          kept := kept + [items[k]];
        }
      }
      assert items[..|items|] == items;
      items := kept;
    }
  }

  class Controller {
    const queue: Queue
    var busy: bool
    /** The snapshot that the suspended call of submit holds. */
    var queued: seq<Item>

    ghost function Now(): Arena
      reads this, queue
    {
      Arena(queue.items, if busy then Some(queued) else None)
    }

    constructor (queue: Queue)
      ensures this.queue == queue && Now() == Arena(queue.items, None)
    {
      this.queue := queue;
      busy, queued := false, [];
    }

    /** submit up to its await; `valid` says whether a payload can be built. */
    method Begin(bridge: bool, valid: bool) returns (status: Status)
      modifies this
      ensures status == Answer(old(Now()), bridge, valid)
      ensures status.Busy? <==> old(busy)
      ensures status.Unavailable? <==> !old(busy) && !bridge
      ensures status.Empty? <==> !old(busy) && bridge && queue.items == []
      ensures status.Sent? <==> Starts(old(Now()), Submit(bridge, valid))
      ensures Now() == After(old(Now()), Submit(bridge, valid))
    {
      if busy {
        return Busy;
      }
      if !bridge {
        return Unavailable;
      }
      if queue.items == [] {
        return Empty;
      }
      if !valid {
        return Invalid;
      }
      queued := queue.items;
      busy := true;
      return Sent;
    }

    /** submit after its await. */
    method Finish(outcome: Outcome)
      requires busy
      modifies this, queue
      ensures Now() == After(old(Now()), Settle(outcome))
    {
      if outcome == Confirmed {
        var indices := seq(|queued|, i => i);
        assert (set i | i in indices) == FirstIndices(|queued|) by {
          forall i | 0 <= i < |queued|
            ensures i in indices
          {
            assert indices[i] == i;
          }
        }
        queue.RemoveRange(indices);
      }
      busy := false;
    }
  }
}
