/** The sub-project a task's card shows, and why there is always one to push. */
module TaskFocus {
  import opened Wrappers
  import opened Graphs
  import opened Sorting
  import opened TaskModel
  import opened TaskRuns

  datatype Row = Row(id: Id, sub: Sub)

  const BY_ORDINAL := (a: Row, b: Row) => a.sub.ordinal <= b.sub.ordinal

  function OpenRows(rows: seq<Row>): seq<Row> {
    if rows == [] then []
    else if Closed(rows[0].sub.status) then OpenRows(rows[1..])
    else [rows[0]] + OpenRows(rows[1..])
  }

  function FindRow(rows: seq<Row>, p: Row -> bool): Option<Row> {
    if rows == [] then None
    else if p(rows[0]) then Some(rows[0])
    else FindRow(rows[1..], p)
  }

  predicate IsAcceptedId(rows: seq<Row>, id: Id) {
    exists r :: r in rows && r.id == id && r.sub.status == Accepted
  }

  function IdIs(id: Id): Row -> bool {
    (r: Row) => r.id == id
  }

  function DepsAcceptedIn(rows: seq<Row>): Row -> bool {
    (r: Row) => forall d :: d in r.sub.dependsOn ==> IsAcceptedId(rows, d)
  }

  /** deriveCurrentSubtask: the pinned row while it is open, else the first open row with all
      dependencies accepted, else the first open row. */
  function DeriveCurrent(pin: Option<Id>, rows: seq<Row>): Option<Row> {
    var open := Sort(OpenRows(rows), BY_ORDINAL);
    if open == [] then None
    else
      var pinned := if pin.Some? then FindRow(open, IdIs(pin.value)) else None;
      if pinned.Some? then pinned
      else
        var free := FindRow(open, DepsAcceptedIn(rows));
        if free.Some? then free else Some(open[0])
  }

  // ---- Its meaning on a task ----

  /** The rows are the task's sub-projects, in any order. */
  ghost predicate Lists(rows: seq<Row>, subs: map<Id, Sub>) {
    && (forall r :: r in rows ==> r.id in subs && subs[r.id] == r.sub)
    && forall id :: id in subs ==> Row(id, subs[id]) in rows
  }

  predicate IsOpen(subs: map<Id, Sub>, id: Id) {
    id in subs && !Closed(subs[id].status)
  }

  predicate Free(subs: map<Id, Sub>, id: Id) {
    IsOpen(subs, id) && DepsAccepted(subs, subs[id].dependsOn)
  }

  ghost predicate LowestOpen(subs: map<Id, Sub>, id: Id) {
    IsOpen(subs, id) && forall x :: IsOpen(subs, x) ==> subs[id].ordinal <= subs[x].ordinal
  }

  ghost predicate LowestFree(subs: map<Id, Sub>, id: Id) {
    Free(subs, id) && forall x :: Free(subs, x) ==> subs[id].ordinal <= subs[x].ordinal
  }

  lemma {:induction false} OpenRowsMean(rows: seq<Row>)
    ensures forall r :: r in OpenRows(rows) <==> r in rows && !Closed(r.sub.status)
  {
    if rows != [] {
      OpenRowsMean(rows[1..]);
      assert rows == [rows[0]] + rows[1..];
    }
  }

  ghost predicate FirstAt(rows: seq<Row>, p: Row -> bool, i: nat) {
    i < |rows| && p(rows[i]) && forall j :: 0 <= j < i ==> !p(rows[j])
  }

  lemma {:induction false} FindRowMeans(rows: seq<Row>, p: Row -> bool)
    ensures FindRow(rows, p).None? ==> forall i :: 0 <= i < |rows| ==> !p(rows[i])
    ensures FindRow(rows, p).Some? ==> exists i: nat :: FirstAt(rows, p, i) && rows[i] == FindRow(rows, p).value
  {
    if rows != [] && p(rows[0]) {
      assert FirstAt(rows, p, 0);
    } else if rows != [] {
      FindRowMeans(rows[1..], p);
      if FindRow(rows, p).Some? {
        var i: nat :| FirstAt(rows[1..], p, i) && rows[1..][i] == FindRow(rows[1..], p).value;
        forall j | 0 <= j < i + 1
          ensures !p(rows[j])
        {
          assert j > 0 ==> rows[1..][j - 1] == rows[j];
        }
        assert FirstAt(rows, p, i + 1);
      }
    }
  }

  ghost predicate IsOpenList(open: seq<Row>, rows: seq<Row>) {
    && SortedBy(open, BY_ORDINAL)
    && forall r :: r in open <==> r in rows && !Closed(r.sub.status)
  }

  lemma SortedOpenRows(rows: seq<Row>)
    ensures IsOpenList(Sort(OpenRows(rows), BY_ORDINAL), rows)
  {
    OpenRowsMean(rows);
    SortMembers(OpenRows(rows), BY_ORDINAL);
    assert TotalPreorder(BY_ORDINAL);
    SortSorts(OpenRows(rows), BY_ORDINAL);
  }

  /** The first match in ordinal order has the lowest ordinal of all matches. */
  lemma FoundIsLowest(rows: seq<Row>, open: seq<Row>, p: Row -> bool)
    requires IsOpenList(open, rows)
    ensures FindRow(open, p).None? <==> forall r :: r in rows && !Closed(r.sub.status) ==> !p(r)
    ensures FindRow(open, p).Some? ==> var f := FindRow(open, p).value;
              f in rows && !Closed(f.sub.status) && p(f) &&
              forall r :: r in rows && !Closed(r.sub.status) && p(r) ==> f.sub.ordinal <= r.sub.ordinal
  {
    hide FindRow;
    FindRowMeans(open, p);
    if FindRow(open, p).Some? {
      var i: nat :| FirstAt(open, p, i) && open[i] == FindRow(open, p).value;
      assert open[i] in open;
      forall r | r in rows && !Closed(r.sub.status) && p(r)
        ensures open[i].sub.ordinal <= r.sub.ordinal
      {
        assert r in open;
        var k :| 0 <= k < |open| && open[k] == r;
        assert i < k ==> BY_ORDINAL(open[i], open[k]);
      }
    } else {
      forall r | r in rows && !Closed(r.sub.status)
        ensures !p(r)
      {
        assert r in open;
      }
    }
  }

  /** What the card shows: nothing when all is closed; the pinned sub-project while it is open; else
      the lowest free one; only when none is free the lowest open one. */
  lemma FocusMeans(pin: Option<Id>, rows: seq<Row>, subs: map<Id, Sub>)
    requires Lists(rows, subs)
    ensures DeriveCurrent(pin, rows).None? <==> AllClosed(subs)
    ensures DeriveCurrent(pin, rows).Some? ==> var id := DeriveCurrent(pin, rows).value.id;
              if pin.Some? && IsOpen(subs, pin.value) then id == pin.value
              else if exists x :: Free(subs, x) then LowestFree(subs, id)
              else LowestOpen(subs, id)
  {
    var open := Sort(OpenRows(rows), BY_ORDINAL);
    SortedOpenRows(rows);
    assert open == [] <==> AllClosed(subs) by {
      if open != [] {
        assert open[0] in open;
      }
      forall id | id in subs && !Closed(subs[id].status)
        ensures open != []
      {
        assert Row(id, subs[id]) in open;
      }
    }
    if open != [] {
      hide Sort, OpenRows;
      PinnedFound(pin, rows, subs, open);
      FreeFound(rows, subs, open);
      FirstIsLowest(rows, subs, open);
    }
  }

  lemma PinnedFound(pin: Option<Id>, rows: seq<Row>, subs: map<Id, Sub>, open: seq<Row>)
    requires Lists(rows, subs) && IsOpenList(open, rows)
    ensures pin.Some? ==>
              var f := FindRow(open, IdIs(pin.value));
              f == if IsOpen(subs, pin.value) then Some(Row(pin.value, subs[pin.value])) else None
  {
    if pin.Some? {
      FoundIsLowest(rows, open, IdIs(pin.value));
    }
  }

  lemma FreeFound(rows: seq<Row>, subs: map<Id, Sub>, open: seq<Row>)
    requires Lists(rows, subs) && IsOpenList(open, rows)
    ensures var f := FindRow(open, DepsAcceptedIn(rows));
            if exists x :: Free(subs, x) then f.Some? && LowestFree(subs, f.value.id) else f.None?
  {
    var p := DepsAcceptedIn(rows);
    forall id
      ensures IsAcceptedId(rows, id) <==> id in subs && subs[id].status == Accepted
    {
      if id in subs && subs[id].status == Accepted {
        assert Row(id, subs[id]) in rows;
      }
    }
    forall id | IsOpen(subs, id)
      ensures p(Row(id, subs[id])) <==> Free(subs, id)
    {
    }
    FoundIsLowest(rows, open, p);
    forall x | Free(subs, x)
      ensures Row(x, subs[x]) in rows && p(Row(x, subs[x]))
    {
    }
  }

  lemma FirstIsLowest(rows: seq<Row>, subs: map<Id, Sub>, open: seq<Row>)
    requires Lists(rows, subs) && IsOpenList(open, rows) && open != []
    ensures LowestOpen(subs, open[0].id)
  {
    FoundIsLowest(rows, open, (r: Row) => true);
    assert FindRow(open, (r: Row) => true) == Some(open[0]);
    forall x | IsOpen(subs, x)
      ensures subs[open[0].id].ordinal <= subs[x].ordinal
    {
      assert Row(x, subs[x]) in rows;
    }
  }

  // ---- The fallback ----

  /** Nothing that `id` depends on, directly or not, was skipped. */
  ghost predicate Unspoiled(subs: map<Id, Sub>, id: Id) {
    forall d :: Reaches(DepGraph(subs), id, d) && d in subs ==> subs[d].status != Skipped
  }

  /** Descending through open dependencies ends at one that is free. */
  lemma {:induction false} FreeBelow(subs: map<Id, Sub>, rank: map<Id, nat>, start: Id, id: Id) returns (free: Id)
    requires SiblingDeps(subs) && Ranks(DepGraph(subs), rank) && IsOpen(subs, id)
    requires Unspoiled(subs, start) && Reaches(DepGraph(subs), start, id)
    ensures Free(subs, free) && Reaches(DepGraph(subs), start, free)
    decreases rank[id]
  {
    if Free(subs, id) {
      free := id;
    } else {
      var d :| d in subs[id].dependsOn && subs[d].status != Accepted;
      ReachesStep(DepGraph(subs), start, id, d);
      free := FreeBelow(subs, rank, start, d);
    }
  }

  /** What is free under a plan whose begun sub-projects all have accepted dependencies is unspoiled. */
  lemma FreeIsUnspoiled(subs: map<Id, Sub>, id: Id)
    requires SiblingDeps(subs) && DepsMet(subs) && Free(subs, id)
    ensures Unspoiled(subs, id)
  {
    var settled := set a | a in subs && (a == id || subs[a].status == Accepted);
    forall d | Reaches(DepGraph(subs), id, d) && d in subs
      ensures subs[d].status != Skipped
    {
      var p :| WalkFromTo(DepGraph(subs), id, p, d);
      forall a, b | a in settled && b in Out(DepGraph(subs), a)
        ensures b in settled
      {
        assert DepsAccepted(subs, subs[a].dependsOn);
      }
      ClosedContainsReached(DepGraph(subs), settled, p);
    }
  }

  /** In a plan kept by every careful run, the blocked fallback is avoided exactly when some open
      sub-project depends on nothing that was skipped. */
  lemma FallbackAvoidedIff(subs: map<Id, Sub>)
    requires SiblingDeps(subs) && !HasCycle(DepGraph(subs)) && DepsMet(subs)
    ensures (exists id :: Free(subs, id)) <==> exists id :: IsOpen(subs, id) && Unspoiled(subs, id)
  {
    if id :| Free(subs, id) {
      FreeIsUnspoiled(subs, id);
    }
    if id :| IsOpen(subs, id) && Unspoiled(subs, id) {
      AcyclicIffRanked(DepGraph(subs));
      var rank :| Ranks(DepGraph(subs), rank);
      ReachesSelf(DepGraph(subs), id);
      var free := FreeBelow(subs, rank, id, id);
    }
  }

  lemma SomeFree(t: Task) returns (free: Id)
    requires Valid(t) && !AllClosed(t.subs)
    requires forall id :: id in t.subs ==> t.subs[id].status != Skipped
    ensures Free(t.subs, free)
  {
    var id :| id in t.subs && !Closed(t.subs[id].status);
    AcyclicIffRanked(DepGraph(t.subs));
    var rank :| Ranks(DepGraph(t.subs), rank);
    ReachesSelf(DepGraph(t.subs), id);
    free := FreeBelow(t.subs, rank, id, id);
  }

  /** With nothing pinned, nothing skipped and something open, a valid task shows its lowest
      sub-project whose dependencies are all accepted. */
  lemma FocusIsFree(t: Task, rows: seq<Row>)
    requires Valid(t) && Lists(rows, t.subs) && t.pin.None? && !AllClosed(t.subs)
    requires forall id :: id in t.subs ==> t.subs[id].status != Skipped
    ensures DeriveCurrent(t.pin, rows).Some? && LowestFree(t.subs, DeriveCurrent(t.pin, rows).value.id)
  {
    var free := SomeFree(t);
    FocusMeans(t.pin, rows, t.subs);
  }

  /** A set pin always decides. */
  lemma PinDecides(t: Task, rows: seq<Row>)
    requires Valid(t) && Lists(rows, t.subs) && t.pin.Some?
    ensures DeriveCurrent(t.pin, rows) == Some(Row(t.pin.value, t.subs[t.pin.value]))
  {
    FocusMeans(t.pin, rows, t.subs);
    assert IsOpen(t.subs, t.pin.value);
    var id := DeriveCurrent(t.pin, rows).value.id;
    SortedOpenRows(rows);
    PinnedFound(t.pin, rows, t.subs, Sort(OpenRows(rows), BY_ORDINAL));
  }
}
