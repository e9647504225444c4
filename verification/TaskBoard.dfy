/** One long-term task as the store keeps it: the task row, its sub-project rows, and a method for
    every mutation. */
module TaskBoard {
  import opened Wrappers
  import opened Graphs
  import opened DependencyCheck
  import opened Sorting
  import opened TaskModel
  import opened TaskFocus
  import TaskRuns

  /** The validation loop of createTask. */
  method CheckDrafts(drafts: seq<seq<int>>) returns (ok: bool)
    ensures ok <==> DraftsAccepted(drafts)
    ensures ok <==>
            drafts != [] && forall i, r :: 0 <= i < |drafts| && r in drafts[i] ==> 1 <= r <= |drafts| && r != i + 1
  {
    if drafts == [] {
      return false;
    }
    for index := 0 to |drafts|
      invariant forall i, k :: 0 <= i < index && 0 <= k < |drafts[i]| ==>
                  1 <= drafts[i][k] <= |drafts| && drafts[i][k] != i + 1
    {
      var refs := drafts[index];
      for k := 0 to |refs|
        invariant forall j :: 0 <= j < k ==> 1 <= refs[j] <= |drafts| && refs[j] != index + 1
      {
        if refs[k] < 1 || refs[k] > |drafts| || refs[k] == index + 1 {
          assert refs[k] in drafts[index];
          return false;
        }
      }
    }
    return true;
  }

  function OrdinalIs(n: int): Row -> bool {
    (r: Row) => r.sub.ordinal == n
  }

  function MaxOrdinal(rows: seq<Row>): int {
    if rows == [] then 0
    else
      var rest, last := MaxOrdinal(rows[..|rows| - 1]), rows[|rows| - 1].sub.ordinal;
      if rest < last then last else rest
  }

  lemma {:induction false} MaxOrdinalMeans(rows: seq<Row>)
    ensures MaxOrdinal(rows) >= 0
    ensures forall r :: r in rows ==> r.sub.ordinal <= MaxOrdinal(rows)
    ensures MaxOrdinal(rows) == 0 || exists r :: r in rows && r.sub.ordinal == MaxOrdinal(rows)
  {
    if rows != [] {
      var init, last := rows[..|rows| - 1], rows[|rows| - 1];
      MaxOrdinalMeans(init);
      assert rows == init + [last];
    }
  }

  lemma ListedMaxOrdinal(rows: seq<Row>, subs: map<Id, Sub>)
    requires Lists(rows, subs)
    ensures MaxOrdinal(rows) + 1 == NextOrdinal(subs)
  {
    MaxOrdinalMeans(rows);
    var m := NextOrdinal(subs) - 1;
    forall a | a in subs
      ensures subs[a].ordinal <= MaxOrdinal(rows)
    {
      assert Row(a, subs[a]) in rows;
    }
    if m != 0 {
      var a :| a in subs && subs[a].ordinal == m;
    }
    if MaxOrdinal(rows) != 0 {
      var r :| r in rows && r.sub.ordinal == MaxOrdinal(rows);
      assert subs[r.id].ordinal <= m;
    }
  }

  /** With unique ordinals a list of ordinals has only one reading. */
  lemma ResolvesUnique(subs: map<Id, Sub>, refs: seq<int>, a: seq<Id>, b: seq<Id>)
    requires WellOrdered(subs) && Resolves(subs, refs, a) && Resolves(subs, refs, b)
    ensures a == b
  {
    forall i | 0 <= i < |refs|
      ensures a[i] == b[i]
    {
      assert subs[a[i]].ordinal == refs[i] && subs[b[i]].ordinal == refs[i];
    }
  }

  /** The new row is pending, numbered one after the last, and depends on the rows with the ordinals
      named; the others are as they were. */
  ghost predicate ComesLast(before: map<Id, Sub>, id: Id, refs: seq<int>, after: map<Id, Sub>) {
    && id !in before && id in after && after - {id} == before && after[id].status == Pending
    && (forall a :: a in before ==> before[a].ordinal < after[id].ordinal)
    && (after[id].ordinal == 1 || exists a :: a in before && before[a].ordinal == after[id].ordinal - 1)
    && Resolves(before, refs, after[id].dependsOn)
  }

  lemma AddedComesLast(t: Task, id: Id, titled: bool, refs: seq<int>)
    requires WellOrdered(t.subs)
    ensures AfterAdd(t, id, titled, refs).1 == Ok ==> ComesLast(t.subs, id, refs, AfterAdd(t, id, titled, refs).0.subs)
    ensures WellOrdered(AfterAdd(t, id, titled, refs).0.subs)
  {
    hide ComesLast, WellOrdered, IsMaxOrdinal, Resolves, Resolvable;
    if AfterAdd(t, id, titled, refs).1 == Ok {
      LastRow(t.subs, id, refs, NextOrdinal(t.subs), ResolvedDeps(t.subs, refs));
    }
    hide NextOrdinal, ResolvedDeps;
  }

  lemma AddCases(t: Task, id: Id, titled: bool, refs: seq<int>)
    ensures AfterAdd(t, id, titled, refs) ==
            if !titled || !Resolvable(t.subs, refs) then (t, Validation)
            else if id in t.subs then (t, Thrown)
            else (t.(subs := t.subs[id := NewSub(NextOrdinal(t.subs), ResolvedDeps(t.subs, refs))]), Ok)
  {
  }

  lemma LastRow(subs: map<Id, Sub>, id: Id, refs: seq<int>, n: int, deps: seq<Id>)
    requires WellOrdered(subs) && IsMaxOrdinal(subs, n - 1) && Resolves(subs, refs, deps) && id !in subs
    ensures ComesLast(subs, id, refs, subs[id := NewSub(n, deps)]) && WellOrdered(subs[id := NewSub(n, deps)])
  {
    hide Resolves;
    assert subs[id := NewSub(n, deps)] - {id} == subs;
  }

  class Board {
    var stage: Stage
    var delegate: bool
    var pin: Option<Id>
    var subs: map<Id, Sub>

    ghost function State(): Task
      reads this
    {
      Task(stage, delegate, pin, subs)
    }

    /** The insertions of createTask, after the drafts were checked. */
    constructor (drafts: seq<seq<int>>, ids: seq<Id>)
      requires DraftsAccepted(drafts) && |ids| == |drafts| && FreshIds(ids)
      ensures State() == Created(drafts, ids)
    {
      stage, delegate, pin, subs := Defining, true, None, map[];
      new;
      for index := 0 to |drafts|
        invariant stage == Defining && delegate && pin == None
        invariant subs == CreatedSubs(drafts, ids, index)
      {
        subs := subs[ids[index] := NewSub(index + 1, Referenced(ids, drafts[index]))];
      }
    }

    /** The rows of the task in ordinal order. */
    method ListRows() returns (rows: seq<Row>)
      ensures Lists(rows, subs) && SortedBy(rows, BY_ORDINAL) && Distinct(rows)
    {
      var unsorted: seq<Row> := [];
      var rest := subs.Keys;
      while rest != {}
        invariant rest <= subs.Keys && Distinct(unsorted)
        invariant forall r :: r in unsorted ==> r.id in subs && subs[r.id] == r.sub && r.id !in rest
        invariant forall id :: id in subs && id !in rest ==> Row(id, subs[id]) in unsorted
      {
        var id :| id in rest;
        unsorted, rest := unsorted + [Row(id, subs[id])], rest - {id};
      }
      rows := Sort(unsorted, BY_ORDINAL);
      SortMembers(unsorted, BY_ORDINAL);
      assert TotalPreorder(BY_ORDINAL);
      SortSorts(unsorted, BY_ORDINAL);
      SortKeepsDistinct(unsorted, BY_ORDINAL);
    }

    /** The focus the card shows. */
    method Current() returns (current: Option<Row>)
      ensures current.None? <==> AllClosed(subs)
      ensures current.Some? ==>
                var id := current.value.id;
                if pin.Some? && IsOpen(subs, pin.value) then id == pin.value
                else if exists x :: Free(subs, x) then LowestFree(subs, id)
                else LowestOpen(subs, id)
    {
      var rows := ListRows();
      FocusMeans(pin, rows, subs);
      current := DeriveCurrent(pin, rows);
    }

    method ActivateTask() returns (outcome: Outcome)
      modifies this
      ensures (State(), outcome) == Step(old(State()), Activate)
    {
      if stage != Defining && stage != Paused {
        return Validation;
      }
      stage := Active;
      return Ok;
    }

    method PauseTask() returns (outcome: Outcome)
      modifies this
      ensures (State(), outcome) == Step(old(State()), Pause)
    {
      if stage != Active {
        return Validation;
      }
      stage := Paused;
      return Ok;
    }

    method CancelTask() returns (outcome: Outcome)
      modifies this
      ensures (State(), outcome) == Step(old(State()), Cancel)
    {
      if stage == Done || stage == Cancelled {
        return Validation;
      }
      stage := Cancelled;
      return Ok;
    }

    /** Skips every open sub-project, one by one. */
    method SkipOpen()
      modifies this`subs
      ensures subs == RestSkipped(old(subs))
    {
      var rows := ListRows();
      var open := OpenRows(rows);
      OpenRowsMean(rows);
      hide OpenRows, RestSkipped, SortedBy;
      assert forall r :: r in open ==> r in rows;
      for i := 0 to |open|
        invariant SkippedUpTo(old(subs), open, i, subs)
      {
        SkipOneMore(old(subs), open, i, subs);
        subs := WithStatus(subs, open[i].id, Skipped);
      }
      SkippedAll(old(subs), rows, open, subs);
    }

    method CompleteTask(actor: Actor, evidenceBad: bool) returns (outcome: Outcome)
      modifies this
      ensures (State(), outcome) == AfterComplete(old(State()), actor, evidenceBad)
    {
      if stage != Active && stage != Paused {
        return Validation;
      }
      if actor == Twin && !delegate {
        return Forbidden;
      }
      if evidenceBad {
        return Validation;
      }
      SkipOpen();
      stage, pin := Done, None;
      return Ok;
    }

    method UpdateTask(textChanges: bool, delegateTo: Option<bool>) returns (outcome: Outcome)
      modifies this
      ensures (State(), outcome) == AfterUpdateTask(old(State()), textChanges, delegateTo)
    {
      var changed := textChanges;
      if delegateTo.Some? {
        if delegateTo.value != delegate {
          delegate := delegateTo.value;
          changed := true;
        }
      }
      return if changed then Ok else Validation;
    }

    method AddSubtask(id: Id, titled: bool, refs: seq<int>) returns (outcome: Outcome)
      requires WellOrdered(subs)
      modifies this
      ensures (State(), outcome) == AfterAdd(old(State()), id, titled, refs)
      ensures outcome == Ok ==> ComesLast(old(subs), id, refs, subs)
      ensures WellOrdered(subs)
    {
      AddedComesLast(State(), id, titled, refs);
      AddCases(State(), id, titled, refs);
      hide *;
      if !titled {
        return Validation;
      }
      var existing := ListRows();
      var ordinal := MaxOrdinal(existing) + 1;
      ListedMaxOrdinal(existing, subs);
      var deps := ResolveRefs(existing, refs, subs);
      if deps.None? {
        return Validation;
      }
      if id in subs {
        return Thrown;
      }
      subs := subs[id := NewSub(ordinal, deps.value)];
      return Ok;
    }

    /** All ids that have a dependency or are one. */
    method DependencyLinkedIds() returns (linked: set<Id>)
      ensures forall x :: x in linked <==> Linked(subs, x)
    {
      var rows := ListRows();
      linked := {};
      for i := 0 to |rows|
        invariant forall x :: x in linked <==> exists j :: 0 <= j < i && LinkedBy(rows[j], x)
      {
        var deps := rows[i].sub.dependsOn;
        ghost var before := linked;
        if |deps| > 0 {
          linked := linked + {rows[i].id};
        }
        for k := 0 to |deps|
          invariant forall x :: x in linked <==> x in before || (deps != [] && x == rows[i].id) || x in deps[..k]
        {
          linked := linked + {deps[k]};
        }
        assert deps[..|deps|] == deps;
      }
      LinkedRows(rows, subs);
    }

    /** The part of updateSubtask that sets the ordinal by hand. */
    method Reorder(id: Id, e: Edit) returns (ok: bool)
      requires WellOrdered(subs) && id in subs
      modifies this`subs
      ensures ok <==> !OrdinalRefused(old(subs), id, e)
      ensures State() == if ok then OrdinalSet(old(State()), id, e) else old(State())
      ensures WellOrdered(subs) && id in subs
    {
      if e.ordinal.Some? && e.ordinal.value > 0 && e.ordinal.value != subs[id].ordinal {
        if OrdinalTaken(subs, e.ordinal.value, id) {
          return false;
        }
        var linked := DependencyLinkedIds();
        if id in linked {
          return false;
        }
        TaskRuns.SetOrdinalOk(subs, id, e.ordinal.value);
        subs := subs[id := subs[id].(ordinal := e.ordinal.value)];
      }
      return true;
    }

    /** The part of updateSubtask that redefines the dependencies. */
    method Redefine(id: Id, deps: seq<Id>) returns (ok: bool)
      requires id in subs
      modifies this`subs
      ensures ok <==> DepsAllowed(old(subs), id, deps)
      ensures subs == if ok then old(subs)[id := old(subs)[id].(dependsOn := deps)] else old(subs)
    {
      for i := 0 to |deps|
        invariant subs == old(subs)
        invariant forall j :: 0 <= j < i ==> deps[j] in subs && deps[j] != id
      {
        if deps[i] !in subs || deps[i] == id {
          return false;
        }
      }
      var cyclic := HasDependencyCycle(DepGraph(subs)[id := deps], id);
      if cyclic {
        return false;
      }
      subs := subs[id := subs[id].(dependsOn := deps)];
      return true;
    }

    /** The part of updateSubtask that follows the text and link columns. */
    method FinishUpdate(id: Id, e: Edit, textChanged: bool) returns (outcome: Outcome)
      requires WellOrdered(subs) && id in subs
      modifies this`subs
      ensures (State(), outcome) ==
              if OrdinalRefused(old(subs), id, e) then (old(State()), Validation)
              else DepsSet(OrdinalSet(old(State()), id, e), id, e, textChanged || Reorders(old(subs)[id], e))
      ensures WellOrdered(subs)
    {
      var changed := textChanged || Reorders(subs[id], e);
      var reordered := Reorder(id, e);
      if !reordered {
        return Validation;
      }
      hide OrdinalRefused, OrdinalSet, DepsAllowed;
      if e.dependsOn.Some? {
        DepsDoNotOrder(subs, id, e.dependsOn.value);
        var redefined := Redefine(id, e.dependsOn.value);
        if !redefined {
          return Validation;
        }
        changed := true;
      }
      return if changed then Ok else Validation;
    }

    method UpdateSubtask(id: Id, e: Edit) returns (outcome: Outcome)
      requires WellOrdered(subs)
      modifies this
      ensures (State(), outcome) == AfterUpdate(old(State()), id, e)
      ensures WellOrdered(subs)
    {
      hide OrdinalRefused, OrdinalSet, DepsSet, WellOrdered;
      if id !in subs {
        return NotFound;
      }
      var current := subs[id];
      if Closed(current.status) {
        return Validation;
      }
      var changed := false;
      if e.textChanges {
        TextDoesNotOrder(subs, id);
        subs := subs[id := current.(text := current.text + 1)];
        changed := true;
      }
      if e.linkMalformed {
        return Validation;
      }
      outcome := FinishUpdate(id, e, changed);
    }

    method BeginSubtask(id: Id) returns (outcome: Outcome)
      modifies this
      ensures (State(), outcome) == AfterBegin(old(State()), id)
    {
      if id !in subs {
        return NotFound;
      }
      if subs[id].status != Pending && subs[id].status != InProgress {
        return Validation;
      }
      if !DepsAccepted(subs, subs[id].dependsOn) {
        return Validation;
      }
      if stage == Defining {
        return Validation;
      }
      if stage == Paused || stage == Done || stage == Cancelled {
        return Validation;
      }
      subs := WithStatus(subs, id, InProgress);
      pin := Some(id);
      return Ok;
    }

    method WaitSubtask(id: Id, forOwner: bool, note: string, until: Option<string>, untilBad: bool)
      returns (outcome: Outcome)
      modifies this
      ensures (State(), outcome) == AfterWait(old(State()), id, forOwner, note, until, untilBad)
    {
      if id !in subs {
        return NotFound;
      }
      var status := subs[id].status;
      if status != InProgress && status != WaitingOwner && status != WaitingExternal {
        return Validation;
      }
      if until.Some? {
        if untilBad {
          return Validation;
        }
      }
      var kind := if forOwner then WaitingOwner else WaitingExternal;
      subs := subs[id := subs[id].(status := kind, note := note, until := until)];
      return Ok;
    }

    method ProposeSubtask(id: Id, evidence: seq<string>, evidenceBad: bool, summary: string)
      returns (outcome: Outcome)
      modifies this
      ensures (State(), outcome) == AfterPropose(old(State()), id, evidence, evidenceBad, summary)
    {
      if id !in subs {
        return NotFound;
      }
      if subs[id].status != InProgress && subs[id].status != WaitingExternal {
        return Validation;
      }
      if |evidence| == 0 || evidenceBad {
        return Validation;
      }
      subs := subs[id := subs[id].(status := WaitingOwner, evidence := evidence,
                                   note := ProposalNote(summary), until := None)];
      return Ok;
    }

    method AcceptSubtask(id: Id, actor: Actor) returns (outcome: Outcome)
      modifies this
      ensures (State(), outcome) == AfterAccept(old(State()), id, actor)
    {
      if id !in subs {
        return NotFound;
      }
      if actor == Twin && !delegate {
        return Forbidden;
      }
      if subs[id].status != WaitingOwner && subs[id].status != InProgress {
        return Validation;
      }
      subs := WithStatus(subs, id, Accepted);
      if pin == Some(id) {
        pin := None;
      }
      if AllClosed(subs) && stage == Active {
        stage := Done;
      }
      return Ok;
    }

    /** Decides first whether this closes the task, on the other sub-projects. */
    method SkipSubtask(id: Id, actor: Actor) returns (outcome: Outcome)
      modifies this
      ensures (State(), outcome) == AfterSkip(old(State()), id, actor)
    {
      if id !in subs {
        return NotFound;
      }
      if Closed(subs[id].status) {
        return Validation;
      }
      if stage == Done || stage == Cancelled {
        return Validation;
      }
      var closesTask := stage == Active && forall a :: a in subs && a != id ==> Closed(subs[a].status);
      ClosesLast(subs, id);
      if actor == Twin && closesTask && !delegate {
        return Forbidden;
      }
      subs := WithStatus(subs, id, Skipped);
      if pin == Some(id) {
        pin := None;
      }
      if closesTask {
        stage := Done;
      }
      return Ok;
    }

    method RejectSubtask(id: Id, hasFeedback: bool) returns (outcome: Outcome)
      modifies this
      ensures (State(), outcome) == AfterReject(old(State()), id, hasFeedback)
    {
      if id !in subs {
        return NotFound;
      }
      if subs[id].status != WaitingOwner {
        return Validation;
      }
      if !hasFeedback {
        return Validation;
      }
      subs := subs[id := subs[id].(status := InProgress)];
      return Ok;
    }

    method UnblockSubtask(id: Id) returns (outcome: Outcome)
      modifies this
      ensures (State(), outcome) == AfterUnblock(old(State()), id)
    {
      if id !in subs {
        return NotFound;
      }
      if subs[id].status != WaitingOwner && subs[id].status != WaitingExternal {
        return Validation;
      }
      subs := WithStatus(subs, id, InProgress);
      return Ok;
    }

    /** Parks the moved row at a free ordinal, because no two rows may share one at any moment. */
    method MoveSubtask(id: Id, up: bool) returns (outcome: Outcome)
      requires WellOrdered(subs)
      modifies this
      ensures (State(), outcome) == AfterMove(old(State()), id, up)
      ensures WellOrdered(subs)
    {
      hide AfterMove, Linked, IsNeighbor, SwapOrdinals;
      MoveRefused(State(), id, up);
      if id !in subs {
        return NotFound;
      }
      var current := subs[id];
      if Closed(current.status) {
        return Validation;
      }
      var siblings := ListRows();
      var found := FindNeighbor(siblings, id, up, subs);
      if found.None? {
        return Validation;
      }
      var neighbor := found.value;
      MoveEffect(State(), id, up, neighbor.id);
      var linked := DependencyLinkedIds();
      if id in linked || neighbor.id in linked {
        return Validation;
      }
      ListedMaxOrdinal(siblings, subs);
      NeighborDiffers(subs, id, up, neighbor.id);
      Swap(id, neighbor.id, MaxOrdinal(siblings) + 1);
      return Ok;
    }

    method Swap(id: Id, neighbor: Id, temp: int)
      requires WellOrdered(subs) && id in subs && neighbor in subs && id != neighbor
      requires IsMaxOrdinal(subs, temp - 1)
      modifies this`subs
      ensures subs == SwapOrdinals(old(subs), id, neighbor) && WellOrdered(subs)
    {
      var first, second := subs[id].ordinal, subs[neighbor].ordinal;
      subs := subs[id := subs[id].(ordinal := temp)];
      ghost var s1 := subs;
      subs := subs[neighbor := subs[neighbor].(ordinal := first)];
      SwapInThree(old(subs), id, neighbor, temp, s1, subs);
      ThreeMakeSwap(old(subs), id, neighbor, temp);
      subs := subs[id := subs[id].(ordinal := second)];
      TaskRuns.SwapWellOrdered(old(subs), id, neighbor);
    }
  }

  ghost predicate Ascending(rows: seq<Row>) {
    forall i, j :: 0 <= i < j < |rows| ==> rows[i].sub.ordinal < rows[j].sub.ordinal
  }

  lemma OrdinalsAscend(rows: seq<Row>, subs: map<Id, Sub>)
    requires WellOrdered(subs) && Lists(rows, subs) && SortedBy(rows, BY_ORDINAL) && Distinct(rows)
    ensures Ascending(rows)
  {
    forall i, j | 0 <= i < j < |rows|
      ensures rows[i].sub.ordinal < rows[j].sub.ordinal
    {
      assert BY_ORDINAL(rows[i], rows[j]) && rows[i] != rows[j];
      assert rows[i] in rows && rows[j] in rows;
    }
  }

  lemma NeighborAt(rows: seq<Row>, subs: map<Id, Sub>, index: nat, at: nat, up: bool)
    requires Lists(rows, subs) && Ascending(rows) && index < |rows| && at < |rows|
    requires at == if up then index - 1 else index + 1
    ensures IsNeighbor(subs, rows[index].id, up, rows[at].id)
    ensures forall c :: IsNeighbor(subs, rows[index].id, up, c) ==> c == rows[at].id
  {
    var a, b := rows[index], rows[at];
    assert a in rows && b in rows;
    forall c | c in subs && c != a.id && c != b.id
      ensures if up then !(b.sub.ordinal <= subs[c].ordinal <= a.sub.ordinal)
              else !(a.sub.ordinal <= subs[c].ordinal <= b.sub.ordinal)
    {
      assert Row(c, subs[c]) in rows;
      var k :| 0 <= k < |rows| && rows[k] == Row(c, subs[c]);
    }
  }

  lemma NeighborDiffers(subs: map<Id, Sub>, id: Id, up: bool, b: Id)
    requires id in subs && IsNeighbor(subs, id, up, b)
    ensures b in subs && b != id
  {
  }

  lemma NoNeighbor(rows: seq<Row>, subs: map<Id, Sub>, index: nat, up: bool)
    requires Lists(rows, subs) && Ascending(rows) && index < |rows|
    requires if up then index == 0 else index == |rows| - 1
    ensures forall c :: !IsNeighbor(subs, rows[index].id, up, c)
  {
    assert rows[index] in rows;
    forall c | c in subs && c != rows[index].id
      ensures if up then rows[index].sub.ordinal <= subs[c].ordinal else subs[c].ordinal <= rows[index].sub.ordinal
    {
      assert Row(c, subs[c]) in rows;
      var k :| 0 <= k < |rows| && rows[k] == Row(c, subs[c]);
    }
  }

  lemma TextDoesNotOrder(subs: map<Id, Sub>, id: Id)
    requires WellOrdered(subs) && id in subs
    ensures WellOrdered(subs[id := subs[id].(text := subs[id].text + 1)])
  {
  }

  lemma DepsDoNotOrder(subs: map<Id, Sub>, id: Id, deps: seq<Id>)
    requires WellOrdered(subs) && id in subs
    ensures WellOrdered(subs[id := subs[id].(dependsOn := deps)])
  {
  }

  lemma ThreeMakeSwap(subs: map<Id, Sub>, a: Id, b: Id, temp: int)
    requires a in subs && b in subs && a != b
    ensures var s1 := subs[a := subs[a].(ordinal := temp)];
            var s2 := s1[b := s1[b].(ordinal := subs[a].ordinal)];
            s2[a := s2[a].(ordinal := subs[b].ordinal)] == SwapOrdinals(subs, a, b)
  {
  }

  /** While the swap is under way no two sub-projects share an ordinal. */
  lemma SwapInThree(subs: map<Id, Sub>, a: Id, b: Id, temp: int, s1: map<Id, Sub>, s2: map<Id, Sub>)
    requires WellOrdered(subs) && a in subs && b in subs && a != b
    requires temp >= 1 && forall x :: x in subs ==> subs[x].ordinal < temp
    requires s1 == subs[a := subs[a].(ordinal := temp)]
    requires s2 == s1[b := s1[b].(ordinal := subs[a].ordinal)]
    ensures WellOrdered(s1) && WellOrdered(s2)
  {
    TaskRuns.SetOrdinalOk(subs, a, temp);
    forall x | x in s1 && x != b
      ensures s1[x].ordinal != subs[a].ordinal
    {
    }
    TaskRuns.SetOrdinalOk(s1, b, subs[a].ordinal);
  }

  /** With the one neighbour known, the effect of a move. */
  lemma MoveEffect(t: Task, id: Id, up: bool, b: Id)
    requires id in t.subs && !Closed(t.subs[id].status)
    requires IsNeighbor(t.subs, id, up, b) && forall c :: IsNeighbor(t.subs, id, up, c) ==> c == b
    ensures AfterMove(t, id, up) ==
            if Linked(t.subs, id) || Linked(t.subs, b) then (t, Validation)
            else (t.(subs := SwapOrdinals(t.subs, id, b)), Ok)
  {
    hide Linked;
  }

  lemma MoveRefused(t: Task, id: Id, up: bool)
    ensures id !in t.subs ==> AfterMove(t, id, up) == (t, NotFound)
    ensures id in t.subs && Closed(t.subs[id].status) ==> AfterMove(t, id, up) == (t, Validation)
    ensures id in t.subs && (forall c :: !IsNeighbor(t.subs, id, up, c)) ==> AfterMove(t, id, up) == (t, Validation)
  {
    hide Linked;
  }

  lemma ClosesLast(subs: map<Id, Sub>, id: Id)
    requires id in subs
    ensures (forall a :: a in subs && a != id ==> Closed(subs[a].status)) <==> AllClosed(WithStatus(subs, id, Skipped))
  {
    var u := WithStatus(subs, id, Skipped);
    forall a | a in subs && a != id
      ensures u[a] == subs[a]
    {
    }
    if AllClosed(u) {
      forall a | a in subs && a != id
        ensures Closed(subs[a].status)
      {
        assert a in u;
      }
    }
  }

  /** The first n listed sub-projects are skipped and nothing else has changed. */
  ghost predicate SkippedUpTo(before: map<Id, Sub>, open: seq<Row>, n: nat, after: map<Id, Sub>)
    requires n <= |open|
  {
    && after.Keys == before.Keys
    && (forall j :: 0 <= j < n ==> open[j].id in after && after[open[j].id].status == Skipped)
    && (forall j :: n <= j < |open| ==> open[j].id in after)
    && forall id :: id in before ==>
         after[id] == before[id] || (!Closed(before[id].status) && after[id] == AtStatus(before[id], Skipped))
  }

  lemma SkipOneMore(before: map<Id, Sub>, open: seq<Row>, n: nat, now: map<Id, Sub>)
    requires n < |open| && SkippedUpTo(before, open, n, now)
    requires forall r :: r in open ==> r.id in before && !Closed(before[r.id].status)
    ensures SkippedUpTo(before, open, n + 1, WithStatus(now, open[n].id, Skipped))
  {
    assert open[n] in open;
  }

  lemma SkippedAll(before: map<Id, Sub>, rows: seq<Row>, open: seq<Row>, after: map<Id, Sub>)
    requires Lists(rows, before) && forall r :: r in open <==> r in rows && !Closed(r.sub.status)
    requires SkippedUpTo(before, open, |open|, after)
    ensures after == RestSkipped(before)
  {
    forall id | id in before && !Closed(before[id].status)
      ensures after[id] == AtStatus(before[id], Skipped)
    {
      assert Row(id, before[id]) in open;
      var j :| 0 <= j < |open| && open[j] == Row(id, before[id]);
    }
  }

  /** Ids for the ordinals a draft refers to; None when one names no row. */
  method ResolveRefs(rows: seq<Row>, refs: seq<int>, ghost subs: map<Id, Sub>) returns (deps: Option<seq<Id>>)
    requires WellOrdered(subs) && Lists(rows, subs)
    ensures deps.Some? <==> Resolvable(subs, refs)
    ensures deps.Some? ==> deps.value == ResolvedDeps(subs, refs)
  {
    var ids := [];
    for i := 0 to |refs|
      invariant Resolves(subs, refs[..i], ids)
    {
      var found := FindRow(rows, OrdinalIs(refs[i]));
      FindRowMeans(rows, OrdinalIs(refs[i]));
      if found.None? {
        UnresolvedRef(rows, subs, refs, i);
        return None;
      }
      assert found.value in rows;
      ids := ids + [found.value.id];
    }
    assert refs[..|refs|] == refs;
    ResolvedMeans(subs, refs, ids);
    return Some(ids);
  }

  lemma ResolvedMeans(subs: map<Id, Sub>, refs: seq<int>, ids: seq<Id>)
    requires WellOrdered(subs) && Resolves(subs, refs, ids)
    ensures Resolvable(subs, refs) && ids == ResolvedDeps(subs, refs)
  {
    forall r | r in refs
      ensures HasOrdinal(subs, r)
    {
      var i :| 0 <= i < |refs| && refs[i] == r;
      assert ids[i] in subs;
    }
    ResolvesUnique(subs, refs, ids, ResolvedDeps(subs, refs));
  }

  predicate LinkedBy(r: Row, x: Id) {
    (r.id == x && r.sub.dependsOn != []) || x in r.sub.dependsOn
  }

  lemma LinkedRows(rows: seq<Row>, subs: map<Id, Sub>)
    requires Lists(rows, subs)
    ensures forall x :: Linked(subs, x) <==> exists j :: 0 <= j < |rows| && LinkedBy(rows[j], x)
  {
    forall x | Linked(subs, x)
      ensures exists j :: 0 <= j < |rows| && LinkedBy(rows[j], x)
    {
      var a := x;
      if !(x in subs && subs[x].dependsOn != []) {
        a :| a in subs && x in subs[a].dependsOn;
      }
      var row := Row(a, subs[a]);
      assert row in rows && LinkedBy(row, x);
    }
    forall x, j | 0 <= j < |rows| && LinkedBy(rows[j], x)
      ensures Linked(subs, x)
    {
      assert rows[j] in rows;
    }
  }

  lemma UnresolvedRef(rows: seq<Row>, subs: map<Id, Sub>, refs: seq<int>, i: nat)
    requires Lists(rows, subs) && i < |refs|
    requires forall j :: 0 <= j < |rows| ==> rows[j].sub.ordinal != refs[i]
    ensures !Resolvable(subs, refs)
  {
    forall a | a in subs
      ensures subs[a].ordinal != refs[i]
    {
      assert Row(a, subs[a]) in rows;
    }
    assert refs[i] in refs && !HasOrdinal(subs, refs[i]);
  }

  method IndexOf(rows: seq<Row>, id: Id) returns (index: int)
    requires exists r :: r in rows && r.id == id
    ensures 0 <= index < |rows| && rows[index].id == id
    ensures forall j :: 0 <= j < index ==> rows[j].id != id
  {
    index := 0;
    while rows[index].id != id
      invariant 0 <= index < |rows|
      invariant forall j :: 0 <= j < index ==> rows[j].id != id
      decreases |rows| - index
    {
      var r :| r in rows && r.id == id;
      index := index + 1;
    }
  }

  /** The row before or after that of `id` in ordinal order. */
  method FindNeighbor(siblings: seq<Row>, id: Id, up: bool, ghost subs: map<Id, Sub>) returns (neighbor: Option<Row>)
    requires WellOrdered(subs) && Lists(siblings, subs) && SortedBy(siblings, BY_ORDINAL) && Distinct(siblings)
    requires id in subs
    ensures neighbor.None? ==> forall c :: !IsNeighbor(subs, id, up, c)
    ensures neighbor.Some? ==>
              && IsNeighbor(subs, id, up, neighbor.value.id)
              && forall c :: IsNeighbor(subs, id, up, c) ==> c == neighbor.value.id
  {
    assert Row(id, subs[id]) in siblings;
    OrdinalsAscend(siblings, subs);
    var index := IndexOf(siblings, id);
    var at := if up then index - 1 else index + 1;
    hide IsNeighbor;
    if at < 0 || at >= |siblings| {
      NoNeighbor(siblings, subs, index, up);
      return None;
    }
    NeighborAt(siblings, subs, index, at, up);
    return Some(siblings[at]);
  }
}
