/** When each call on a task is granted, and which calls change which column. */
module TaskEffects {
  import opened Wrappers
  import opened Graphs
  import opened DependencyCheck
  import opened TaskModel
  import opened TaskRuns
  import opened TaskFocus

  // ---- When a call is granted ----

  /** The owner always may; the twin needs the acceptance switch. */
  predicate MayJudge(t: Task, actor: Actor) {
    actor != Twin || t.delegate
  }

  /** Closing the sub-project ends the task: it is active and everything else is closed. */
  predicate EndsTask(t: Task, id: Id) {
    t.stage == Active && forall a :: a in t.subs && a != id ==> Closed(t.subs[a].status)
  }

  predicate Names(op: Op) {
    op.Update? || op.Move? || ChangesOneRow(op)
  }

  /** The sub-project takes part in no dependency. */
  ghost predicate Unlinked(subs: map<Id, Sub>, id: Id) {
    (id in subs ==> subs[id].dependsOn == []) && forall a :: a in subs ==> id !in subs[a].dependsOn
  }

  /** b is just before id, or just after it. */
  ghost predicate NextTo(subs: map<Id, Sub>, id: Id, up: bool, b: Id)
    requires id in subs
  {
    && b in subs && subs[b].ordinal != subs[id].ordinal
    && (subs[b].ordinal < subs[id].ordinal <==> up)
    && forall c :: c in subs ==> !(subs[b].ordinal < subs[c].ordinal < subs[id].ordinal) &&
                                 !(subs[id].ordinal < subs[c].ordinal < subs[b].ordinal)
  }

  /** The edit gives an ordinal that is positive and not the one there is. */
  predicate Renumbers(sub: Sub, e: Edit) {
    e.ordinal.Some? && e.ordinal.value > 0 && e.ordinal.value != sub.ordinal
  }

  ghost predicate Renumberable(subs: map<Id, Sub>, id: Id, n: int) {
    Unlinked(subs, id) && forall a :: a in subs && a != id ==> subs[a].ordinal != n
  }

  ghost predicate AllNamed(subs: map<Id, Sub>, refs: seq<int>) {
    forall r :: r in refs ==> exists a :: a in subs && subs[a].ordinal == r
  }

  /** Which calls are granted: the condition on the task before the call. */
  ghost predicate Granted(t: Task, op: Op) {
    && (Names(op) ==> op.id in t.subs)
    && match op
       case Activate => t.stage == Defining || t.stage == Paused
       case Pause => t.stage == Active
       case Cancel => t.stage != Done && t.stage != Cancelled
       case Complete(actor, evidenceBad) =>
         (t.stage == Active || t.stage == Paused) && MayJudge(t, actor) && !evidenceBad
       case UpdateTask(textChanges, delegateTo) => textChanges || delegateTo == Some(!t.delegate)
       case Add(newId, titled, refs) => titled && newId !in t.subs && AllNamed(t.subs, refs)
       case Update(id, e) =>
         && !Closed(t.subs[id].status) && !e.linkMalformed
         && (Renumbers(t.subs[id], e) ==> Renumberable(t.subs, id, e.ordinal.value))
         && (e.dependsOn.Some? ==> DepsAllowed(t.subs, id, e.dependsOn.value))
         && (e.textChanges || Renumbers(t.subs[id], e) || e.dependsOn.Some?)
       case Begin(id) =>
         && t.stage == Active && (t.subs[id].status == Pending || t.subs[id].status == InProgress)
         && DepsAccepted(t.subs, t.subs[id].dependsOn)
       case Wait(id, _, _, until, untilBad) => Underway(t.subs[id].status) && (until.None? || !untilBad)
       case Propose(id, evidence, evidenceBad, _) =>
         && (t.subs[id].status == InProgress || t.subs[id].status == WaitingExternal)
         && evidence != [] && !evidenceBad
       case Accept(id, actor) =>
         MayJudge(t, actor) && (t.subs[id].status == WaitingOwner || t.subs[id].status == InProgress)
       case Skip(id, actor) =>
         && !Closed(t.subs[id].status) && t.stage != Done && t.stage != Cancelled
         && (EndsTask(t, id) ==> MayJudge(t, actor))
       case Reject(id, hasFeedback) => t.subs[id].status == WaitingOwner && hasFeedback
       case Unblock(id) => t.subs[id].status == WaitingOwner || t.subs[id].status == WaitingExternal
       case Move(id, up) =>
         && !Closed(t.subs[id].status) && Unlinked(t.subs, id)
         && exists b :: NextTo(t.subs, id, up, b) && Unlinked(t.subs, b)
  }

  lemma ClosingEnds(t: Task, id: Id, status: Status)
    requires id in t.subs && Closed(status)
    ensures EndsTask(t, id) <==> t.stage == Active && AllClosed(WithStatus(t.subs, id, status))
  {
    var u := WithStatus(t.subs, id, status);
    if AllClosed(u) {
      forall a | a in t.subs && a != id
        ensures Closed(t.subs[a].status)
      {
        assert a in u && u[a] == t.subs[a];
      }
    }
  }

  lemma LinkedMeans(subs: map<Id, Sub>, id: Id)
    ensures Linked(subs, id) <==> !Unlinked(subs, id)
  {
  }

  lemma NextToIff(subs: map<Id, Sub>, id: Id, up: bool, b: Id)
    requires WellOrdered(subs) && id in subs
    ensures IsNeighbor(subs, id, up, b) <==> NextTo(subs, id, up, b)
  {
  }

  lemma MoveGranted(t: Task, id: Id, up: bool)
    requires WellOrdered(t.subs) && id in t.subs
    ensures AfterMove(t, id, up).1 == Ok <==> Granted(t, Move(id, up))
    ensures AfterMove(t, id, up).1 == Ok ==>
              exists b :: IsNeighbor(t.subs, id, up, b) && Unlinked(t.subs, id) && Unlinked(t.subs, b) &&
                AfterMove(t, id, up).0 == t.(subs := SwapOrdinals(t.subs, id, b))
  {
    forall b
      ensures IsNeighbor(t.subs, id, up, b) <==> NextTo(t.subs, id, up, b)
      ensures Linked(t.subs, b) <==> !Unlinked(t.subs, b)
    {
      NextToIff(t.subs, id, up, b);
      LinkedMeans(t.subs, b);
    }
    forall b, c | IsNeighbor(t.subs, id, up, b) && IsNeighbor(t.subs, id, up, c)
      ensures b == c
    {
      NeighboursEqual(t.subs, id, up, b, c);
    }
    hide Linked, Unlinked, NextTo, IsNeighbor, WellOrdered, SwapOrdinals;
  }

  lemma NeighboursEqual(subs: map<Id, Sub>, id: Id, up: bool, b: Id, c: Id)
    requires WellOrdered(subs) && id in subs && IsNeighbor(subs, id, up, b) && IsNeighbor(subs, id, up, c)
    ensures b == c
  {
  }

  lemma UpdateGranted(t: Task, id: Id, e: Edit)
    requires id in t.subs
    ensures Granted(t, Update(id, e)) <==>
            && !Closed(t.subs[id].status) && !LaterRefused(t, id, e)
            && (e.textChanges || Reorders(t.subs[id], e) || e.dependsOn.Some?)
  {
    LinkedMeans(t.subs, id);
    hide Linked, Unlinked, DepsAllowed;
  }

  /** A call succeeds exactly when it is granted. */
  lemma GrantedIff(t: Task, op: Op)
    requires WellOrdered(t.subs)
    ensures Step(t, op).1 == Ok <==> Granted(t, op)
  {
    if op.Update? {
      EditOutcome(t, op.id, op.edit);
      if op.id in t.subs {
        UpdateGranted(t, op.id, op.edit);
      }
      hide AfterUpdate, LaterRefused, DepsAllowed, Unlinked, Renumberable;
    } else if op.Move? {
      if op.id in t.subs {
        MoveGranted(t, op.id, op.up);
      }
      hide Granted, Step, AfterMove;
      assert Step(t, op) == AfterMove(t, op.id, op.up);
    } else {
      if op.Skip? && op.id in t.subs {
        ClosingEnds(t, op.id, Skipped);
      }
      hide AfterUpdate, AfterMove, Linked, Resolvable, ProposalNote, ResolvedDeps, AllClosed, EndsTask, LaterRefused;
    }
  }

  /** What a refusal says: the sub-project is unknown, the twin lacks the switch for a verdict that is
      otherwise due, or the new id is in use; every other refusal is a validation error. */
  lemma RefusalCodes(t: Task, op: Op)
    ensures Step(t, op).1 == NotFound <==> Names(op) && op.id !in t.subs
    ensures Step(t, op).1 == Thrown <==> op.Add? && op.titled && AllNamed(t.subs, op.refs) && op.newId in t.subs
    ensures Step(t, op).1 == Forbidden <==>
            && !t.delegate
            && ((op.Complete? && op.actor == Twin && (t.stage == Active || t.stage == Paused)) ||
                (op.Accept? && op.actor == Twin && op.id in t.subs) ||
                (op.Skip? && op.actor == Twin && op.id in t.subs &&
                 !Closed(t.subs[op.id].status) && EndsTask(t, op.id)))
  {
    if op.Update? {
      hide DepsAllowed, OrdinalRefused, EndsTask, Resolvable;
    } else {
      if op.Skip? && op.id in t.subs {
        ClosingEnds(t, op.id, Skipped);
      }
      hide AfterUpdate, Linked, IsNeighbor, Resolvable, ProposalNote, ResolvedDeps, AllClosed, EndsTask, DepsAccepted;
    }
  }

  // ---- The task row ----

  /** Which calls move the task to each stage. No call leads back to defining. */
  lemma StageChanges(t: Task, op: Op)
    requires WellOrdered(t.subs)
    ensures var now := Step(t, op).0.stage;
            && (now == Active && t.stage != Active <==> op == Activate && Granted(t, op))
            && (now == Paused && t.stage != Paused <==> op == Pause && Granted(t, op))
            && (now == Cancelled && t.stage != Cancelled <==> op == Cancel && Granted(t, op))
            && (now == Defining ==> t.stage == Defining)
    ensures Step(t, op).0.stage == Done && t.stage != Done <==>
            Granted(t, op) && (op.Complete? || ((op.Accept? || op.Skip?) && EndsTask(t, op.id)))
  {
    GrantedIff(t, op);
    if (op.Accept? || op.Skip?) && op.id in t.subs {
      ClosingEnds(t, op.id, if op.Accept? then Accepted else Skipped);
    }
    if op.Update? {
      EditOutcome(t, op.id, op.edit);
    }
    hide Granted, AfterUpdate, DepsAccepted, Linked, IsNeighbor, Resolvable, ProposalNote, ResolvedDeps, AllClosed;
    hide EndsTask, EditedSub, LaterRefused;
  }

  /** The focus is set by a granted begin, to what it begins, and lost exactly when the sub-project in
      focus is accepted or skipped or the task is completed. */
  lemma PinChanges(t: Task, op: Op)
    requires WellOrdered(t.subs)
    ensures var now := Step(t, op).0.pin;
            && (op.Begin? && Granted(t, op) ==> now == Some(op.id))
            && (now.Some? && now != t.pin ==> op == Begin(now.value) && Granted(t, op))
            && (now.None? && t.pin.Some? <==>
                  t.pin.Some? && Granted(t, op) && (op.Complete? || ((op.Accept? || op.Skip?) && op.id == t.pin.value)))
  {
    GrantedIff(t, op);
    if op.Update? {
      EditOutcome(t, op.id, op.edit);
    }
    hide Granted, AfterUpdate, DepsAccepted, Linked, IsNeighbor, Resolvable, ProposalNote, ResolvedDeps, AllClosed;
    hide EditedSub, LaterRefused;
  }

  /** What has been begun is what the card shows next. */
  lemma BegunIsShown(t: Task, id: Id, rows: seq<Row>)
    requires Valid(t) && Granted(t, Begin(id)) && Lists(rows, Step(t, Begin(id)).0.subs)
    ensures var u := Step(t, Begin(id)).0;
            DeriveCurrent(u.pin, rows) == Some(Row(id, u.subs[id]))
  {
    PinChanges(t, Begin(id));
    RunOne(t, Begin(id));
    RunKeepsValid(t, [Begin(id)]);
    PinDecides(Step(t, Begin(id)).0, rows);
  }

  lemma RunOne(t: Task, op: Op)
    ensures Run(t, [op]) == Step(t, op).0
  {
    assert [op][..0] == [];
    assert Run(t, []) == t;
  }

  /** The acceptance switch is set by updates of the task only, to what they say. */
  lemma SwitchChanges(t: Task, op: Op)
    ensures Step(t, op).0.delegate ==
            if op.UpdateTask? && op.delegateTo.Some? then op.delegateTo.value else t.delegate
  {
    if op.Update? {
      EditOutcome(t, op.id, op.edit);
    }
    hide AfterUpdate, DepsAccepted, Linked, IsNeighbor, Resolvable, ProposalNote, ResolvedDeps, AllClosed, EditedSub;
  }

  // ---- The rows of the sub-projects ----

  /** No sub-project is ever removed, and only a granted addition adds one: pending, with nothing
      written to it yet. */
  lemma RowsStay(t: Task, op: Op)
    requires WellOrdered(t.subs)
    ensures var u := Step(t, op).0.subs;
            && (forall a :: a in u <==> a in t.subs || (op.Add? && Granted(t, op) && a == op.newId))
            && forall a :: a in u && a !in t.subs ==>
                 u[a].status == Pending && u[a].text == 0 && u[a].note == "" && u[a].until.None? && u[a].evidence == []
  {
    if ChangesOneRow(op) {
      OneRowCalls(t, op);
      hide Step, Granted;
    } else {
      GrantedIff(t, op);
      if op.Update? {
        EditOutcome(t, op.id, op.edit);
      }
      hide Granted, AfterUpdate, Resolvable, ResolvedDeps, EditedSub, LaterRefused, NextOrdinal, WellOrdered;
      if op.Move? {
        MoveKeepsRows(t, op.id, op.up);
        hide AfterMove;
      } else {
        hide AfterMove, Linked, IsNeighbor, AtStatus;
      }
    }
  }

  lemma MoveKeepsRows(t: Task, id: Id, up: bool)
    ensures forall a :: a in AfterMove(t, id, up).0.subs <==> a in t.subs
  {
    hide Linked;
  }

  /** A row after a call other than a move, by what is granted. */
  ghost function RowAfter(t: Task, op: Op, a: Id): Sub
    requires a in t.subs
  {
    var row := t.subs[a];
    if op.Update? then (if op.id == a && Editable(t, a) then EditedSub(t, a, op.edit) else row)
    else if !Granted(t, op) then row
    else if op.Complete? then (if Closed(row.status) then row else AtStatus(row, Skipped))
    else if !ChangesOneRow(op) || op.id != a then row
    else
      match op
      case Begin(_) => AtStatus(row, InProgress)
      case Wait(_, forOwner, note, until, _) =>
        row.(status := if forOwner then WaitingOwner else WaitingExternal, note := note, until := until)
      case Propose(_, evidence, _, summary) =>
        row.(status := WaitingOwner, evidence := evidence, note := ProposalNote(summary), until := None)
      case Accept(_, _) => AtStatus(row, Accepted)
      case Skip(_, _) => AtStatus(row, Skipped)
      case Reject(_, _) => row.(status := InProgress)
      case _ => AtStatus(row, InProgress)
  }

  lemma StepRow(t: Task, op: Op, a: Id)
    requires WellOrdered(t.subs) && a in t.subs
    ensures var u := Step(t, op).0.subs;
            a in u && u[a] == if op.Move? then t.subs[a].(ordinal := u[a].ordinal) else RowAfter(t, op, a)
  {
    if ChangesOneRow(op) {
      if op.id == a {
        SelfRow(t, op);
      } else {
        OneRowCalls(t, op);
      }
      hide Step, Granted, EditedSub, ProposalNote, AtStatus;
    } else if op.Update? {
      EditOutcome(t, op.id, op.edit);
      hide Granted, EditedSub, AfterUpdate, LaterRefused;
    } else {
      OtherRow(t, op, a);
      hide Step, Granted;
    }
  }

  lemma OtherRow(t: Task, op: Op, a: Id)
    requires !ChangesOneRow(op) && !op.Update? && WellOrdered(t.subs) && a in t.subs
    ensures var u := Step(t, op).0.subs;
            a in u && u[a] == if op.Move? then t.subs[a].(ordinal := u[a].ordinal) else RowAfter(t, op, a)
  {
    if op.Complete? {
      GrantedIff(t, op);
      hide Granted, AtStatus;
    } else if op.Move? {
      MovedRow(t, op.id, op.up, a);
      hide AfterMove;
    } else {
      hide Granted, Resolvable, ResolvedDeps, NextOrdinal;
    }
  }

  lemma MovedRow(t: Task, id: Id, up: bool, a: Id)
    requires a in t.subs
    ensures var u := AfterMove(t, id, up).0.subs;
            a in u && u[a] == t.subs[a].(ordinal := u[a].ordinal)
  {
    hide Linked, IsNeighbor;
  }

  lemma SelfRow(t: Task, op: Op)
    requires ChangesOneRow(op) && op.id in t.subs && WellOrdered(t.subs)
    ensures op.id in Step(t, op).0.subs && Step(t, op).0.subs[op.id] == RowAfter(t, op, op.id)
  {
    GrantedIff(t, op);
    hide Granted, DepsAccepted, ProposalNote, AllClosed, Linked, Resolvable, EditedSub, WellOrdered, AtStatus;
    hide AfterUpdate, AfterMove, AfterAdd;
  }

  /** Which calls bring a sub-project into each status. None makes it pending or rejected. */
  lemma StatusChanges(t: Task, op: Op, a: Id)
    requires WellOrdered(t.subs) && a in t.subs
    ensures var u := Step(t, op).0.subs;
            && a in u
            && var was, now := t.subs[a].status, u[a].status;
            && (now == Accepted && was != Accepted <==> op.Accept? && op.id == a && Granted(t, op) && was != Accepted)
            && (now == Skipped && was != Skipped <==>
                  Granted(t, op) && !Closed(was) && (op.Complete? || (op.Skip? && op.id == a)))
            && (now == InProgress && was != InProgress <==>
                  (op.Begin? || op.Reject? || op.Unblock?) && op.id == a && Granted(t, op) && was != InProgress)
            && (now == WaitingOwner && was != WaitingOwner <==>
                  ((op.Wait? && op.forOwner) || op.Propose?) && op.id == a && Granted(t, op) && was != WaitingOwner)
            && (now == WaitingExternal && was != WaitingExternal <==>
                  op.Wait? && !op.forOwner && op.id == a && Granted(t, op) && was != WaitingExternal)
            && (now == Pending || now == Rejected ==> was == now)
  {
    StepRow(t, op, a);
    hide Step, EditedSub, ProposalNote, DepsAccepted, AllClosed, Resolvable, EndsTask, LaterRefused, Linked;
  }

  /** The evidence is what the last granted proposal presented, and the wait note and time are what the
      last granted wait or proposal left; beginning, accepting, skipping and unblocking empty them. */
  lemma WaitColumns(t: Task, op: Op, a: Id)
    requires WellOrdered(t.subs) && a in t.subs
    ensures var u := Step(t, op).0.subs;
            && a in u
            && var was, now := t.subs[a], u[a];
            && now.evidence == (if op.Propose? && op.id == a && Granted(t, op) then op.evidence else was.evidence)
            && (op.Wait? && op.id == a && Granted(t, op) ==> now.note == op.note && now.until == op.until)
            && (op.Propose? && op.id == a && Granted(t, op) ==>
                  now.until.None? && "acceptance proposed: " <= now.note &&
                  now.note[21..] == if |op.summary| <= 4000 then op.summary else op.summary[..4000])
            && (now.note != was.note || now.until != was.until ==>
                  Granted(t, op) &&
                  ((op.Complete? && now.status == Skipped) ||
                   (ChangesOneRow(op) && !op.Reject? && op.id == a)))
            && (Granted(t, op) && (op.Begin? || op.Accept? || op.Skip? || op.Unblock?) && op.id == a ==>
                  now.note == "" && now.until.None?)
  {
    StepRow(t, op, a);
    hide Step, EditedSub, DepsAccepted, AllClosed, Resolvable, EndsTask, LaterRefused, Linked;
  }

  /** Texts and dependencies change by edits only, ordinals by edits and moves only. */
  lemma PlanColumns(t: Task, op: Op, a: Id)
    requires WellOrdered(t.subs) && a in t.subs
    ensures var u := Step(t, op).0.subs;
            && a in u
            && var was, now := t.subs[a], u[a];
            && now.text == was.text +
                 (if op.Update? && op.id == a && !Closed(was.status) && op.edit.textChanges then 1 else 0)
            && (now.dependsOn == if op.Update? && op.id == a && Rewires(t, a, op.edit)
                                 then op.edit.dependsOn.value else was.dependsOn)
            && (!op.Move? ==>
                  now.ordinal == if op.Update? && op.id == a && GetsToDeps(t, a, op.edit) && Reorders(was, op.edit)
                                 then op.edit.ordinal.value else was.ordinal)
  {
    StepRow(t, op, a);
    hide Step, ProposalNote, DepsAccepted, AllClosed, Resolvable, EndsTask, LaterRefused, Linked;
  }

  // ---- Moves ----

  /** The order of two rows is the other way round for the pair a, b, and as before for every other. */
  ghost predicate SwapsOnly(s: map<Id, Sub>, u: map<Id, Sub>, a: Id, b: Id) {
    && u.Keys == s.Keys && a in s && b in s && a != b
    && u[a].ordinal == s[b].ordinal && u[b].ordinal == s[a].ordinal
    && (forall x :: x in s && x != a && x != b ==> u[x].ordinal == s[x].ordinal)
    && (forall x, y :: x in s && y in s && x != y ==>
          (u[x].ordinal < u[y].ordinal <==> if {x, y} == {a, b} then s[y].ordinal < s[x].ordinal
                                            else s[x].ordinal < s[y].ordinal))
  }

  /** A granted move exchanges the sub-project with the one next to it, upwards or downwards: of all
      pairs of rows just this one changes its order. */
  lemma MoveSwapsNeighbours(t: Task, id: Id, up: bool) returns (b: Id)
    requires WellOrdered(t.subs) && Granted(t, Move(id, up))
    ensures var u := Step(t, Move(id, up)).0.subs;
            SwapsOnly(t.subs, u, id, b) && (u[id].ordinal < t.subs[id].ordinal <==> up)
  {
    GrantedIff(t, Move(id, up));
    MoveGranted(t, id, up);
    assert Step(t, Move(id, up)) == AfterMove(t, id, up);
    hide Granted, Step, AfterMove, SwapOrdinals;
    b :| IsNeighbor(t.subs, id, up, b) && AfterMove(t, id, up).0.subs == SwapOrdinals(t.subs, id, b);
    NeighboursSwap(t.subs, id, up, b);
  }

  lemma NeighboursSwap(s: map<Id, Sub>, id: Id, up: bool, b: Id)
    requires WellOrdered(s) && id in s && IsNeighbor(s, id, up, b)
    ensures SwapsOnly(s, SwapOrdinals(s, id, b), id, b)
    ensures SwapOrdinals(s, id, b)[id].ordinal < s[id].ordinal <==> up
  {
    var u := SwapOrdinals(s, id, b);
    assert u.Keys == s.Keys;
    forall x, y | x in s && y in s && x != y
      ensures u[x].ordinal < u[y].ordinal <==> if {x, y} == {id, b} then s[y].ordinal < s[x].ordinal
                                               else s[x].ordinal < s[y].ordinal
    {
      SamePair(x, y, id, b);
    }
  }

  /** A sub-project that has a dependency or is one keeps its ordinal in every call. */
  lemma LinkedKeepsPlace(t: Task, op: Op, a: Id)
    requires WellOrdered(t.subs) && a in t.subs && !Unlinked(t.subs, a)
    ensures a in Step(t, op).0.subs && Step(t, op).0.subs[a].ordinal == t.subs[a].ordinal
  {
    if op.Move? {
      assert Step(t, op) == AfterMove(t, op.id, op.up);
      hide Step, AfterMove, Unlinked, IsNeighbor, Granted, SwapOrdinals, WellOrdered;
      MoveRefusedKeeps(t, op.id, op.up);
      if AfterMove(t, op.id, op.up).1 == Ok {
        MoveGranted(t, op.id, op.up);
        var b :| IsNeighbor(t.subs, op.id, op.up, b) && Unlinked(t.subs, b) &&
          AfterMove(t, op.id, op.up).0 == t.(subs := SwapOrdinals(t.subs, op.id, b));
        NeighbourIsRow(t.subs, op.id, op.up, b);
        SwapSparesOthers(t.subs, op.id, b, a);
      }
    } else {
      PlanColumns(t, op, a);
      LinkedMeans(t.subs, a);
      hide Step, Unlinked, Linked;
    }
  }

  lemma NeighbourIsRow(subs: map<Id, Sub>, id: Id, up: bool, b: Id)
    requires id in subs && IsNeighbor(subs, id, up, b)
    ensures b in subs
  {
  }

  lemma SwapSparesOthers(subs: map<Id, Sub>, a: Id, b: Id, x: Id)
    requires a in subs && b in subs && x in subs && x != a && x != b
    ensures x in SwapOrdinals(subs, a, b) && SwapOrdinals(subs, a, b)[x] == subs[x]
  {
  }

  lemma MoveRefusedKeeps(t: Task, id: Id, up: bool)
    ensures AfterMove(t, id, up).1 != Ok ==> AfterMove(t, id, up).0 == t
    ensures id !in t.subs ==> AfterMove(t, id, up).1 != Ok
  {
    hide Linked, IsNeighbor;
  }

  lemma SamePair(x: Id, y: Id, a: Id, b: Id)
    requires a != b
    ensures {x, y} == {a, b} <==> (x == a && y == b) || (x == b && y == a)
  {
    if {x, y} == {a, b} {
      assert x in {a, b} && y in {a, b} && a in {x, y} && b in {x, y};
    }
  }
}
