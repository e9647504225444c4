/** What pairs of opposite calls of the long-term task store restore. */
module TaskDetours {
  import opened Wrappers
  import opened Graphs
  import opened TaskModel
  import opened TaskRuns
  import TaskBoard

  /** Unblocking brings a parked sub-project back to in progress with an empty wait note and time and
      everything else as it was; so the task is restored exactly when they were empty before. In
      between the owner can accept or reject it exactly when it waits for the owner, and it can be
      proposed exactly when it does not. */
  lemma WaitThenUnblock(t: Task, id: Id, forOwner: bool, note: string, until: Option<string>, evidence: seq<string>)
    requires id in t.subs && t.subs[id].status == InProgress && evidence != []
    ensures AfterWait(t, id, forOwner, note, until, false).1 == Ok
    ensures var back := AfterUnblock(AfterWait(t, id, forOwner, note, until, false).0, id);
            && back == (t.(subs := t.subs[id := t.subs[id].(note := "", until := None)]), Ok)
            && (back.0 == t <==> t.subs[id].note == "" && t.subs[id].until.None?)
    ensures var u := AfterWait(t, id, forOwner, note, until, false).0;
            && AfterAccept(u, id, Owner).1 == (if forOwner then Ok else Validation)
            && AfterReject(u, id, true).1 == (if forOwner then Ok else Validation)
            && AfterPropose(u, id, evidence, false, note).1 == (if forOwner then Validation else Ok)
  {
    var u := AfterWait(t, id, forOwner, note, until, false).0;
    SetTwice(t.subs, id, u.subs[id], t.subs[id].(note := "", until := None));
    RowDiffers(t.subs, id, t.subs[id].(note := "", until := None));
  }

  /** A rejected proposal is back in progress, but its evidence and its note stay, and its wait time is
      gone; so the task is restored exactly when the row held just these before. */
  lemma ProposeThenReject(t: Task, id: Id, evidence: seq<string>, summary: string)
    requires id in t.subs && t.subs[id].status == InProgress && evidence != []
    ensures AfterPropose(t, id, evidence, false, summary).1 == Ok
    ensures var row := t.subs[id].(evidence := evidence, note := ProposalNote(summary), until := None);
            var back := AfterReject(AfterPropose(t, id, evidence, false, summary).0, id, true);
            back == (t.(subs := t.subs[id := row]), Ok) && (back.0 == t <==> row == t.subs[id])
    ensures ProposalNote(summary) != ""
  {
    var row := t.subs[id].(evidence := evidence, note := ProposalNote(summary), until := None);
    SetTwice(t.subs, id, row.(status := WaitingOwner), row);
    RowDiffers(t.subs, id, row);
  }

  /** A neighbour is unique where ordinals are. */
  lemma NeighborUnique(subs: map<Id, Sub>, id: Id, up: bool, b: Id, c: Id)
    requires WellOrdered(subs) && id in subs && IsNeighbor(subs, id, up, b) && IsNeighbor(subs, id, up, c)
    ensures b == c
  {
  }

  /** After a swap with the neighbour on one side, it is the neighbour on the other side. */
  lemma NeighborTurnsAround(subs: map<Id, Sub>, id: Id, up: bool, b: Id)
    requires WellOrdered(subs) && id in subs && IsNeighbor(subs, id, up, b) && b != id
    ensures IsNeighbor(SwapOrdinals(subs, id, b), id, !up, b)
    ensures SwapOrdinals(SwapOrdinals(subs, id, b), id, b) == subs
    ensures forall x :: Linked(SwapOrdinals(subs, id, b), x) <==> Linked(subs, x)
  {
    var u := SwapOrdinals(subs, id, b);
    assert forall x :: x in u <==> x in subs;
    assert forall x :: x in subs ==> u[x].dependsOn == subs[x].dependsOn;
    hide WellOrdered;
  }

  /** A move is undone by the opposite move. */
  lemma MoveThereAndBack(t: Task, id: Id, up: bool)
    requires WellOrdered(t.subs) && AfterMove(t, id, up).1 == Ok
    ensures AfterMove(AfterMove(t, id, up).0, id, !up) == (t, Ok)
  {
    var b :| IsNeighbor(t.subs, id, up, b);
    forall c | IsNeighbor(t.subs, id, up, c)
      ensures c == b
    {
      NeighborUnique(t.subs, id, up, c, b);
    }
    TaskBoard.MoveEffect(t, id, up, b);
    TaskBoard.NeighborDiffers(t.subs, id, up, b);
    NeighborTurnsAround(t.subs, id, up, b);
    var u := AfterMove(t, id, up).0;
    SwapWellOrdered(t.subs, id, b);
    hide AfterMove, IsNeighbor, Linked, SwapOrdinals, WellOrdered;
    var back := !up;
    forall c | IsNeighbor(u.subs, id, back, c)
      ensures c == b
    {
      NeighborUnique(u.subs, id, back, c, b);
    }
    SwapKeepsStatus(t.subs, id, b);
    TaskBoard.MoveEffect(u, id, back, b);
  }

  lemma SwapKeepsStatus(subs: map<Id, Sub>, a: Id, b: Id)
    requires a in subs && b in subs
    ensures a in SwapOrdinals(subs, a, b) && SwapOrdinals(subs, a, b)[a].status == subs[a].status
  {
  }
}
