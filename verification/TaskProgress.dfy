/** Which sub-projects of a long-term task can still be accepted without touching dependencies, and
    which plans can be finished. */
module TaskProgress {
  import opened Graphs
  import opened TaskModel
  import opened TaskRuns
  import opened TaskFocus

  // ---- What can never be accepted ----

  /** Skipped and rejected sub-projects are never accepted. */
  predicate Dead(s: Status) {
    s == Skipped || s == Rejected
  }

  /** No member of s has begun, and each is dead or waits for another member of s. */
  ghost predicate Stuck(subs: map<Id, Sub>, s: set<Id>) {
    forall a :: a in s ==>
      a in subs && !Begun(subs[a].status) && (Dead(subs[a].status) || WaitsWithin(subs, s, a))
  }

  ghost predicate WaitsWithin(subs: map<Id, Sub>, s: set<Id>, a: Id)
    requires a in subs
  {
    exists d :: d in s && d in subs[a].dependsOn
  }

  ghost predicate Redefines(op: Op, s: set<Id>) {
    op.Update? && op.id in s && op.edit.dependsOn.Some?
  }

  lemma SelfKeepsDead(t: Task, op: Op)
    requires ChangesOneRow(op) && op.id in t.subs && Dead(t.subs[op.id].status)
    ensures op.id in Step(t, op).0.subs && Dead(Step(t, op).0.subs[op.id].status)
  {
    hide AfterUpdate, AfterMove, AfterAdd, AllClosed, DepsAccepted, ProposalNote;
  }

  lemma StepKeepsDead(t: Task, op: Op, a: Id)
    requires a in t.subs && Dead(t.subs[a].status)
    ensures a in Step(t, op).0.subs && Dead(Step(t, op).0.subs[a].status)
  {
    if ChangesOneRow(op) {
      OneRowCalls(t, op);
      if a == op.id {
        SelfKeepsDead(t, op);
      }
      hide Step;
    } else {
      if op.Update? {
        EditOutcome(t, op.id, op.edit);
      }
      hide AfterUpdate, HasCycle, DepsAllowed, Linked, OrdinalTaken, Resolvable;
      hide AfterBegin, AfterWait, AfterPropose, AfterAccept, AfterSkip, AfterReject, AfterUnblock;
    }
  }

  lemma StepStaysStuck(t: Task, s: set<Id>, op: Op)
    requires Stuck(t.subs, s) && !Redefines(op, s)
    ensures Stuck(Step(t, op).0.subs, s)
  {
    hide Step;
    var u := Step(t, op).0.subs;
    forall a | a in s
      ensures a in u && !Begun(u[a].status) && (Dead(u[a].status) || WaitsWithin(u, s, a))
    {
      if Dead(t.subs[a].status) {
        StepKeepsDead(t, op, a);
      } else {
        assert WaitsWithin(t.subs, s, a);
        var d :| d in s && d in t.subs[a].dependsOn;
        StuckOne(t, s, op, a, d);
      }
    }
  }

  lemma BeginNeedsDeps(t: Task, a: Id, d: Id)
    requires a in t.subs && d in t.subs && d in t.subs[a].dependsOn && t.subs[d].status != Accepted
    ensures Step(t, Begin(a)).0 == t
  {
    assert !DepsAccepted(t.subs, t.subs[a].dependsOn);
  }

  lemma StuckOne(t: Task, s: set<Id>, op: Op, a: Id, d: Id)
    requires a in t.subs && d in t.subs && d in t.subs[a].dependsOn
    requires !Begun(t.subs[a].status) && !Begun(t.subs[d].status) && a in s && !Redefines(op, s)
    ensures a in Step(t, op).0.subs && !Begun(Step(t, op).0.subs[a].status)
    ensures Step(t, op).0.subs[a].dependsOn == t.subs[a].dependsOn
  {
    StepAdvances(t, op);
    OnlyUpdateRewires(t, op, a);
    if op == Begin(a) {
      BeginNeedsDeps(t, a, d);
    } else if Begun(Step(t, op).0.subs[a].status) {
      OnlyBeginBegins(t, op, a);
    }
    hide Step;
  }

  /** A stuck set stays stuck in every run that does not redefine the dependencies of its members. */
  lemma {:induction false} RunStaysStuck(t: Task, s: set<Id>, ops: seq<Op>)
    requires Stuck(t.subs, s) && forall op :: op in ops ==> !Redefines(op, s)
    ensures Stuck(Run(t, ops).subs, s)
    decreases |ops|
  {
    if ops != [] {
      RunStaysStuck(t, s, ops[..|ops| - 1]);
      assert ops[|ops| - 1] in ops;
      StepStaysStuck(Run(t, ops[..|ops| - 1]), s, ops[|ops| - 1]);
    }
  }

  /** Nothing that id depends on, directly or not, nor id itself, is dead. */
  ghost predicate Clear(subs: map<Id, Sub>, id: Id) {
    forall d :: Reaches(DepGraph(subs), id, d) && d in subs ==> !Dead(subs[d].status)
  }

  /** Before something dead on a walk along dependencies nothing has begun. */
  lemma {:induction false} NotBegunBefore(subs: map<Id, Sub>, p: seq<Id>)
    requires DepsMet(subs) && Walk(DepGraph(subs), p)
    requires p[|p| - 1] in subs && Dead(subs[p[|p| - 1]].status)
    ensures forall k :: 0 <= k < |p| ==> p[k] in subs && !Begun(subs[p[k]].status)
    decreases |p|
  {
    if |p| > 1 {
      assert EdgeAt(DepGraph(subs), p, 0);
      WalkSlice(DepGraph(subs), p, 1, |p|);
      assert p[1..|p|] == p[1..];
      NotBegunBefore(subs, p[1..]);
      assert p[1] == p[1..][0];
      forall k | 1 <= k < |p|
        ensures p[k] in subs && !Begun(subs[p[k]].status)
      {
        assert p[k] == p[1..][k - 1];
      }
    }
  }

  /** The nodes of such a walk are stuck. */
  lemma WalkIsStuck(subs: map<Id, Sub>, p: seq<Id>)
    requires DepsMet(subs) && Walk(DepGraph(subs), p)
    requires p[|p| - 1] in subs && Dead(subs[p[|p| - 1]].status)
    ensures Stuck(subs, Elements(p))
  {
    NotBegunBefore(subs, p);
    forall a | a in Elements(p)
      ensures a in subs && !Begun(subs[a].status) && (Dead(subs[a].status) || WaitsWithin(subs, Elements(p), a))
    {
      var k: nat :| k < |p| && p[k] == a;
      if k + 1 < |p| {
        assert EdgeAt(DepGraph(subs), p, k);
        assert p[k + 1] in Elements(p);
      }
    }
  }

  /** The run redefines no dependencies of id or of anything it depends on. */
  ghost predicate LeavesDepsOf(t: Task, id: Id, ops: seq<Op>) {
    forall op :: op in ops && op.Update? && op.edit.dependsOn.Some? ==> !Reaches(DepGraph(t.subs), id, op.id)
  }

  lemma WalkIsReached(g: Graph, p: seq<Id>, k: nat)
    requires Walk(g, p) && k < |p|
    ensures Reaches(g, p[0], p[k])
  {
    WalkSlice(g, p, 0, k + 1);
    assert WalkFromTo(g, p[0], p[0..k + 1], p[k]);
  }

  /** What depends on something dead is not accepted by any run that leaves its dependencies alone. */
  lemma NeverAccepted(t: Task, id: Id, ops: seq<Op>)
    requires DepsMet(t.subs) && id in t.subs && !Clear(t.subs, id) && LeavesDepsOf(t, id, ops)
    ensures id in Run(t, ops).subs && Run(t, ops).subs[id].status != Accepted
  {
    var d :| Reaches(DepGraph(t.subs), id, d) && d in t.subs && Dead(t.subs[d].status);
    var p :| WalkFromTo(DepGraph(t.subs), id, p, d);
    var s := Elements(p);
    WalkIsStuck(t.subs, p);
    forall op | op in ops
      ensures !Redefines(op, s)
    {
      if op.Update? && op.id in s {
        var k: nat :| k < |p| && p[k] == op.id;
        WalkIsReached(DepGraph(t.subs), p, k);
      }
    }
    assert p[0] in s;
    hide Reaches, Stuck, WaitsWithin;
    RunStaysStuck(t, s, ops);
    StuckIsNotAccepted(Run(t, ops).subs, s, id);
  }

  lemma StuckIsNotAccepted(subs: map<Id, Sub>, s: set<Id>, a: Id)
    requires Stuck(subs, s) && a in s
    ensures a in subs && !Begun(subs[a].status)
  {
  }

  // ---- What can be accepted ----

  /** The calls that only push work forward. */
  predicate Drives(op: Op) {
    op.Begin? || op.Accept? || op.Unblock?
  }

  predicate Driving(ops: seq<Op>) {
    forall op :: op in ops ==> Drives(op)
  }

  /** The calls that bring one free sub-project to acceptance. */
  function Push(id: Id, status: Status): seq<Op> {
    match status
    case Pending => [Begin(id), TaskModel.Op.Accept(id, Owner)]
    case WaitingExternal => [Unblock(id), TaskModel.Op.Accept(id, Owner)]
    case _ => [TaskModel.Op.Accept(id, Owner)]
  }

  lemma {:induction false} RunAppend(t: Task, a: seq<Op>, b: seq<Op>)
    ensures Run(t, a + b) == Run(Run(t, a), b)
    decreases |b|
  {
    if b == [] {
      assert a + b == a;
    } else {
      RunAppend(t, a, b[..|b| - 1]);
      assert (a + b)[..|a + b| - 1] == a + b[..|b| - 1];
    }
  }

  lemma RunOneOrTwo(t: Task, a: Op, b: Op)
    ensures Run(t, [a]) == Step(t, a).0
    ensures Run(t, [a, b]) == Step(Step(t, a).0, b).0
  {
    assert [a][..0] == [] && [a, b][..1] == [a];
    assert Run(t, []) == t;
  }

  lemma AcceptEffect(t: Task, id: Id)
    requires id in t.subs && (t.subs[id].status == InProgress || t.subs[id].status == WaitingOwner)
    requires t.stage == Active
    ensures var u := Step(t, TaskModel.Op.Accept(id, Owner)).0;
            && u.subs == WithStatus(t.subs, id, Accepted)
            && u.stage == if AllClosed(u.subs) then Done else Active
  {
  }

  lemma StartEffect(t: Task, id: Id)
    requires t.stage == Active && Free(t.subs, id)
    requires t.subs[id].status == Pending || t.subs[id].status == WaitingExternal
    ensures var u := Step(t, Push(id, t.subs[id].status)[0]).0;
            u.stage == Active && u.subs == WithStatus(t.subs, id, InProgress)
  {
  }

  lemma PushAccepts(t: Task, id: Id)
    requires t.stage == Active && Free(t.subs, id) && t.subs[id].status != Rejected
    ensures var u := Run(t, Push(id, t.subs[id].status));
            && u.subs == WithStatus(t.subs, id, Accepted)
            && u.stage == if AllClosed(u.subs) then Done else Active
  {
    var ops := Push(id, t.subs[id].status);
    RunOneOrTwo(t, ops[0], ops[|ops| - 1]);
    hide Run;
    if |ops| == 2 {
      StartEffect(t, id);
      var u := Step(t, ops[0]).0;
      hide Step;
      AcceptEffect(u, id);
      assert WithStatus(u.subs, id, Accepted) == WithStatus(t.subs, id, Accepted);
      assert ops == [ops[0], ops[1]];
    } else {
      hide Step;
      AcceptEffect(t, id);
    }
  }

  /** One push leaves one less open sub-project, and the plan as good as it was. */
  lemma PushShrinks(t: Task, id: Id)
    requires Valid(t) && t.stage == Active && Free(t.subs, id) && t.subs[id].status != Rejected
    ensures var ops, u := Push(id, t.subs[id].status), Run(t, Push(id, t.subs[id].status));
            && Driving(ops) && Valid(u)
            && u.subs == WithStatus(t.subs, id, Accepted) && OpenIds(u.subs) < OpenIds(t.subs)
            && u.stage == if AllClosed(u.subs) then Done else Active
  {
    var ops := Push(id, t.subs[id].status);
    PushAccepts(t, id);
    RunKeepsValid(t, ops);
    hide Run, Push, Valid;
    var u := WithStatus(t.subs, id, Accepted);
    assert id in OpenIds(t.subs) && id !in OpenIds(u);
  }

  ghost function OpenIds(subs: map<Id, Sub>): set<Id> {
    set id | id in subs && !Closed(subs[id].status)
  }

  /** Accepting one sub-project leaves what is clear clear. */
  lemma ClearAfterAccept(subs: map<Id, Sub>, free: Id, id: Id)
    requires free in subs && Clear(subs, id)
    ensures Clear(WithStatus(subs, free, Accepted), id)
  {
    assert DepGraph(WithStatus(subs, free, Accepted)) == DepGraph(subs);
  }

  /** A driving run that accepts an open sub-project depending on nothing dead: it accepts what is
      free below it until it is free itself. */
  lemma {:induction false} AcceptByDriving(t: Task, id: Id) returns (ops: seq<Op>)
    requires Valid(t) && t.stage == Active && IsOpen(t.subs, id) && Clear(t.subs, id)
    ensures Driving(ops) && id in Run(t, ops).subs && Run(t, ops).subs[id].status == Accepted
    decreases OpenIds(t.subs)
  {
    var free := FreeFor(t.subs, id);
    ops := Push(free, t.subs[free].status);
    PushShrinks(t, free);
    var u := Run(t, ops);
    hide Valid, Run, Push, OpenIds;
    if free != id {
      ClearAfterAccept(t.subs, free, id);
      hide Clear;
      assert IsOpen(u.subs, id);
      var rest := AcceptByDriving(u, id);
      RunAppend(t, ops, rest);
      ops := ops + rest;
    }
  }

  lemma FreeFor(subs: map<Id, Sub>, id: Id) returns (free: Id)
    requires SiblingDeps(subs) && !HasCycle(DepGraph(subs)) && IsOpen(subs, id) && Clear(subs, id)
    ensures Free(subs, free) && subs[free].status != Rejected
  {
    AcyclicIffRanked(DepGraph(subs));
    var rank :| Ranks(DepGraph(subs), rank);
    ReachesSelf(DepGraph(subs), id);
    free := FreeBelow(subs, rank, id, id);
  }

  ghost predicate AcceptedIn(t: Task, id: Id) {
    id in t.subs && t.subs[id].status == Accepted
  }

  /** Exactly which sub-projects of an active valid plan can be accepted: those that depend, directly
      or not, on nothing skipped or rejected. For these beginning, unblocking and accepting is enough;
      for the others no run helps that leaves the dependencies concerned alone. */
  lemma AcceptableIff(t: Task, id: Id)
    requires Valid(t) && t.stage == Active && DepsMet(t.subs) && id in t.subs
    ensures Clear(t.subs, id) <==> exists ops :: Driving(ops) && AcceptedIn(Run(t, ops), id)
    ensures Clear(t.subs, id) <==> exists ops :: LeavesDepsOf(t, id, ops) && AcceptedIn(Run(t, ops), id)
  {
    if Clear(t.subs, id) {
      ReachesSelf(DepGraph(t.subs), id);
      var ops := [];
      if t.subs[id].status == Accepted {
        assert Run(t, ops) == t;
      } else {
        ops := AcceptByDriving(t, id);
      }
      assert Driving(ops) && LeavesDepsOf(t, id, ops) && AcceptedIn(Run(t, ops), id);
    } else {
      forall ops | LeavesDepsOf(t, id, ops)
        ensures !AcceptedIn(Run(t, ops), id)
      {
        NeverAccepted(t, id, ops);
      }
      assert forall ops :: Driving(ops) ==> LeavesDepsOf(t, id, ops);
    }
  }

  // ---- Which plans can be finished ----

  ghost predicate OpenAreClear(t: Task) {
    forall id :: IsOpen(t.subs, id) ==> Clear(t.subs, id)
  }

  /** What is open before is accepted after, and everything else has kept its status. */
  ghost predicate AcceptsOpen(before: map<Id, Sub>, after: map<Id, Sub>) {
    && after.Keys == before.Keys
    && forall id :: id in before ==>
         after[id].status == if IsOpen(before, id) then Accepted else before[id].status
  }

  /** From an active valid plan in which something is open and nothing open depends on anything dead,
      beginning, unblocking and accepting alone accepts all that is open and brings the task to done. */
  lemma {:induction false} FinishByDriving(t: Task) returns (ops: seq<Op>)
    requires Valid(t) && t.stage == Active && !AllClosed(t.subs) && OpenAreClear(t)
    ensures Driving(ops) && Run(t, ops).stage == Done && AcceptsOpen(t.subs, Run(t, ops).subs)
    decreases OpenIds(t.subs)
  {
    var open :| open in t.subs && !Closed(t.subs[open].status);
    assert IsOpen(t.subs, open);
    var id := FreeFor(t.subs, open);
    ops := Push(id, t.subs[id].status);
    PushShrinks(t, id);
    hide Valid, Run, Push, OpenIds;
    var u := Run(t, ops);
    if u.stage == Done {
      LastAccept(t.subs, id, u.subs);
    } else {
      StillClear(t, id, u);
      hide OpenAreClear, Clear, AllClosed, AcceptsOpen, WithStatus;
      var rest := FinishByDriving(u);
      RunAppend(t, ops, rest);
      AcceptThenOpen(t.subs, id, Run(u, rest).subs);
      ops := ops + rest;
    }
  }

  lemma LastAccept(subs: map<Id, Sub>, id: Id, after: map<Id, Sub>)
    requires IsOpen(subs, id) && after == WithStatus(subs, id, Accepted) && AllClosed(after)
    ensures AcceptsOpen(subs, after)
  {
    forall other | other in subs && other != id
      ensures !IsOpen(subs, other)
    {
      assert after[other] == subs[other];
    }
  }

  lemma AcceptThenOpen(subs: map<Id, Sub>, id: Id, after: map<Id, Sub>)
    requires IsOpen(subs, id) && AcceptsOpen(WithStatus(subs, id, Accepted), after)
    ensures AcceptsOpen(subs, after)
  {
    var u := WithStatus(subs, id, Accepted);
    assert u.Keys == subs.Keys;
    forall other | other in subs
      ensures after[other].status == if IsOpen(subs, other) then Accepted else subs[other].status
    {
      assert other in u && IsOpen(u, other) == (IsOpen(subs, other) && other != id);
    }
  }

  lemma StillClear(t: Task, free: Id, u: Task)
    requires free in t.subs && OpenAreClear(t) && u.subs == WithStatus(t.subs, free, Accepted)
    ensures OpenAreClear(u)
  {
    forall id | IsOpen(u.subs, id)
      ensures Clear(u.subs, id)
    {
      assert IsOpen(t.subs, id);
      ClearAfterAccept(t.subs, free, id);
    }
  }

  /** Where everything is closed already the pushing calls change nothing. */
  lemma {:induction false} ClosedIsIdle(t: Task, ops: seq<Op>)
    requires Driving(ops) && AllClosed(t.subs)
    ensures Run(t, ops) == t
    decreases |ops|
  {
    if ops != [] {
      assert ops[|ops| - 1] in ops;
      ClosedIsIdle(t, ops[..|ops| - 1]);
      hide DepsAccepted;
    }
  }

  lemma DriveSkipsNothing(t: Task, op: Op, a: Id)
    requires Drives(op) && a in Step(t, op).0.subs && Step(t, op).0.subs[a].status == Skipped
    ensures a in t.subs && t.subs[a].status == Skipped
  {
    hide DepsAccepted, AllClosed;
  }

  lemma {:induction false} DrivingSkipsNothing(t: Task, ops: seq<Op>, a: Id)
    requires Driving(ops) && a in Run(t, ops).subs && Run(t, ops).subs[a].status == Skipped
    ensures a in t.subs && t.subs[a].status == Skipped
    decreases |ops|
  {
    if ops != [] {
      assert ops[|ops| - 1] in ops;
      DriveSkipsNothing(Run(t, ops[..|ops| - 1]), ops[|ops| - 1], a);
      DrivingSkipsNothing(t, ops[..|ops| - 1], a);
    }
  }

  /** What is done after pushing has closed, and so accepted, all that was open before. */
  lemma DoneMeansAccepted(t: Task, ops: seq<Op>, id: Id)
    requires t.stage == Active && Driving(ops) && Run(t, ops).stage == Done && IsOpen(t.subs, id)
    ensures AcceptedIn(Run(t, ops), id)
  {
    forall i | 0 <= i < |ops|
      ensures !AddsToDone(Run(t, ops[..i]), ops[i])
    {
      assert ops[i] in ops;
    }
    RunKeepsDoneClosed(t, ops);
    RunKeepsFinal(t, ops);
    if Run(t, ops).subs[id].status == Skipped {
      DrivingSkipsNothing(t, ops, id);
    }
  }

  /** Exactly which active valid plans with met dependencies can be finished by beginning, unblocking
      and accepting: those in which something is open and nothing open depends, directly or not, on
      anything skipped or rejected. */
  lemma FinishableIff(t: Task)
    requires Valid(t) && t.stage == Active && DepsMet(t.subs)
    ensures (exists ops :: Driving(ops) && Run(t, ops).stage == Done) <==> !AllClosed(t.subs) && OpenAreClear(t)
  {
    if !AllClosed(t.subs) && OpenAreClear(t) {
      var ops := FinishByDriving(t);
    }
    forall ops | Driving(ops) && Run(t, ops).stage == Done
      ensures !AllClosed(t.subs) && OpenAreClear(t)
    {
      if AllClosed(t.subs) {
        ClosedIsIdle(t, ops);
      }
      forall id | IsOpen(t.subs, id)
        ensures Clear(t.subs, id)
      {
        DoneMeansAccepted(t, ops, id);
        if !Clear(t.subs, id) {
          NeverAccepted(t, id, ops);
        }
      }
    }
  }

  /** An active task with nothing open, which no pushing ends, can be reached: the last sub-project is
      accepted while the task is paused, and then the task is activated. */
  lemma ActiveWithNothingOpen(t: Task, id: Id)
    requires t.stage == Paused && id in t.subs
    requires t.subs[id].status == InProgress || t.subs[id].status == WaitingOwner
    requires forall a :: a in t.subs && a != id ==> Closed(t.subs[a].status)
    ensures var u := Run(t, [TaskModel.Op.Accept(id, Owner), Activate]);
            u.stage == Active && AllClosed(u.subs)
  {
    RunOneOrTwo(t, TaskModel.Op.Accept(id, Owner), Activate);
  }
}
