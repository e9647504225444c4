/** What every run of the long-term task store keeps, and what it cannot do. */
module TaskRuns {
  import opened Wrappers
  import opened Graphs
  import opened DependencyCheck
  import opened TaskModel

  // ---- The plan stays well formed and acyclic ----

  ghost predicate SamePlan(s: map<Id, Sub>, u: map<Id, Sub>) {
    && s.Keys == u.Keys
    && forall a :: a in s ==> s[a].ordinal == u[a].ordinal && s[a].dependsOn == u[a].dependsOn
  }

  ghost predicate PlanOk(subs: map<Id, Sub>) {
    WellOrdered(subs) && SiblingDeps(subs) && !HasCycle(DepGraph(subs))
  }

  lemma SamePlanOk(s: map<Id, Sub>, u: map<Id, Sub>)
    requires SamePlan(s, u) && PlanOk(s)
    ensures PlanOk(u)
  {
    assert DepGraph(s) == DepGraph(u);
  }

  /** A change of ordinals alone leaves the graph as it is. */
  lemma ReorderOk(s: map<Id, Sub>, u: map<Id, Sub>)
    requires PlanOk(s) && s.Keys == u.Keys && WellOrdered(u)
    requires forall a :: a in s ==> s[a].dependsOn == u[a].dependsOn
    ensures PlanOk(u)
  {
    assert DepGraph(s) == DepGraph(u);
  }

  lemma AddKeepsPlan(t: Task, id: Id, titled: bool, refs: seq<int>)
    requires PlanOk(t.subs)
    ensures PlanOk(AfterAdd(t, id, titled, refs).0.subs)
  {
    if AfterAdd(t, id, titled, refs).1 == Ok {
      var deps := ResolvedDeps(t.subs, refs);
      var u := AfterAdd(t, id, titled, refs).0.subs;
      assert forall d :: d in deps ==> d in t.subs;
      forall a
        ensures id !in Out(DepGraph(t.subs), a)
      {
      }
      NewNodeCreatesNoCycle(DepGraph(t.subs), id, deps);
      assert DepGraph(u) == DepGraph(t.subs)[id := deps];
    }
  }

  lemma UpdateKeepsPlan(t: Task, id: Id, e: Edit)
    requires PlanOk(t.subs)
    ensures PlanOk(AfterUpdate(t, id, e).0.subs)
  {
    EditOutcome(t, id, e);
    hide AfterUpdate, HasCycle, DepsAllowed;
    if id in t.subs && !Closed(t.subs[id].status) {
      var row := EditedSub(t, id, e);
      var u := t.subs[id := row.(dependsOn := t.subs[id].dependsOn)];
      RowSetOk(t, id, e, u);
      if Rewires(t, id, e) {
        ColumnsDoNotMatter(t.subs, id, u[id], e.dependsOn.value);
        DepsSetOk(u, id, e.dependsOn.value);
        assert u[id := u[id].(dependsOn := e.dependsOn.value)] == t.subs[id := row];
      }
    }
  }

  lemma RowSetOk(t: Task, id: Id, e: Edit, u: map<Id, Sub>)
    requires PlanOk(t.subs) && id in t.subs && !Closed(t.subs[id].status)
    requires u == t.subs[id := EditedSub(t, id, e).(dependsOn := t.subs[id].dependsOn)]
    ensures PlanOk(u)
  {
    hide HasCycle, DepsAllowed, Linked;
    var ordinal := u[id].ordinal;
    SetOrdinalOk(t.subs, id, ordinal);
    SameOrdinals(t.subs[id := t.subs[id].(ordinal := ordinal)], u);
    ReorderOk(t.subs, u);
  }

  lemma SameOrdinals(s: map<Id, Sub>, u: map<Id, Sub>)
    requires WellOrdered(s) && s.Keys == u.Keys && forall a :: a in s ==> s[a].ordinal == u[a].ordinal
    ensures WellOrdered(u)
  {
  }

  lemma SetOrdinalOk(subs: map<Id, Sub>, a: Id, ordinal: int)
    requires WellOrdered(subs) && a in subs && ordinal >= 1
    requires forall x :: x in subs && x != a ==> subs[x].ordinal != ordinal
    ensures WellOrdered(subs[a := subs[a].(ordinal := ordinal)])
  {
  }

  lemma DepsSetOk(subs: map<Id, Sub>, id: Id, deps: seq<Id>)
    requires PlanOk(subs) && id in subs && DepsAllowed(subs, id, deps)
    ensures PlanOk(subs[id := subs[id].(dependsOn := deps)])
  {
    EditCreatesCycleIff(DepGraph(subs), id, deps);
    assert DepGraph(subs[id := subs[id].(dependsOn := deps)]) == DepGraph(subs)[id := deps];
  }

  lemma SwapOk(subs: map<Id, Sub>, a: Id, b: Id)
    requires PlanOk(subs) && a in subs && b in subs && a != b
    ensures PlanOk(SwapOrdinals(subs, a, b))
  {
    hide HasCycle;
    SwapWellOrdered(subs, a, b);
    ReorderOk(subs, SwapOrdinals(subs, a, b));
  }

  lemma SwapWellOrdered(subs: map<Id, Sub>, a: Id, b: Id)
    requires WellOrdered(subs) && a in subs && b in subs && a != b
    ensures WellOrdered(SwapOrdinals(subs, a, b))
  {
    var u := SwapOrdinals(subs, a, b);
    forall x, y | x in u && y in u && x != y
      ensures u[x].ordinal != u[y].ordinal
    {
      var x0 := if x == a then b else if x == b then a else x;
      var y0 := if y == a then b else if y == b then a else y;
      assert u[x].ordinal == subs[x0].ordinal && u[y].ordinal == subs[y0].ordinal;
    }
  }

  lemma MoveKeepsPlan(t: Task, id: Id, up: bool)
    requires PlanOk(t.subs)
    ensures PlanOk(AfterMove(t, id, up).0.subs)
  {
    if AfterMove(t, id, up).1 == Ok {
      var b :| IsNeighbor(t.subs, id, up, b) && AfterMove(t, id, up).0.subs == SwapOrdinals(t.subs, id, b);
      SwapOk(t.subs, id, b);
    }
  }

  lemma StepKeepsPlan(t: Task, op: Op)
    requires PlanOk(t.subs)
    ensures PlanOk(Step(t, op).0.subs)
  {
    match op
    case Add(id, titled, refs) => AddKeepsPlan(t, id, titled, refs);
    case Update(id, edit) => UpdateKeepsPlan(t, id, edit);
    case Move(id, up) => MoveKeepsPlan(t, id, up);
    case _ =>
      StatusCallsKeepPlan(t, op);
      SamePlanOk(t.subs, Step(t, op).0.subs);
  }

  /** At most the row of an open sub-project changes, and not its place in the plan. */
  ghost predicate OneRow(s: map<Id, Sub>, id: Id, u: map<Id, Sub>) {
    u == s ||
    (id in s && id in u && !Closed(s[id].status) && u == s[id := u[id]] &&
     u[id].ordinal == s[id].ordinal && u[id].dependsOn == s[id].dependsOn)
  }

  predicate ChangesOneRow(op: Op) {
    op.Begin? || op.Wait? || op.Propose? || op.Accept? || op.Skip? || op.Reject? || op.Unblock?
  }

  lemma OneRowCalls(t: Task, op: Op)
    requires ChangesOneRow(op)
    ensures OneRow(t.subs, op.id, Step(t, op).0.subs)
    ensures t.stage == Done || t.stage == Cancelled ==> Step(t, op).0.stage == t.stage
  {
    hide AfterUpdate, AfterMove, AfterAdd, AllClosed, DepsAccepted, ProposalNote;
  }

  lemma OneRowKeepsPlan(s: map<Id, Sub>, id: Id, u: map<Id, Sub>)
    requires OneRow(s, id, u)
    ensures SamePlan(s, u) && Advances(s, u)
  {
  }

  lemma StatusCallsKeepPlan(t: Task, op: Op)
    requires !op.Add? && !op.Update? && !op.Move?
    ensures SamePlan(t.subs, Step(t, op).0.subs)
  {
    if ChangesOneRow(op) {
      OneRowCalls(t, op);
      OneRowKeepsPlan(t.subs, op.id, Step(t, op).0.subs);
      hide Step, OneRow;
    } else {
      hide AfterUpdate, AfterMove, AfterAdd, HasCycle;
    }
  }

  /** The focus pin always names a sub-project that is in progress or waiting. */
  lemma StepKeepsPin(t: Task, op: Op)
    requires PinUnderway(t)
    ensures PinUnderway(Step(t, op).0)
  {
    if op.Update? {
      EditOutcome(t, op.id, op.edit);
    }
    hide AfterUpdate, HasCycle, DepsAllowed, Linked, OrdinalTaken, IsNeighbor, Resolvable;
  }

  /** From a valid task every run keeps ordinals unique and positive, dependencies among siblings,
      the dependency graph acyclic, and the focus on a sub-project under way. */
  lemma {:induction false} RunKeepsValid(t: Task, ops: seq<Op>)
    requires Valid(t)
    ensures Valid(Run(t, ops))
    decreases |ops|
  {
    if ops != [] {
      var before := Run(t, ops[..|ops| - 1]);
      RunKeepsValid(t, ops[..|ops| - 1]);
      StepKeepsPlan(before, ops[|ops| - 1]);
      StepKeepsPin(before, ops[|ops| - 1]);
    }
  }

  /** A redefinition of dependencies is refused for a cycle exactly when it would make one, which is
      when one of the new dependencies already depends on the sub-project, directly or not. */
  lemma UpdateRefusesExactlyCycles(t: Task, id: Id, deps: seq<Id>)
    requires Valid(t) && id in t.subs && !Closed(t.subs[id].status)
    requires forall d :: d in deps ==> d in t.subs && d != id
    ensures AfterUpdate(t, id, Edit(false, false, None, Some(deps))).1 == Ok <==>
            !HasCycle(DepGraph(t.subs)[id := deps])
    ensures HasCycle(DepGraph(t.subs)[id := deps]) <==> exists d :: d in deps && Reaches(DepGraph(t.subs), d, id)
  {
    EditCreatesCycleIff(DepGraph(t.subs), id, deps);
    EditCreatesCycleIffReached(DepGraph(t.subs), id, deps);
  }

  // ---- When an edit is granted ----

  /** A check that comes after the text columns refuses: the link, the ordinal or the dependencies. */
  ghost predicate LaterRefused(t: Task, id: Id, e: Edit)
    requires id in t.subs
  {
    || e.linkMalformed
    || OrdinalRefused(t.subs, id, e)
    || (e.dependsOn.Some? && !DepsAllowed(t.subs, id, e.dependsOn.value))
  }

  ghost predicate Editable(t: Task, id: Id) {
    id in t.subs && !Closed(t.subs[id].status)
  }

  /** The checks before the dependencies are passed: an open sub-project, a well-formed link, and an
      ordinal that is left alone or may be set. */
  ghost predicate GetsToDeps(t: Task, id: Id, e: Edit) {
    Editable(t, id) && !e.linkMalformed && !OrdinalRefused(t.subs, id, e)
  }

  /** The edit redefines the dependencies. */
  ghost predicate Rewires(t: Task, id: Id, e: Edit) {
    GetsToDeps(t, id, e) && e.dependsOn.Some? && DepsAllowed(t.subs, id, e.dependsOn.value)
  }

  /** The row an edit leaves, said column by column. */
  ghost function EditedSub(t: Task, id: Id, e: Edit): Sub
    requires id in t.subs
  {
    var row := t.subs[id];
    row.(text := row.text + if e.textChanges then 1 else 0,
         ordinal := if GetsToDeps(t, id, e) && Reorders(row, e) then e.ordinal.value else row.ordinal,
         dependsOn := if Rewires(t, id, e) then e.dependsOn.value else row.dependsOn)
  }

  /** What the edited row itself holds does not decide which dependencies it may have. */
  lemma ColumnsDoNotMatter(subs: map<Id, Sub>, id: Id, row: Sub, deps: seq<Id>)
    requires id in subs
    ensures DepsAllowed(subs[id := row], id, deps) <==> DepsAllowed(subs, id, deps)
  {
    assert DepGraph(subs[id := row])[id := deps] == DepGraph(subs)[id := deps];
    assert forall d :: d in subs[id := row] <==> d in subs;
  }

  lemma TextDoesNotMatter(subs: map<Id, Sub>, id: Id, row: Sub, e: Edit)
    requires id in subs && row.dependsOn == subs[id].dependsOn && row.ordinal == subs[id].ordinal
    ensures OrdinalRefused(subs[id := row], id, e) <==> OrdinalRefused(subs, id, e)
  {
    var u := subs[id := row];
    assert forall a :: a in u <==> a in subs;
    assert forall a :: a in subs ==> u[a].dependsOn == subs[a].dependsOn;
    forall a | a in subs && a != id
      ensures u[a] == subs[a]
    {
    }
  }

  /** The effect of an edit, and whether it succeeds, by the guards alone. */
  lemma EditOutcome(t: Task, id: Id, e: Edit)
    ensures AfterUpdate(t, id, e).0 ==
            if Editable(t, id) then t.(subs := t.subs[id := EditedSub(t, id, e)]) else t
    ensures AfterUpdate(t, id, e).1 == Ok <==>
            && Editable(t, id) && !LaterRefused(t, id, e)
            && (e.textChanges || Reorders(t.subs[id], e) || e.dependsOn.Some?)
  {
    if Editable(t, id) {
      if GetsToDeps(t, id, e) {
        EditGoesOn(t, id, e);
      } else {
        EditStops(t, id, e);
      }
      hide AfterUpdate, OrdinalRefused, DepsAllowed, EditedSub;
    }
  }

  lemma TextWritten(t: Task, id: Id, e: Edit) returns (w: Task)
    requires Editable(t, id)
    ensures w == if e.textChanges then Written(t, id) else t
    ensures w == t.(subs := t.subs[id := t.subs[id].(text := t.subs[id].text + if e.textChanges then 1 else 0)])
    ensures OrdinalRefused(w.subs, id, e) <==> OrdinalRefused(t.subs, id, e)
  {
    w := if e.textChanges then Written(t, id) else t;
    SetTwice(t.subs, id, t.subs[id], t.subs[id]);
    TextDoesNotMatter(t.subs, id, w.subs[id], e);
    hide OrdinalRefused;
  }

  lemma EditStops(t: Task, id: Id, e: Edit)
    requires Editable(t, id) && !GetsToDeps(t, id, e)
    ensures AfterUpdate(t, id, e) == (t.(subs := t.subs[id := EditedSub(t, id, e)]), Validation)
  {
    var w := TextWritten(t, id, e);
    hide OrdinalRefused, OrdinalSet, DepsSet, DepsAllowed;
  }

  lemma EditGoesOn(t: Task, id: Id, e: Edit)
    requires GetsToDeps(t, id, e)
    ensures AfterUpdate(t, id, e).0 == t.(subs := t.subs[id := EditedSub(t, id, e)])
    ensures AfterUpdate(t, id, e).1 == Ok <==>
            (e.dependsOn.Some? ==> DepsAllowed(t.subs, id, e.dependsOn.value)) &&
            (e.textChanges || Reorders(t.subs[id], e) || e.dependsOn.Some?)
  {
    var w := TextWritten(t, id, e);
    var row := t.subs[id];
    var ordered := w.subs[id].(ordinal := if Reorders(row, e) then e.ordinal.value else row.ordinal);
    OrdinalSetRow(t, id, e, w.subs[id], ordered);
    DepsSetRow(t, id, e, ordered, e.textChanges || Reorders(row, e));
    hide OrdinalRefused, OrdinalSet, DepsSet, DepsAllowed;
  }

  lemma OrdinalSetRow(t: Task, id: Id, e: Edit, written: Sub, ordered: Sub)
    requires id in t.subs && written.ordinal == t.subs[id].ordinal
    requires ordered == written.(ordinal := if Reorders(t.subs[id], e) then e.ordinal.value else written.ordinal)
    ensures OrdinalSet(t.(subs := t.subs[id := written]), id, e) == t.(subs := t.subs[id := ordered])
  {
    SetTwice(t.subs, id, written, ordered);
  }

  lemma DepsSetRow(t: Task, id: Id, e: Edit, ordered: Sub, changed: bool)
    requires id in t.subs
    ensures DepsSet(t.(subs := t.subs[id := ordered]), id, e, changed) ==
            if e.dependsOn.None? then (t.(subs := t.subs[id := ordered]), if changed then Ok else Validation)
            else if DepsAllowed(t.subs, id, e.dependsOn.value)
            then (t.(subs := t.subs[id := ordered.(dependsOn := e.dependsOn.value)]), Ok)
            else (t.(subs := t.subs[id := ordered]), Validation)
  {
    if e.dependsOn.Some? {
      ColumnsDoNotMatter(t.subs, id, ordered, e.dependsOn.value);
      SetTwice(t.subs, id, ordered, ordered.(dependsOn := e.dependsOn.value));
    }
    hide DepsAllowed;
  }

  lemma SetTwice(subs: map<Id, Sub>, id: Id, first: Sub, second: Sub)
    requires id in subs
    ensures subs[id := first][id := second] == subs[id := second]
    ensures subs[id := subs[id]] == subs
  {
  }

  // ---- Dependencies come first ----

  /** Whatever has begun has all its dependencies accepted. */
  ghost predicate DepsMet(subs: map<Id, Sub>) {
    forall a :: a in subs && Begun(subs[a].status) ==> DepsAccepted(subs, subs[a].dependsOn)
  }

  /** The call gives a sub-project that has begun a dependency that is not accepted. */
  ghost predicate Undercuts(t: Task, op: Op) {
    && op.Update? && Rewires(t, op.id, op.edit)
    && Begun(t.subs[op.id].status) && !DepsAccepted(t.subs, op.edit.dependsOn.value)
  }

  /** Such calls exist: whatever is in progress can be given any open sub-project as a dependency
      that does not itself depend on it. */
  lemma UndercutsExist(t: Task, a: Id, b: Id)
    requires Valid(t) && a in t.subs && b in t.subs
    requires t.subs[a].status == InProgress && t.subs[b].status != Accepted
    requires !Reaches(DepGraph(t.subs), b, a)
    ensures Undercuts(t, Update(a, Edit(false, false, None, Some([b]))))
  {
    ReachesSelf(DepGraph(t.subs), b);
    assert b in [b] && a != b;
    EditCreatesCycleIff(DepGraph(t.subs), a, [b]);
    EditCreatesCycleIffReached(DepGraph(t.subs), a, [b]);
  }

  /** Accepted sub-projects stay accepted, so dependencies that were met stay met. */
  ghost predicate Advances(s: map<Id, Sub>, u: map<Id, Sub>) {
    forall a :: a in s ==>
      (a in u && (Closed(s[a].status) ==> u[a].status == s[a].status))
  }

  lemma StepAdvances(t: Task, op: Op)
    ensures Advances(t.subs, Step(t, op).0.subs)
    ensures t.stage == Done || t.stage == Cancelled ==> Step(t, op).0.stage == t.stage
  {
    if ChangesOneRow(op) {
      OneRowCalls(t, op);
      OneRowKeepsPlan(t.subs, op.id, Step(t, op).0.subs);
      hide Step, OneRow;
    } else {
      if op.Update? {
        EditOutcome(t, op.id, op.edit);
      }
      hide AfterUpdate, HasCycle, DepsAllowed, Linked, OrdinalTaken, IsNeighbor, Resolvable;
      hide AfterBegin, AfterWait, AfterPropose, AfterAccept, AfterSkip, AfterReject, AfterUnblock;
    }
  }

  lemma AdvanceKeepsAccepted(s: map<Id, Sub>, u: map<Id, Sub>, deps: seq<Id>)
    requires Advances(s, u) && DepsAccepted(s, deps)
    ensures DepsAccepted(u, deps)
  {
  }

  /** One call keeps the dependency order except in exactly one way: redefining the dependencies of
      something begun so that one of them is not accepted. */
  lemma StepKeepsDepsMetIff(t: Task, op: Op)
    requires DepsMet(t.subs)
    ensures DepsMet(Step(t, op).0.subs) <==> !Undercuts(t, op)
  {
    var u := Step(t, op).0.subs;
    StepAdvances(t, op);
    if Undercuts(t, op) {
      UndercutBreaks(t, op);
    } else {
      forall a | a in u && Begun(u[a].status)
        ensures DepsAccepted(u, u[a].dependsOn)
      {
        BegunHadDepsAccepted(t, op, a);
        AdvanceKeepsAccepted(t.subs, u, u[a].dependsOn);
      }
    }
  }

  lemma UndercutBreaks(t: Task, op: Op)
    requires Undercuts(t, op)
    ensures !DepsMet(Step(t, op).0.subs)
  {
    var u := Step(t, op).0.subs;
    EditOutcome(t, op.id, op.edit);
    hide DepsAllowed, Linked, OrdinalTaken, AfterUpdate;
    assert u[op.id].dependsOn == op.edit.dependsOn.value && Begun(u[op.id].status);
    var d :| d in op.edit.dependsOn.value && !(d in t.subs && t.subs[d].status == Accepted);
    assert d != op.id;
    assert d in u ==> u[d].status == t.subs[d].status;
  }

  lemma BegunHadDepsAccepted(t: Task, op: Op, a: Id)
    requires DepsMet(t.subs) && !Undercuts(t, op)
    requires a in Step(t, op).0.subs && Begun(Step(t, op).0.subs[a].status)
    ensures DepsAccepted(t.subs, Step(t, op).0.subs[a].dependsOn)
  {
    OnlyBeginBegins(t, op, a);
    OnlyUpdateRewires(t, op, a);
    if op.Update? {
      EditOutcome(t, op.id, op.edit);
    }
    hide Step, Rewires;
  }

  lemma SelfBegins(t: Task, op: Op)
    requires ChangesOneRow(op) && op.id in Step(t, op).0.subs && Begun(Step(t, op).0.subs[op.id].status)
    ensures op.id in t.subs
    ensures Begun(t.subs[op.id].status) || (op == Begin(op.id) && DepsAccepted(t.subs, t.subs[op.id].dependsOn))
  {
    hide AfterUpdate, AfterMove, AfterAdd, AllClosed, DepsAccepted, ProposalNote;
  }

  /** Work starts by a begin call alone, which finds all dependencies accepted. */
  lemma OnlyBeginBegins(t: Task, op: Op, a: Id)
    requires a in Step(t, op).0.subs && Begun(Step(t, op).0.subs[a].status)
    ensures a in t.subs && (Begun(t.subs[a].status) || (op == Begin(a) && DepsAccepted(t.subs, t.subs[a].dependsOn)))
  {
    if ChangesOneRow(op) {
      OneRowCalls(t, op);
      if a == op.id {
        SelfBegins(t, op);
      }
      hide Step, DepsAccepted;
    } else {
      if op.Update? {
        EditOutcome(t, op.id, op.edit);
      }
      hide AfterUpdate, HasCycle, DepsAllowed, Linked, OrdinalTaken, Resolvable, DepsAccepted;
      hide AfterBegin, AfterWait, AfterPropose, AfterAccept, AfterSkip, AfterReject, AfterUnblock;
    }
  }

  lemma OnlyUpdateRewires(t: Task, op: Op, a: Id)
    requires a in Step(t, op).0.subs && a in t.subs
    ensures var deps := Step(t, op).0.subs[a].dependsOn;
            deps == t.subs[a].dependsOn ||
            (op.Update? && op.id == a && Step(t, op).1 == Ok && op.edit.dependsOn == Some(deps))
  {
    if ChangesOneRow(op) {
      OneRowCalls(t, op);
      hide Step;
    } else {
      if op.Update? {
        EditOutcome(t, op.id, op.edit);
      }
      hide AfterUpdate, HasCycle, DepsAllowed, Linked, OrdinalTaken, IsNeighbor, Resolvable;
      hide AfterBegin, AfterWait, AfterPropose, AfterAccept, AfterSkip, AfterReject, AfterUnblock;
    }
  }

  /** No call of the run undercuts something begun. */
  ghost predicate Careful(t: Task, ops: seq<Op>) {
    forall i :: 0 <= i < |ops| ==> !Undercuts(Run(t, ops[..i]), ops[i])
  }

  lemma CarefulPrefix(t: Task, ops: seq<Op>)
    requires Careful(t, ops) && ops != []
    ensures Careful(t, ops[..|ops| - 1]) && !Undercuts(Run(t, ops[..|ops| - 1]), ops[|ops| - 1])
  {
    var init := ops[..|ops| - 1];
    forall i | 0 <= i < |init|
      ensures !Undercuts(Run(t, init[..i]), init[i])
    {
      assert init[..i] == ops[..i];
    }
  }

  lemma {:induction false} RunKeepsDepsMet(t: Task, ops: seq<Op>)
    requires DepsMet(t.subs) && Careful(t, ops)
    ensures DepsMet(Run(t, ops).subs)
    decreases |ops|
  {
    if ops != [] {
      CarefulPrefix(t, ops);
      RunKeepsDepsMet(t, ops[..|ops| - 1]);
      StepKeepsDepsMetIff(Run(t, ops[..|ops| - 1]), ops[|ops| - 1]);
    }
  }

  /** The order of acceptance respects the dependency order: at the moment a sub-project becomes
      accepted, all its dependencies already are. */
  lemma AcceptedAfterItsDeps(t: Task, ops: seq<Op>, op: Op, a: Id)
    requires DepsMet(t.subs) && Careful(t, ops)
    requires var s, u := Run(t, ops).subs, Step(Run(t, ops), op).0.subs;
             a in u && u[a].status == Accepted && (a in s ==> s[a].status != Accepted)
    ensures var s, u := Run(t, ops).subs, Step(Run(t, ops), op).0.subs;
            a in s && u[a].dependsOn == s[a].dependsOn && DepsAccepted(s, s[a].dependsOn)
  {
    RunKeepsDepsMet(t, ops);
    NewlyAccepted(Run(t, ops), op, a);
  }

  lemma SelfAccepted(t: Task, op: Op)
    requires ChangesOneRow(op) && op.id in t.subs && t.subs[op.id].status != Accepted
    requires op.id in Step(t, op).0.subs && Step(t, op).0.subs[op.id].status == Accepted
    ensures op.Accept? && (t.subs[op.id].status == InProgress || t.subs[op.id].status == WaitingOwner)
  {
    hide AfterUpdate, AfterMove, AfterAdd, AllClosed, DepsAccepted, ProposalNote;
  }

  /** Only an accept call makes a sub-project accepted, from in progress or waiting for the owner. */
  lemma NewlyAccepted(t: Task, op: Op, a: Id)
    requires var u := Step(t, op).0.subs;
             a in u && u[a].status == Accepted && (a in t.subs ==> t.subs[a].status != Accepted)
    ensures op.Accept? && op.id == a && a in t.subs
    ensures t.subs[a].status == InProgress || t.subs[a].status == WaitingOwner
    ensures Step(t, op).0.subs[a].dependsOn == t.subs[a].dependsOn
  {
    if ChangesOneRow(op) {
      OneRowCalls(t, op);
      if a == op.id {
        SelfAccepted(t, op);
      }
      hide Step;
    } else {
      if op.Update? {
        EditOutcome(t, op.id, op.edit);
      }
      hide AfterUpdate, HasCycle, DepsAllowed, Linked, OrdinalTaken, Resolvable, DepsAccepted;
      hide AfterBegin, AfterWait, AfterPropose, AfterAccept, AfterSkip, AfterReject, AfterUnblock;
    }
  }

  // ---- What is final ----

  /** Accepted and skipped sub-projects keep their status for ever, and so do done and cancelled
      tasks their stage. */
  lemma {:induction false} RunKeepsFinal(t: Task, ops: seq<Op>)
    ensures Advances(t.subs, Run(t, ops).subs)
    ensures t.stage == Done || t.stage == Cancelled ==> Run(t, ops).stage == t.stage
    decreases |ops|
  {
    if ops != [] {
      RunKeepsFinal(t, ops[..|ops| - 1]);
      StepAdvances(Run(t, ops[..|ops| - 1]), ops[|ops| - 1]);
    }
  }

  ghost predicate DoneIsClosed(t: Task) {
    t.stage == Done ==> AllClosed(t.subs)
  }

  ghost predicate AddsToDone(t: Task, op: Op) {
    op.Add? && t.stage == Done && op.titled && Resolvable(t.subs, op.refs) && op.newId !in t.subs
  }

  /** Such calls exist for every done task: a titled draft without references under a new id. */
  lemma AddsToDoneExist(t: Task, id: Id)
    requires t.stage == Done && id !in t.subs
    ensures AddsToDone(t, Add(id, true, []))
  {
  }

  /** A done task has nothing open, unless something is added to it afterwards, which no call
      prevents. */
  lemma StepKeepsDoneClosedIff(t: Task, op: Op)
    requires DoneIsClosed(t)
    ensures DoneIsClosed(Step(t, op).0) <==> !AddsToDone(t, op)
  {
    if op.Add? && Step(t, op).1 == Ok {
      assert Step(t, op).0.subs[op.newId].status == Pending;
    } else if t.stage == Done {
      StepAdvances(t, op);
      NoNewIds(t, op);
      hide AfterUpdate, AfterMove, HasCycle;
    }
  }

  lemma NoNewIds(t: Task, op: Op)
    requires !(op.Add? && Step(t, op).1 == Ok)
    ensures Step(t, op).0.subs.Keys == t.subs.Keys
  {
    if ChangesOneRow(op) {
      OneRowCalls(t, op);
      OneRowKeepsPlan(t.subs, op.id, Step(t, op).0.subs);
      hide Step, OneRow;
    } else {
      if op.Update? {
        EditOutcome(t, op.id, op.edit);
      }
      hide AfterUpdate, HasCycle, DepsAllowed, Linked, OrdinalTaken, Resolvable;
    }
  }

  lemma {:induction false} RunKeepsDoneClosed(t: Task, ops: seq<Op>)
    requires DoneIsClosed(t)
    requires forall i :: 0 <= i < |ops| ==> !AddsToDone(Run(t, ops[..i]), ops[i])
    ensures DoneIsClosed(Run(t, ops))
    decreases |ops|
  {
    if ops != [] {
      var init := ops[..|ops| - 1];
      forall i | 0 <= i < |init|
        ensures !AddsToDone(Run(t, init[..i]), init[i])
      {
        assert init[..i] == ops[..i];
      }
      RunKeepsDoneClosed(t, init);
      StepKeepsDoneClosedIff(Run(t, init), ops[|ops| - 1]);
    }
  }

  /** An active task has something open. */
  ghost predicate ActiveHasOpen(t: Task) {
    t.stage == Active ==> !AllClosed(t.subs)
  }

  /** Activation does not look at the sub-projects, so it can leave an active task with nothing open. */
  ghost predicate ActivatesClosed(t: Task, op: Op) {
    op.Activate? && (t.stage == Defining || t.stage == Paused) && AllClosed(t.subs)
  }

  /** That is the only call by which an active task comes to have nothing open. */
  lemma StepKeepsActiveOpenIff(t: Task, op: Op)
    requires ActiveHasOpen(t)
    ensures ActiveHasOpen(Step(t, op).0) <==> !ActivatesClosed(t, op)
  {
    if op.Add? || op.Update? || op.Move? {
      PlanCallsKeepOpen(t, op);
      hide Step;
    } else {
      var u := Step(t, op).0.subs;
      assert ChangesOneRow(op) && Step(t, op).1 == Ok && !op.Accept? && !op.Skip? ==>
          op.id in u && !Closed(u[op.id].status);
      hide DepsAccepted, ProposalNote, AfterUpdate, AfterMove, AfterAdd;
    }
  }

  lemma PlanCallsKeepOpen(t: Task, op: Op)
    requires op.Add? || op.Update? || op.Move?
    ensures Step(t, op).0.stage == t.stage
    ensures AllClosed(Step(t, op).0.subs) ==> AllClosed(t.subs)
  {
    if op.Update? {
      EditOutcome(t, op.id, op.edit);
    }
    hide AfterUpdate, HasCycle, DepsAllowed, Linked, OrdinalTaken, Resolvable;
    if AllClosed(Step(t, op).0.subs) {
      forall a | a in t.subs
        ensures Closed(t.subs[a].status)
      {
        assert a in Step(t, op).0.subs;
      }
    }
  }

  // ---- Wait notes ----

  predicate Waits(s: Status) {
    s == WaitingOwner || s == WaitingExternal
  }

  /** Only what waits has a wait note or a wait time. */
  ghost predicate NotesTidy(subs: map<Id, Sub>) {
    forall a :: a in subs && !Waits(subs[a].status) ==> subs[a].note == "" && subs[a].until.None?
  }

  /** A rejection of something with a wait note or time, which it does not empty. */
  ghost predicate LeavesNote(t: Task, op: Op) {
    && op.Reject? && op.hasFeedback && op.id in t.subs && t.subs[op.id].status == WaitingOwner
    && (t.subs[op.id].note != "" || t.subs[op.id].until.Some?)
  }

  /** One call keeps wait notes off what does not wait, except in exactly one case: a rejection leaves
      the note and time of the wait on a sub-project that is in progress again. */
  lemma StepKeepsNotesTidyIff(t: Task, op: Op)
    requires NotesTidy(t.subs)
    ensures NotesTidy(Step(t, op).0.subs) <==> !LeavesNote(t, op)
  {
    if LeavesNote(t, op) {
      var row := Step(t, op).0.subs[op.id];
      assert row.status == InProgress && (row.note != "" || row.until.Some?);
    } else {
      forall a | a in Step(t, op).0.subs && !Waits(Step(t, op).0.subs[a].status)
        ensures Step(t, op).0.subs[a].note == "" && Step(t, op).0.subs[a].until.None?
      {
        NoteOfRow(t, op, a);
      }
    }
  }

  lemma NoteOfSelf(t: Task, op: Op)
    requires NotesTidy(t.subs) && !LeavesNote(t, op) && ChangesOneRow(op)
    requires op.id in Step(t, op).0.subs && !Waits(Step(t, op).0.subs[op.id].status)
    ensures Step(t, op).0.subs[op.id].note == "" && Step(t, op).0.subs[op.id].until.None?
  {
    hide AfterUpdate, AfterMove, AfterAdd, AllClosed, DepsAccepted, ProposalNote;
  }

  lemma NoteOfRow(t: Task, op: Op, a: Id)
    requires NotesTidy(t.subs) && !LeavesNote(t, op)
    requires a in Step(t, op).0.subs && !Waits(Step(t, op).0.subs[a].status)
    ensures Step(t, op).0.subs[a].note == "" && Step(t, op).0.subs[a].until.None?
  {
    if ChangesOneRow(op) {
      OneRowCalls(t, op);
      if a == op.id {
        NoteOfSelf(t, op);
      }
      hide Step, LeavesNote;
    } else {
      if op.Update? {
        EditOutcome(t, op.id, op.edit);
      }
      hide AfterUpdate, HasCycle, DepsAllowed, Linked, OrdinalTaken, Resolvable, AllClosed;
      hide AfterBegin, AfterWait, AfterPropose, AfterAccept, AfterSkip, AfterReject, AfterUnblock;
    }
  }

  // ---- Refusals ----

  /** An edit that writes something and is refused afterwards: it has written text columns and any
      later check refuses, or it has set the ordinal and its dependencies are refused. */
  ghost predicate HalfApplied(t: Task, op: Op) {
    && op.Update? && Editable(t, op.id) && LaterRefused(t, op.id, op.edit)
    && (op.edit.textChanges || (GetsToDeps(t, op.id, op.edit) && Reorders(t.subs[op.id], op.edit)))
  }

  /** A refused call has changed something in exactly that case. Then only the edited row differs, in
      its text columns and, if the dependencies were what was refused, in its ordinal. */
  lemma RefusedCallChangesIff(t: Task, op: Op)
    ensures Step(t, op).1 != Ok && Step(t, op).0 != t <==> HalfApplied(t, op)
    ensures HalfApplied(t, op) ==>
              && Step(t, op).0 == t.(subs := t.subs[op.id := EditedSub(t, op.id, op.edit)])
              && EditedSub(t, op.id, op.edit).dependsOn == t.subs[op.id].dependsOn
  {
    if op.Update? {
      EditOutcome(t, op.id, op.edit);
      hide DepsAllowed, Linked, OrdinalTaken, AfterUpdate;
      if Editable(t, op.id) {
        var row := EditedSub(t, op.id, op.edit);
        RowDiffers(t.subs, op.id, row);
      }
    } else {
      if Step(t, op).1 != Ok {
        RefusedElsewhere(t, op);
      }
      hide Step;
    }
  }

  lemma RowDiffers(subs: map<Id, Sub>, id: Id, row: Sub)
    requires id in subs
    ensures subs[id := row] == subs <==> row == subs[id]
  {
    assert subs[id := row][id] == row;
    assert subs[id := subs[id]] == subs;
  }

  lemma RefusedElsewhere(t: Task, op: Op)
    requires !op.Update? && Step(t, op).1 != Ok
    ensures Step(t, op).0 == t
  {
    hide HasCycle, DepsAllowed, Linked, OrdinalTaken, IsNeighbor, Resolvable;
  }

  /** Such half-applied updates exist: the ordinal moves, or the text is written, although the call is
      refused. */
  lemma RefusedUpdateReorders(t: Task, id: Id, n: int)
    requires Valid(t) && id in t.subs && !Closed(t.subs[id].status) && !Linked(t.subs, id)
    requires n > 0 && n != t.subs[id].ordinal && !OrdinalTaken(t.subs, n, id)
    ensures AfterUpdate(t, id, Edit(false, false, Some(n), Some([id]))) ==
            (t.(subs := t.subs[id := t.subs[id].(ordinal := n)]), Validation)
    ensures AfterUpdate(t, id, Edit(true, false, None, Some([id]))) == (Written(t, id), Validation)
  {
    assert id in [id];
  }

  // ---- Acceptance authority ----

  /** A call the twin can make. Calls without a check of the caller are open to it. */
  predicate ByTwin(op: Op) {
    match op
    case Complete(actor, _) => actor == Twin
    case Accept(_, actor) => actor == Twin
    case Skip(_, actor) => actor == Twin
    case _ => true
  }

  predicate SwitchesOn(op: Op) {
    op.UpdateTask? && op.delegateTo == Some(true)
  }

  /** Nothing is accepted in u that was not in t, and u is done only if t was. */
  ghost predicate NoVerdict(t: Task, u: Task) {
    && !u.delegate && (u.stage == Done ==> t.stage == Done)
    && forall a :: a in u.subs && u.subs[a].status == Accepted ==> a in t.subs && t.subs[a].status == Accepted
  }

  /** With the switch off, one call of the twin gives a verdict or gains the authority to give one in
      exactly one case: it turns the switch on, which nothing prevents. */
  lemma TwinStepGivesNoVerdictIff(t: Task, op: Op)
    requires !t.delegate && ByTwin(op)
    ensures NoVerdict(t, Step(t, op).0) <==> !SwitchesOn(op)
  {
    if SwitchesOn(op) {
      assert Step(t, op).0.delegate;
    } else {
      forall a | a in Step(t, op).0.subs && Step(t, op).0.subs[a].status == Accepted
        ensures a in t.subs && t.subs[a].status == Accepted
      {
        if !(a in t.subs && t.subs[a].status == Accepted) {
          NewlyAccepted(t, op, a);
        }
      }
      TwinStepNotDone(t, op);
    }
  }

  lemma TwinStepNotDone(t: Task, op: Op)
    requires !t.delegate && ByTwin(op) && !SwitchesOn(op)
    ensures !Step(t, op).0.delegate
    ensures Step(t, op).0.stage == Done ==> t.stage == Done
  {
  }

  /** With the switch off and left off, no sequence of twin calls accepts a sub-project or brings the
      task to done, whatever pausing, skipping and activating happens in between. */
  lemma {:induction false} TwinRunGivesNoVerdict(t: Task, ops: seq<Op>)
    requires !t.delegate && forall i :: 0 <= i < |ops| ==> ByTwin(ops[i]) && !SwitchesOn(ops[i])
    ensures NoVerdict(t, Run(t, ops))
    decreases |ops|
  {
    if ops != [] {
      TwinRunGivesNoVerdict(t, ops[..|ops| - 1]);
      TwinStepGivesNoVerdictIff(Run(t, ops[..|ops| - 1]), ops[|ops| - 1]);
    }
  }

  /** Turning it on is followed by any acceptance: two calls of the twin accept whatever is in progress. */
  lemma SwitchIsNotGuarded(t: Task, id: Id)
    requires !t.delegate && id in t.subs && t.subs[id].status == InProgress
    ensures var u := Run(t, [UpdateTask(false, Some(true)), Accept(id, Twin)]).subs;
            id in u && u[id].status == Accepted
  {
    var first := UpdateTask(false, Some(true));
    var ops := [first, Accept(id, Twin)];
    assert ops[..1] == [first] && [first][..0] == [];
    assert Run(t, [first]) == Step(Run(t, []), first).0;
  }
}
