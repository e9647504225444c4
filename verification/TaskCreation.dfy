/** What createTask makes of its drafts: a valid plan unless the drafts refer to each other in a circle,
    which it accepts. */
module TaskCreation {
  import opened Wrappers
  import opened Graphs
  import opened TaskModel
  import opened TaskRuns
  import opened TaskProgress

  // ---- The created rows ----

  lemma {:induction false} CreatedSubsMean(drafts: seq<seq<int>>, ids: seq<Id>, n: nat)
    requires DraftsAccepted(drafts) && |ids| == |drafts| && n <= |drafts| && FreshIds(ids)
    ensures forall a :: a in CreatedSubs(drafts, ids, n) ==> a in ids[..n]
    ensures forall i :: 0 <= i < n ==> CreatedAt(drafts, ids, CreatedSubs(drafts, ids, n), i)
  {
    if n > 0 {
      CreatedSubsMean(drafts, ids, n - 1);
      var before, after := CreatedSubs(drafts, ids, n - 1), CreatedSubs(drafts, ids, n);
      assert ids[..n] == ids[..n - 1] + [ids[n - 1]];
      forall i | 0 <= i < n - 1
        ensures CreatedAt(drafts, ids, after, i)
      {
        assert CreatedAt(drafts, ids, before, i) && ids[i] != ids[n - 1];
      }
    }
  }

  /** Draft i became the pending sub-project number i + 1, depending on what the draft refers to. */
  ghost predicate CreatedAt(drafts: seq<seq<int>>, ids: seq<Id>, subs: map<Id, Sub>, i: nat)
    requires DraftsAccepted(drafts) && |ids| == |drafts| && i < |drafts|
  {
    ids[i] in subs && subs[ids[i]] == NewSub(i + 1, Referenced(ids, drafts[i]))
  }

  /** The task starts defining, with the acceptance switch on and nothing in focus; its rows are the
      drafts in order, and reference k of draft i leads to the row of the draft with that number. */
  lemma CreatedExactly(drafts: seq<seq<int>>, ids: seq<Id>, i: nat)
    requires DraftsAccepted(drafts) && |ids| == |drafts| && FreshIds(ids) && i < |ids|
    ensures var t := Created(drafts, ids);
            && t.stage == Defining && t.delegate && t.pin.None? && (forall a :: a in t.subs <==> a in ids)
            && var row := t.subs[ids[i]];
               && row == Sub(i + 1, Pending, row.dependsOn, 0, "", None, []) && |row.dependsOn| == |drafts[i]|
               && forall k :: 0 <= k < |drafts[i]| ==> row.dependsOn[k] == ids[drafts[i][k] - 1]
  {
    var subs := CreatedSubs(drafts, ids, |drafts|);
    CreatedSubsMean(drafts, ids, |drafts|);
    assert ids[..|drafts|] == ids;
    assert CreatedAt(drafts, ids, subs, i);
    hide CreatedSubs;
    forall a | a in ids
      ensures a in subs
    {
      var j :| 0 <= j < |ids| && ids[j] == a;
      assert CreatedAt(drafts, ids, subs, j);
    }
  }

  /** Whatever the references, ordinals, siblings and statuses of a created task are in order. */
  lemma CreatedInOrder(drafts: seq<seq<int>>, ids: seq<Id>)
    requires DraftsAccepted(drafts) && |ids| == |drafts| && FreshIds(ids)
    ensures var t := Created(drafts, ids);
            && WellOrdered(t.subs) && SiblingDeps(t.subs) && PinUnderway(t) && DepsMet(t.subs) && t.stage == Defining
            && (forall a :: a in t.subs ==> t.subs[a].status == Pending)
            && forall i :: 0 <= i < |ids| ==> ids[i] in t.subs
  {
    var subs := CreatedSubs(drafts, ids, |drafts|);
    CreatedSubsMean(drafts, ids, |drafts|);
    assert ids[..|drafts|] == ids;
    forall a | a in subs
      ensures exists i: nat :: CreatedHere(drafts, ids, subs, a, i)
    {
      var i :| 0 <= i < |ids| && ids[i] == a;
      assert CreatedAt(drafts, ids, subs, i);
      assert CreatedHere(drafts, ids, subs, a, i);
    }
    CreatedSubsWellOrdered(drafts, ids, subs);
    forall i | 0 <= i < |ids|
      ensures ids[i] in subs
    {
      assert CreatedAt(drafts, ids, subs, i);
    }
  }

  ghost predicate CreatedHere(drafts: seq<seq<int>>, ids: seq<Id>, subs: map<Id, Sub>, a: Id, i: nat)
    requires DraftsAccepted(drafts) && |ids| == |drafts|
  {
    i < |drafts| && ids[i] == a && CreatedAt(drafts, ids, subs, i)
  }

  lemma CreatedSubsWellOrdered(drafts: seq<seq<int>>, ids: seq<Id>, subs: map<Id, Sub>)
    requires DraftsAccepted(drafts) && |ids| == |drafts|
    requires forall i :: 0 <= i < |drafts| ==> CreatedAt(drafts, ids, subs, i)
    requires forall a :: a in subs ==> exists i: nat :: CreatedHere(drafts, ids, subs, a, i)
    ensures WellOrdered(subs) && SiblingDeps(subs)
    ensures forall a :: a in subs ==> subs[a].status == Pending
  {
    forall a, d | a in subs && d in subs[a].dependsOn
      ensures d in subs
    {
      var i: nat :| CreatedHere(drafts, ids, subs, a, i);
      var k :| 0 <= k < |drafts[i]| && d == ids[drafts[i][k] - 1];
      assert CreatedAt(drafts, ids, subs, drafts[i][k] - 1);
    }
  }

  // ---- Circles of references ----

  /** Draft p[k] refers to draft p[k + 1]; references count from 1. */
  ghost predicate RefersAt(drafts: seq<seq<int>>, p: seq<nat>, k: nat)
    requires k + 1 < |p|
  {
    p[k] < |drafts| && p[k + 1] < |drafts| && p[k + 1] + 1 in drafts[p[k]]
  }

  ghost predicate RefCycle(drafts: seq<seq<int>>, p: seq<nat>) {
    |p| >= 2 && p[0] == p[|p| - 1] && forall k: nat :: k + 1 < |p| ==> RefersAt(drafts, p, k)
  }

  ghost predicate HasRefCycle(drafts: seq<seq<int>>) {
    exists p :: RefCycle(drafts, p)
  }

  lemma RefersIffDepends(drafts: seq<seq<int>>, ids: seq<Id>, subs: map<Id, Sub>, i: nat, j: nat)
    requires DraftsAccepted(drafts) && |ids| == |drafts| && FreshIds(ids) && i < |drafts| && j < |drafts|
    requires CreatedAt(drafts, ids, subs, i)
    ensures ids[j] in subs[ids[i]].dependsOn <==> j + 1 in drafts[i]
  {
    var deps := Referenced(ids, drafts[i]);
    if ids[j] in deps {
      var k :| 0 <= k < |deps| && deps[k] == ids[j];
      assert drafts[i][k] == j + 1;
    }
    if j + 1 in drafts[i] {
      var k :| 0 <= k < |drafts[i]| && drafts[i][k] == j + 1;
      assert deps[k] == ids[j];
    }
  }

  lemma RefCycleIsCycle(drafts: seq<seq<int>>, ids: seq<Id>, p: seq<nat>)
    requires DraftsAccepted(drafts) && |ids| == |drafts| && FreshIds(ids) && RefCycle(drafts, p)
    ensures HasCycle(DepGraph(Created(drafts, ids).subs))
  {
    var subs := CreatedSubs(drafts, ids, |drafts|);
    CreatedSubsMean(drafts, ids, |drafts|);
    RefCycleInRange(drafts, p);
    var w := seq(|p|, k requires 0 <= k < |p| => ids[p[k]]);
    forall k: nat | k + 1 < |w|
      ensures EdgeAt(DepGraph(subs), w, k)
    {
      assert RefersAt(drafts, p, k) && CreatedAt(drafts, ids, subs, p[k]);
      RefersIffDepends(drafts, ids, subs, p[k], p[k + 1]);
    }
    assert Cycle(DepGraph(subs), w);
  }

  lemma RefCycleInRange(drafts: seq<seq<int>>, p: seq<nat>)
    requires RefCycle(drafts, p)
    ensures forall k :: 0 <= k < |p| ==> p[k] < |drafts|
  {
    forall k | 0 <= k < |p|
      ensures p[k] < |drafts|
    {
      assert RefersAt(drafts, p, if k > 0 then k - 1 else 0);
    }
  }

  ghost function IndexOfId(ids: seq<Id>, a: Id): (i: nat)
    requires a in ids
    ensures i < |ids| && ids[i] == a
  {
    var i :| 0 <= i < |ids| && ids[i] == a;
    i
  }

  lemma CycleIsRefCycle(drafts: seq<seq<int>>, ids: seq<Id>, w: seq<Id>)
    requires DraftsAccepted(drafts) && |ids| == |drafts| && FreshIds(ids)
    requires Cycle(DepGraph(Created(drafts, ids).subs), w)
    ensures HasRefCycle(drafts)
  {
    var subs := CreatedSubs(drafts, ids, |drafts|);
    CreatedSubsMean(drafts, ids, |drafts|);
    assert ids[..|drafts|] == ids;
    forall k | 0 <= k < |w|
      ensures w[k] in ids
    {
      assert EdgeAt(DepGraph(subs), w, if k + 1 < |w| then k else 0);
    }
    var p: seq<nat> := seq(|w|, k requires 0 <= k < |w| => IndexOfId(ids, w[k]));
    hide CreatedSubs;
    forall k: nat | k + 1 < |p|
      ensures RefersAt(drafts, p, k)
    {
      EdgeIsReference(drafts, ids, subs, w, p, k);
    }
    assert RefCycle(drafts, p);
  }

  lemma EdgeIsReference(drafts: seq<seq<int>>, ids: seq<Id>, subs: map<Id, Sub>, w: seq<Id>, p: seq<nat>, k: nat)
    requires DraftsAccepted(drafts) && |ids| == |drafts| && FreshIds(ids)
    requires |p| == |w| && k + 1 < |p| && p[k] < |ids| && p[k + 1] < |ids|
    requires w[k] == ids[p[k]] && w[k + 1] == ids[p[k + 1]]
    requires CreatedAt(drafts, ids, subs, p[k]) && EdgeAt(DepGraph(subs), w, k)
    ensures RefersAt(drafts, p, k)
  {
    RefersIffDepends(drafts, ids, subs, p[k], p[k + 1]);
    hide Referenced, DraftsAccepted, FreshIds;
  }

  /** createTask yields a valid task exactly when its drafts do not refer to each other in a circle;
      otherwise the dependency graph has a cycle and all else is in order. */
  lemma CreatedValidIff(drafts: seq<seq<int>>, ids: seq<Id>)
    requires DraftsAccepted(drafts) && |ids| == |drafts| && FreshIds(ids)
    ensures HasCycle(DepGraph(Created(drafts, ids).subs)) <==> HasRefCycle(drafts)
    ensures Valid(Created(drafts, ids)) <==> !HasRefCycle(drafts)
  {
    var g := DepGraph(Created(drafts, ids).subs);
    CreatedInOrder(drafts, ids);
    forall p | RefCycle(drafts, p)
      ensures HasCycle(g)
    {
      RefCycleIsCycle(drafts, ids, p);
    }
    forall w | Cycle(g, w)
      ensures HasRefCycle(drafts)
    {
      CycleIsRefCycle(drafts, ids, w);
    }
  }

  // ---- What becomes of them ----

  ghost function Members(ids: seq<Id>, p: seq<nat>): set<Id>
    requires forall k :: 0 <= k < |p| ==> p[k] < |ids|
  {
    set k | 0 <= k < |p| :: ids[p[k]]
  }

  /** The sub-projects of a circle of drafts never begin in any run that does not redefine the
      dependencies of one of them. */
  lemma RefCycleNeverBegins(drafts: seq<seq<int>>, ids: seq<Id>, p: seq<nat>, ops: seq<Op>, k: nat)
    requires DraftsAccepted(drafts) && |ids| == |drafts| && FreshIds(ids) && RefCycle(drafts, p) && k < |p|
    requires forall j :: 0 <= j < |p| ==> p[j] < |ids|
    requires forall op :: op in ops ==> !Redefines(op, Members(ids, p))
    ensures var u := Run(Created(drafts, ids), ops).subs;
            ids[p[k]] in u && !Begun(u[ids[p[k]]].status)
  {
    var s := Members(ids, p);
    RefCycleIsStuck(drafts, ids, p);
    assert ids[p[k]] in s;
    hide Stuck, RefCycle, Members;
    RunStaysStuck(Created(drafts, ids), s, ops);
    StuckIsNotAccepted(Run(Created(drafts, ids), ops).subs, s, ids[p[k]]);
  }

  lemma RefCycleIsStuck(drafts: seq<seq<int>>, ids: seq<Id>, p: seq<nat>)
    requires DraftsAccepted(drafts) && |ids| == |drafts| && FreshIds(ids) && RefCycle(drafts, p)
    requires forall j :: 0 <= j < |p| ==> p[j] < |ids|
    ensures Stuck(Created(drafts, ids).subs, Members(ids, p))
  {
    var subs := CreatedSubs(drafts, ids, |drafts|);
    var s := Members(ids, p);
    CreatedSubsMean(drafts, ids, |drafts|);
    forall a | a in s
      ensures a in subs && !Begun(subs[a].status) && WaitsWithin(subs, s, a)
    {
      var k :| 0 <= k < |p| && ids[p[k]] == a;
      var j: nat := if k + 1 < |p| then k else 0;
      assert RefersAt(drafts, p, j) && CreatedAt(drafts, ids, subs, p[j]);
      RefersIffDepends(drafts, ids, subs, p[j], p[j + 1]);
      assert ids[p[j + 1]] in s;
    }
  }

  ghost predicate RedefinesNothing(ops: seq<Op>) {
    forall op :: op in ops && op.Update? ==> op.edit.dependsOn.None?
  }

  ghost predicate AllAcceptedIn(ids: seq<Id>, t: Task) {
    forall i :: 0 <= i < |ids| ==> AcceptedIn(t, ids[i])
  }

  /** A created task can be finished without redefining dependencies exactly when its drafts do not
      refer to each other in a circle. */
  lemma CreatedFinishableIff(drafts: seq<seq<int>>, ids: seq<Id>)
    requires DraftsAccepted(drafts) && |ids| == |drafts| && FreshIds(ids)
    ensures (exists ops :: RedefinesNothing(ops) && AllAcceptedIn(ids, Run(Created(drafts, ids), ops))) <==>
            !HasRefCycle(drafts)
  {
    if HasRefCycle(drafts) {
      var p :| RefCycle(drafts, p);
      RefCycleInRange(drafts, p);
      forall ops | RedefinesNothing(ops)
        ensures !AllAcceptedIn(ids, Run(Created(drafts, ids), ops))
      {
        RefCycleNeverBegins(drafts, ids, p, ops, 0);
        assert 0 <= p[0] < |ids|;
      }
    } else {
      var ops := FinishCreated(drafts, ids);
    }
  }

  lemma FinishCreated(drafts: seq<seq<int>>, ids: seq<Id>) returns (ops: seq<Op>)
    requires DraftsAccepted(drafts) && |ids| == |drafts| && FreshIds(ids) && !HasRefCycle(drafts)
    ensures RedefinesNothing(ops) && AllAcceptedIn(ids, Run(Created(drafts, ids), ops))
    ensures Run(Created(drafts, ids), ops).stage == Done
  {
    var t := Created(drafts, ids);
    CreatedValidIff(drafts, ids);
    CreatedInOrder(drafts, ids);
    hide HasCycle, HasRefCycle, Created;
    RunOneOrTwo(t, Activate, Activate);
    var u := Run(t, [Activate]);
    assert ids[0] in u.subs;
    var rest := FinishByDriving(u);
    RunAppend(t, [Activate], rest);
    ops := [Activate] + rest;
  }
}
