/** The graph checks that the task-draft validator runs on the nodes of one task. */
module TaskDraft {
  import opened Wrappers
  import opened Graphs

  datatype Node = Node(id: Id, parent: Option<Id>, deps: seq<Id>)

  // ---- The index by id ----

  function Ids(nodes: seq<Node>): seq<Id> {
    seq(|nodes|, i requires 0 <= i < |nodes| => nodes[i].id)
  }

  /** A later node with the same id replaces an earlier one. */
  function ById(nodes: seq<Node>): map<Id, Node> {
    if nodes == [] then map[]
    else
      var last := nodes[|nodes| - 1];
      ById(nodes[..|nodes| - 1])[last.id := last]
  }

  method IndexNodes(nodes: seq<Node>) returns (byId: map<Id, Node>, ids: seq<Id>)
    ensures byId == ById(nodes) && ids == Ids(nodes)
  {
    byId, ids := map[], [];
    for i := 0 to |nodes|
      invariant byId == ById(nodes[..i]) && ids == Ids(nodes[..i])
    {
      assert nodes[..i + 1][..i] == nodes[..i];
      byId := byId[nodes[i].id := nodes[i]];
      ids := ids + [nodes[i].id];
    }
    assert nodes[..|nodes|] == nodes;
  }

  ghost predicate UniqueIds(nodes: seq<Node>) {
    forall i, j :: 0 <= i < j < |nodes| ==> nodes[i].id != nodes[j].id
  }

  ghost predicate KnownDeps(nodes: seq<Node>) {
    forall n, d :: n in nodes && d in n.deps ==> d in Ids(nodes)
  }

  lemma {:induction false} ByIdKeys(nodes: seq<Node>)
    ensures ById(nodes).Keys == Elements(Ids(nodes))
    ensures forall id :: id in ById(nodes) ==> ById(nodes)[id] in nodes && ById(nodes)[id].id == id
    ensures UniqueIds(nodes) ==> forall n :: n in nodes ==> n.id in ById(nodes) && ById(nodes)[n.id] == n
  {
    if nodes != [] {
      var init, last := nodes[..|nodes| - 1], nodes[|nodes| - 1];
      ByIdKeys(init);
      assert nodes == init + [last];
      assert Ids(nodes) == Ids(init) + [last.id];
      ElementsAppend(Ids(init), [last.id]);
    }
  }

  /** The index holds the last node of each id. */
  lemma {:induction false} LastWins(nodes: seq<Node>, i: nat)
    requires i < |nodes| && forall j :: i < j < |nodes| ==> nodes[j].id != nodes[i].id
    ensures nodes[i].id in ById(nodes) && ById(nodes)[nodes[i].id] == nodes[i]
  {
    var init := nodes[..|nodes| - 1];
    if i < |init| {
      LastWins(init, i);
      assert nodes[|nodes| - 1].id != nodes[i].id;
    }
  }

  /** Edges from a node to the nodes it depends on. */
  function DepsGraph(byId: map<Id, Node>): Graph {
    map id | id in byId :: byId[id].deps
  }

  // ---- The three-colour search ----

  /** Mark 1 is on exactly the nodes of the stack `path`, mark 2 on the ranked ones. */
  ghost predicate Coloured(g: Graph, state: map<Id, int>, rank: map<Id, nat>, next: nat, path: seq<Id>) {
    && rank.Keys <= state.Keys && (forall a :: a in path ==> a in state)
    && (forall a :: a in state ==>
      if a in rank then state[a] == 2 && a !in path else state[a] == 1 && a in path)
    && (path != [] ==> Walk(g, path))
    && PartlyRanked(g, rank, next)
  }

  lemma MarksMean(g: Graph, state: map<Id, int>, rank: map<Id, nat>, next: nat, path: seq<Id>, id: Id)
    requires Coloured(g, state, rank, next, path)
    requires path != [] ==> id in Out(g, path[|path| - 1])
    ensures id in state && state[id] == 2 ==> id in rank
    ensures id in state && state[id] == 1 ==> HasCycle(g)
    ensures id in state ==> state[id] == 1 || state[id] == 2
    ensures id !in state ==> id !in path
  {
    if id in state && state[id] == 1 {
      BackEdge(g, path, id);
    }
  }

  /** Entering an unmarked node puts it on top of the stack. */
  lemma Descend(g: Graph, state: map<Id, int>, rank: map<Id, nat>, next: nat, path: seq<Id>, id: Id)
    requires Coloured(g, state, rank, next, path) && id !in state && id in g
    requires path != [] ==> id in Out(g, path[|path| - 1])
    ensures Coloured(g, state[id := 1], rank, next, path + [id])
  {
    if path != [] {
      WalkAppend(g, path, id);
    }
  }

  /** Finishing the top of the stack, all of whose dependencies are ranked, ranks it. */
  lemma Ascend(g: Graph, state: map<Id, int>, rank: map<Id, nat>, next: nat, path: seq<Id>, id: Id)
    requires Coloured(g, state, rank, next, path + [id]) && id in g && id !in path
    requires forall k :: 0 <= k < |g[id]| && g[id][k] in g ==> g[id][k] in rank
    ensures Coloured(g, state[id := 2], rank[id := next], next + 1, path)
  {
    assert id in path + [id];
    RankOneMore(g, rank, next, id);
    if path != [] {
      WalkSlice(g, path + [id], 0, |path|);
      assert (path + [id])[0..|path|] == path;
    }
  }

  lemma MarkShrinks(keys: set<Id>, state: map<Id, int>, id: Id)
    requires id in keys && id !in state
    ensures keys - state[id := 1].Keys < keys - state.Keys
  {
    assert id in keys - state.Keys;
  }

  /** The validator's nested function and the `state` dictionary it shares between calls. */
  class DepsWalk {
    const deps: Graph
    var state: map<Id, int>
    ghost var rank: map<Id, nat>
    ghost var next: nat

    constructor (deps: Graph)
      ensures this.deps == deps && Coloured(deps, state, rank, next, [])
    {
      this.deps := deps;
      state, rank, next := map[], map[], 0;
    }

    /** Either the node and everything below it is finished and the stack is as before, or an edge
        back into the stack was met, so there is a cycle. */
    method Acyclic(id: Id, ghost path: seq<Id>) returns (ok: bool)
      requires Coloured(deps, state, rank, next, path) && id in deps
      requires path != [] ==> id in Out(deps, path[|path| - 1])
      modifies this
      ensures old(state.Keys) <= state.Keys && old(rank.Keys) <= rank.Keys
      ensures ok ==> Coloured(deps, state, rank, next, path) && id in rank
      ensures !ok ==> HasCycle(deps)
      decreases deps.Keys - state.Keys, 0
    {
      hide Coloured;
      MarksMean(deps, state, rank, next, path, id);
      if id in state && state[id] == 2 {
        return true;
      }
      if id in state && state[id] == 1 {
        return false;
      }
      Descend(deps, state, rank, next, path, id);
      MarkShrinks(deps.Keys, state, id);
      state := state[id := 1];
      ok := AcyclicBelow(id, path + [id]);
      if ok {
        Ascend(deps, state, rank, next, path, id);
        state := state[id := 2];
        rank, next := rank[id := next], next + 1;
      }
    }

    /** The loop over the dependencies of the node on top of the stack. */
    method AcyclicBelow(id: Id, ghost stack: seq<Id>) returns (ok: bool)
      requires stack != [] && stack[|stack| - 1] == id && id in deps && id in state
      requires Coloured(deps, state, rank, next, stack)
      modifies this
      ensures old(state.Keys) <= state.Keys && old(rank.Keys) <= rank.Keys
      ensures ok ==> Coloured(deps, state, rank, next, stack)
      ensures ok ==> forall k :: 0 <= k < |deps[id]| && deps[id][k] in deps ==> deps[id][k] in rank
      ensures !ok ==> HasCycle(deps)
      decreases deps.Keys - state.Keys, 1
    {
      for j := 0 to |deps[id]|
        invariant Coloured(deps, state, rank, next, stack)
        invariant old(state.Keys) <= state.Keys && old(rank.Keys) <= rank.Keys
        invariant forall k :: 0 <= k < j && deps[id][k] in deps ==> deps[id][k] in rank
      {
        var dep := deps[id][j];
        if dep in deps {
          var below := Acyclic(dep, stack);
          if !below {
            return false;
          }
        }
      }
      return true;
    }

    /** Searches from every id with the same marks and stops at the first cycle found. */
    method AllAcyclic(ids: seq<Id>) returns (ok: bool)
      requires Coloured(deps, state, rank, next, []) && Elements(ids) == deps.Keys
      modifies this
      ensures ok <==> !HasCycle(deps)
    {
      for i := 0 to |ids|
        invariant Coloured(deps, state, rank, next, [])
        invariant forall k :: 0 <= k < i ==> ids[k] in rank
      {
        assert ids[i] in Elements(ids);
        var fine := Acyclic(ids[i], []);
        if !fine {
          return false;
        }
      }
      AllRanked(deps, rank, next, ids);
      return true;
    }
  }

  lemma AllRanked(g: Graph, rank: map<Id, nat>, next: nat, ids: seq<Id>)
    requires PartlyRanked(g, rank, next) && Elements(ids) == g.Keys
    requires forall k :: 0 <= k < |ids| ==> ids[k] in rank
    ensures !HasCycle(g)
  {
    forall a | a in g
      ensures a in rank
    {
      assert a in Elements(ids);
    }
    RankedHasNoCycle(g, rank);
  }

  /** An edge from the top of the stack back into the stack closes a cycle. */
  lemma BackEdge(g: Graph, path: seq<Id>, id: Id)
    requires path != [] && Walk(g, path) && id in path && id in Out(g, path[|path| - 1])
    ensures HasCycle(g)
  {
    var i: nat :| i < |path| && path[i] == id;
    WalkSlice(g, path, i, |path|);
    WalkAppend(g, path[i..|path|], id);
    assert Cycle(g, path[i..|path|] + [id]);
  }

  // ---- Sinks, entries and dependents ----

  function Select(ids: seq<Id>, keep: set<Id>): seq<Id> {
    if ids == [] then []
    else Select(ids[..|ids| - 1], keep) + (if ids[|ids| - 1] in keep then [ids[|ids| - 1]] else [])
  }

  lemma {:induction false} SelectMembers(ids: seq<Id>, keep: set<Id>)
    ensures Elements(Select(ids, keep)) == Elements(ids) * keep
  {
    if ids != [] {
      var init, last := ids[..|ids| - 1], ids[|ids| - 1];
      SelectMembers(init, keep);
      assert ids == init + [last];
      ElementsAppend(init, [last]);
      ElementsAppend(Select(init, keep), if last in keep then [last] else []);
    }
  }

  /** Of a list without repetitions exactly one member is kept, if one is. */
  lemma {:induction false} SelectOne(ids: seq<Id>, keep: set<Id>, x: Id)
    requires forall i, j :: 0 <= i < j < |ids| ==> ids[i] != ids[j]
    requires Elements(ids) * keep == {x}
    ensures Select(ids, keep) == [x]
  {
    assert x in Elements(ids) * keep;
    var init, last := ids[..|ids| - 1], ids[|ids| - 1];
    assert ids == init + [last];
    ElementsAppend(init, [last]);
    assert last in keep ==> last in Elements(ids) * keep;
    if last == x {
      SelectMembers(init, keep);
      LastIsNew(ids);
      assert Elements(init) * keep <= Elements(ids) * keep;
      OnlyOther(Elements(init) * keep, x);
      NoElements(Select(init, keep));
    } else {
      SelectOne(init, keep, x);
    }
  }

  lemma LastIsNew(ids: seq<Id>)
    requires ids != [] && forall i, j :: 0 <= i < j < |ids| ==> ids[i] != ids[j]
    ensures ids[|ids| - 1] !in Elements(ids[..|ids| - 1])
  {
  }

  lemma OnlyOther(s: set<Id>, x: Id)
    ensures s <= {x} && x !in s ==> s <= {}
  {
  }

  lemma NoElements(s: seq<Id>)
    ensures Elements(s) <= {} ==> s == []
  {
    assert s != [] ==> s[0] in Elements(s);
  }

  /** Ids that occur in no dependency list, in list order. */
  function Sinks(nodes: seq<Node>): seq<Id> {
    Select(Ids(nodes), Elements(Ids(nodes)) - Referenced(nodes))
  }

  function Referenced(nodes: seq<Node>): set<Id> {
    set n, d | n in nodes && d in n.deps :: d
  }

  function Entries(nodes: seq<Node>): seq<Id> {
    var byId := ById(nodes);
    Select(Ids(nodes), set id | id in byId && byId[id].deps == [])
  }

  function AddDependent(m: Graph, deps: seq<Id>, id: Id): Graph {
    if deps == [] then m
    else
      var rest, d := AddDependent(m, deps[..|deps| - 1], id), deps[|deps| - 1];
      rest[d := Out(rest, d) + [id]]
  }

  /** Every dependency, in any node, mapped to the ids of the nodes that name it. */
  function Dependents(nodes: seq<Node>): Graph {
    if nodes == [] then map[]
    else AddDependent(Dependents(nodes[..|nodes| - 1]), nodes[|nodes| - 1].deps, nodes[|nodes| - 1].id)
  }

  lemma {:induction false} AddDependentMeans(m: Graph, deps: seq<Id>, id: Id, a: Id, b: Id)
    ensures b in Out(AddDependent(m, deps, id), a) <==> b in Out(m, a) || (b == id && a in deps)
  {
    if deps != [] {
      var init := deps[..|deps| - 1];
      AddDependentMeans(m, init, id, a, b);
      assert deps == init + [deps[|deps| - 1]];
    }
  }

  lemma {:induction false} DependentsMean(nodes: seq<Node>, a: Id, b: Id)
    ensures b in Out(Dependents(nodes), a) <==> exists n :: n in nodes && n.id == b && a in n.deps
  {
    if nodes != [] {
      var init, last := nodes[..|nodes| - 1], nodes[|nodes| - 1];
      DependentsMean(init, a, b);
      AddDependentMeans(Dependents(init), last.deps, last.id, a, b);
      assert nodes == init + [last];
    }
  }

  function Copies(id: Id, n: nat): seq<Id> {
    seq(n, _ => id)
  }

  /** The ids of the nodes that name a, in list order, each as often as it names it. */
  ghost function NamedBy(nodes: seq<Node>, a: Id): seq<Id> {
    if nodes == [] then []
    else
      var last := nodes[|nodes| - 1];
      NamedBy(nodes[..|nodes| - 1], a) + Copies(last.id, multiset(last.deps)[a])
  }

  lemma CopiesOneMore(id: Id, n: nat, before: seq<Id>)
    ensures before + Copies(id, n + 1) == before + Copies(id, n) + [id]
  {
  }

  lemma {:induction false} AddDependentList(m: Graph, deps: seq<Id>, id: Id, a: Id)
    ensures Out(AddDependent(m, deps, id), a) == Out(m, a) + Copies(id, multiset(deps)[a])
  {
    if deps != [] {
      var init, d := deps[..|deps| - 1], deps[|deps| - 1];
      AddDependentList(m, init, id, a);
      CopiesOneMore(id, multiset(init)[a], Out(m, a));
      assert deps == init + [d];
      assert multiset(deps)[a] == multiset(init)[a] + if d == a then 1 else 0;
      hide Copies;
    }
  }

  /** The list of dependents, in order and with repetitions. */
  lemma {:induction false} DependentsList(nodes: seq<Node>, a: Id)
    ensures Out(Dependents(nodes), a) == NamedBy(nodes, a)
  {
    if nodes != [] {
      var init, last := nodes[..|nodes| - 1], nodes[|nodes| - 1];
      DependentsList(init, a);
      AddDependentList(Dependents(init), last.deps, last.id, a);
    }
  }

  method BuildDependents(nodes: seq<Node>) returns (dependents: Graph)
    ensures dependents == Dependents(nodes)
  {
    dependents := map[];
    for i := 0 to |nodes|
      invariant dependents == Dependents(nodes[..i])
    {
      var deps, before := nodes[i].deps, dependents;
      for j := 0 to |deps|
        invariant dependents == AddDependent(before, deps[..j], nodes[i].id)
      {
        assert deps[..j + 1][..j] == deps[..j];
        dependents := dependents[deps[j] := Out(dependents, deps[j]) + [nodes[i].id]];
      }
      assert deps[..|deps|] == deps && nodes[..i + 1][..i] == nodes[..i];
    }
    assert nodes[..|nodes|] == nodes;
  }

  // ---- Parent chains ----

  function ParentGraph(byId: map<Id, Node>): Graph {
    map id | id in byId :: if byId[id].parent.Some? then [byId[id].parent.value] else []
  }

  /** Following parents from id comes to a node without one. */
  ghost predicate ChainEnds(parents: Graph, id: Id) {
    exists b :: Reaches(parents, id, b) && Out(parents, b) == []
  }

  function ParentOf(byId: map<Id, Node>, id: Id): Option<Id> {
    if id in byId then byId[id].parent else None
  }

  /** The chain has been followed from id through all of `seen` to the cursor. */
  ghost predicate Climbing(parents: Graph, id: Id, seen: set<Id>, cursor: Option<Id>) {
    && (id in seen || cursor == Some(id))
    && (forall x, y :: x in seen && y in Out(parents, x) ==> y in seen || cursor == Some(y))
    && match cursor
       case Some(c) => Reaches(parents, id, c) && forall x :: x in seen ==> Out(parents, x) != []
       case None => ChainEnds(parents, id)
  }

  lemma ClimbStep(byId: map<Id, Node>, id: Id, seen: set<Id>, at: Id)
    requires Climbing(ParentGraph(byId), id, seen, Some(at))
    ensures Climbing(ParentGraph(byId), id, seen + {at}, ParentOf(byId, at))
  {
    if ParentOf(byId, at).Some? {
      ReachesStep(ParentGraph(byId), id, at, ParentOf(byId, at).value);
    }
  }

  /** The walk up from one node, stopped by a repetition. */
  method Loops(byId: map<Id, Node>, id: Id) returns (cyclic: bool)
    ensures cyclic <==> !ChainEnds(ParentGraph(byId), id)
  {
    var seen: set<Id>, cursor := {}, Some(id);
    ReachesSelf(ParentGraph(byId), id);
    ghost var unseen := byId.Keys + {id} + set a | a in byId && byId[a].parent.Some? :: byId[a].parent.value;
    ghost var all := unseen;
    while cursor.Some?
      invariant Climbing(ParentGraph(byId), id, seen, cursor)
      invariant cursor.Some? ==> cursor.value in all
      invariant unseen == all - seen
      decreases unseen, cursor.Some?
    {
      if cursor.value in seen {
        NeverEnds(ParentGraph(byId), id, seen);
        return true;
      }
      ClimbStep(byId, id, seen, cursor.value);
      seen, unseen := seen + {cursor.value}, unseen - {cursor.value};
      cursor := ParentOf(byId, cursor.value);
    }
    return false;
  }

  /** The ids from which the walk up runs into a repetition, in list order. */
  method LoopingNodes(byId: map<Id, Node>, ids: seq<Id>) returns (cyclic: seq<Id>)
    ensures forall x :: x in cyclic <==> x in ids && !ChainEnds(ParentGraph(byId), x)
    ensures cyclic == [] <==> forall x :: x in ids ==> ChainEnds(ParentGraph(byId), x)
  {
    cyclic := [];
    for i := 0 to |ids|
      invariant forall x :: x in cyclic <==> x in ids[..i] && !ChainEnds(ParentGraph(byId), x)
    {
      var loops := Loops(byId, ids[i]);
      assert ids[..i + 1] == ids[..i] + [ids[i]];
      if loops {
        cyclic := cyclic + [ids[i]];
      }
    }
    assert ids[..|ids|] == ids;
    assert cyclic != [] ==> cyclic[0] in cyclic;
  }

  lemma NeverEnds(parents: Graph, id: Id, seen: set<Id>)
    requires id in seen && forall x :: x in seen ==> Out(parents, x) != []
    requires forall x, y :: x in seen && y in Out(parents, x) ==> y in seen
    ensures !ChainEnds(parents, id)
  {
    forall b | Reaches(parents, id, b)
      ensures Out(parents, b) != []
    {
      var p :| WalkFromTo(parents, id, p, b);
      ClosedContainsReached(parents, seen, p);
    }
  }

  // ---- The checks, and what they say about each other ----

  ghost predicate AcyclicDeps(nodes: seq<Node>) {
    !HasCycle(DepsGraph(ById(nodes)))
  }

  /** Every node, and nothing else, is reached from the entry nodes through dependents. */
  ghost predicate AllFromEntries(nodes: seq<Node>) {
    forall x :: x in Ids(nodes) <==> ReachedFrom(Dependents(nodes), Entries(nodes), x)
  }

  /** Every node, and nothing else, is reached from the final node through dependencies. */
  ghost predicate AllToFinal(nodes: seq<Node>, final: Id) {
    forall x :: x in Ids(nodes) <==> final in Ids(nodes) && Reaches(DepsGraph(ById(nodes)), final, x)
  }

  ghost predicate ParentChainsEnd(nodes: seq<Node>) {
    forall x :: x in Ids(nodes) ==> ChainEnds(ParentGraph(ById(nodes)), x)
  }

  function Roots(nodes: seq<Node>): seq<Id> {
    if nodes == [] then []
    else
      var last := nodes[|nodes| - 1];
      Roots(nodes[..|nodes| - 1]) + (if last.parent.None? then [last.id] else [])
  }

  datatype Report = Report(
    oneRoot: bool, parentsEnd: bool, depsAcyclic: bool, sinkIsFinal: bool,
    hasEntry: bool, allFromEntries: bool, allToFinal: bool)

  /** The graph part of validate_nodes. Every check is evaluated whatever the others say; an empty
      node list ends the validation before any of them. */
  method CheckGraph(nodes: seq<Node>, final: Id) returns (report: Option<Report>)
    ensures report.None? <==> nodes == []
    ensures report.Some? ==>
      var r := report.value;
      && (r.oneRoot <==> |Roots(nodes)| == 1)
      && (r.parentsEnd <==> forall x :: x in Ids(nodes) ==> ChainEnds(ParentGraph(ById(nodes)), x))
      && (r.depsAcyclic <==> !HasCycle(DepsGraph(ById(nodes))))
      && (r.sinkIsFinal <==> Sinks(nodes) == [final])
      && (r.hasEntry <==> Entries(nodes) != [])
      && (r.allFromEntries <==> AllFromEntries(nodes))
      && (r.allToFinal <==> AllToFinal(nodes, final))
  {
    if |nodes| == 0 {
      return None;
    }
    var byId, ids := IndexNodes(nodes);
    ByIdKeys(nodes);
    var cyclic := LoopingNodes(byId, ids);
    var walk := new DepsWalk(DepsGraph(byId));
    var depsAcyclic := walk.AllAcyclic(ids);
    var entries := Entries(nodes);
    var dependents := BuildDependents(nodes);
    var fromEntries := Closure(dependents, entries);
    var start := if final in byId then [final] else [];
    var toFinal := Closure(DepsGraph(byId), start);
    ToFinalMeans(nodes, final, start, toFinal);
    FromEntriesMeans(nodes, fromEntries);
    report := Some(Report(
      |Roots(nodes)| == 1, cyclic == [], depsAcyclic, Sinks(nodes) == [final],
      |entries| > 0, fromEntries == Elements(ids), toFinal == Elements(ids)));
  }

  lemma ToFinalMeans(nodes: seq<Node>, final: Id, start: seq<Id>, toFinal: set<Id>)
    requires start == if final in ById(nodes) then [final] else []
    requires forall x :: x in toFinal <==> ReachedFrom(DepsGraph(ById(nodes)), start, x)
    ensures toFinal == Elements(Ids(nodes)) <==> AllToFinal(nodes, final)
  {
    ByIdKeys(nodes);
    forall x
      ensures x in toFinal <==> final in Ids(nodes) && Reaches(DepsGraph(ById(nodes)), final, x)
    {
      assert final in ById(nodes) <==> final in Elements(Ids(nodes));
    }
    assert forall x :: x in Elements(Ids(nodes)) <==> x in Ids(nodes);
  }

  lemma FromEntriesMeans(nodes: seq<Node>, fromEntries: set<Id>)
    requires forall x :: x in fromEntries <==> ReachedFrom(Dependents(nodes), Entries(nodes), x)
    ensures fromEntries == Elements(Ids(nodes)) <==> AllFromEntries(nodes)
  {
    assert forall x :: x in Elements(Ids(nodes)) <==> x in Ids(nodes);
  }

  /** In a well-formed list the graph's keys are the ids, and edges stay inside. */
  lemma WellFormedGraph(nodes: seq<Node>)
    requires UniqueIds(nodes) && KnownDeps(nodes)
    ensures forall x :: x in Ids(nodes) <==> x in DepsGraph(ById(nodes))
    ensures forall x, d :: d in Out(DepsGraph(ById(nodes)), x) ==> d in Ids(nodes) && x in Ids(nodes)
    ensures forall d :: d in Referenced(nodes) <==> exists x :: d in Out(DepsGraph(ById(nodes)), x)
  {
    ByIdKeys(nodes);
    var g := DepsGraph(ById(nodes));
    assert forall x :: x in Ids(nodes) <==> x in Elements(Ids(nodes));
    forall n, d | n in nodes && d in n.deps
      ensures d in Out(g, n.id)
    {
    }
  }

  lemma WellFormedDependents(nodes: seq<Node>, x: Id, d: Id)
    requires UniqueIds(nodes) && KnownDeps(nodes) && d in Out(DepsGraph(ById(nodes)), x)
    ensures x in Out(Dependents(nodes), d)
  {
    ByIdKeys(nodes);
    DependentsMean(nodes, d, x);
  }

  lemma EntriesMean(nodes: seq<Node>, x: Id)
    requires UniqueIds(nodes) && KnownDeps(nodes)
    ensures x in Entries(nodes) <==> x in Ids(nodes) && Out(DepsGraph(ById(nodes)), x) == []
  {
    ByIdKeys(nodes);
    var byId := ById(nodes);
    SelectMembers(Ids(nodes), set id | id in byId && byId[id].deps == []);
    assert x in Entries(nodes) <==> x in Elements(Entries(nodes));
    assert x in Ids(nodes) <==> x in Elements(Ids(nodes));
  }

  lemma SinksMean(nodes: seq<Node>, final: Id)
    requires UniqueIds(nodes) && KnownDeps(nodes)
    ensures Sinks(nodes) == [final] <==>
            forall x :: x in Ids(nodes) && x !in Referenced(nodes) <==> x == final
  {
    var ids, keep := Ids(nodes), Elements(Ids(nodes)) - Referenced(nodes);
    SelectMembers(ids, keep);
    assert forall x :: x in Ids(nodes) && x !in Referenced(nodes) <==> x in Elements(ids) * keep;
    if Sinks(nodes) == [final] {
      assert Elements([final]) == {final};
    }
    if forall x :: x in Ids(nodes) && x !in Referenced(nodes) <==> x == final {
      assert Elements(ids) * keep == {final};
      SelectOne(ids, keep, final);
    }
  }

  lemma {:induction false} EveryNodeFromEntries(nodes: seq<Node>, rank: map<Id, nat>, x: Id)
    requires UniqueIds(nodes) && KnownDeps(nodes) && Ranks(DepsGraph(ById(nodes)), rank)
    requires x in Ids(nodes)
    ensures ReachedFrom(Dependents(nodes), Entries(nodes), x)
    decreases if x in rank then rank[x] else 0
  {
    WellFormedGraph(nodes);
    EntriesMean(nodes, x);
    var g := DepsGraph(ById(nodes));
    if Out(g, x) == [] {
      ReachesSelf(Dependents(nodes), x);
    } else {
      var d := g[x][0];
      assert d in Out(g, x);
      WellFormedDependents(nodes, x, d);
      EveryNodeFromEntries(nodes, rank, d);
      ReachedFromStart(Dependents(nodes), Entries(nodes), d);
    }
  }

  /** In a ranked graph whose only unreferenced node is `final`, climbing to nodes that depend on
      the current one ends at `final`. */
  lemma {:induction false} EveryNodeToFinal(nodes: seq<Node>, rank: map<Id, nat>, top: nat, final: Id, x: Id)
    requires UniqueIds(nodes) && KnownDeps(nodes) && Ranks(DepsGraph(ById(nodes)), rank)
    requires forall y :: y in rank ==> rank[y] <= top
    requires forall y :: y in Ids(nodes) && y !in Referenced(nodes) ==> y == final
    requires x in Ids(nodes)
    ensures Reaches(DepsGraph(ById(nodes)), final, x)
    decreases if x in rank then top - rank[x] else 0
  {
    WellFormedGraph(nodes);
    var g := DepsGraph(ById(nodes));
    if x in Referenced(nodes) {
      var y :| x in Out(g, y);
      assert rank[x] < rank[y];
      EveryNodeToFinal(nodes, rank, top, final, y);
      ReachesStep(g, final, y, x);
    } else {
      ReachesSelf(g, x);
    }
  }

  lemma {:induction false} Bound(rank: map<Id, nat>) returns (top: nat)
    ensures forall y :: y in rank ==> rank[y] <= top
    decreases rank.Keys
  {
    if rank.Keys == {} {
      top := 0;
    } else {
      var k :| k in rank;
      var rest := Bound(rank - {k});
      top := if rest < rank[k] then rank[k] else rest;
      assert forall y :: y in rank ==> y == k || y in rank - {k};
    }
  }

  /** With unique ids and known dependencies, a draft that has no dependency cycle and whose only
      sink is the final node cannot fail the three checks that follow. */
  lemma LaterChecksFollow(nodes: seq<Node>, final: Id)
    requires UniqueIds(nodes) && KnownDeps(nodes)
    requires AcyclicDeps(nodes) && Sinks(nodes) == [final]
    ensures Entries(nodes) != [] && AllFromEntries(nodes) && AllToFinal(nodes, final)
  {
    var g := DepsGraph(ById(nodes));
    WellFormedGraph(nodes);
    SinksMean(nodes, final);
    AcyclicIffRanked(g);
    var rank :| Ranks(g, rank);
    var top := Bound(rank);
    EveryNodeFromEntries(nodes, rank, final);
    forall x | x in Ids(nodes)
      ensures ReachedFrom(Dependents(nodes), Entries(nodes), x) && Reaches(g, final, x)
    {
      EveryNodeFromEntries(nodes, rank, x);
      EveryNodeToFinal(nodes, rank, top, final, x);
    }
    ReachedAreNodes(nodes, final);
  }

  /** The searches never leave the node list. */
  lemma ReachedAreNodes(nodes: seq<Node>, final: Id)
    requires UniqueIds(nodes) && KnownDeps(nodes) && final in Ids(nodes)
    ensures forall x :: ReachedFrom(Dependents(nodes), Entries(nodes), x) ==> x in Ids(nodes)
    ensures forall x :: Reaches(DepsGraph(ById(nodes)), final, x) ==> x in Ids(nodes)
  {
    WellFormedGraph(nodes);
    var all := Elements(Ids(nodes));
    forall a, b | b in Out(Dependents(nodes), a)
      ensures b in all
    {
      DependentsMean(nodes, a, b);
      var n :| n in nodes && n.id == b && a in n.deps;
      var i :| 0 <= i < |nodes| && nodes[i] == n;
      assert Ids(nodes)[i] == b;
    }
    forall x | ReachedFrom(Dependents(nodes), Entries(nodes), x)
      ensures x in Ids(nodes)
    {
      var s :| s in Entries(nodes) && Reaches(Dependents(nodes), s, x);
      EntriesMean(nodes, s);
      var p :| WalkFromTo(Dependents(nodes), s, p, x);
      ClosedContainsReached(Dependents(nodes), all, p);
    }
    forall x | Reaches(DepsGraph(ById(nodes)), final, x)
      ensures x in Ids(nodes)
    {
      var p :| WalkFromTo(DepsGraph(ById(nodes)), final, p, x);
      ClosedContainsReached(DepsGraph(ById(nodes)), all, p);
    }
  }

  /** Without a cycle, the sink check and the last reachability check are the same check. */
  lemma SinkCheckIffToFinal(nodes: seq<Node>, final: Id)
    requires UniqueIds(nodes) && KnownDeps(nodes) && AcyclicDeps(nodes) && final in Ids(nodes)
    ensures Sinks(nodes) == [final] <==> AllToFinal(nodes, final)
  {
    if Sinks(nodes) == [final] {
      LaterChecksFollow(nodes, final);
    }
    if AllToFinal(nodes, final) {
      WellFormedGraph(nodes);
      var g := DepsGraph(ById(nodes));
      hide ById, DepsGraph, Ids, Referenced, Sinks;
      forall x | x in Ids(nodes) && x != final
        ensures x in Referenced(nodes)
      {
        ReachedHasEdgeIn(g, final, x);
      }
      if final in Referenced(nodes) {
        var y :| final in Out(g, y);
        EdgeBackIsCycle(g, final, y);
      }
      SinksMean(nodes, final);
    }
  }

  lemma ReachedHasEdgeIn(g: Graph, a: Id, x: Id)
    requires Reaches(g, a, x) && x != a
    ensures exists y :: x in Out(g, y)
  {
    var p :| WalkFromTo(g, a, p, x);
    assert EdgeAt(g, p, |p| - 2);
  }

  lemma EdgeBackIsCycle(g: Graph, a: Id, y: Id)
    requires Reaches(g, a, y) && a in Out(g, y)
    ensures HasCycle(g)
  {
    var p :| WalkFromTo(g, a, p, y);
    WalkAppend(g, p, a);
    assert Cycle(g, p + [a]);
  }

  /** One root, known parents and chains that end make the parents a tree: every chain ends at
      that root. */
  lemma ParentsFormTree(nodes: seq<Node>, root: Id, x: Id)
    requires UniqueIds(nodes) && Roots(nodes) == [root] && ParentChainsEnd(nodes) && x in Ids(nodes)
    requires forall n :: n in nodes && n.parent.Some? ==> n.parent.value in Ids(nodes)
    ensures Reaches(ParentGraph(ById(nodes)), x, root)
  {
    ByIdKeys(nodes);
    var g := ParentGraph(ById(nodes));
    var b :| Reaches(g, x, b) && Out(g, b) == [];
    var p :| WalkFromTo(g, x, p, b);
    var all := Elements(Ids(nodes));
    ClosedContainsReached(g, all, p);
    RootsMean(nodes, b);
  }

  /** There is one root in the list exactly when one node has no parent. */
  lemma {:induction false} OneRootIff(nodes: seq<Node>)
    ensures |Roots(nodes)| == 1 <==> exists i: nat :: OnlyRoot(nodes, i)
    ensures |Roots(nodes)| == 0 <==> forall i :: 0 <= i < |nodes| ==> nodes[i].parent.Some?
  {
    if nodes != [] {
      var n := |nodes| - 1;
      var init := nodes[..n];
      OneRootIff(init);
      assert forall i :: 0 <= i < n ==> init[i] == nodes[i];
      if nodes[n].parent.Some? {
        if i: nat :| OnlyRoot(init, i) {
          assert OnlyRoot(nodes, i);
        }
        if i: nat :| OnlyRoot(nodes, i) {
          assert OnlyRoot(init, i);
        }
      } else if |Roots(init)| == 0 {
        assert OnlyRoot(nodes, n);
      }
    }
  }

  ghost predicate OnlyRoot(nodes: seq<Node>, i: nat) {
    && i < |nodes| && nodes[i].parent.None?
    && forall j :: 0 <= j < |nodes| && j != i ==> nodes[j].parent.Some?
  }

  lemma {:induction false} RootsMean(nodes: seq<Node>, b: Id)
    ensures b in Roots(nodes) <==> exists n :: n in nodes && n.id == b && n.parent.None?
  {
    if nodes != [] {
      var init, last := nodes[..|nodes| - 1], nodes[|nodes| - 1];
      RootsMean(init, b);
      assert nodes == init + [last];
    }
  }
}
