/** The store's search for a dependency cycle, and what an edited edge list can break. */
module DependencyCheck {
  import opened Graphs

  ghost predicate ReachesCycle(g: Graph, start: Id) {
    exists p :: Cycle(g, p) && Reaches(g, start, p[0])
  }

  /** Ranks, all below `next`, on a set of ids that is closed under edges. */
  ghost predicate Settled(g: Graph, rank: map<Id, nat>, next: nat) {
    && (forall a :: a in rank ==> rank[a] < next)
    && forall a, b :: a in rank && b in Out(g, a) ==> b in rank && rank[b] < rank[a]
  }

  /** The two sets of the search: `visiting` is the stack, `done` the settled ids. */
  ghost predicate Searching(g: Graph, visiting: set<Id>, done: set<Id>, rank: map<Id, nat>, next: nat, path: seq<Id>) {
    && visiting == Elements(path) && done == rank.Keys && visiting !! done
    && (path != [] ==> Walk(g, path))
    && Settled(g, rank, next)
  }

  lemma EnterNode(g: Graph, visiting: set<Id>, done: set<Id>, rank: map<Id, nat>, next: nat, path: seq<Id>, id: Id)
    requires Searching(g, visiting, done, rank, next, path) && id !in visiting && id !in done
    requires path != [] ==> id in Out(g, path[|path| - 1])
    ensures Searching(g, visiting + {id}, done, rank, next, path + [id])
  {
    ElementsAppend(path, [id]);
    if path != [] {
      WalkAppend(g, path, id);
    }
  }

  lemma LeaveNode(g: Graph, visiting: set<Id>, done: set<Id>, rank: map<Id, nat>, next: nat, path: seq<Id>, id: Id)
    requires Searching(g, visiting, done, rank, next, path + [id]) && id !in path
    requires forall k :: 0 <= k < |Out(g, id)| ==> Out(g, id)[k] in done
    ensures Searching(g, visiting - {id}, done + {id}, rank[id := next], next + 1, path)
  {
    ElementsAppend(path, [id]);
    assert visiting - {id} == Elements(path);
    if path != [] {
      WalkSlice(g, path + [id], 0, |path|);
      assert (path + [id])[0..|path|] == path;
    }
    SettleOneMore(g, rank, next, id);
  }

  lemma SettleOneMore(g: Graph, rank: map<Id, nat>, next: nat, id: Id)
    requires Settled(g, rank, next) && id !in rank
    requires forall k :: 0 <= k < |Out(g, id)| ==> Out(g, id)[k] in rank
    ensures Settled(g, rank[id := next], next + 1)
  {
  }

  lemma SearchMeans(g: Graph, visiting: set<Id>, done: set<Id>, rank: map<Id, nat>, next: nat, path: seq<Id>, id: Id)
    requires Searching(g, visiting, done, rank, next, path)
    requires path != [] ==> id in Out(g, path[|path| - 1])
    ensures id in done <==> id in rank
    ensures id in visiting <==> id in path
    ensures id in visiting ==> exists i, p :: 0 <= i < |path| && Cycle(g, p) && p[0] == path[i]
  {
    if id in visiting {
      var i: nat :| i < |path| && path[i] == id;
      WalkSlice(g, path, i, |path|);
      WalkAppend(g, path[i..|path|], id);
      assert Cycle(g, path[i..|path|] + [id]);
    }
  }

  lemma OnStackIsReached(g: Graph, path: seq<Id>, i: nat)
    requires Walk(g, path) && i < |path|
    ensures Reaches(g, path[0], path[i])
  {
    WalkSlice(g, path, 0, i + 1);
    assert WalkFromTo(g, path[0], path[0..i + 1], path[i]);
  }

  /** The store's nested `visit` and the two sets it shares between calls. */
  class Visitor {
    const g: Graph
    var visiting: set<Id>
    var done: set<Id>
    ghost var rank: map<Id, nat>
    ghost var next: nat

    constructor (g: Graph)
      ensures this.g == g && Searching(g, visiting, done, rank, next, [])
    {
      this.g := g;
      visiting, done, rank, next := {}, {}, map[], 0;
    }

    /** True when an edge led back into the stack; otherwise the node and all below are settled. */
    method Visit(id: Id, ghost start: Id, ghost path: seq<Id>) returns (cyclic: bool)
      requires Searching(g, visiting, done, rank, next, path)
      requires if path == [] then id == start else path[0] == start && id in Out(g, path[|path| - 1])
      requires id in Universe(g) + {start}
      modifies this
      ensures old(visiting + done) <= visiting + done && old(done) <= done
      ensures cyclic ==> ReachesCycle(g, start)
      ensures !cyclic ==> Searching(g, visiting, done, rank, next, path) && id in done
      decreases Universe(g) + {start} - (visiting + done), 0
    {
      hide Searching;
      SearchMeans(g, visiting, done, rank, next, path, id);
      if id in done {
        return false;
      }
      if id in visiting {
        StackCycle(g, start, visiting, done, rank, next, path, id);
        return true;
      }
      EnterNode(g, visiting, done, rank, next, path, id);
      ghost var before := visiting + done;
      visiting := visiting + {id};
      assert visiting + done == before + {id};
      cyclic := VisitAll(id, start, path + [id]);
      if !cyclic {
        LeaveNode(g, visiting, done, rank, next, path, id);
        visiting, done := visiting - {id}, done + {id};
        rank, next := rank[id := next], next + 1;
      }
    }

    /** The loop over the dependencies of the node on top of the stack. */
    method VisitAll(id: Id, ghost start: Id, ghost stack: seq<Id>) returns (cyclic: bool)
      requires stack != [] && stack[0] == start && stack[|stack| - 1] == id
      requires Searching(g, visiting, done, rank, next, stack)
      modifies this
      ensures old(visiting + done) <= visiting + done && old(done) <= done
      ensures cyclic ==> ReachesCycle(g, start)
      ensures !cyclic ==> Searching(g, visiting, done, rank, next, stack)
      ensures !cyclic ==> forall k :: 0 <= k < |Out(g, id)| ==> Out(g, id)[k] in done
      decreases Universe(g) + {start} - (visiting + done), 1
    {
      hide Searching;
      var deps := Out(g, id);
      for j := 0 to |deps|
        invariant Searching(g, visiting, done, rank, next, stack)
        invariant old(visiting + done) <= visiting + done && old(done) <= done
        invariant forall k :: 0 <= k < j ==> deps[k] in done
      {
        assert deps[j] in Elements(Out(g, id));
        cyclic := Visit(deps[j], start, stack);
        if cyclic {
          return;
        }
      }
      return false;
    }
  }

  lemma StackCycle(g: Graph, start: Id, visiting: set<Id>, done: set<Id>, rank: map<Id, nat>, next: nat,
                   path: seq<Id>, id: Id)
    requires Searching(g, visiting, done, rank, next, path) && id in visiting
    requires path != [] ==> path[0] == start && id in Out(g, path[|path| - 1])
    ensures ReachesCycle(g, start)
  {
    SearchMeans(g, visiting, done, rank, next, path, id);
    var i, p :| 0 <= i < |path| && Cycle(g, p) && p[0] == path[i];
    OnStackIsReached(g, path, i);
  }

  /** hasDependencyCycle: exactly whether a cycle can be reached from the start node. */
  method HasDependencyCycle(g: Graph, start: Id) returns (cyclic: bool)
    ensures cyclic <==> ReachesCycle(g, start)
  {
    var visitor := new Visitor(g);
    cyclic := visitor.Visit(start, start, []);
    if !cyclic {
      SettledReachesNoCycle(g, visitor.rank, visitor.next, start);
    }
  }

  lemma SettledReachesNoCycle(g: Graph, rank: map<Id, nat>, next: nat, start: Id)
    requires Settled(g, rank, next) && start in rank
    ensures !ReachesCycle(g, start)
  {
    forall p | Cycle(g, p) && Reaches(g, start, p[0])
      ensures false
    {
      var w :| WalkFromTo(g, start, w, p[0]);
      ClosedContainsReached(g, rank.Keys, w);
      SettledDropsAlong(g, rank, next, p);
    }
  }

  lemma {:induction false} SettledDropsAlong(g: Graph, rank: map<Id, nat>, next: nat, p: seq<Id>)
    requires Settled(g, rank, next) && Walk(g, p) && |p| >= 2 && p[0] in rank
    ensures p[|p| - 1] in rank && rank[p[|p| - 1]] < rank[p[0]]
    decreases |p|
  {
    assert EdgeAt(g, p, 0);
    if |p| > 2 {
      WalkSlice(g, p, 1, |p|);
      assert p[1..|p|] == p[1..];
      SettledDropsAlong(g, rank, next, p[1..]);
    }
  }

  // ---- Edits of an acyclic graph ----

  /** Changing the edges of one node creates a cycle only if that node can reach one afterwards. */
  lemma EditCreatesCycleIff(g: Graph, id: Id, deps: seq<Id>)
    requires !HasCycle(g)
    ensures HasCycle(g[id := deps]) <==> ReachesCycle(g[id := deps], id)
  {
    var h := g[id := deps];
    forall p | Cycle(h, p)
      ensures ReachesCycle(h, id)
    {
      if k: nat :| k < |p| && p[k] == id {
        WalkSlice(h, p, k, |p|);
        assert WalkFromTo(h, id, p[k..|p|], p[0]);
      } else {
        SameWalkElsewhere(g, h, p, id);
        assert Cycle(g, p);
      }
    }
  }

  lemma SameWalkElsewhere(g: Graph, h: Graph, p: seq<Id>, id: Id)
    requires Walk(h, p) && forall k :: 0 <= k < |p| ==> p[k] != id
    requires forall a :: a != id ==> Out(h, a) == Out(g, a)
    ensures Walk(g, p)
  {
    forall i: nat | i + 1 < |p|
      ensures EdgeAt(g, p, i)
    {
      assert EdgeAt(h, p, i);
    }
  }

  /** A walk to id can stop at its first arrival, and until then it leaves no edge of id behind. */
  lemma {:induction false} FirstArrival(g: Graph, id: Id, deps: seq<Id>, p: seq<Id>)
    requires Walk(g, p) && p[|p| - 1] == id
    ensures Reaches(g[id := deps], p[0], id)
    decreases |p|
  {
    var h := g[id := deps];
    if p[0] == id {
      ReachesSelf(h, id);
    } else {
      assert EdgeAt(g, p, 0);
      WalkSlice(g, p, 1, |p|);
      assert p[1..|p|] == p[1..];
      FirstArrival(g, id, deps, p[1..]);
      ReachesFrom(h, p[0], p[1], id);
    }
  }

  lemma ReachesFrom(g: Graph, a: Id, b: Id, c: Id)
    requires b in Out(g, a) && Reaches(g, b, c)
    ensures Reaches(g, a, c)
  {
    var p :| WalkFromTo(g, b, p, c);
    var q := [a] + p;
    forall i: nat | i + 1 < |q|
      ensures EdgeAt(g, q, i)
    {
      assert i > 0 ==> EdgeAt(g, p, i - 1);
    }
    assert WalkFromTo(g, a, q, c);
  }

  lemma {:induction false} LargestRank(rank: map<Id, nat>) returns (top: nat)
    ensures forall x :: x in rank ==> rank[x] <= top
    decreases rank.Keys
  {
    top := 0;
    if rank.Keys != {} {
      var x :| x in rank;
      var rest := LargestRank(rank - {x});
      top := if rest < rank[x] then rank[x] else rest;
      assert forall y :: y in rank ==> y == x || y in rank - {x};
    }
  }

  function Layer(rank: map<Id, nat>, low: set<Id>, top: nat, x: Id): nat {
    (if x in rank then rank[x] + 1 else 0) + if x in low then 0 else top + 2
  }

  /** What is reached from the new dependencies: closed under the old edges and without id. */
  lemma ReachedSet(g: Graph, id: Id, deps: seq<Id>, h: Graph) returns (low: set<Id>)
    requires forall d :: d in deps ==> !Reaches(g, d, id)
    ensures id !in low && forall d :: d in deps && d in h ==> d in low
    ensures forall z, w :: z in low && w in Out(g, z) && w in h ==> w in low
  {
    low := set x | x in h && ReachedFrom(g, deps, x);
    forall d | d in deps
      ensures ReachedFrom(g, deps, d)
    {
      ReachesSelf(g, d);
    }
    forall z, w | z in low && w in Out(g, z)
      ensures ReachedFrom(g, deps, w)
    {
      ReachedFromStart(g, deps, z);
    }
  }

  /** If no new dependency reaches id, what they reach can be ranked below everything else. */
  lemma UnreachedEditIsAcyclic(g: Graph, id: Id, deps: seq<Id>)
    requires !HasCycle(g) && forall d :: d in deps ==> !Reaches(g, d, id)
    ensures !HasCycle(g[id := deps])
  {
    hide Reaches, HasCycle;
    AcyclicIffRanked(g);
    var full :| Ranks(g, full);
    var h := g[id := deps];
    var low := ReachedSet(g, id, deps, h);
    LayersRank(g, h, map x | x in g :: full[x], low, id);
  }

  lemma LayersRank(g: Graph, h: Graph, rank: map<Id, nat>, low: set<Id>, id: Id)
    requires Ranks(g, rank) && rank.Keys == g.Keys
    requires id !in low && h == g[id := Out(h, id)] && forall d :: d in Out(h, id) && d in h ==> d in low
    requires forall z, w :: z in low && w in Out(g, z) && w in h ==> w in low
    ensures !HasCycle(h)
  {
    var top := LargestRank(rank);
    var layers := map x | x in h :: Layer(rank, low, top, x);
    forall x, y | x in h && y in h[x] && y in h
      ensures layers[y] < layers[x]
    {
      LayersDrop(g, h, rank, low, top, id, x, y);
    }
    RankedHasNoCycle(h, layers);
  }

  lemma LayersDrop(g: Graph, h: Graph, rank: map<Id, nat>, low: set<Id>, top: nat, id: Id, x: Id, y: Id)
    requires Ranks(g, rank) && rank.Keys == g.Keys && forall z :: z in rank ==> rank[z] <= top
    requires id !in low && h == g[id := Out(h, id)] && forall d :: d in Out(h, id) && d in h ==> d in low
    requires forall z, w :: z in low && w in Out(g, z) && w in h ==> w in low
    requires y in Out(h, x) && y in h
    ensures Layer(rank, low, top, y) < Layer(rank, low, top, x)
  {
    if x != id {
      assert x in g && y in g[x];
    }
  }

  /** New dependencies of id create a cycle exactly when one of them already depends on id. */
  lemma EditCreatesCycleIffReached(g: Graph, id: Id, deps: seq<Id>)
    requires !HasCycle(g)
    ensures HasCycle(g[id := deps]) <==> exists d :: d in deps && Reaches(g, d, id)
  {
    var h := g[id := deps];
    if d :| d in deps && Reaches(g, d, id) {
      var p :| WalkFromTo(g, d, p, id);
      FirstArrival(g, id, deps, p);
      var q :| WalkFromTo(h, d, q, id);
      var c := [id] + q;
      forall i: nat | i + 1 < |c|
        ensures EdgeAt(h, c, i)
      {
        assert i > 0 ==> EdgeAt(h, q, i - 1);
      }
      assert Cycle(h, c);
    } else {
      UnreachedEditIsAcyclic(g, id, deps);
    }
  }

  /** A new node that nothing points to creates no cycle. */
  lemma NewNodeCreatesNoCycle(g: Graph, id: Id, deps: seq<Id>)
    requires !HasCycle(g) && id !in deps
    requires forall a :: id !in Out(g, a)
    ensures !HasCycle(g[id := deps])
  {
    var h := g[id := deps];
    forall a
      ensures id !in Out(h, a)
    {
      assert Out(h, a) == if a == id then deps else Out(g, a);
    }
    forall p | Cycle(h, p)
      ensures false
    {
      forall k: nat | k < |p|
        ensures p[k] != id
      {
        var i: nat := if k > 0 then k - 1 else |p| - 2;
        assert EdgeAt(h, p, i);
        assert p[k] == p[i + 1];
      }
      SameWalkElsewhere(g, h, p, id);
      assert Cycle(g, p);
    }
  }
}
