/** Finite directed graphs given by adjacency lists: walks, cycles and rank functions. */
module Graphs {
  type Id = string

  /** Outgoing edges. An id without an entry has none, and lists may name such ids. */
  type Graph = map<Id, seq<Id>>

  function Out(g: Graph, a: Id): seq<Id> {
    if a in g then g[a] else []
  }

  ghost predicate EdgeAt(g: Graph, p: seq<Id>, i: nat)
    requires i + 1 < |p|
  {
    p[i + 1] in Out(g, p[i])
  }

  ghost predicate Walk(g: Graph, p: seq<Id>) {
    |p| >= 1 && forall i: nat :: i + 1 < |p| ==> EdgeAt(g, p, i)
  }

  ghost predicate WalkFromTo(g: Graph, a: Id, p: seq<Id>, b: Id) {
    Walk(g, p) && p[0] == a && p[|p| - 1] == b
  }

  ghost predicate Reaches(g: Graph, a: Id, b: Id) {
    exists p :: WalkFromTo(g, a, p, b)
  }

  ghost predicate Cycle(g: Graph, p: seq<Id>) {
    Walk(g, p) && |p| >= 2 && p[0] == p[|p| - 1]
  }

  ghost predicate HasCycle(g: Graph) {
    exists p :: Cycle(g, p)
  }

  /** A rank drops along every edge between ids that have an entry. */
  ghost predicate Ranks(g: Graph, rank: map<Id, nat>) {
    && g.Keys <= rank.Keys
    && forall a, b :: a in g && b in g[a] && b in g ==> rank[b] < rank[a]
  }

  lemma ReachesSelf(g: Graph, a: Id)
    ensures Reaches(g, a, a)
  {
    assert WalkFromTo(g, a, [a], a);
  }

  lemma ReachesStep(g: Graph, a: Id, b: Id, c: Id)
    requires Reaches(g, a, b) && c in Out(g, b)
    ensures Reaches(g, a, c)
  {
    var p :| WalkFromTo(g, a, p, b);
    WalkAppend(g, p, c);
    assert WalkFromTo(g, a, p + [c], c);
  }

  lemma WalkAppend(g: Graph, p: seq<Id>, c: Id)
    requires Walk(g, p) && c in Out(g, p[|p| - 1])
    ensures Walk(g, p + [c])
  {
    forall i: nat | i + 1 < |p + [c]|
      ensures EdgeAt(g, p + [c], i)
    {
      assert i + 1 < |p| ==> EdgeAt(g, p, i);
    }
  }

  lemma WalkSlice(g: Graph, p: seq<Id>, lo: nat, hi: nat)
    requires Walk(g, p) && lo < hi <= |p|
    ensures Walk(g, p[lo..hi])
  {
    forall i: nat | i + 1 < hi - lo
      ensures EdgeAt(g, p[lo..hi], i)
    {
      assert EdgeAt(g, p, lo + i);
    }
  }

  /** A set that contains a and every successor of its members contains all that a reaches. */
  lemma {:induction false} ClosedContainsReached(g: Graph, s: set<Id>, p: seq<Id>)
    requires Walk(g, p) && p[0] in s
    requires forall a, b :: a in s && b in Out(g, a) ==> b in s
    ensures p[|p| - 1] in s
    decreases |p|
  {
    if |p| > 1 {
      assert EdgeAt(g, p, 0);
      WalkSlice(g, p, 1, |p|);
      assert p[1..|p|] == p[1..];
      ClosedContainsReached(g, s, p[1..]);
    }
  }

  // ---- Rank functions exclude cycles ----

  lemma {:induction false} RankDropsAlong(g: Graph, rank: map<Id, nat>, p: seq<Id>)
    requires Ranks(g, rank) && Walk(g, p) && |p| >= 2
    requires forall i :: 0 <= i < |p| ==> p[i] in g
    ensures rank[p[|p| - 1]] < rank[p[0]]
    decreases |p|
  {
    assert EdgeAt(g, p, 0);
    if |p| > 2 {
      WalkSlice(g, p, 1, |p|);
      assert p[1..|p|] == p[1..];
      RankDropsAlong(g, rank, p[1..]);
    }
  }

  lemma RankedHasNoCycle(g: Graph, rank: map<Id, nat>)
    requires Ranks(g, rank)
    ensures !HasCycle(g)
  {
    forall p | Cycle(g, p)
      ensures false
    {
      forall i: nat | i < |p|
        ensures p[i] in g
      {
        assert EdgeAt(g, p, if i + 1 < |p| then i else 0);
      }
      RankDropsAlong(g, rank, p);
    }
  }

  // ---- A finite graph without cycles has a rank function ----

  ghost predicate ContinuesIn(g: Graph, s: set<Id>, x: Id) {
    exists y :: y in s && y in Out(g, x)
  }

  /** Following successors inside s gives a walk as long as one likes. */
  lemma {:induction false} LongWalk(g: Graph, s: set<Id>, a: Id, n: nat) returns (p: seq<Id>)
    requires a in s
    requires forall x {:trigger ContinuesIn(g, s, x)} :: x in s ==> ContinuesIn(g, s, x)
    ensures |p| == n + 1 && Walk(g, p) && forall i :: 0 <= i < |p| ==> p[i] in s
    ensures p[0] == a
    decreases n
  {
    if n == 0 {
      p := [a];
    } else {
      assert ContinuesIn(g, s, a);
      var b :| b in s && b in Out(g, a);
      var rest := LongWalk(g, s, b, n - 1);
      p := [a] + rest;
      forall i: nat | i + 1 < |p|
        ensures EdgeAt(g, p, i)
      {
        assert i > 0 ==> EdgeAt(g, rest, i - 1);
      }
    }
  }

  lemma {:induction false} Repetition(p: seq<Id>, s: set<Id>)
    requires |p| > |s| && forall i :: 0 <= i < |p| ==> p[i] in s
    ensures exists i, j :: 0 <= i < j < |p| && p[i] == p[j]
    decreases |p|
  {
    var last := p[|p| - 1];
    if i :| 0 <= i < |p| - 1 && p[i] == last {
      assert p[i] == p[|p| - 1];
    } else {
      var init := p[..|p| - 1];
      Repetition(init, s - {last});
      var i, j :| 0 <= i < j < |init| && init[i] == init[j];
      assert p[i] == p[j];
    }
  }

  lemma EndlessSetHasCycle(g: Graph, s: set<Id>)
    requires s != {}
    requires forall x {:trigger ContinuesIn(g, s, x)} :: x in s ==> ContinuesIn(g, s, x)
    ensures HasCycle(g)
  {
    var a :| a in s;
    var p := LongWalk(g, s, a, |s|);
    Repetition(p, s);
    var i, j :| 0 <= i < j < |p| && p[i] == p[j];
    WalkSlice(g, p, i, j + 1);
    assert Cycle(g, p[i..j + 1]);
  }

  /** Ranks, all below `next`, on a part of the graph that is closed under edges. */
  ghost predicate PartlyRanked(g: Graph, rank: map<Id, nat>, next: nat) {
    && rank.Keys <= g.Keys
    && (forall a :: a in rank ==> rank[a] < next)
    && forall a, b :: a in rank && b in g[a] && b in g ==> b in rank && rank[b] < rank[a]
  }

  lemma RankOneMore(g: Graph, rank: map<Id, nat>, next: nat, x: Id)
    requires PartlyRanked(g, rank, next) && x in g && x !in rank
    requires forall b :: b in g[x] && b in g ==> b in rank
    ensures PartlyRanked(g, rank[x := next], next + 1)
  {
  }

  lemma {:induction false} ExtendRank(g: Graph, rank: map<Id, nat>, next: nat) returns (full: map<Id, nat>)
    requires !HasCycle(g) && PartlyRanked(g, rank, next)
    ensures Ranks(g, full)
    decreases g.Keys - rank.Keys
  {
    var rest := g.Keys - rank.Keys;
    if rest == {} {
      assert forall x :: x in g ==> x in rest || x in rank;
      full := rank;
    } else {
      var x := SomeSink(g, rest);
      RankOneMore(g, rank, next, x);
      full := ExtendRank(g, rank[x := next], next + 1);
    }
  }

  lemma SomeSink(g: Graph, s: set<Id>) returns (x: Id)
    requires !HasCycle(g) && s != {}
    ensures x in s && forall y :: y in s ==> y !in Out(g, x)
  {
    if forall x {:trigger ContinuesIn(g, s, x)} :: x in s ==> ContinuesIn(g, s, x) {
      EndlessSetHasCycle(g, s);
    }
    x :| x in s && !ContinuesIn(g, s, x);
  }

  /** Having no cycle and having a rank function are the same thing. */
  lemma AcyclicIffRanked(g: Graph)
    ensures !HasCycle(g) <==> exists rank :: Ranks(g, rank)
  {
    if !HasCycle(g) {
      var rank := ExtendRank(g, map[], 0);
    }
    forall rank | Ranks(g, rank)
      ensures !HasCycle(g)
    {
      RankedHasNoCycle(g, rank);
    }
  }

  // ---- Worklist closure ----

  /** Every id that occurs: a bound for searches. */
  ghost function Universe(g: Graph): (all: set<Id>)
    ensures forall a :: Elements(Out(g, a)) <= all
  {
    g.Keys + set a, b | a in g && b in g[a] :: b
  }

  ghost predicate ReachedFrom(g: Graph, start: seq<Id>, x: Id) {
    exists s :: s in start && Reaches(g, s, x)
  }

  function Elements(s: seq<Id>): set<Id> {
    set x | x in s
  }

  lemma ElementsAppend(s: seq<Id>, t: seq<Id>)
    ensures Elements(s + t) == Elements(s) + Elements(t)
  {
  }

  /** All that was visited or is pending is reached, and what remains to be visited is pending. */
  ghost predicate Exploring(g: Graph, start: seq<Id>, visited: set<Id>, pending: set<Id>) {
    && (forall x :: x in visited + pending ==> ReachedFrom(g, start, x))
    && Elements(start) <= visited + pending
    && forall a :: a in visited ==> Elements(Out(g, a)) <= visited + pending
  }

  lemma ExploreStep(g: Graph, start: seq<Id>, visited: set<Id>, pending: set<Id>, a: Id)
    requires Exploring(g, start, visited, pending + {a})
    ensures a in visited ==> Exploring(g, start, visited, pending)
    ensures Exploring(g, start, visited + {a}, pending + Elements(Out(g, a)))
  {
    ReachedFromStart(g, start, a);
  }

  lemma ExploreStart(g: Graph, start: seq<Id>)
    ensures Exploring(g, start, {}, Elements(start))
  {
    forall s | s in start
      ensures ReachedFrom(g, start, s)
    {
      ReachesSelf(g, s);
    }
  }

  lemma StaysBounded(g: Graph, queue: seq<Id>, a: Id, visited: set<Id>, unseen: set<Id>)
    requires Elements(queue) + {a} <= visited + unseen && Universe(g) <= visited + unseen && a !in visited
    ensures |unseen - {a}| < |unseen|
    ensures Elements(queue + Out(g, a)) == Elements(queue) + Elements(Out(g, a))
    ensures Elements(queue + Out(g, a)) <= (visited + {a}) + (unseen - {a})
    ensures Universe(g) <= (visited + {a}) + (unseen - {a})
  {
    ElementsAppend(queue, Out(g, a));
    assert a in unseen;
    assert unseen == (unseen - {a}) + {a};
  }

  lemma ExploredAll(g: Graph, start: seq<Id>, visited: set<Id>)
    requires Exploring(g, start, visited, {})
    ensures forall x :: x in visited <==> ReachedFrom(g, start, x)
  {
    forall x | ReachedFrom(g, start, x)
      ensures x in visited
    {
      var s :| s in start && Reaches(g, s, x);
      var p :| WalkFromTo(g, s, p, x);
      ClosedContainsReached(g, visited, p);
    }
  }

  function PopLast(s: seq<Id>): (t: seq<Id>)
    requires |s| > 0
    ensures Elements(s) == Elements(t) + {s[|s| - 1]}
  {
    assert s == s[..|s| - 1] + [s[|s| - 1]];
    ElementsAppend(s[..|s| - 1], [s[|s| - 1]]);
    s[..|s| - 1]
  }

  /** Pops from the end, skips what was visited, otherwise visits and pushes the successors;
      the visited set is exactly what the start list reaches. */
  method Closure(g: Graph, start: seq<Id>) returns (visited: set<Id>)
    ensures forall x :: x in visited <==> ReachedFrom(g, start, x)
  {
    visited := {};
    var queue := start;
    ExploreStart(g, start);
    ghost var unseen := Universe(g) + Elements(start);
    while |queue| > 0
      invariant Exploring(g, start, visited, Elements(queue))
      invariant Elements(queue) <= visited + unseen && Universe(g) <= visited + unseen
      decreases |unseen|, |queue|
    {
      var current := queue[|queue| - 1];
      queue := PopLast(queue);
      ExploreStep(g, start, visited, Elements(queue), current);
      if current in visited {
        continue;
      }
      StaysBounded(g, queue, current, visited, unseen);
      visited, unseen := visited + {current}, unseen - {current};
      queue := queue + Out(g, current);
    }
    ExploredAll(g, start, visited);
  }

  lemma ReachedFromStart(g: Graph, start: seq<Id>, a: Id)
    requires ReachedFrom(g, start, a)
    ensures forall b :: b in Out(g, a) ==> ReachedFrom(g, start, b)
  {
    var s :| s in start && Reaches(g, s, a);
    forall b | b in Out(g, a)
      ensures Reaches(g, s, b)
    {
      ReachesStep(g, s, a, b);
    }
  }
}
