/** The arena's selection of video pairs: unseen pairs only, least-shown candidates first. */
module PairSelector {
  import opened Wrappers
  import opened Sorting

  datatype Candidate = Candidate(root: string, video: string, ok: bool)

  datatype Offer = Offer(first: Candidate, second: Candidate, key: string, exposure: nat)

  datatype Presentation = Presentation(left: Candidate, right: Candidate)

  /** How often each candidate was shown, and the keys of the pairs that were. */
  datatype State = State(shown: map<string, nat>, seen: set<string>)

  // ---- Pair keys ----

  /** The two ids in order, joined by a bar. */
  function PairKey(a: string, b: string): string {
    if StrLe(a, b) then a + "|" + b else b + "|" + a
  }

  /** Ids as the arena accepts them contain no bar. */
  predicate Plain(id: string) {
    '|' !in id
  }

  lemma FirstBar(a: string, b: string)
    requires Plain(a)
    ensures var s := a + "|" + b;
            s[|a|] == '|' && forall k :: 0 <= k < |a| ==> s[k] != '|'
  {
    var s := a + "|" + b;
    forall k | 0 <= k < |a|
      ensures s[k] != '|'
    {
      assert a[k] in a;
    }
  }

  lemma SplitAtBar(a: string, b: string, c: string, d: string)
    requires Plain(a) && Plain(c) && a + "|" + b == c + "|" + d
    ensures a == c && b == d
  {
    var s := a + "|" + b;
    FirstBar(a, b);
    FirstBar(c, d);
    assert |a| == |c|;
    assert a == s[..|a|] && c == s[..|a|];
    assert b == s[|a| + 1..] && d == s[|a| + 1..];
  }

  /** The key names the unordered pair: it ignores the order and, for ids without a bar, nothing else. */
  lemma KeyNamesPair(a: string, b: string, c: string, d: string)
    requires Plain(a) && Plain(b) && Plain(c) && Plain(d)
    ensures PairKey(a, b) == PairKey(c, d) <==> (a == c && b == d) || (a == d && b == c)
  {
    KeyIsSymmetric(a, b);
    if PairKey(a, b) == PairKey(c, d) {
      var (x, y) := if StrLe(a, b) then (a, b) else (b, a);
      var (z, w) := if StrLe(c, d) then (c, d) else (d, c);
      SplitAtBar(x, y, z, w);
    }
  }

  lemma KeyIsSymmetric(a: string, b: string)
    ensures PairKey(a, b) == PairKey(b, a)
  {
    StrLeTotal(a, b);
  }

  // ---- One pick ----

  function Usable(eligible: seq<Candidate>): seq<Candidate> {
    if eligible == [] then []
    else
      var init, last := Usable(eligible[..|eligible| - 1]), eligible[|eligible| - 1];
      if last.ok then init + [last] else init
  }

  function Registered(shown: map<string, nat>, pool: seq<Candidate>): map<string, nat> {
    if pool == [] then shown
    else
      var init, last := Registered(shown, pool[..|pool| - 1]), pool[|pool| - 1].root;
      if last in init then init else init[last := 0]
  }

  function Count(shown: map<string, nat>, id: string): nat {
    if id in shown then shown[id] else 0
  }

  function Offered(st: State, a: Candidate, b: Candidate): Offer {
    Offer(a, b, PairKey(a.root, b.root), Count(st.shown, a.root) + Count(st.shown, b.root))
  }

  predicate Fresh(st: State, a: Candidate, b: Candidate) {
    a.video != b.video && PairKey(a.root, b.root) !in st.seen
  }

  /** The offers that pair candidate i with a later one before j. */
  function RowOffers(st: State, pool: seq<Candidate>, i: nat, j: nat): seq<Offer>
    requires i < j <= |pool|
  {
    if j == i + 1 then []
    else
      var before := RowOffers(st, pool, i, j - 1);
      if Fresh(st, pool[i], pool[j - 1]) then before + [Offered(st, pool[i], pool[j - 1])] else before
  }

  function Offers(st: State, pool: seq<Candidate>, i: nat): seq<Offer>
    requires i <= |pool|
  {
    if i == 0 then [] else Offers(st, pool, i - 1) + RowOffers(st, pool, i - 1, |pool|)
  }

  function ByExposure(): (Offer, Offer) -> bool {
    (a: Offer, b: Offer) => a.exposure < b.exposure || (a.exposure == b.exposure && StrLe(a.key, b.key))
  }

  function Best(st: State, eligible: seq<Candidate>): Option<Offer> {
    var pool := Usable(eligible);
    var pairs := Sort(Offers(State(Registered(st.shown, pool), st.seen), pool, |pool|), ByExposure());
    if pairs == [] then None else Some(pairs[0])
  }

  function Bumped(shown: map<string, nat>, id: string): map<string, nat> {
    shown[id := Count(shown, id) + 1]
  }

  function Marked(st: State, a: Candidate, b: Candidate): State {
    var key := PairKey(a.root, b.root);
    if key in st.seen then st
    else State(Bumped(Bumped(st.shown, a.root), b.root), st.seen + {key})
  }

  function AfterPick(st: State, eligible: seq<Candidate>): State {
    var registered := State(Registered(st.shown, Usable(eligible)), st.seen);
    var best := Best(st, eligible);
    if best.None? then registered else Marked(registered, best.value.first, best.value.second)
  }

  // ---- What a pick means ----

  predicate Comparable(pool: seq<Candidate>, i: nat, j: nat) {
    i < j < |pool| && pool[i].video != pool[j].video
  }

  ghost predicate IsOffer(st: State, pool: seq<Candidate>, i: nat, j: nat, o: Offer) {
    Comparable(pool, i, j) && PairKey(pool[i].root, pool[j].root) !in st.seen && o == Offered(st, pool[i], pool[j])
  }

  lemma {:induction false} RowOffersMean(st: State, pool: seq<Candidate>, i: nat, j: nat, o: Offer)
    requires i < j <= |pool|
    ensures o in RowOffers(st, pool, i, j) <==> exists k: nat :: i < k < j && IsOffer(st, pool, i, k, o)
    decreases j
  {
    if j > i + 1 {
      RowOffersMean(st, pool, i, j - 1, o);
      var before := RowOffers(st, pool, i, j - 1);
      assert o in RowOffers(st, pool, i, j) <==> o in before || IsOffer(st, pool, i, j - 1, o);
    }
  }

  lemma {:induction false} OffersMean(st: State, pool: seq<Candidate>, n: nat, o: Offer)
    requires n <= |pool|
    ensures o in Offers(st, pool, n) <==> exists i: nat, j: nat :: i < n && IsOffer(st, pool, i, j, o)
  {
    hide RowOffers;
    if n > 0 {
      OffersMean(st, pool, n - 1, o);
      RowOffersMean(st, pool, n - 1, |pool|, o);
      assert o in Offers(st, pool, n) <==> o in Offers(st, pool, n - 1) || o in RowOffers(st, pool, n - 1, |pool|);
    }
  }

  lemma ByExposureIsOrder()
    ensures TotalPreorder(ByExposure())
  {
    var le := ByExposure();
    forall x: Offer, y: Offer
      ensures le(x, y) || le(y, x)
    {
      StrLeTotal(x.key, y.key);
    }
    forall x: Offer, y: Offer, z: Offer | le(x, y) && le(y, z)
      ensures le(x, z)
    {
      if x.exposure == y.exposure == z.exposure {
        StrLeTransitive(x.key, y.key, z.key);
      }
    }
  }

  /** The keys of all pairs the pool can ever offer. */
  ghost function Targets(pool: seq<Candidate>): set<string> {
    set i: nat, j: nat | i < |pool| && j < |pool| && Comparable(pool, i, j) :: PairKey(pool[i].root, pool[j].root)
  }

  ghost predicate FromPool(pool: seq<Candidate>, i: nat, j: nat, o: Offer) {
    Comparable(pool, i, j) && o.first == pool[i] && o.second == pool[j] && o.key == PairKey(pool[i].root, pool[j].root)
  }

  /** The offer comes no later than the pair of a and b: less exposed, or no larger key. */
  predicate NoLater(st: State, o: Offer, a: Candidate, b: Candidate) {
    var exposure := Count(st.shown, a.root) + Count(st.shown, b.root);
    o.exposure < exposure || (o.exposure == exposure && StrLe(o.key, PairKey(a.root, b.root)))
  }

  ghost predicate LeastExposed(st: State, pool: seq<Candidate>, o: Offer) {
    forall i: nat, j: nat :: Comparable(pool, i, j) && PairKey(pool[i].root, pool[j].root) !in st.seen ==>
      NoLater(st, o, pool[i], pool[j])
  }

  lemma {:induction false} RegisteredCounts(shown: map<string, nat>, pool: seq<Candidate>, id: string)
    ensures Count(Registered(shown, pool), id) == Count(shown, id)
  {
    if pool != [] {
      RegisteredCounts(shown, pool[..|pool| - 1], id);
    }
  }

  lemma PoolPickMeans(st: State, eligible: seq<Candidate>)
    ensures Best(st, eligible).None? <==> Targets(Usable(eligible)) <= st.seen
    ensures Best(st, eligible).Some? ==>
              var o := Best(st, eligible).value;
              && o.key in Targets(Usable(eligible)) && o.key !in st.seen
              && (exists i: nat, j: nat :: FromPool(Usable(eligible), i, j, o))
              && o.exposure == Count(st.shown, o.first.root) + Count(st.shown, o.second.root)
              && LeastExposed(st, Usable(eligible), o)
  {
    var pool := Usable(eligible);
    var registered := State(Registered(st.shown, pool), st.seen);
    var offers := Offers(registered, pool, |pool|);
    var pairs := Sort(offers, ByExposure());
    SortMembers(offers, ByExposure());
    ByExposureIsOrder();
    SortSorts(offers, ByExposure());
    hide Sort, Usable, Registered, Offers;
    forall i: nat, j: nat | Comparable(pool, i, j) && PairKey(pool[i].root, pool[j].root) !in st.seen
      ensures pairs != [] && NoLater(st, pairs[0], pool[i], pool[j])
    {
      OfferListed(st, pool, pairs, offers, i, j);
    }
    if pairs != [] {
      assert pairs[0] in offers;
      OfferIsFromPool(st, pool, offers, pairs[0]);
    }
  }

  lemma OfferIsFromPool(st: State, pool: seq<Candidate>, offers: seq<Offer>, o: Offer)
    requires offers == Offers(State(Registered(st.shown, pool), st.seen), pool, |pool|) && o in offers
    ensures o.key in Targets(pool) && o.key !in st.seen
    ensures exists i: nat, j: nat :: FromPool(pool, i, j, o)
    ensures o.exposure == Count(st.shown, o.first.root) + Count(st.shown, o.second.root)
  {
    var registered := State(Registered(st.shown, pool), st.seen);
    OffersMean(registered, pool, |pool|, o);
    var i: nat, j: nat :| i < |pool| && IsOffer(registered, pool, i, j, o);
    assert FromPool(pool, i, j, o);
    RegisteredCounts(st.shown, pool, pool[i].root);
    RegisteredCounts(st.shown, pool, pool[j].root);
  }

  lemma OfferListed(st: State, pool: seq<Candidate>, pairs: seq<Offer>, offers: seq<Offer>, i: nat, j: nat)
    requires Comparable(pool, i, j) && PairKey(pool[i].root, pool[j].root) !in st.seen
    requires offers == Offers(State(Registered(st.shown, pool), st.seen), pool, |pool|)
    requires SortedBy(pairs, ByExposure()) && forall o :: o in pairs <==> o in offers
    ensures pairs != [] && NoLater(st, pairs[0], pool[i], pool[j])
  {
    var registered := State(Registered(st.shown, pool), st.seen);
    var o := Offered(registered, pool[i], pool[j]);
    assert IsOffer(registered, pool, i, j, o);
    OffersMean(registered, pool, |pool|, o);
    assert o in pairs;
    var k :| 0 <= k < |pairs| && pairs[k] == o;
    assert k > 0 ==> ByExposure()(pairs[0], pairs[k]);
    StrLeTotal(o.key, o.key);
    RegisteredCounts(st.shown, pool, pool[i].root);
    RegisteredCounts(st.shown, pool, pool[j].root);
  }

  // ---- The same on the candidates as given ----

  /** Candidates i and j are usable and show different videos. */
  predicate Matched(eligible: seq<Candidate>, i: nat, j: nat) {
    i < j < |eligible| && eligible[i].ok && eligible[j].ok && eligible[i].video != eligible[j].video
  }

  function KeyOf(eligible: seq<Candidate>, i: nat, j: nat): string
    requires i < |eligible| && j < |eligible|
  {
    PairKey(eligible[i].root, eligible[j].root)
  }

  /** `at` lists the usable candidates by index: all of them, in order. */
  ghost predicate UsableAt(eligible: seq<Candidate>, at: seq<nat>) {
    && |at| == |Usable(eligible)|
    && (forall k :: 0 <= k < |at| ==>
          at[k] < |eligible| && eligible[at[k]].ok && Usable(eligible)[k] == eligible[at[k]])
    && (forall k, l :: 0 <= k < l < |at| ==> at[k] < at[l])
    && forall i: nat :: i < |eligible| && eligible[i].ok ==> i in at
  }

  /** The usable candidates are exactly those with `ok`, in the order and as often as given. */
  lemma {:induction false} UsableMeans(eligible: seq<Candidate>) returns (at: seq<nat>)
    ensures UsableAt(eligible, at)
    decreases |eligible|
  {
    at := [];
    if eligible != [] {
      var n := |eligible| - 1;
      at := UsableMeans(eligible[..n]);
      if eligible[n].ok {
        at := at + [n];
      }
    }
  }

  /** Matched candidates are comparable members of the pool, and the other way round. */
  lemma MatchedInPool(eligible: seq<Candidate>, at: seq<nat>, i: nat, j: nat) returns (k: nat, l: nat)
    requires UsableAt(eligible, at) && Matched(eligible, i, j)
    ensures Comparable(Usable(eligible), k, l) && at[k] == i && at[l] == j
    ensures Usable(eligible)[k] == eligible[i] && Usable(eligible)[l] == eligible[j]
  {
    hide Usable;
    k :| 0 <= k < |at| && at[k] == i;
    l :| 0 <= l < |at| && at[l] == j;
  }

  lemma PoolIsMatched(eligible: seq<Candidate>, at: seq<nat>, k: nat, l: nat)
    requires UsableAt(eligible, at) && Comparable(Usable(eligible), k, l)
    ensures Matched(eligible, at[k], at[l])
    ensures Usable(eligible)[k] == eligible[at[k]] && Usable(eligible)[l] == eligible[at[l]]
  {
    hide Usable;
  }

  /** The keys of the matched pairs not seen yet. */
  ghost function Unseen(st: State, eligible: seq<Candidate>): set<string> {
    set i: nat, j: nat | i < |eligible| && j < |eligible| && Matched(eligible, i, j) &&
                         KeyOf(eligible, i, j) !in st.seen :: KeyOf(eligible, i, j)
  }

  lemma UnseenInPool(st: State, eligible: seq<Candidate>)
    ensures Unseen(st, eligible) == Targets(Usable(eligible)) - st.seen
  {
    var at := UsableMeans(eligible);
    hide Usable, PairKey;
    forall key | key in Unseen(st, eligible)
      ensures key in Targets(Usable(eligible)) - st.seen
    {
      var i: nat, j: nat :| Matched(eligible, i, j) && KeyOf(eligible, i, j) == key;
      var k, l := MatchedInPool(eligible, at, i, j);
    }
    forall key | key in Targets(Usable(eligible)) - st.seen
      ensures key in Unseen(st, eligible)
    {
      var k: nat, l: nat :| Comparable(Usable(eligible), k, l) &&
        PairKey(Usable(eligible)[k].root, Usable(eligible)[l].root) == key;
      PoolIsMatched(eligible, at, k, l);
      assert KeyOf(eligible, at[k], at[l]) == key;
    }
  }

  /** The pick is the pair of candidates i and j. */
  ghost predicate Picks(st: State, o: Offer, eligible: seq<Candidate>, i: nat, j: nat) {
    && Matched(eligible, i, j) && KeyOf(eligible, i, j) !in st.seen
    && o == Offered(st, eligible[i], eligible[j])
  }

  /** A pick is a pair of usable candidates with different videos that was not seen yet, the one with
      the least exposure of all such pairs, and of these the one with the least key; there is no pick
      exactly when every such pair has been seen. */
  lemma PickMeans(st: State, eligible: seq<Candidate>)
    ensures Best(st, eligible).None? <==>
            forall i: nat, j: nat :: Matched(eligible, i, j) ==> KeyOf(eligible, i, j) in st.seen
    ensures Best(st, eligible).Some? ==>
              var o := Best(st, eligible).value;
              && (exists i: nat, j: nat :: Picks(st, o, eligible, i, j))
              && forall i: nat, j: nat :: Matched(eligible, i, j) && KeyOf(eligible, i, j) !in st.seen ==>
                   NoLater(st, o, eligible[i], eligible[j])
  {
    var at := UsableMeans(eligible);
    PoolPickMeans(st, eligible);
    hide Usable, Best, PairKey, NoLater;
    forall i: nat, j: nat | Matched(eligible, i, j) && KeyOf(eligible, i, j) !in st.seen
      ensures Best(st, eligible).Some? && NoLater(st, Best(st, eligible).value, eligible[i], eligible[j])
    {
      var k, l := MatchedInPool(eligible, at, i, j);
      assert PairKey(Usable(eligible)[k].root, Usable(eligible)[l].root) in Targets(Usable(eligible));
    }
    if Best(st, eligible).Some? {
      var o := Best(st, eligible).value;
      var k: nat, l: nat :| FromPool(Usable(eligible), k, l, o);
      PoolIsMatched(eligible, at, k, l);
      assert Picks(st, o, eligible, at[k], at[l]);
    }
  }

  lemma PickSeen(st: State, eligible: seq<Candidate>)
    ensures var best := Best(st, eligible);
            AfterPick(st, eligible).seen == st.seen + if best.Some? then {best.value.key} else {}
  {
    PickMeans(st, eligible);
  }

  // ---- Runs ----

  /** A call on the selector: a pick from some pool, or the marking of a deep-linked pair. */
  datatype Call = Pick(eligible: seq<Candidate>) | Mark(a: Candidate, b: Candidate)

  function AfterCall(st: State, call: Call): State {
    match call
    case Pick(eligible) => AfterPick(st, eligible)
    case Mark(a, b) => Marked(st, a, b)
  }

  function Run(st: State, calls: seq<Call>): State {
    if calls == [] then st else AfterCall(Run(st, calls[..|calls| - 1]), calls[|calls| - 1])
  }

  const START := State(map[], {})

  /** The key of the pair that call i shows, if it shows one. */
  function ShownBy(st: State, calls: seq<Call>, i: nat): Option<string>
    requires i < |calls|
  {
    match calls[i]
    case Pick(eligible) =>
      var best := Best(Run(st, calls[..i]), eligible);
      if best.None? then None else Some(best.value.key)
    case Mark(_, _) => None
  }

  lemma CallSeen(st: State, call: Call)
    ensures st.seen <= AfterCall(st, call).seen
  {
    match call
    case Pick(eligible) => PickSeen(st, eligible);
    case Mark(_, _) =>
  }

  lemma {:induction false} SeenGrows(st: State, calls: seq<Call>, i: nat)
    requires i <= |calls|
    ensures Run(st, calls[..i]).seen <= Run(st, calls).seen
    decreases |calls|
  {
    if i == |calls| {
      assert calls[..i] == calls;
    } else {
      var init := calls[..|calls| - 1];
      assert init[..i] == calls[..i];
      SeenGrows(st, init, i);
      CallSeen(Run(st, init), calls[|calls| - 1]);
    }
  }

  /** No pair is ever shown twice, even when the pool changes from pick to pick. */
  lemma NeverShownAgain(st: State, calls: seq<Call>, i: nat, j: nat)
    requires i < j < |calls| && ShownBy(st, calls, i).Some?
    ensures ShownBy(st, calls, j) != ShownBy(st, calls, i)
  {
    var before, after := calls[..i], calls[..i + 1];
    assert after[..|after| - 1] == before;
    PickSeen(Run(st, before), calls[i].eligible);
    assert ShownBy(st, calls, i).value in Run(st, after).seen;
    assert calls[..j][..i + 1] == after;
    SeenGrows(st, calls[..j], i + 1);
    if ShownBy(st, calls, j).Some? {
      PickMeans(Run(st, calls[..j]), calls[j].eligible);
    }
  }

  // ---- The shown counts add up to twice the number of pairs ----

  ghost function SomeKey(m: map<string, nat>): (k: string)
    requires m != map[]
    ensures k in m
  {
    var k :| k in m;
    k
  }

  ghost function Total(m: map<string, nat>): nat
    decreases m.Keys
  {
    if m == map[] then 0
    else
      var k := SomeKey(m);
      m[k] + Total(m - {k})
  }

  lemma {:induction false} TotalWithout(m: map<string, nat>, k: string)
    requires k in m
    ensures Total(m) == m[k] + Total(m - {k})
    decreases m.Keys
  {
    var first := SomeKey(m);
    if first != k {
      TotalWithout(m - {first}, k);
      TotalWithout(m - {k}, first);
      assert m - {first} - {k} == m - {k} - {first};
    }
  }

  lemma TotalSet(m: map<string, nat>, k: string, v: nat)
    ensures Total(m[k := v]) == Total(m) - Count(m, k) + v
  {
    TotalWithout(m[k := v], k);
    assert m[k := v] - {k} == m - {k};
    if k in m {
      TotalWithout(m, k);
    } else {
      assert m - {k} == m;
    }
  }

  ghost predicate Balanced(st: State) {
    Total(st.shown) == 2 * |st.seen|
  }

  lemma {:induction false} RegisteredTotal(shown: map<string, nat>, pool: seq<Candidate>)
    ensures Total(Registered(shown, pool)) == Total(shown)
  {
    if pool != [] {
      var init := Registered(shown, pool[..|pool| - 1]);
      RegisteredTotal(shown, pool[..|pool| - 1]);
      TotalSet(init, pool[|pool| - 1].root, 0);
    }
  }

  lemma MarkedBalanced(st: State, a: Candidate, b: Candidate)
    requires Balanced(st)
    ensures Balanced(Marked(st, a, b))
  {
    TotalSet(st.shown, a.root, Count(st.shown, a.root) + 1);
    var once := Bumped(st.shown, a.root);
    TotalSet(once, b.root, Count(once, b.root) + 1);
  }

  lemma {:induction false} RunStaysBalanced(st: State, calls: seq<Call>)
    requires Balanced(st)
    ensures Balanced(Run(st, calls))
    decreases |calls|
  {
    if calls != [] {
      var before := Run(st, calls[..|calls| - 1]);
      RunStaysBalanced(st, calls[..|calls| - 1]);
      match calls[|calls| - 1]
      case Mark(a, b) => MarkedBalanced(before, a, b);
      case Pick(eligible) =>
        RegisteredTotal(before.shown, Usable(eligible));
        var registered := State(Registered(before.shown, Usable(eligible)), before.seen);
        var best := Best(before, eligible);
        if best.Some? {
          MarkedBalanced(registered, best.value.first, best.value.second);
        }
    }
  }

  /** From the start the counts add up to twice the number of seen pairs in every run. */
  lemma BalancedFromStart(calls: seq<Call>)
    ensures Total(Run(START, calls).shown) == 2 * |Run(START, calls).seen|
  {
    assert Balanced(START);
    RunStaysBalanced(START, calls);
  }

  function Occurs(id: string, a: Candidate, b: Candidate): nat {
    (if a.root == id then 1 else 0) + (if b.root == id then 1 else 0)
  }

  /** How often the run puts a candidate into a pair that was not seen before. */
  function Appearances(st: State, calls: seq<Call>, id: string): nat {
    if calls == [] then 0
    else
      var before := Run(st, calls[..|calls| - 1]);
      Appearances(st, calls[..|calls| - 1], id) +
      match calls[|calls| - 1]
      case Mark(a, b) => if PairKey(a.root, b.root) in before.seen then 0 else Occurs(id, a, b)
      case Pick(eligible) =>
        var best := Best(before, eligible);
        if best.None? then 0 else Occurs(id, best.value.first, best.value.second)
  }

  lemma MarkedCounts(st: State, a: Candidate, b: Candidate, id: string)
    ensures Count(Marked(st, a, b).shown, id) ==
            Count(st.shown, id) + if PairKey(a.root, b.root) in st.seen then 0 else Occurs(id, a, b)
  {
  }

  /** The shown count of every candidate is exactly how often it appeared in a new pair. */
  lemma {:induction false} CountsAreAppearances(st: State, calls: seq<Call>, id: string)
    ensures Count(Run(st, calls).shown, id) == Count(st.shown, id) + Appearances(st, calls, id)
    decreases |calls|
  {
    if calls != [] {
      var before := Run(st, calls[..|calls| - 1]);
      CountsAreAppearances(st, calls[..|calls| - 1], id);
      match calls[|calls| - 1]
      case Mark(a, b) => MarkedCounts(before, a, b, id);
      case Pick(eligible) => PickCounts(before, eligible, id);
    }
  }

  lemma PickCounts(st: State, eligible: seq<Candidate>, id: string)
    ensures var best := Best(st, eligible);
            Count(AfterPick(st, eligible).shown, id) ==
            Count(st.shown, id) + if best.None? then 0 else Occurs(id, best.value.first, best.value.second)
  {
    RegisteredCounts(st.shown, Usable(eligible), id);
    PickMeans(st, eligible);
    var best := Best(st, eligible);
    hide Best, Usable, Registered;
    if best.Some? {
      MarkedCounts(State(Registered(st.shown, Usable(eligible)), st.seen), best.value.first, best.value.second, id);
    }
  }

  // ---- A fixed pool ----

  /** The state after n picks from one pool. */
  function AfterPicks(st: State, eligible: seq<Candidate>, n: nat): State {
    if n == 0 then st else AfterPick(AfterPicks(st, eligible, n - 1), eligible)
  }

  /** Each pick uses up one unseen pair, until none is left. */
  lemma {:induction false} PicksUseUp(st: State, eligible: seq<Candidate>, n: nat)
    ensures var left := |Unseen(AfterPicks(st, eligible, n), eligible)|;
            left == if n <= |Unseen(st, eligible)| then |Unseen(st, eligible)| - n else 0
  {
    hide Targets, Best, AfterPick, Usable, LeastExposed, FromPool, Unseen;
    if n > 0 {
      PicksUseUp(st, eligible, n - 1);
      var before := AfterPicks(st, eligible, n - 1);
      PoolPickMeans(before, eligible);
      PickSeen(before, eligible);
      UnseenInPool(before, eligible);
      UnseenInPool(AfterPicks(st, eligible, n), eligible);
      var best := Best(before, eligible);
      if best.Some? {
        assert Unseen(AfterPicks(st, eligible, n), eligible) == Unseen(before, eligible) - {best.value.key};
      } else {
        assert Unseen(before, eligible) == {};
        assert Unseen(AfterPicks(st, eligible, n), eligible) == {};
      }
    }
  }

  /** With N unseen pairs, picks 0 to N - 1 each show one and every later pick shows none. */
  lemma PicksThenNull(st: State, eligible: seq<Candidate>, n: nat)
    ensures Best(AfterPicks(st, eligible, n), eligible).Some? <==> n < |Unseen(st, eligible)|
  {
    hide Targets, Best, AfterPick, AfterPicks, Usable, LeastExposed, FromPool, Unseen;
    PicksUseUp(st, eligible, n);
    UnseenInPool(AfterPicks(st, eligible, n), eligible);
    PoolPickMeans(AfterPicks(st, eligible, n), eligible);
    var left := Unseen(AfterPicks(st, eligible, n), eligible);
    EmptyIffNone(left);
    NoDifference(Targets(Usable(eligible)), AfterPicks(st, eligible, n).seen);
  }

  lemma NoDifference(a: set<string>, b: set<string>)
    ensures a <= b <==> a - b == {}
  {
    if x :| x in a && x !in b {
      assert x in a - b;
    } else {
      assert a - b == {};
    }
  }

  lemma EmptyIffNone(s: set<string>)
    ensures |s| == 0 <==> s == {}
  {
    if k :| k in s {
      assert |s| == |s - {k}| + 1;
    } else {
      assert s == {};
    }
  }

  ghost predicate Shows(st: State, eligible: seq<Candidate>, n: nat, key: string) {
    Best(AfterPicks(st, eligible, n), eligible).Some? && Best(AfterPicks(st, eligible, n), eligible).value.key == key
  }

  /** What n picks have added to the seen pairs was shown by one of them. */
  lemma {:induction false} SeenWasShown(st: State, eligible: seq<Candidate>, n: nat, key: string)
    requires key in AfterPicks(st, eligible, n).seen && key !in st.seen
    ensures exists k: nat :: k < n && Shows(st, eligible, k, key)
  {
    var before := AfterPicks(st, eligible, n - 1);
    PickSeen(before, eligible);
    if key in before.seen {
      SeenWasShown(st, eligible, n - 1, key);
    } else {
      assert Shows(st, eligible, n - 1, key);
    }
  }

  lemma {:induction false} ShownStaysSeen(st: State, eligible: seq<Candidate>, k: nat, n: nat, key: string)
    requires k < n && Shows(st, eligible, k, key)
    ensures key in AfterPicks(st, eligible, n).seen
  {
    PickSeen(AfterPicks(st, eligible, n - 1), eligible);
    if k < n - 1 {
      ShownStaysSeen(st, eligible, k, n - 1, key);
    }
  }

  lemma ShownOnce(st: State, eligible: seq<Candidate>, k: nat, n: nat, key: string)
    requires Shows(st, eligible, k, key) && Shows(st, eligible, n, key)
    ensures k == n
  {
    PickMeans(AfterPicks(st, eligible, k), eligible);
    PickMeans(AfterPicks(st, eligible, n), eligible);
    if k < n {
      ShownStaysSeen(st, eligible, k, n, key);
    } else if n < k {
      ShownStaysSeen(st, eligible, n, k, key);
    }
  }

  /** The usable candidates have ids without a bar, no two the same. */
  ghost predicate ProperPool(eligible: seq<Candidate>) {
    && (forall i :: 0 <= i < |eligible| && eligible[i].ok ==> Plain(eligible[i].root))
    && forall i, j :: 0 <= i < j < |eligible| && eligible[i].ok && eligible[j].ok ==>
         eligible[i].root != eligible[j].root
  }

  /** Pick n shows exactly the candidates i and j, on whatever sides. */
  ghost predicate ShowsPair(st: State, eligible: seq<Candidate>, n: nat, i: nat, j: nat)
    requires i < |eligible| && j < |eligible|
  {
    var best := Best(AfterPicks(st, eligible, n), eligible);
    best.Some? && best.value.first == eligible[i] && best.value.second == eligible[j]
  }

  lemma ShowsPairIff(st: State, eligible: seq<Candidate>, n: nat, i: nat, j: nat)
    requires ProperPool(eligible) && Matched(eligible, i, j)
    ensures ShowsPair(st, eligible, n, i, j) <==> Shows(st, eligible, n, KeyOf(eligible, i, j))
  {
    hide Best, AfterPick, AfterPicks, PairKey, NoLater;
    PickMeans(AfterPicks(st, eligible, n), eligible);
    var best := Best(AfterPicks(st, eligible, n), eligible);
    if best.Some? {
      var k: nat, l: nat :| Picks(AfterPicks(st, eligible, n), best.value, eligible, k, l);
      KeyNamesPair(eligible[k].root, eligible[l].root, eligible[i].root, eligible[j].root);
    }
  }

  /** On a fixed list of candidates, the usable ones with distinct ids, every unordered pair of usable
      candidates with different videos that was not seen before is shown by exactly one pick, among
      the first N. */
  lemma EveryPairExactlyOnce(st: State, eligible: seq<Candidate>, i: nat, j: nat)
    requires ProperPool(eligible) && Matched(eligible, i, j) && KeyOf(eligible, i, j) !in st.seen
    ensures exists n: nat :: n < |Unseen(st, eligible)| && ShowsPair(st, eligible, n, i, j)
    ensures forall m: nat, n: nat ::
              ShowsPair(st, eligible, m, i, j) && ShowsPair(st, eligible, n, i, j) ==> m == n
  {
    var key := KeyOf(eligible, i, j);
    hide Best, AfterPick, AfterPicks, Shows, ShowsPair, KeyOf;
    var n := ShownEventually(st, eligible, key);
    ShowsPairIff(st, eligible, n, i, j);
    forall m: nat, k: nat | ShowsPair(st, eligible, m, i, j) && ShowsPair(st, eligible, k, i, j)
      ensures m == k
    {
      ShowsPairIff(st, eligible, m, i, j);
      ShowsPairIff(st, eligible, k, i, j);
      ShownOnce(st, eligible, m, k, key);
    }
  }

  lemma ShownEventually(st: State, eligible: seq<Candidate>, key: string) returns (n: nat)
    requires key in Unseen(st, eligible)
    ensures n < |Unseen(st, eligible)| && Shows(st, eligible, n, key)
  {
    UnseenInPool(st, eligible);
    hide Targets, Best, AfterPick, AfterPicks, Usable, Unseen;
    var N := |Unseen(st, eligible)|;
    PicksUseUp(st, eligible, N);
    EmptyIffNone(Unseen(AfterPicks(st, eligible, N), eligible));
    UnseenInPool(AfterPicks(st, eligible, N), eligible);
    NoDifference(Targets(Usable(eligible)), AfterPicks(st, eligible, N).seen);
    assert key in AfterPicks(st, eligible, N).seen;
    SeenWasShown(st, eligible, N, key);
    n :| n < N && Shows(st, eligible, n, key);
  }

  // ---- Registration ----

  /** Every usable candidate is known after a pick, whether or not it was shown. */
  lemma {:induction false} RegisteredKeys(shown: map<string, nat>, pool: seq<Candidate>)
    ensures Registered(shown, pool).Keys == shown.Keys + set c | c in pool :: c.root
  {
    if pool != [] {
      var init, last := pool[..|pool| - 1], pool[|pool| - 1];
      RegisteredKeys(shown, init);
      assert pool == init + [last];
    }
  }

  lemma PickRegisters(st: State, eligible: seq<Candidate>)
    ensures AfterPick(st, eligible).shown.Keys == st.shown.Keys + set c | c in eligible && c.ok :: c.root
  {
    RegisteredKeys(st.shown, Usable(eligible));
    UsableMembers(eligible);
    PickMeans(st, eligible);
    var best := Best(st, eligible);
    hide Best, Usable, Registered, NoLater, PairKey;
    if best.Some? {
      var i: nat, j: nat :| Picks(st, best.value, eligible, i, j);
      assert eligible[i] in eligible && eligible[j] in eligible;
    }
  }

  lemma UsableMembers(eligible: seq<Candidate>)
    ensures forall c :: c in Usable(eligible) <==> c in eligible && c.ok
  {
    var at := UsableMeans(eligible);
    forall c | c in eligible && c.ok
      ensures c in Usable(eligible)
    {
      var i: nat :| i < |eligible| && eligible[i] == c;
      var k :| 0 <= k < |at| && at[k] == i;
      assert Usable(eligible)[k] == c;
    }
  }

  // ---- The selector ----

  class Selector {
    var shownCount: map<string, nat>
    var seenPairs: set<string>

    ghost function Current(): State
      reads this
    {
      State(shownCount, seenPairs)
    }

    constructor ()
      ensures Current() == START
    {
      shownCount, seenPairs := map[], {};
    }

    /** Registers the pool and lists its unseen pairs, best first. */
    method UnseenPairs(eligible: seq<Candidate>) returns (pairs: seq<Offer>)
      modifies this
      ensures seenPairs == old(seenPairs)
      ensures shownCount == Registered(old(shownCount), Usable(eligible))
      ensures pairs == Sort(Offers(Current(), Usable(eligible), |Usable(eligible)|), ByExposure())
    {
      var pool := Usable(eligible);
      for k := 0 to |pool|
        invariant seenPairs == old(seenPairs) && shownCount == Registered(old(shownCount), pool[..k])
      {
        assert pool[..k + 1][..k] == pool[..k];
        if pool[k].root !in shownCount {
          shownCount := shownCount[pool[k].root := 0];
        }
      }
      assert pool[..|pool|] == pool;
      pairs := ListOffers(pool);
      pairs := Sort(pairs, ByExposure());
    }

    method ListOffers(pool: seq<Candidate>) returns (pairs: seq<Offer>)
      ensures pairs == Offers(Current(), pool, |pool|)
    {
      pairs := [];
      for i := 0 to |pool|
        invariant pairs == Offers(Current(), pool, i)
      {
        var before := pairs;
        for j := i + 1 to |pool|
          invariant pairs == before + RowOffers(Current(), pool, i, j)
        {
          var a, b := pool[i], pool[j];
          var key := PairKey(a.root, b.root);
          if a.video != b.video && key !in seenPairs {
            pairs := pairs + [Offer(a, b, key, Count(shownCount, a.root) + Count(shownCount, b.root))];
          }
        }
      }
    }

    method MarkShown(a: Candidate, b: Candidate)
      modifies this
      ensures Current() == Marked(old(Current()), a, b)
    {
      var key := PairKey(a.root, b.root);
      if key in seenPairs {
        return;
      }
      seenPairs := seenPairs + {key};
      shownCount := shownCount[a.root := Count(shownCount, a.root) + 1];
      shownCount := shownCount[b.root := Count(shownCount, b.root) + 1];
    }

    /** The random source only decides which of the two goes left. */
    method Pick(eligible: seq<Candidate>, flip: bool) returns (shown: Option<Presentation>)
      modifies this
      ensures Current() == AfterPick(old(Current()), eligible)
      ensures var best := Best(old(Current()), eligible);
              shown == if best.None? then None
                       else if flip then Some(Presentation(best.value.second, best.value.first))
                       else Some(Presentation(best.value.first, best.value.second))
    {
      var pairs := UnseenPairs(eligible);
      if pairs == [] {
        return None;
      }
      var next := pairs[0];
      MarkShown(next.first, next.second);
      return Some(if flip then Presentation(next.second, next.first) else Presentation(next.first, next.second));
    }
  }
}
