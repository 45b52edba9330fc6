/**
 * Candidate paths of the mock trace prober: a breadth-first enumeration of simple
 * paths over a queue of partial paths, cut off at three results and six links.
 */
module TracePaths {
  import opened Prelude
  import opened Topology
  import opened PathOrder

  const MAX_TRACE_PATHS: nat := 3
  const MAX_TRACE_DEPTH: nat := 6

  /** One directed traversal of a link. */
  datatype Edge = Edge(link: Link, from: Endpoint, to: Endpoint)

  type Adjacency = map<int, seq<Edge>>

  type Path = seq<Edge>

  function EdgesAt(adj: Adjacency, x: int): seq<Edge> {
    if x in adj then adj[x] else []
  }

  function Traversal(l: Link, back: bool): Edge {
    Edge(l, Near(l, back), Far(l, back))
  }

  /** `e` traverses one of the first `n` links, starting at AS `x`. */
  ghost predicate LeavesOver(links: seq<Link>, n: nat, x: int, e: Edge)
    requires n <= |links|
  {
    exists i, s {:trigger Traversal(links[i], s)} :: 0 <= i < n && e == Traversal(links[i], s) && e.from.asn == x
  }

  /** `edges` lists what leaves `x` over the first `n` links, each traversal once. */
  ghost predicate Lists(links: seq<Link>, n: nat, x: int, edges: seq<Edge>)
    requires n <= |links|
  {
    Distinct(edges) && forall e :: e in edges <==> LeavesOver(links, n, x, e)
  }

  ghost predicate IsAdjacency(adj: Adjacency, links: seq<Link>, n: nat)
    requires n <= |links|
  {
    forall x :: Lists(links, n, x, EdgesAt(adj, x))
  }

  /** What leaves AS `x` over the first `n` links, in link order. */
  function Leaving(links: seq<Link>, n: nat, x: int): seq<Edge>
    requires n <= |links|
  {
    if n == 0 then []
    else
      var l := links[n - 1];
      Leaving(links, n - 1, x) + (if l.a.asn == x then [Traversal(l, false)] else [])
        + (if l.b.asn == x then [Traversal(l, true)] else [])
  }

  lemma {:induction false} TraversalsDiffer(links: seq<Link>, i: nat, s: bool, j: nat, t: bool)
    requires DistinctEndpoints(links) && i < |links| && j < |links| && (i != j || s != t)
    ensures Traversal(links[i], s) != Traversal(links[j], t)
  {
    var e, f := Near(links[i], s), Near(links[j], t);
    assert e.asn != f.asn || e.ifid != f.ifid;
  }

  lemma {:induction false} AddTraversal(links: seq<Link>, i: nat, edges: seq<Edge>, x: int)
    requires DistinctEndpoints(links) && i < |links| && Lists(links, i, x, edges)
    ensures var l := links[i];
            var edges' := edges + (if l.a.asn == x then [Traversal(l, false)] else [])
              + (if l.b.asn == x then [Traversal(l, true)] else []);
            Lists(links, i + 1, x, edges')
  {
    var l := links[i];
    var fwd := if l.a.asn == x then [Traversal(l, false)] else [];
    var bwd := if l.b.asn == x then [Traversal(l, true)] else [];
    forall s: bool, j, t | 0 <= j < i
      ensures Traversal(l, s) != Traversal(links[j], t)
    {
      TraversalsDiffer(links, i, s, j, t);
    }
    TraversalsDiffer(links, i, false, i, true);
    assert Traversal(l, false).from == l.a && Traversal(l, true).from == l.b;
    var edges' := edges + fwd + bwd;
    assert forall e :: e in edges' <==> e in edges || e in fwd || e in bwd;
    DistinctAppend(edges, fwd);
    DistinctAppend(edges + fwd, bwd);
    forall e
      ensures e in edges' <==> LeavesOver(links, i + 1, x, e)
    {
      if e in edges' {
        assert e in edges ==> LeavesOver(links, i, x, e);
        assert e !in edges ==> e == Traversal(links[i], e in bwd);
      }
    }
  }

  lemma {:induction false} LeavingIs(links: seq<Link>, n: nat, x: int)
    requires DistinctEndpoints(links) && n <= |links|
    ensures Lists(links, n, x, Leaving(links, n, x))
  {
    if n > 0 {
      hide Lists, DistinctEndpoints;
      LeavingIs(links, n - 1, x);
      AddTraversal(links, n - 1, Leaving(links, n - 1, x), x);
    }
  }

  /** The adjacency lists of the prober, both directions of every link in link order. */
  method BuildAdjacency(links: seq<Link>) returns (adj: Adjacency)
    requires DistinctEndpoints(links)
    ensures IsAdjacency(adj, links, |links|)
    ensures forall x :: EdgesAt(adj, x) == Leaving(links, |links|, x)
  {
    adj := map[];
    for i := 0 to |links|
      invariant forall x :: EdgesAt(adj, x) == Leaving(links, i, x)
    {
      var l := links[i];
      adj := adj[l.a.asn := EdgesAt(adj, l.a.asn) + [Edge(l, l.a, l.b)]];
      adj := adj[l.b.asn := EdgesAt(adj, l.b.asn) + [Edge(l, l.b, l.a)]];
    }
    forall x ensures Lists(links, |links|, x, EdgesAt(adj, x)) {
      LeavingIs(links, |links|, x);
    }
  }

  // ---------------------------------------------------------------- simple paths

  function Init(p: Path): Path
    requires p != []
  {
    p[..|p| - 1]
  }

  function Last(p: Path): Edge
    requires p != []
  {
    p[|p| - 1]
  }

  /** The AS a partial path from `src` has arrived at. */
  function Tip(src: int, p: Path): int {
    if p == [] then src else Last(p).to.asn
  }

  function Visited(src: int, p: Path): set<int> {
    {src} + set i | 0 <= i < |p| :: p[i].to.asn
  }

  /** A chain of edges from `src` that never enters an AS twice. */
  ghost predicate IsSimple(adj: Adjacency, src: int, p: Path) {
    p == [] || (IsSimple(adj, src, Init(p)) && Last(p) in EdgesAt(adj, Tip(src, Init(p)))
                && Last(p).to.asn !in Visited(src, Init(p)))
  }

  /** What a caller may be offered: a non-empty simple path to `dst` within the depth bound. */
  ghost predicate IsCandidate(adj: Adjacency, src: int, dst: int, p: Path) {
    p != [] && |p| <= MAX_TRACE_DEPTH && IsSimple(adj, src, p) && Tip(src, p) == dst
  }

  lemma {:induction false} SimplePrefix(adj: Adjacency, src: int, p: Path, n: nat)
    requires IsSimple(adj, src, p) && n < |p|
    ensures IsSimple(adj, src, p[..n])
    ensures p[n] in EdgesAt(adj, Tip(src, p[..n])) && p[n].to.asn !in Visited(src, p[..n])
    decreases |p|
  {
    if n < |p| - 1 {
      SimplePrefix(adj, src, Init(p), n);
      assert Init(p)[..n] == p[..n];
    }
  }

  /** A simple path cannot pass through its own destination. */
  lemma {:induction false} OnlyEndsAtTip(adj: Adjacency, src: int, p: Path, n: nat)
    requires IsSimple(adj, src, p) && 0 < n < |p|
    ensures Tip(src, p[..n]) != Tip(src, p)
  {
    assert Init(p)[n - 1] == Last(p[..n]);
  }

  // ---------------------------------------------------------------- link order

  /** The position of `e` in an edge list. */
  function Position(edges: seq<Edge>, e: Edge): nat {
    if edges == [] || edges[0] == e then 0 else 1 + Position(edges[1..], e)
  }

  lemma {:induction false} PositionIs(edges: seq<Edge>, k: nat)
    requires Distinct(edges) && k < |edges|
    ensures Position(edges, edges[k]) == k
  {
    if k > 0 { PositionIs(edges[1..], k - 1); }
  }

  /** A path told by the positions of its edges. */
  function Ranks(adj: Adjacency, src: int, p: Path): (r: seq<nat>)
    ensures |r| == |p|
  {
    if p == [] then []
    else Ranks(adj, src, Init(p)) + [Position(EdgesAt(adj, Tip(src, Init(p))), Last(p))]
  }

  /** Shortest first, and among equally long paths in link order. */
  ghost predicate InOrder(adj: Adjacency, src: int, paths: seq<Path>) {
    forall i, j :: 0 <= i < j < |paths| ==> Precedes(Ranks(adj, src, paths[i]), Ranks(adj, src, paths[j]))
  }

  /** The longer partial paths of the queue grew out of ones that came before the shorter ones. */
  ghost predicate Ahead(adj: Adjacency, src: int, queue: seq<Path>) {
    forall i, j :: 0 <= i < |queue| && 0 <= j < |queue| && |queue[i]| == |queue[j]| + 1 ==>
      LexLess(Ranks(adj, src, queue[i]), Ranks(adj, src, queue[j]))
  }

  ghost predicate Ordered(adj: Adjacency, src: int, found: seq<Path>, queue: seq<Path>) {
    InOrder(adj, src, found + queue) && Ahead(adj, src, queue)
  }

  lemma {:induction false} OrderedAccept(adj: Adjacency, src: int, found: seq<Path>, queue: seq<Path>)
    requires queue != [] && Ordered(adj, src, found, queue)
    ensures Ordered(adj, src, found + [queue[0]], queue[1..])
  {
    assert found + queue == (found + [queue[0]]) + queue[1..];
  }

  lemma {:induction false} OrderedDrop(adj: Adjacency, src: int, found: seq<Path>, queue: seq<Path>)
    requires queue != [] && Ordered(adj, src, found, queue)
    ensures Ordered(adj, src, found, queue[1..])
  {
    hide Ranks;
    var all, less := found + queue, found + queue[1..];
    forall i, j | 0 <= i < j < |less|
      ensures Precedes(Ranks(adj, src, less[i]), Ranks(adj, src, less[j]))
    {
      assert less[i] == all[if i < |found| then i else i + 1];
      assert less[j] == all[if j < |found| then j else j + 1];
    }
  }

  /** `p` is `cur` and one of its first `n` edges. */
  ghost predicate GrownFrom(adj: Adjacency, src: int, cur: Path, p: Path, n: nat) {
    exists k: nat :: k < n && Ranks(adj, src, p) == Ranks(adj, src, cur) + [k]
  }

  lemma {:induction false} ChildRank(adj: Adjacency, src: int, cur: Path, k: nat)
    requires Distinct(EdgesAt(adj, Tip(src, cur))) && k < |EdgesAt(adj, Tip(src, cur))|
    ensures Ranks(adj, src, cur + [EdgesAt(adj, Tip(src, cur))[k]]) == Ranks(adj, src, cur) + [k]
  {
    var kid := cur + [EdgesAt(adj, Tip(src, cur))[k]];
    assert Init(kid) == cur;
    PositionIs(EdgesAt(adj, Tip(src, cur)), k);
  }

  lemma {:induction false} ChildRanks(adj: Adjacency, src: int, cur: Path, edges: seq<Edge>, n: nat)
    requires edges == EdgesAt(adj, Tip(src, cur)) && Distinct(edges) && n <= |edges|
    ensures var kids := Children(src, cur, edges, n);
            InOrder(adj, src, kids) && forall i :: 0 <= i < |kids| ==> GrownFrom(adj, src, cur, kids[i], n)
  {
    hide Ranks, Visited, EdgesAt, Tip;
    if n > 0 {
      ChildRanks(adj, src, cur, edges, n - 1);
      ChildRank(adj, src, cur, n - 1);
      var before, kid := Children(src, cur, edges, n - 1), cur + [edges[n - 1]];
      forall i | 0 <= i < |before| ensures Precedes(Ranks(adj, src, before[i]), Ranks(adj, src, kid)) {
        var k: nat :| k < n - 1 && Ranks(adj, src, before[i]) == Ranks(adj, src, cur) + [k];
        LexChild(Ranks(adj, src, cur), k, n - 1);
      }
    }
  }

  /** A child of the head comes after all that is there, and stays ahead of the head's equals. */
  lemma {:induction false} ChildFits(adj: Adjacency, src: int, found: seq<Path>, queue: seq<Path>, kid: Path, k: nat)
    requires queue != [] && Ordered(adj, src, found, queue) && Levelled(queue)
    requires forall i :: 0 <= i < |found| ==> |found[i]| <= |queue[0]|
    requires Ranks(adj, src, kid) == Ranks(adj, src, queue[0]) + [k]
    ensures forall x :: x in found || x in queue[1..] ==> Precedes(Ranks(adj, src, x), Ranks(adj, src, kid))
    ensures forall x :: x in queue[1..] && |x| == |queue[0]| ==> LexLess(Ranks(adj, src, kid), Ranks(adj, src, x))
  {
    hide Ranks;
    var cur, all := queue[0], found + queue;
    forall x | x in found || x in queue[1..]
      ensures Precedes(Ranks(adj, src, x), Ranks(adj, src, kid))
    {
      if x !in found {
        var i :| 1 <= i < |queue| && queue[i] == x;
        if |x| == |cur| + 1 {
          LexExtend(Ranks(adj, src, x), Ranks(adj, src, cur), [], [k]);
          assert Ranks(adj, src, x) + [] == Ranks(adj, src, x);
        }
      }
    }
    forall x | x in queue[1..] && |x| == |cur|
      ensures LexLess(Ranks(adj, src, kid), Ranks(adj, src, x))
    {
      var i :| 1 <= i < |queue| && queue[i] == x;
      assert all[|found|] == cur && all[|found| + i] == x;
      LexExtend(Ranks(adj, src, cur), Ranks(adj, src, x), [k], []);
      assert Ranks(adj, src, x) + [] == Ranks(adj, src, x);
    }
  }

  lemma {:induction false} OrderedGrow(adj: Adjacency, src: int, found: seq<Path>, queue: seq<Path>,
                                       kids: seq<Path>, n: nat)
    requires queue != [] && Ordered(adj, src, found, queue) && Levelled(queue)
    requires forall i :: 0 <= i < |found| ==> |found[i]| <= |queue[0]|
    requires InOrder(adj, src, kids)
    requires forall i :: 0 <= i < |kids| ==> GrownFrom(adj, src, queue[0], kids[i], n)
    ensures Ordered(adj, src, found, queue[1..] + kids)
  {
    hide Precedes, LexLess;
    OrderedDrop(adj, src, found, queue);
    var rest := queue[1..];
    var old', next := found + rest, found + (rest + kids);
    forall i | 0 <= i < |kids|
      ensures forall x :: x in found || x in rest ==> Precedes(Ranks(adj, src, x), Ranks(adj, src, kids[i]))
      ensures forall x :: x in rest && |x| == |queue[0]| ==> LexLess(Ranks(adj, src, kids[i]), Ranks(adj, src, x))
      ensures |kids[i]| == |queue[0]| + 1
    {
      var k: nat :| Ranks(adj, src, kids[i]) == Ranks(adj, src, queue[0]) + [k];
      ChildFits(adj, src, found, queue, kids[i], k);
    }
    forall i, j | 0 <= i < j < |next|
      ensures Precedes(Ranks(adj, src, next[i]), Ranks(adj, src, next[j]))
    {
      if j < |old'| {
        assert next[i] == old'[i] && next[j] == old'[j];
      } else if i < |old'| {
        assert next[i] == old'[i] && next[j] == kids[j - |old'|];
        assert old'[i] in found || old'[i] in rest;
      } else {
        assert next[i] == kids[i - |old'|] && next[j] == kids[j - |old'|];
      }
    }
    GrowAhead(adj, src, queue, kids);
  }

  lemma {:induction false} GrowAhead(adj: Adjacency, src: int, queue: seq<Path>, kids: seq<Path>)
    requires queue != [] && Ahead(adj, src, queue) && Levelled(queue)
    requires forall i :: 0 <= i < |kids| ==> |kids[i]| == |queue[0]| + 1
    requires forall i, x :: 0 <= i < |kids| && x in queue[1..] && |x| == |queue[0]| ==>
               LexLess(Ranks(adj, src, kids[i]), Ranks(adj, src, x))
    ensures Ahead(adj, src, queue[1..] + kids)
  {
    hide LexLess, Ranks;
    var rest := queue[1..];
    var next := rest + kids;
    forall i, j | 0 <= i < |next| && 0 <= j < |next| && |next[i]| == |next[j]| + 1
      ensures LexLess(Ranks(adj, src, next[i]), Ranks(adj, src, next[j]))
    {
      if j < |rest| { assert next[j] == queue[j + 1] && next[j] in rest; }
      if i < |rest| { assert next[i] == queue[i + 1]; } else { assert next[i] == kids[i - |rest|]; }
    }
  }

  // ---------------------------------------------------------------- the queue

  /** The children of `cur` along its first `k` edges, in edge order. */
  function Children(src: int, cur: Path, edges: seq<Edge>, k: nat): seq<Path>
    requires k <= |edges|
  {
    if k == 0 then []
    else if edges[k - 1].to.asn in Visited(src, cur) then Children(src, cur, edges, k - 1)
    else Children(src, cur, edges, k - 1) + [cur + [edges[k - 1]]]
  }

  lemma {:induction false} ChildrenAre(src: int, cur: Path, edges: seq<Edge>, k: nat)
    requires k <= |edges| && Distinct(edges)
    ensures forall c :: c in Children(src, cur, edges, k) <==>
      exists j :: 0 <= j < k && edges[j].to.asn !in Visited(src, cur) && c == cur + [edges[j]]
    ensures Distinct(Children(src, cur, edges, k))
  {
    if k > 0 {
      ChildrenAre(src, cur, edges, k - 1);
      var before, e := Children(src, cur, edges, k - 1), edges[k - 1];
      if e.to.asn !in Visited(src, cur) {
        forall j | 0 <= j < k - 1 ensures cur + [edges[j]] != cur + [e] {
          assert (cur + [edges[j]])[|cur|] == edges[j] && (cur + [e])[|cur|] == e;
        }
        assert cur + [e] !in before;
        assert forall c :: c in before + [cur + [e]] <==> c in before || c == cur + [e];
      }
    }
  }

  /** No path of the list is a prefix of another one. */
  ghost predicate Antichain(paths: seq<Path>) {
    forall i, j :: 0 <= i < |paths| && 0 <= j < |paths| && i != j ==> !(paths[i] <= paths[j])
  }

  /** Queue lengths never decrease and span at most two levels. */
  ghost predicate Levelled(queue: seq<Path>) {
    (forall i, j :: 0 <= i < j < |queue| ==> |queue[i]| <= |queue[j]|)
    && forall i :: 0 <= i < |queue| ==> |queue[i]| <= |queue[0]| + 1
  }

  /** `p` was found already, or some partial path in the queue can still grow into it. */
  ghost predicate Covered(found: seq<Path>, queue: seq<Path>, p: Path) {
    p in found || exists i :: 0 <= i < |queue| && queue[i] <= p
  }

  /** The results so far: candidates, shortest first, none longer than anything still queued. */
  ghost predicate Results(adj: Adjacency, src: int, dst: int, found: seq<Path>, queue: seq<Path>) {
    (forall i :: 0 <= i < |found| ==> IsCandidate(adj, src, dst, found[i]))
    && (forall i, j :: 0 <= i < j < |found| ==> |found[i]| <= |found[j]|)
    && forall i, j :: 0 <= i < |found| && 0 <= j < |queue| ==> |found[i]| <= |queue[j]|
  }

  ghost predicate Partials(adj: Adjacency, src: int, queue: seq<Path>) {
    forall i :: 0 <= i < |queue| ==> IsSimple(adj, src, queue[i]) && |queue[i]| <= MAX_TRACE_DEPTH
  }

  ghost predicate Complete(adj: Adjacency, src: int, dst: int, found: seq<Path>, queue: seq<Path>) {
    forall p :: IsCandidate(adj, src, dst, p) ==> Covered(found, queue, p)
  }

  ghost predicate Searching(adj: Adjacency, src: int, dst: int, found: seq<Path>, queue: seq<Path>) {
    Partials(adj, src, queue) && Levelled(queue) && Antichain(found + queue)
    && Results(adj, src, dst, found, queue) && Complete(adj, src, dst, found, queue)
  }

  /** Number of queued paths of length `d`. */
  ghost function Count(queue: seq<Path>, d: nat): nat {
    if queue == [] then 0 else (if |queue[0]| == d then 1 else 0) + Count(queue[1..], d)
  }

  lemma {:induction false} CountConcat(a: seq<Path>, b: seq<Path>, d: nat)
    ensures Count(a + b, d) == Count(a, d) + Count(b, d)
  {
    if a == [] {
      assert a + b == b;
    } else {
      assert (a + b)[1..] == a[1..] + b;
      CountConcat(a[1..], b, d);
    }
  }

  lemma {:induction false} CountOther(queue: seq<Path>, d: nat, n: nat)
    requires d != n && forall i :: 0 <= i < |queue| ==> |queue[i]| == n
    ensures Count(queue, d) == 0
  {
    if queue != [] { CountOther(queue[1..], d, n); }
  }

  /** Replacing the head by children one longer changes no count below the head's own, which drops by one. */
  lemma {:induction false} CountsDrop(queue: seq<Path>, kids: seq<Path>, d: nat)
    requires queue != [] && d <= |queue[0]| && forall i :: 0 <= i < |kids| ==> |kids[i]| == |queue[0]| + 1
    ensures Count(queue[1..] + kids, d) == Count(queue, d) - (if d == |queue[0]| then 1 else 0)
  {
    CountConcat(queue[1..], kids, d);
    CountOther(kids, d, |queue[0]| + 1);
  }

  lemma {:induction false} TailLevelled(queue: seq<Path>)
    requires queue != [] && Levelled(queue)
    ensures Levelled(queue[1..])
    ensures forall i :: 0 <= i < |queue| ==> |queue[0]| <= |queue[i]|
  {
  }

  lemma {:induction false} AcceptResults(adj: Adjacency, src: int, dst: int, found: seq<Path>, queue: seq<Path>)
    requires queue != [] && Results(adj, src, dst, found, queue)
    requires IsCandidate(adj, src, dst, queue[0]) && forall i :: 0 <= i < |queue| ==> |queue[0]| <= |queue[i]|
    ensures Results(adj, src, dst, found + [queue[0]], queue[1..])
  {
  }

  /** The head is a complete path: it becomes the next result. */
  lemma {:induction false} AcceptHead(adj: Adjacency, src: int, dst: int, found: seq<Path>, queue: seq<Path>)
    requires queue != [] && Searching(adj, src, dst, found, queue)
    requires Tip(src, queue[0]) == dst && queue[0] != []
    ensures Searching(adj, src, dst, found + [queue[0]], queue[1..])
  {
    var cur, rest := queue[0], queue[1..];
    TailLevelled(queue);
    AcceptResults(adj, src, dst, found, queue);
    assert found + queue == (found + [cur]) + rest;
    forall p | IsCandidate(adj, src, dst, p)
      ensures Covered(found + [cur], rest, p)
    {
      assert Covered(found, queue, p);
      StillCovered(adj, src, dst, found, queue, p);
    }
  }

  lemma {:induction false} StillCovered(adj: Adjacency, src: int, dst: int, found: seq<Path>, queue: seq<Path>, p: Path)
    requires queue != [] && Covered(found, queue, p) && IsCandidate(adj, src, dst, p)
    requires Tip(src, queue[0]) == dst && queue[0] != []
    ensures Covered(found + [queue[0]], queue[1..], p)
  {
    var cur, rest := queue[0], queue[1..];
    if p in found {
      assert p in found + [cur];
    } else {
      var i :| 0 <= i < |queue| && queue[i] <= p;
      if i == 0 {
        if |cur| < |p| {
          assert p[..|cur|] == cur;
          OnlyEndsAtTip(adj, src, p, |cur|);
        }
        assert p == cur && (found + [cur])[|found|] == cur;
      } else {
        assert rest[i - 1] == queue[i];
      }
    }
  }

  /** The head is too long to grow and not complete: it is dropped. */
  lemma {:induction false} DropHead(adj: Adjacency, src: int, dst: int, found: seq<Path>, queue: seq<Path>)
    requires queue != [] && Searching(adj, src, dst, found, queue)
    requires Tip(src, queue[0]) != dst || queue[0] == []
    requires |queue[0]| >= MAX_TRACE_DEPTH
    ensures Searching(adj, src, dst, found, queue[1..])
  {
    var cur, rest := queue[0], queue[1..];
    TailLevelled(queue);
    DropAntichain(found, queue);
    forall p | IsCandidate(adj, src, dst, p)
      ensures Covered(found, rest, p)
    {
      assert Covered(found, queue, p);
      if p !in found {
        var i :| 0 <= i < |queue| && queue[i] <= p;
        if i > 0 { assert rest[i - 1] == queue[i]; }
      }
    }
  }

  lemma {:induction false} DropAntichain(found: seq<Path>, queue: seq<Path>)
    requires queue != [] && Antichain(found + queue)
    ensures Antichain(found + queue[1..])
  {
    var all, less := found + queue, found + queue[1..];
    forall i, j | 0 <= i < |less| && 0 <= j < |less| && i != j
      ensures !(less[i] <= less[j])
    {
      var i' := if i < |found| then i else i + 1;
      var j' := if j < |found| then j else j + 1;
      assert less[i] == all[i'] && less[j] == all[j'];
    }
  }

  lemma {:induction false} ChildAntichain(found: seq<Path>, queue: seq<Path>, kids: seq<Path>)
    requires queue != [] && Antichain(found + queue) && Distinct(kids)
    requires forall i :: 0 <= i < |kids| ==> queue[0] <= kids[i] && |kids[i]| == |queue[0]| + 1
    ensures Antichain(found + (queue[1..] + kids))
  {
    var all, next := found + queue, found + (queue[1..] + kids);
    var m := |found| + |queue| - 1;
    forall i, j | 0 <= i < |next| && 0 <= j < |next| && i != j
      ensures !(next[i] <= next[j])
    {
      var i' := if i < |found| then i else i + 1;
      var j' := if j < |found| then j else j + 1;
      if i < m { assert next[i] == all[i']; } else { assert next[i] == kids[i - m]; }
      if j < m { assert next[j] == all[j']; } else { assert next[j] == kids[j - m]; }
      assert all[|found|] == queue[0];
      if next[i] <= next[j] {
        PrefixOfChild(queue[0], next[i], next[j]);
      }
    }
  }

  /** A prefix of a one-step extension of `cur` is the extension itself or a prefix of `cur`. */
  lemma {:induction false} PrefixOfChild(cur: Path, p: Path, c: Path)
    requires p <= c
    ensures cur <= p ==> cur <= c
    ensures cur <= c && |c| == |cur| + 1 ==> p == c || p <= cur
  {
    if cur <= c && |c| == |cur| + 1 && |p| <= |cur| {
      assert p == c[..|p|] && cur == c[..|cur|];
    }
  }

  /** The head grows by one edge in every unvisited direction. */
  lemma {:induction false} GrowHead(adj: Adjacency, src: int, dst: int, found: seq<Path>, queue: seq<Path>,
                                    kids: seq<Path>)
    requires queue != [] && Searching(adj, src, dst, found, queue)
    requires Tip(src, queue[0]) != dst || queue[0] == []
    requires |queue[0]| < MAX_TRACE_DEPTH
    requires Distinct(EdgesAt(adj, Tip(src, queue[0])))
    requires var edges := EdgesAt(adj, Tip(src, queue[0])); kids == Children(src, queue[0], edges, |edges|)
    ensures Searching(adj, src, dst, found, queue[1..] + kids)
  {
    var cur, rest := queue[0], queue[1..];
    var edges := EdgesAt(adj, Tip(src, cur));
    ChildrenAre(src, cur, edges, |edges|);
    var next := rest + kids;
    forall i | 0 <= i < |kids|
      ensures cur <= kids[i] && |kids[i]| == |cur| + 1 && IsSimple(adj, src, kids[i])
    {
      assert kids[i] in kids;
      var j :| 0 <= j < |edges| && edges[j].to.asn !in Visited(src, cur) && kids[i] == cur + [edges[j]];
      assert Init(kids[i]) == cur;
    }
    ChildAntichain(found, queue, kids);
    GrowLevelled(queue, kids);
    forall p | IsCandidate(adj, src, dst, p)
      ensures Covered(found, next, p)
    {
      assert Covered(found, queue, p);
      GrownCovered(adj, src, dst, found, queue, kids, p);
    }
  }

  lemma {:induction false} GrownCovered(adj: Adjacency, src: int, dst: int, found: seq<Path>, queue: seq<Path>,
                                        kids: seq<Path>, p: Path)
    requires queue != [] && Covered(found, queue, p) && IsCandidate(adj, src, dst, p)
    requires Tip(src, queue[0]) != dst || queue[0] == []
    requires Distinct(EdgesAt(adj, Tip(src, queue[0])))
    requires var edges := EdgesAt(adj, Tip(src, queue[0])); kids == Children(src, queue[0], edges, |edges|)
    ensures Covered(found, queue[1..] + kids, p)
  {
    hide IsSimple, Children, EdgesAt;
    var next, m := queue[1..] + kids, |queue| - 1;
    if p !in found {
      var i :| 0 <= i < |queue| && queue[i] <= p;
      if i > 0 {
        assert next[i - 1] == queue[i];
      } else {
        ChildOnTheWay(adj, src, p, queue[0], kids);
        var k :| 0 <= k < |kids| && kids[k] <= p;
        assert next[m + k] == kids[k];
      }
    }
  }

  lemma {:induction false} GrowLevelled(queue: seq<Path>, kids: seq<Path>)
    requires queue != [] && Levelled(queue) && forall i :: 0 <= i < |kids| ==> |kids[i]| == |queue[0]| + 1
    ensures Levelled(queue[1..] + kids)
    ensures forall i :: 0 <= i < |queue[1..] + kids| ==> |queue[0]| <= |(queue[1..] + kids)[i]|
  {
    var next := queue[1..] + kids;
    forall i | 0 <= i < |next|
      ensures |queue[0]| <= |next[i]| <= |queue[0]| + 1
      ensures i < |queue| - 1 ==> next[i] == queue[i + 1]
      ensures i >= |queue| - 1 ==> |next[i]| == |queue[0]| + 1
    {
    }
  }

  /** A longer simple path that starts with `cur` goes through one of its children. */
  lemma {:induction false} ChildOnTheWay(adj: Adjacency, src: int, p: Path, cur: Path, kids: seq<Path>)
    requires IsSimple(adj, src, p) && cur <= p && cur != p && Distinct(EdgesAt(adj, Tip(src, cur)))
    requires var edges := EdgesAt(adj, Tip(src, cur)); kids == Children(src, cur, edges, |edges|)
    ensures exists k :: 0 <= k < |kids| && kids[k] <= p
  {
    hide Visited, IsSimple, Children, Distinct, Tip;
    var edges := EdgesAt(adj, Tip(src, cur));
    assert p[..|cur|] == cur;
    SimplePrefix(adj, src, p, |cur|);
    var j :| 0 <= j < |edges| && edges[j] == p[|cur|];
    ChildrenAre(src, cur, edges, |edges|);
    assert cur + [edges[j]] in kids;
    var k :| 0 <= k < |kids| && kids[k] == cur + [edges[j]];
    assert p[..|cur| + 1] == kids[k];
  }

  // ---------------------------------------------------------------- the enumeration

  /** The results are the first candidates, shortest first and then in link order: three, or all there are. */
  ghost predicate Enumerated(adj: Adjacency, src: int, dst: int, found: seq<Path>) {
    |found| <= MAX_TRACE_PATHS && Distinct(found)
    && (forall i :: 0 <= i < |found| ==> IsCandidate(adj, src, dst, found[i]))
    && InOrder(adj, src, found)
    && (forall p :: IsCandidate(adj, src, dst, p) && p !in found ==>
          |found| == MAX_TRACE_PATHS && ComesAfter(adj, src, found, p))
  }

  ghost predicate ComesAfter(adj: Adjacency, src: int, found: seq<Path>, p: Path) {
    forall i :: 0 <= i < |found| ==> Precedes(Ranks(adj, src, found[i]), Ranks(adj, src, p))
  }

  /** So there is only one such list: every enumeration offers the same candidates under the same names. */
  lemma {:induction false} EnumerationUnique(adj: Adjacency, src: int, dst: int, f: seq<Path>, g: seq<Path>)
    requires Enumerated(adj, src, dst, f) && Enumerated(adj, src, dst, g)
    ensures f == g
  {
    hide Enumerated;
    SamePrefix(adj, src, dst, f, g, if |f| <= |g| then |f| else |g|);
    if |f| < |g| {
      PrefixIsWhole(adj, src, dst, f, g);
    } else {
      PrefixIsWhole(adj, src, dst, g, f);
    }
  }

  /** A shorter enumeration cannot leave out what a longer one goes on with. */
  lemma {:induction false} PrefixIsWhole(adj: Adjacency, src: int, dst: int, f: seq<Path>, g: seq<Path>)
    requires Enumerated(adj, src, dst, f) && Enumerated(adj, src, dst, g) && |f| <= |g| && f[..|f|] == g[..|f|]
    ensures |f| == |g|
  {
    hide Enumerated;
    if |f| < |g| {
      NextListed(adj, src, dst, f, g, |f|);
      var i :| 0 <= i < |f| && f[i] == g[|f|];
      assert f[..|f|][i] == g[..|f|][i];
      EnumeratedApart(adj, src, dst, g);
    }
  }

  lemma EnumeratedApart(adj: Adjacency, src: int, dst: int, g: seq<Path>)
    requires Enumerated(adj, src, dst, g)
    ensures Distinct(g) && |g| <= MAX_TRACE_PATHS
  {
  }

  lemma {:induction false} NextListed(adj: Adjacency, src: int, dst: int, f: seq<Path>, g: seq<Path>, k: nat)
    requires Enumerated(adj, src, dst, f) && Enumerated(adj, src, dst, g) && |f| < |g| && k < |g|
    ensures g[k] in f
  {
    hide Ranks, IsCandidate, Precedes;
  }

  lemma {:induction false} SamePrefix(adj: Adjacency, src: int, dst: int, f: seq<Path>, g: seq<Path>, n: nat)
    requires Enumerated(adj, src, dst, f) && Enumerated(adj, src, dst, g) && n <= |f| && n <= |g|
    ensures f[..n] == g[..n]
  {
    hide Enumerated, Ranks;
    if n > 0 {
      SamePrefix(adj, src, dst, f, g, n - 1);
      if f[n - 1] != g[n - 1] {
        NextPrecedes(adj, src, dst, f, g, n - 1);
        NextPrecedes(adj, src, dst, g, f, n - 1);
        PrecedesAsymmetric(Ranks(adj, src, f[n - 1]), Ranks(adj, src, g[n - 1]));
      }
    }
  }

  /** Where two enumerations part, the candidate the one lists comes before the one the other lists. */
  lemma {:induction false} NextPrecedes(adj: Adjacency, src: int, dst: int, f: seq<Path>, g: seq<Path>, n: nat)
    requires Enumerated(adj, src, dst, f) && Enumerated(adj, src, dst, g) && n < |f| && n < |g|
    requires f[..n] == g[..n] && f[n] != g[n]
    ensures Precedes(Ranks(adj, src, f[n]), Ranks(adj, src, g[n]))
  {
    hide Ranks, IsCandidate, Precedes;
    var p := g[n];
    assert IsCandidate(adj, src, dst, p);
    forall i | 0 <= i < n ensures f[i] != p {
      assert f[i] == f[..n][i] == g[..n][i] == g[i];
    }
  }

  lemma {:induction false} FoundDistinct(found: seq<Path>, queue: seq<Path>)
    requires Antichain(found + queue)
    ensures Distinct(found)
  {
    var all := found + queue;
    forall i, j | 0 <= i < j < |found| ensures found[i] != found[j] {
      assert all[i] == found[i] && all[j] == found[j];
    }
  }

  lemma {:induction false} OmittedIsLater(adj: Adjacency, src: int, dst: int, found: seq<Path>, queue: seq<Path>,
                                          p: Path)
    requires Results(adj, src, dst, found, queue) && Covered(found, queue, p) && p !in found
    requires Ordered(adj, src, found, queue)
    requires queue == [] || |found| == MAX_TRACE_PATHS
    ensures |found| == MAX_TRACE_PATHS && ComesAfter(adj, src, found, p)
  {
    hide Ranks, Ahead;
    var i :| 0 <= i < |queue| && queue[i] <= p;
    var all := found + queue;
    forall j | 0 <= j < |found| ensures Precedes(Ranks(adj, src, found[j]), Ranks(adj, src, p)) {
      assert all[j] == found[j] && all[|found| + i] == queue[i];
      if |queue[i]| == |p| { assert queue[i] == p; }
    }
  }

  lemma {:induction false} StopIsEnumerated(adj: Adjacency, src: int, dst: int, found: seq<Path>, queue: seq<Path>)
    requires Searching(adj, src, dst, found, queue) && |found| <= MAX_TRACE_PATHS
    requires Ordered(adj, src, found, queue)
    requires queue == [] || |found| == MAX_TRACE_PATHS
    ensures Enumerated(adj, src, dst, found)
  {
    hide Ranks;
    FoundDistinct(found, queue);
    forall i, j | 0 <= i < j < |found| ensures Precedes(Ranks(adj, src, found[i]), Ranks(adj, src, found[j])) {
      assert (found + queue)[i] == found[i] && (found + queue)[j] == found[j];
    }
    forall p | IsCandidate(adj, src, dst, p) && p !in found
      ensures |found| == MAX_TRACE_PATHS && ComesAfter(adj, src, found, p)
    {
      OmittedIsLater(adj, src, dst, found, queue, p);
    }
  }

  lemma SearchStarts(adj: Adjacency, src: int, dst: int)
    ensures Searching(adj, src, dst, [], [[]]) && Ordered(adj, src, [], [[]])
  {
    forall p ensures Covered([], [[]], p) {
      assert [[]][0] <= p;
    }
  }

  lemma HeadFits(adj: Adjacency, src: int, dst: int, found: seq<Path>, queue: seq<Path>)
    requires queue != [] && Searching(adj, src, dst, found, queue)
    ensures |queue[0]| <= MAX_TRACE_DEPTH
  {
  }

  /** candidates: the paths the prober offers from `src` to `dst`. */
  method Candidates(adj: Adjacency, src: int, dst: int) returns (found: seq<Path>)
    requires forall x :: Distinct(EdgesAt(adj, x))
    ensures Enumerated(adj, src, dst, found)
    ensures |found| <= 3 && forall p :: p in found ==> 1 <= |p| <= 6
    ensures |found| < 3 ==>
              forall p :: IsSimple(adj, src, p) && 1 <= |p| <= 6 && Tip(src, p) == dst ==> p in found
  {
    hide Searching, Ordered, Enumerated, Count, Distinct;
    var queue: seq<Path> := [[]];
    found := [];
    SearchStarts(adj, src, dst);
    while queue != [] && |found| < MAX_TRACE_PATHS
      invariant |found| <= MAX_TRACE_PATHS
      invariant Searching(adj, src, dst, found, queue) && Ordered(adj, src, found, queue)
      decreases Count(queue, 0), Count(queue, 1), Count(queue, 2), Count(queue, 3), Count(queue, 4), Count(queue, 5),
                Count(queue, 6)
    {
      HeadFits(adj, src, dst, found, queue);
      var cur := queue[0];
      var rest := queue[1..];
      ghost var before := queue;
      if Tip(src, cur) == dst && |cur| > 0 {
        AcceptHead(adj, src, dst, found, queue);
        OrderedAccept(adj, src, found, queue);
        found := found + [cur];
        queue := rest;
        assert queue == rest + [];
        AllCountsDrop(before, []);
        continue;
      }
      if |cur| >= MAX_TRACE_DEPTH {
        DropHead(adj, src, dst, found, queue);
        OrderedDrop(adj, src, found, queue);
        queue := rest;
        assert queue == rest + [];
        AllCountsDrop(before, []);
        continue;
      }
      var visited := Visited(src, cur);
      var edges := EdgesAt(adj, Tip(src, cur));
      queue := rest;
      for k := 0 to |edges|
        invariant queue == rest + Children(src, cur, edges, k)
      {
        if edges[k].to.asn in visited {
          continue;
        }
        queue := queue + [cur + [edges[k]]];
      }
      GrowHead(adj, src, dst, found, before, Children(src, cur, edges, |edges|));
      GrowOrdered(adj, src, dst, found, before, Children(src, cur, edges, |edges|));
      ChildrenLonger(src, cur, edges, |edges|);
      AllCountsDrop(before, Children(src, cur, edges, |edges|));
    }
    StopIsEnumerated(adj, src, dst, found, queue);
    EnumeratedBounds(adj, src, dst, found);
  }

  lemma EnumeratedBounds(adj: Adjacency, src: int, dst: int, found: seq<Path>)
    requires Enumerated(adj, src, dst, found)
    ensures |found| <= 3 && forall p :: p in found ==> 1 <= |p| <= 6
    ensures |found| < 3 ==>
              forall p :: IsSimple(adj, src, p) && 1 <= |p| <= 6 && Tip(src, p) == dst ==> p in found
  {
  }

  lemma {:induction false} GrowOrdered(adj: Adjacency, src: int, dst: int, found: seq<Path>, queue: seq<Path>,
                                       kids: seq<Path>)
    requires queue != [] && Searching(adj, src, dst, found, queue) && Ordered(adj, src, found, queue)
    requires Distinct(EdgesAt(adj, Tip(src, queue[0])))
    requires var edges := EdgesAt(adj, Tip(src, queue[0])); kids == Children(src, queue[0], edges, |edges|)
    ensures Ordered(adj, src, found, queue[1..] + kids)
  {
    hide InOrder, Ranks, Children, Ahead;
    var edges := EdgesAt(adj, Tip(src, queue[0]));
    ChildRanks(adj, src, queue[0], edges, |edges|);
    OrderedGrow(adj, src, found, queue, kids, |edges|);
  }

  lemma {:induction false} ChildrenLonger(src: int, cur: Path, edges: seq<Edge>, k: nat)
    requires k <= |edges|
    ensures forall i :: 0 <= i < |Children(src, cur, edges, k)| ==> |Children(src, cur, edges, k)[i]| == |cur| + 1
  {
    if k > 0 { ChildrenLonger(src, cur, edges, k - 1); }
  }

  lemma {:induction false} AllCountsDrop(queue: seq<Path>, kids: seq<Path>)
    requires queue != [] && |queue[0]| <= MAX_TRACE_DEPTH
    requires forall i :: 0 <= i < |kids| ==> |kids[i]| == |queue[0]| + 1
    ensures forall d :: 0 <= d < |queue[0]| ==> Count(queue[1..] + kids, d) == Count(queue, d)
    ensures Count(queue[1..] + kids, |queue[0]|) < Count(queue, |queue[0]|)
  {
    forall d | 0 <= d <= |queue[0]|
      ensures Count(queue[1..] + kids, d) == Count(queue, d) - (if d == |queue[0]| then 1 else 0)
    {
      CountsDrop(queue, kids, d);
    }
  }
}
