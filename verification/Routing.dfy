/**
 * The mock BGP tables and the walker that follows them: one breadth-first search
 * per AS produces that AS's next hops, and `Walk` strings together entries that
 * different searches computed independently.
 */
module Routing {
  import opened Prelude
  import opened Topology
  import opened PathOrder
  import Decimal

  // ---------------------------------------------------------------- adjacency

  datatype Edge = Edge(peer: int, ifid: string)

  type Adjacency = map<int, seq<Edge>>

  function EdgesAt(adj: Adjacency, x: int): seq<Edge> {
    if x in adj then adj[x] else []
  }

  /** A link carries mock BGP unless it is shaped to 100% loss. */
  predicate Live(shaped: map<string, Shaping>, l: Link) {
    !(l.id in shaped && shaped[l.id].lossPct.Some? && shaped[l.id].lossPct.value >= 100.0)
  }

  /** One of the first `n` links is live and leads from interface `ifid` of AS `x` to AS `y`. */
  ghost predicate ArcAmong(links: seq<Link>, n: nat, shaped: map<string, Shaping>, x: int, e: Edge)
    requires n <= |links|
  {
    exists i, s {:trigger Near(links[i], s)} :: 0 <= i < n && Live(shaped, links[i])
      && Near(links[i], s).asn == x && e == Edge(Far(links[i], s).asn, Near(links[i], s).ifid)
  }

  /** `adj` lists exactly the directed edges of the live links. */
  ghost predicate AdjacencyOf(adj: Adjacency, links: seq<Link>, shaped: map<string, Shaping>) {
    forall x, e :: e in EdgesAt(adj, x) <==> ArcAmong(links, |links|, shaped, x, e)
  }

  function AddEdge(adj: Adjacency, x: int, e: Edge): Adjacency {
    adj[x := EdgesAt(adj, x) + [e]]
  }

  /** The edge lists after the first `n` links were entered in graph order. */
  function LiveAdjacency(links: seq<Link>, n: nat, shaped: map<string, Shaping>): Adjacency
    requires n <= |links|
  {
    if n == 0 then map[]
    else
      var l, before := links[n - 1], LiveAdjacency(links, n - 1, shaped);
      if !Live(shaped, l) then before
      else AddEdge(AddEdge(before, l.a.asn, Edge(l.b.asn, l.a.ifid)), l.b.asn, Edge(l.a.asn, l.b.ifid))
  }

  /** Link `l` leads from `x` over `e`, one way or the other. */
  predicate Carries(l: Link, x: int, e: Edge) {
    (x == l.a.asn && e == Edge(l.b.asn, l.a.ifid)) || (x == l.b.asn && e == Edge(l.a.asn, l.b.ifid))
  }

  lemma {:induction false} ArcAmongMore(links: seq<Link>, n: nat, shaped: map<string, Shaping>, x: int, e: Edge)
    requires 0 < n <= |links|
    ensures ArcAmong(links, n, shaped, x, e)
            <==> ArcAmong(links, n - 1, shaped, x, e) || (Live(shaped, links[n - 1]) && Carries(links[n - 1], x, e))
  {
    hide Live;
    var l := links[n - 1];
    assert Near(links[n - 1], false) == l.a && Near(links[n - 1], true) == l.b;
  }

  lemma EdgesAdded(adj: Adjacency, l: Link, x: int, e: Edge)
    ensures e in EdgesAt(AddEdge(AddEdge(adj, l.a.asn, Edge(l.b.asn, l.a.ifid)), l.b.asn, Edge(l.a.asn, l.b.ifid)), x)
            <==> e in EdgesAt(adj, x) || Carries(l, x, e)
  {
  }

  lemma {:induction false} LiveEdgesAre(links: seq<Link>, n: nat, shaped: map<string, Shaping>, x: int, e: Edge)
    requires n <= |links|
    ensures e in EdgesAt(LiveAdjacency(links, n, shaped), x) <==> ArcAmong(links, n, shaped, x, e)
  {
    if n > 0 {
      hide Live, ArcAmong, AddEdge, EdgesAt, Carries;
      LiveEdgesAre(links, n - 1, shaped, x, e);
      ArcAmongMore(links, n, shaped, x, e);
      EdgesAdded(LiveAdjacency(links, n - 1, shaped), links[n - 1], x, e);
    }
  }

  method BuildAdjacency(links: seq<Link>, shaped: map<string, Shaping>) returns (adj: Adjacency)
    ensures adj == LiveAdjacency(links, |links|, shaped)
    ensures AdjacencyOf(adj, links, shaped)
  {
    adj := map[];
    for i := 0 to |links|
      invariant adj == LiveAdjacency(links, i, shaped)
    {
      var l := links[i];
      if !Live(shaped, l) {
        continue;
      }
      adj := AddEdge(adj, l.a.asn, Edge(l.b.asn, l.a.ifid));
      adj := AddEdge(adj, l.b.asn, Edge(l.a.asn, l.b.ifid));
    }
    forall x, e ensures e in EdgesAt(adj, x) <==> ArcAmong(links, |links|, shaped, x, e) {
      LiveEdgesAre(links, |links|, shaped, x, e);
    }
  }

  // ---------------------------------------------------------------- paths

  /** The AS reached from `x` after the first `i` edges of `p`. */
  function At(x: int, p: seq<Edge>, i: nat): int
    requires i <= |p|
  {
    if i == 0 then x else p[i - 1].peer
  }

  ghost predicate IsPath(adj: Adjacency, x: int, y: int, p: seq<Edge>) {
    At(x, p, |p|) == y && forall i {:trigger At(x, p, i)} :: 0 <= i < |p| ==> p[i] in EdgesAt(adj, At(x, p, i))
  }

  ghost predicate Reachable(adj: Adjacency, x: int, y: int) {
    exists p :: IsPath(adj, x, y, p)
  }

  ghost predicate IsShortest(adj: Adjacency, x: int, y: int, p: seq<Edge>) {
    IsPath(adj, x, y, p) && forall q :: IsPath(adj, x, y, q) ==> |p| <= |q|
  }

  lemma {:induction false} TailPath(adj: Adjacency, x: int, y: int, p: seq<Edge>)
    requires IsPath(adj, x, y, p) && p != []
    ensures p[0] in EdgesAt(adj, x) && IsPath(adj, p[0].peer, y, p[1..])
  {
    assert p[0] in EdgesAt(adj, At(x, p, 0));
    forall i | 0 <= i < |p| - 1
      ensures p[1..][i] in EdgesAt(adj, At(p[0].peer, p[1..], i))
    {
      assert p[i + 1] in EdgesAt(adj, At(x, p, i + 1));
    }
  }

  lemma {:induction false} ConsPath(adj: Adjacency, x: int, y: int, e: Edge, p: seq<Edge>)
    requires e in EdgesAt(adj, x) && IsPath(adj, e.peer, y, p)
    ensures IsPath(adj, x, y, [e] + p)
  {
    forall i | 0 <= i < |p| + 1
      ensures ([e] + p)[i] in EdgesAt(adj, At(x, [e] + p, i))
    {
      if i > 0 { assert p[i - 1] in EdgesAt(adj, At(e.peer, p, i - 1)); }
    }
  }

  lemma {:induction false} SnocPath(adj: Adjacency, x: int, y: int, p: seq<Edge>, e: Edge)
    requires IsPath(adj, x, y, p) && e in EdgesAt(adj, y)
    ensures IsPath(adj, x, e.peer, p + [e])
  {
    var p' := p + [e];
    forall i | 0 <= i < |p'|
      ensures p'[i] in EdgesAt(adj, At(x, p', i))
    {
      assert At(x, p', i) == At(x, p, i);
      if i < |p| { assert p'[i] == p[i]; }
    }
  }

  // ---------------------------------------------------------------- link order

  /** The position at which `e` first stands in an edge list. */
  function Position(edges: seq<Edge>, e: Edge): nat {
    if edges == [] || edges[0] == e then 0 else 1 + Position(edges[1..], e)
  }

  lemma {:induction false} PositionOf(edges: seq<Edge>, e: Edge)
    requires e in edges
    ensures Position(edges, e) < |edges| && edges[Position(edges, e)] == e
  {
    if edges[0] != e { PositionOf(edges[1..], e); }
  }

  lemma {:induction false} PositionAtMost(edges: seq<Edge>, k: nat)
    requires k < |edges|
    ensures Position(edges, edges[k]) <= k
  {
    if k > 0 && edges[0] != edges[k] { PositionAtMost(edges[1..], k - 1); }
  }

  /** A path told by the positions of its edges. */
  function Ranks(adj: Adjacency, x: int, p: seq<Edge>): (r: seq<nat>)
    ensures |r| == |p|
  {
    if p == [] then []
    else
      var n := |p| - 1;
      Ranks(adj, x, p[..n]) + [Position(EdgesAt(adj, At(x, p[..n], n)), p[n])]
  }

  /** A shortest path, and among those the first in link order. */
  ghost predicate IsLeading(adj: Adjacency, x: int, y: int, p: seq<Edge>) {
    IsShortest(adj, x, y, p) && forall q :: IsPath(adj, x, y, q) ==> NoLater(Ranks(adj, x, p), Ranks(adj, x, q))
  }

  lemma {:induction false} InitPath(adj: Adjacency, x: int, y: int, p: seq<Edge>)
    requires IsPath(adj, x, y, p) && p != []
    ensures var init := p[..|p| - 1]; var u := At(x, init, |init|);
            IsPath(adj, x, u, init) && p[|p| - 1] in EdgesAt(adj, u) && p[|p| - 1].peer == y
  {
    var init := p[..|p| - 1];
    assert At(x, p, |init|) == At(x, init, |init|);
    forall i {:trigger At(x, init, i)} | 0 <= i < |init| ensures init[i] in EdgesAt(adj, At(x, init, i)) {
      assert At(x, init, i) == At(x, p, i) && init[i] == p[i];
    }
  }

  /** Different paths have different ranks. */
  lemma {:induction false} RanksTell(adj: Adjacency, x: int, y: int, p: seq<Edge>, z: int, q: seq<Edge>)
    requires IsPath(adj, x, y, p) && IsPath(adj, x, z, q) && Ranks(adj, x, p) == Ranks(adj, x, q)
    ensures p == q
    decreases |p|
  {
    hide Ranks, IsPath, EdgesAt, Position, At;
    if p != [] {
      var p0, q0, n := p[..|p| - 1], q[..|p| - 1], |p| - 1;
      InitPath(adj, x, y, p);
      InitPath(adj, x, z, q);
      LastRank(adj, x, p);
      LastRank(adj, x, q);
      RanksTell(adj, x, At(x, p0, n), p0, At(x, q0, n), q0);
      SamePosition(EdgesAt(adj, At(x, p0, n)), p[n], q[n]);
      SameSnoc(p, q);
    }
  }

  lemma SameSnoc<T>(p: seq<T>, q: seq<T>)
    requires |p| == |q| > 0 && p[..|p| - 1] == q[..|q| - 1] && p[|p| - 1] == q[|q| - 1]
    ensures p == q
  {
    assert p == p[..|p| - 1] + [p[|p| - 1]] && q == q[..|q| - 1] + [q[|q| - 1]];
  }

  lemma SamePosition(edges: seq<Edge>, e: Edge, f: Edge)
    requires e in edges && f in edges && Position(edges, e) == Position(edges, f)
    ensures e == f
  {
    PositionOf(edges, e);
    PositionOf(edges, f);
  }

  lemma LastRank(adj: Adjacency, x: int, p: seq<Edge>)
    requires p != []
    ensures var n := |p| - 1;
            Ranks(adj, x, p[..n]) == Ranks(adj, x, p)[..n]
            && Ranks(adj, x, p)[n] == Position(EdgesAt(adj, At(x, p[..n], n)), p[n])
  {
  }

  // ---------------------------------------------------------------- one search

  /** The table entry of `src` for `v`: the interface that the first of the shortest paths to `v` leaves by. */
  ghost predicate IsFirstHop(adj: Adjacency, src: int, v: int, ifid: string) {
    exists p: seq<Edge> :: IsLeading(adj, src, v, p) && p != [] && p[0].ifid == ifid
  }

  ghost predicate IsTable(adj: Adjacency, src: int, first: map<int, string>) {
    forall v :: (v in first <==> v != src && Reachable(adj, src, v))
                && (v in first ==> IsFirstHop(adj, src, v, first[v]))
  }

  /** Which table that is depends on the edge lists alone, so polls in between which nothing changes agree. */
  lemma {:induction false} TableUnique(adj: Adjacency, src: int, f: map<int, string>, g: map<int, string>)
    requires IsTable(adj, src, f) && IsTable(adj, src, g)
    ensures f == g
  {
    hide Reachable, IsLeading;
    forall v | v in f ensures v in g && f[v] == g[v] {
      var p: seq<Edge> :| IsLeading(adj, src, v, p) && p != [] && p[0].ifid == f[v];
      var q: seq<Edge> :| IsLeading(adj, src, v, q) && q != [] && q[0].ifid == g[v];
      LeadingUnique(adj, src, v, p, q);
    }
    assert forall v :: v in f <==> v in g;
  }

  lemma {:induction false} LeadingUnique(adj: Adjacency, x: int, y: int, p: seq<Edge>, q: seq<Edge>)
    requires IsLeading(adj, x, y, p) && IsLeading(adj, x, y, q)
    ensures p == q
  {
    NoLaterAntisymmetric(Ranks(adj, x, p), Ranks(adj, x, q));
    RanksTell(adj, x, y, p, y, q);
  }

  /** Every vertex reached so far has a path, and `first` holds the interface that path starts with. */
  ghost predicate Labelled(adj: Adjacency, src: int, path: map<int, seq<Edge>>, first: map<int, string>) {
    src in path && path[src] == [] && first.Keys == path.Keys - {src}
    && (forall v :: v in path ==> IsPath(adj, src, v, path[v]))
    && forall v :: v in first ==> path[v] != [] && first[v] == path[v][0].ifid
  }

  lemma VerticesClosed(adj: Adjacency, src: int) returns (all: set<int>)
    ensures src in all && forall x, e :: e in EdgesAt(adj, x) ==> e.peer in all
  {
    all := {src} + set x, e | x in adj && e in adj[x] :: e.peer;
    forall x, e | e in EdgesAt(adj, x) ensures e.peer in all {
      assert x in adj && e in adj[x];
    }
  }

  lemma {:induction false} DiscoverLabels(adj: Adjacency, src: int, path: map<int, seq<Edge>>, first: map<int, string>,
                                          cur: int, e: Edge, ifid: string)
    requires Labelled(adj, src, path, first)
    requires cur in path && e in EdgesAt(adj, cur) && e.peer !in path
    requires ifid == if cur == src then e.ifid else first[cur]
    ensures Labelled(adj, src, path[e.peer := path[cur] + [e]], first[e.peer := ifid])
    ensures path[e.peer := path[cur] + [e]].Keys == path.Keys + {e.peer}
  {
    SnocPath(adj, src, cur, path[cur], e);
  }

  // ---------------------------------------------------------------- ranks during the search

  /** What is known of the ranks of labelled vertices. */
  type Rank = map<int, seq<nat>>

  /** The queue is in order; what was found from earlier vertices stays ahead. */
  ghost predicate Sorted(rank: Rank, queue: seq<int>) {
    (forall i :: 0 <= i < |queue| ==> queue[i] in rank)
    && (forall i, j :: 0 <= i < j < |queue| ==> Precedes(rank[queue[i]], rank[queue[j]]))
    && forall v, i :: v in rank && 0 <= i < |queue| ==>
         |rank[v]| <= |rank[queue[i]]| + 1
         && (|rank[v]| == |rank[queue[i]]| + 1 ==> LexLess(rank[v], rank[queue[i]]))
  }

  /** No path over one of the first `n` edges out of `v` comes before its peer's own. */
  ghost predicate Best(adj: Adjacency, rank: Rank, v: int, n: nat)
    requires n <= |EdgesAt(adj, v)|
  {
    v in rank && forall k :: 0 <= k < n ==> BestEdge(adj, rank, v, EdgesAt(adj, v)[k])
  }

  ghost predicate BestEdge(adj: Adjacency, rank: Rank, v: int, e: Edge)
    requires v in rank
  {
    e.peer in rank && NoLater(rank[e.peer], rank[v] + [Position(EdgesAt(adj, v), e)])
  }

  /** `w` was found from `cur`, over the first edge there is, before edge `k`. */
  ghost predicate FoundFrom(adj: Adjacency, rank: Rank, cur: int, k: nat, w: int)
    requires cur in rank && w in rank && k <= |EdgesAt(adj, cur)|
  {
    exists j :: 0 <= j < k && rank[w] == rank[cur] + [j] && forall i :: 0 <= i < j ==> EdgesAt(adj, cur)[i].peer != w
  }

  /** `cur` was taken off the queue and its first `k` edges followed. */
  ghost predicate Expanding(adj: Adjacency, rank: Rank, queue: seq<int>, cur: int, k: nat) {
    k <= |EdgesAt(adj, cur)| && Best(adj, rank, cur, k)
    && (forall v :: v in rank ==> |rank[v]| <= |rank[cur]| + 1)
    && (forall v :: v in rank && |rank[v]| == |rank[cur]| + 1 ==>
          LexLess(rank[v], rank[cur]) || FoundFrom(adj, rank, cur, k, v))
    && forall y :: y in queue ==> y in rank && Precedes(rank[cur], rank[y])
  }

  ghost predicate Done(adj: Adjacency, rank: Rank, queue: seq<int>, open: set<int>) {
    forall v :: v in rank && v !in queue && v !in open ==> Best(adj, rank, v, |EdgesAt(adj, v)|)
  }

  lemma {:induction false} PopRank(adj: Adjacency, rank: Rank, queue: seq<int>)
    requires queue != [] && Sorted(rank, queue) && Done(adj, rank, queue, {})
    ensures Sorted(rank, queue[1..]) && Done(adj, rank, queue[1..], {queue[0]})
    ensures Expanding(adj, rank, queue[1..], queue[0], 0)
  {
    hide Precedes, LexLess;
    forall v | v in queue && v != queue[0] ensures v in queue[1..] {
      var i :| 0 <= i < |queue| && queue[i] == v;
      assert queue[1..][i - 1] == v;
    }
  }

  /** Edge `k` leads to a vertex found before: no earlier path to it is missed. */
  lemma {:induction false} SkipRank(adj: Adjacency, rank: Rank, queue: seq<int>, cur: int, k: nat)
    requires Expanding(adj, rank, queue, cur, k) && k < |EdgesAt(adj, cur)| && EdgesAt(adj, cur)[k].peer in rank
    ensures Expanding(adj, rank, queue, cur, k + 1)
  {
    var edges := EdgesAt(adj, cur);
    var e := edges[k];
    var m := Position(edges, e);
    if |rank[e.peer]| == |rank[cur]| + 1 {
      if LexLess(rank[e.peer], rank[cur]) {
        LexExtend(rank[e.peer], rank[cur], [], [m]);
        assert rank[e.peer] + [] == rank[e.peer];
      } else {
        var j :| 0 <= j < k && rank[e.peer] == rank[cur] + [j] && forall i :: 0 <= i < j ==> edges[i].peer != e.peer;
        PositionOf(edges, e);
        if j < m { LexChild(rank[cur], j, m); }
      }
    }
    assert BestEdge(adj, rank, cur, e);
    FoundLater(adj, rank, queue, cur, k);
  }

  lemma {:induction false} FoundLater(adj: Adjacency, rank: Rank, queue: seq<int>, cur: int, k: nat)
    requires Expanding(adj, rank, queue, cur, k) && k < |EdgesAt(adj, cur)|
    ensures forall v :: v in rank && FoundFrom(adj, rank, cur, k, v) ==> FoundFrom(adj, rank, cur, k + 1, v)
  {
  }

  /** Edge `k` leads to a new vertex: it goes to the end of the queue with the next rank. */
  lemma {:induction false} DiscoverRank(adj: Adjacency, rank: Rank, queue: seq<int>, cur: int, k: nat)
    requires Expanding(adj, rank, queue, cur, k) && k < |EdgesAt(adj, cur)| && EdgesAt(adj, cur)[k].peer !in rank
    requires Sorted(rank, queue) && Done(adj, rank, queue, {cur})
    ensures var w := EdgesAt(adj, cur)[k].peer; var rank' := rank[w := rank[cur] + [k]];
            && Expanding(adj, rank', queue + [w], cur, k + 1)
            && Sorted(rank', queue + [w]) && Done(adj, rank', queue + [w], {cur})
            && Position(EdgesAt(adj, cur), EdgesAt(adj, cur)[k]) == k
  {
    NewPosition(adj, rank, queue, cur, k);
    NewExpanding(adj, rank, queue, cur, k);
    NewSorted(adj, rank, queue, cur, k);
    NewDone(adj, rank, queue, cur, k);
  }

  lemma {:induction false} NewPosition(adj: Adjacency, rank: Rank, queue: seq<int>, cur: int, k: nat)
    requires Expanding(adj, rank, queue, cur, k) && k < |EdgesAt(adj, cur)| && EdgesAt(adj, cur)[k].peer !in rank
    ensures Position(EdgesAt(adj, cur), EdgesAt(adj, cur)[k]) == k
    ensures forall i :: 0 <= i < k ==> EdgesAt(adj, cur)[i].peer in rank
  {
    var edges := EdgesAt(adj, cur);
    PositionOf(edges, edges[k]);
    PositionAtMost(edges, k);
    forall i | 0 <= i < k ensures edges[i].peer in rank {
      assert BestEdge(adj, rank, cur, edges[i]);
    }
  }

  lemma {:induction false} NewExpanding(adj: Adjacency, rank: Rank, queue: seq<int>, cur: int, k: nat)
    requires Expanding(adj, rank, queue, cur, k) && k < |EdgesAt(adj, cur)| && EdgesAt(adj, cur)[k].peer !in rank
    ensures var w := EdgesAt(adj, cur)[k].peer;
            Expanding(adj, rank[w := rank[cur] + [k]], queue + [w], cur, k + 1)
  {
    var edges := EdgesAt(adj, cur);
    var w := edges[k].peer;
    var rank' := rank[w := rank[cur] + [k]];
    NewPosition(adj, rank, queue, cur, k);
    FoundLater(adj, rank, queue, cur, k);
    assert FoundFrom(adj, rank', cur, k + 1, w);
    forall i | 0 <= i < k + 1 ensures BestEdge(adj, rank', cur, edges[i]) {
      if i < k { assert BestEdge(adj, rank, cur, edges[i]); }
    }
    forall v | v in rank && FoundFrom(adj, rank, cur, k + 1, v) ensures FoundFrom(adj, rank', cur, k + 1, v) {
    }
    forall y | y in queue + [w] ensures y in rank' && Precedes(rank'[cur], rank'[y]) {
    }
  }

  lemma {:induction false} NewSorted(adj: Adjacency, rank: Rank, queue: seq<int>, cur: int, k: nat)
    requires Expanding(adj, rank, queue, cur, k) && k < |EdgesAt(adj, cur)| && EdgesAt(adj, cur)[k].peer !in rank
    requires Sorted(rank, queue)
    ensures var w := EdgesAt(adj, cur)[k].peer; Sorted(rank[w := rank[cur] + [k]], queue + [w])
  {
    var w := EdgesAt(adj, cur)[k].peer;
    var rank', queue' := rank[w := rank[cur] + [k]], queue + [w];
    forall i | 0 <= i < |queue| ensures Precedes(rank[queue[i]], rank'[w]) {
      BeforeNew(adj, rank, queue, cur, k, queue[i]);
    }
    forall i | 0 <= i < |queue| && |rank'[w]| == |rank[queue[i]]| + 1 ensures LexLess(rank'[w], rank[queue[i]]) {
      var y := queue[i];
      assert y in queue && Precedes(rank[cur], rank[y]);
      LexExtend(rank[cur], rank[queue[i]], [k], []);
      assert rank[queue[i]] + [] == rank[queue[i]];
    }
    assert forall i :: 0 <= i < |queue| ==> queue'[i] == queue[i] && queue[i] != w;
  }

  /** Everything labelled so far comes before a new child of `cur`. */
  lemma {:induction false} BeforeNew(adj: Adjacency, rank: Rank, queue: seq<int>, cur: int, k: nat, v: int)
    requires Expanding(adj, rank, queue, cur, k) && v in rank
    ensures Precedes(rank[v], rank[cur] + [k])
  {
    if |rank[v]| == |rank[cur]| + 1 {
      if LexLess(rank[v], rank[cur]) {
        LexExtend(rank[v], rank[cur], [], [k]);
        assert rank[v] + [] == rank[v];
      } else {
        var j :| 0 <= j < k && rank[v] == rank[cur] + [j];
        LexChild(rank[cur], j, k);
      }
    }
  }

  lemma {:induction false} NewDone(adj: Adjacency, rank: Rank, queue: seq<int>, cur: int, k: nat)
    requires Expanding(adj, rank, queue, cur, k) && k < |EdgesAt(adj, cur)| && EdgesAt(adj, cur)[k].peer !in rank
    requires Done(adj, rank, queue, {cur}) && cur in rank
    ensures var w := EdgesAt(adj, cur)[k].peer; Done(adj, rank[w := rank[cur] + [k]], queue + [w], {cur})
  {
    hide Expanding, NoLater;
    var w := EdgesAt(adj, cur)[k].peer;
    var rank', queue' := rank[w := rank[cur] + [k]], queue + [w];
    assert queue'[|queue|] == w && queue <= queue';
    forall v | v in rank' && v !in queue' && v != cur ensures Best(adj, rank', v, |EdgesAt(adj, v)|) {
      assert v !in queue;
      forall i | 0 <= i < |EdgesAt(adj, v)| ensures BestEdge(adj, rank', v, EdgesAt(adj, v)[i]) {
        assert BestEdge(adj, rank, v, EdgesAt(adj, v)[i]);
      }
    }
  }

  /** When all is done no path comes before the one found. */
  lemma {:induction false} DoneIsLeading(adj: Adjacency, src: int, rank: Rank, v: int, q: seq<Edge>)
    requires Done(adj, rank, [], {}) && src in rank && rank[src] == [] && IsPath(adj, src, v, q)
    ensures v in rank && NoLater(rank[v], Ranks(adj, src, q))
    decreases |q|
  {
    if q != [] {
      var n := |q| - 1;
      var u := At(src, q[..n], n);
      InitPath(adj, src, v, q);
      DoneIsLeading(adj, src, rank, u, q[..n]);
      var k :| 0 <= k < |EdgesAt(adj, u)| && EdgesAt(adj, u)[k] == q[n];
      assert BestEdge(adj, rank, u, q[n]);
      var m := Position(EdgesAt(adj, u), q[n]);
      NoLaterExtend(rank[u], Ranks(adj, src, q[..n]), m);
      NoLaterTransitive(rank[v], rank[u] + [m], Ranks(adj, src, q[..n]) + [m]);
    }
  }

  /** The ranks are those of the paths found. */
  ghost predicate Ranked(adj: Adjacency, src: int, path: map<int, seq<Edge>>, rank: Rank) {
    rank.Keys == path.Keys && forall v :: v in path ==> rank[v] == Ranks(adj, src, path[v])
  }

  lemma {:induction false} DiscoverRanked(adj: Adjacency, src: int, path: map<int, seq<Edge>>, rank: Rank, cur: int,
                                          k: nat)
    requires Ranked(adj, src, path, rank) && cur in path && IsPath(adj, src, cur, path[cur])
    requires k < |EdgesAt(adj, cur)| && Position(EdgesAt(adj, cur), EdgesAt(adj, cur)[k]) == k
    ensures var e := EdgesAt(adj, cur)[k];
            Ranked(adj, src, path[e.peer := path[cur] + [e]], rank[e.peer := rank[cur] + [k]])
  {
    var p, e := path[cur], EdgesAt(adj, cur)[k];
    assert (p + [e])[..|p|] == p;
    assert At(src, p, |p|) == cur;
  }

  lemma {:induction false} LabelsAreTable(adj: Adjacency, src: int, path: map<int, seq<Edge>>, first: map<int, string>,
                                          rank: Rank)
    requires Labelled(adj, src, path, first) && Ranked(adj, src, path, rank) && Done(adj, rank, [], {})
    ensures IsTable(adj, src, first)
  {
    hide Done, Ranks, EdgesAt, NoLater;
    assert rank[src] == [];
    forall v, q | IsPath(adj, src, v, q)
      ensures v in path && NoLater(Ranks(adj, src, path[v]), Ranks(adj, src, q)) && |path[v]| <= |q|
    {
      DoneIsLeading(adj, src, rank, v, q);
      NoLaterShorter(rank[v], Ranks(adj, src, q));
    }
    forall v | v in first
      ensures Reachable(adj, src, v) && IsFirstHop(adj, src, v, first[v])
    {
      assert IsLeading(adj, src, v, path[v]);
    }
  }

  lemma NoLaterShorter(a: seq<nat>, b: seq<nat>)
    requires NoLater(a, b)
    ensures |a| <= |b|
  {
  }

  /** The state of a search: `all` bounds what can be seen, `open` is the vertex being expanded. */
  ghost predicate Searching(adj: Adjacency, src: int, all: set<int>, path: map<int, seq<Edge>>, first: map<int, string>,
                            rank: Rank, seen: set<int>, queue: seq<int>, open: set<int>) {
    path.Keys == seen <= all && Labelled(adj, src, path, first) && Ranked(adj, src, path, rank)
    && Sorted(rank, queue) && Done(adj, rank, queue, open)
  }

  lemma {:induction false} Discover(adj: Adjacency, src: int, all: set<int>, path: map<int, seq<Edge>>,
                                    first: map<int, string>, rank: Rank, seen: set<int>, queue: seq<int>,
                                    cur: int, k: nat)
    requires cur in path && Searching(adj, src, all, path, first, rank, seen, queue, {cur})
    requires k < |EdgesAt(adj, cur)| && EdgesAt(adj, cur)[k].peer in all - seen
    requires Expanding(adj, rank, queue, cur, k)
    ensures var e := EdgesAt(adj, cur)[k];
            var path' := path[e.peer := path[cur] + [e]];
            var first' := first[e.peer := if cur == src then e.ifid else first[cur]];
            var rank' := rank[e.peer := rank[cur] + [k]];
            Searching(adj, src, all, path', first', rank', seen + {e.peer}, queue + [e.peer], {cur})
            && Expanding(adj, rank', queue + [e.peer], cur, k + 1)
  {
    hide EdgesAt, Ranks, Expanding, Sorted, Done, IsPath;
    var e := EdgesAt(adj, cur)[k];
    DiscoverLabels(adj, src, path, first, cur, e, if cur == src then e.ifid else first[cur]);
    DiscoverRank(adj, rank, queue, cur, k);
    DiscoverRanked(adj, src, path, rank, cur, k);
  }

  lemma SearchStarts(adj: Adjacency, src: int, all: set<int>)
    requires src in all
    ensures Searching(adj, src, all, map[src := []], map[], map[src := []], {src}, [src], {})
  {
  }

  lemma {:induction false} Pop(adj: Adjacency, src: int, all: set<int>, path: map<int, seq<Edge>>,
                               first: map<int, string>, rank: Rank, seen: set<int>, queue: seq<int>)
    requires queue != [] && Searching(adj, src, all, path, first, rank, seen, queue, {})
    ensures Searching(adj, src, all, path, first, rank, seen, queue[1..], {queue[0]})
    ensures queue[0] in path && Expanding(adj, rank, queue[1..], queue[0], 0)
  {
    hide Labelled, Done, Expanding;
    PopRank(adj, rank, queue);
  }

  lemma {:induction false} Expanded(adj: Adjacency, src: int, all: set<int>, path: map<int, seq<Edge>>,
                                    first: map<int, string>, rank: Rank, seen: set<int>, queue: seq<int>, cur: int)
    requires Searching(adj, src, all, path, first, rank, seen, queue, {cur})
    requires Expanding(adj, rank, queue, cur, |EdgesAt(adj, cur)|)
    ensures Searching(adj, src, all, path, first, rank, seen, queue, {})
  {
    hide Labelled, Sorted, Best, Ranks;
  }

  /** What a search has labelled: seen, within bounds, and with a first hop once it is not the source. */
  lemma SearchLabels(adj: Adjacency, src: int, all: set<int>, path: map<int, seq<Edge>>, first: map<int, string>,
                     rank: Rank, seen: set<int>, queue: seq<int>, open: set<int>)
    requires Searching(adj, src, all, path, first, rank, seen, queue, open)
    ensures path.Keys == seen == rank.Keys && seen <= all && first.Keys == seen - {src}
  {
  }

  /** The queue-driven search from one source. */
  method NextHops(adj: Adjacency, src: int) returns (first: map<int, string>)
    ensures IsTable(adj, src, first)
  {
    hide Searching, Expanding, IsTable;
    first := map[];
    var seen := {src};
    var queue := [src];
    ghost var path: map<int, seq<Edge>> := map[src := []];
    ghost var rank: Rank := map[src := []];
    ghost var all := VerticesClosed(adj, src);
    SearchStarts(adj, src, all);
    while queue != []
      invariant Searching(adj, src, all, path, first, rank, seen, queue, {})
      invariant seen <= all
      decreases all - seen, |queue|
    {
      Pop(adj, src, all, path, first, rank, seen, queue);
      var cur := queue[0];
      queue := queue[1..];
      var edges := EdgesAt(adj, cur);
      ghost var seen0, queue0 := seen, queue;
      for k := 0 to |edges|
        invariant Searching(adj, src, all, path, first, rank, seen, queue, {cur})
        invariant cur in path && seen <= all && Expanding(adj, rank, queue, cur, k)
        invariant seen0 <= seen && (seen == seen0 ==> queue == queue0)
      {
        SearchLabels(adj, src, all, path, first, rank, seen, queue, {cur});
        var e := edges[k];
        if e.peer in seen {
          SkipRank(adj, rank, queue, cur, k);
          continue;
        }
        Discover(adj, src, all, path, first, rank, seen, queue, cur, k);
        first := first[e.peer := if cur == src then e.ifid else first[cur]];
        path, rank := path[e.peer := path[cur] + [e]], rank[e.peer := rank[cur] + [k]];
        seen := seen + {e.peer};
        queue := queue + [e.peer];
      }
      Expanded(adj, src, all, path, first, rank, seen, queue, cur);
      assert seen != seen0 ==> all - seen < all - seen0;
    }
    SearchEnds(adj, src, all, path, first, rank, seen);
  }

  lemma {:induction false} SearchEnds(adj: Adjacency, src: int, all: set<int>, path: map<int, seq<Edge>>,
                                      first: map<int, string>, rank: Rank, seen: set<int>)
    requires Searching(adj, src, all, path, first, rank, seen, [], {})
    ensures IsTable(adj, src, first)
  {
    hide Labelled, Ranked, Done, IsTable;
    LabelsAreTable(adj, src, path, first, rank);
  }

  /** A table for every AS of the graph. */
  ghost predicate AreRoutes(g: Graph, adj: Adjacency, routes: map<int, map<int, string>>) {
    (forall x :: x in routes <==> HasAs(g, x))
    && forall x :: x in routes ==> IsTable(adj, x, routes[x])
  }

  /** bgpRoutes: the tables of all ASes, each from its own search. */
  method BgpRoutes(g: Graph, shaped: map<string, Shaping>)
    returns (routes: map<int, map<int, string>>, ghost adj: Adjacency)
    ensures adj == LiveAdjacency(g.links, |g.links|, shaped) && AdjacencyOf(adj, g.links, shaped)
    ensures AreRoutes(g, LiveAdjacency(g.links, |g.links|, shaped), routes)
  {
    hide IsTable, AdjacencyOf;
    var edges := BuildAdjacency(g.links, shaped);
    adj := edges;
    routes := map[];
    for k := 0 to |g.ases|
      invariant forall x :: x in routes <==> exists j :: 0 <= j < k && g.ases[j].num == x
      invariant forall x :: x in routes ==> IsTable(adj, x, routes[x])
    {
      var first := NextHops(edges, g.ases[k].num);
      routes := routes[g.ases[k].num := first];
    }
  }

  /** Polls between which neither the graph nor the shaping changes return the same tables, ties included. */
  lemma {:induction false} PollsAgree(g: Graph, adj: Adjacency, r: map<int, map<int, string>>,
                                      r': map<int, map<int, string>>)
    requires AreRoutes(g, adj, r) && AreRoutes(g, adj, r')
    ensures r == r'
  {
    hide IsTable, HasAs;
    forall x | x in r ensures x in r' && r[x] == r'[x] {
      TableUnique(adj, x, r[x], r'[x]);
    }
    assert forall x :: x in r <==> x in r';
  }
}
