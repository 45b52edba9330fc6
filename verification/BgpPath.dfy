/**
 * The BGP path overlay: per-AS best-route tables are followed hop by hop from a
 * source towards a destination. `IsWalk` says what one walk returns for arbitrary
 * tables; the last section shows what it returns for the tables of module Routing.
 */
module BgpPath {
  import opened Prelude
  import opened Topology
  import opened Routing
  import Pairing

  /** Where an (AS, interface) pair leads: the link it rides and the AS beyond. */
  datatype Hop = Hop(linkId: string, peer: int)

  type Index = map<Key, Hop>

  /** The overlay of one walk; the traced pair's names are attached elsewhere. */
  datatype Overlay = Overlay(asPath: seq<int>, pathLinks: seq<string>, complete: bool)

  type Tables = map<int, map<int, string>>

  // ---------------------------------------------------------------- the index

  /** The index after the first `n` links were entered in order, later entries overwriting earlier ones. */
  function IndexOf(links: seq<Link>, n: nat): Index
    requires n <= |links|
  {
    if n == 0 then map[]
    else
      var l := links[n - 1];
      IndexOf(links, n - 1)[EndKey(l, false) := Hop(l.id, l.b.asn)][EndKey(l, true) := Hop(l.id, l.a.asn)]
  }

  method NewIndex(g: Graph) returns (idx: Index)
    ensures idx == IndexOf(g.links, |g.links|)
  {
    idx := map[];
    for i := 0 to |g.links|
      invariant idx == IndexOf(g.links, i)
    {
      var l := g.links[i];
      idx := idx[Key(l.a.asn, l.a.ifid) := Hop(l.id, l.b.asn)];
      idx := idx[Key(l.b.asn, l.b.ifid) := Hop(l.id, l.a.asn)];
    }
  }

  /** Every entry comes from some link end. */
  lemma {:induction false} IndexSound(links: seq<Link>, n: nat, k: Key) returns (i: nat, s: bool)
    requires n <= |links| && k in IndexOf(links, n)
    ensures i < n && k == EndKey(links[i], s) && IndexOf(links, n)[k] == Hop(links[i].id, Far(links[i], s).asn)
  {
    if k == EndKey(links[n - 1], true) {
      i, s := n - 1, true;
    } else if k == EndKey(links[n - 1], false) {
      i, s := n - 1, false;
    } else {
      i, s := IndexSound(links, n - 1, k);
    }
  }

  /** Without shared link ends, two link ends have the same key only if they are the same end. */
  lemma {:induction false} KeysApart(links: seq<Link>, i: nat, s: bool, j: nat, t: bool)
    requires DistinctEndpoints(links) && i < |links| && j < |links| && EndKey(links[i], s) == EndKey(links[j], t)
    ensures i == j && s == t
  {
    var _, _ := Near(links[i], s), Near(links[j], t);
  }

  /** Without shared link ends, every link end keeps the entry it was given. */
  lemma {:induction false} IndexFinds(links: seq<Link>, n: nat, i: nat, s: bool)
    requires DistinctEndpoints(links) && i < n <= |links|
    ensures var k := EndKey(links[i], s);
            k in IndexOf(links, n) && IndexOf(links, n)[k] == Hop(links[i].id, Far(links[i], s).asn)
  {
    var k := EndKey(links[i], s);
    if k == EndKey(links[n - 1], true) {
      KeysApart(links, i, s, n - 1, true);
    } else if k == EndKey(links[n - 1], false) {
      KeysApart(links, i, s, n - 1, false);
    } else {
      assert i != n - 1;
      IndexFinds(links, n - 1, i, s);
    }
  }

  lemma {:induction false} NewKeys(links: seq<Link>, n: nat)
    requires DistinctEndpoints(links) && n < |links|
    ensures EndKey(links[n], false) != EndKey(links[n], true)
    ensures EndKey(links[n], false) !in IndexOf(links, n) && EndKey(links[n], true) !in IndexOf(links, n)
  {
    if EndKey(links[n], false) == EndKey(links[n], true) { KeysApart(links, n, false, n, true); }
    forall t: bool ensures EndKey(links[n], t) !in IndexOf(links, n) {
      if EndKey(links[n], t) in IndexOf(links, n) {
        var i, s := IndexSound(links, n, EndKey(links[n], t));
        KeysApart(links, i, s, n, t);
      }
    }
  }

  /** Without shared link ends the index has exactly two entries per link: none was overwritten. */
  lemma {:induction false} IndexSize(links: seq<Link>, n: nat)
    requires DistinctEndpoints(links) && n <= |links|
    ensures |IndexOf(links, n)| == 2 * n
  {
    if n > 0 {
      IndexSize(links, n - 1);
      NewKeys(links, n - 1);
      var l := links[n - 1];
      TwoNewKeys(IndexOf(links, n - 1), EndKey(l, false), Hop(l.id, l.b.asn), EndKey(l, true), Hop(l.id, l.a.asn));
    }
  }

  /** The index has two entries per link, and finds every link from both its ends. */
  ghost predicate IndexesAll(links: seq<Link>, idx: Index) {
    |idx| == 2 * |links|
    && forall k, s :: 0 <= k < |links| ==>
         Lookup(idx, EndKey(links[k], s)) == Some(Hop(links[k].id, Far(links[k], s).asn))
  }

  lemma {:induction false} DistinctIndexed(links: seq<Link>)
    requires DistinctEndpoints(links)
    ensures IndexesAll(links, IndexOf(links, |links|))
  {
    hide IndexOf, DistinctEndpoints;
    IndexSize(links, |links|);
    forall k, s | 0 <= k < |links|
      ensures Lookup(IndexOf(links, |links|), EndKey(links[k], s)) == Some(Hop(links[k].id, Far(links[k], s).asn))
    {
      IndexFinds(links, |links|, k, s);
    }
  }

  /**
   * Loading as a whole: however the links are ordered in the end, reciprocal records with unique addresses and
   * interface ids give exactly one link for each mutual pair of a lower and a higher AS and no others, and an index
   * with an entry for each end of each.
   */
  lemma {:induction false} LoadedLinksIndexed(recs: seq<Pairing.IfaceRec>, id: (int, int) -> string,
                                              core: map<int, bool>, out: seq<Link>)
    requires Pairing.UniqueAddresses(recs) && Pairing.UniqueIfids(recs) && Pairing.Reciprocal(recs)
    requires Pairing.LinksOf(recs, id, core, |recs|).Ok?
    requires multiset(out) == multiset(Pairing.LinksOf(recs, id, core, |recs|).value)
    ensures Pairing.OneLinkPerPair(recs, out) && IndexesAll(out, IndexOf(out, |out|))
  {
    hide IndexOf, IndexesAll, DistinctEndpoints;
    Pairing.LinkedOncePerPair(recs, id, core, out);
    DistinctIndexed(out);
  }

  // ---------------------------------------------------------------- one walk

  /** The hop a table entry of `cur` resolves to, if there is an entry and it names a known interface. */
  function NextHop(idx: Index, routes: Tables, dst: int, cur: int): Option<Hop> {
    if cur in routes && dst in routes[cur] then Lookup(idx, Key(cur, routes[cur][dst])) else None
  }

  /** Each AS of the chain is short of `dst` and its table entry leads over the listed link to the next. */
  ghost predicate Follows(idx: Index, routes: Tables, dst: int, ases: seq<int>, ids: seq<string>) {
    |ases| == |ids| + 1
    && forall i {:trigger ids[i]} :: 0 <= i < |ids| ==>
         ases[i] != dst && NextHop(idx, routes, dst, ases[i]) == Some(Hop(ids[i], ases[i + 1]))
  }

  /** What one walk from `src` towards `dst` reports. */
  ghost predicate IsWalk(idx: Index, routes: Tables, src: int, dst: int, vm: Overlay) {
    Follows(idx, routes, dst, vm.asPath, vm.pathLinks) && vm.asPath[0] == src && Distinct(vm.asPath)
    && var last := vm.asPath[|vm.pathLinks|];
       vm.complete == (last == dst)
       && (!vm.complete ==> var next := NextHop(idx, routes, dst, last);
                            next == None || next.value.peer in vm.asPath)
  }

  lemma FollowsAt(idx: Index, routes: Tables, dst: int, ases: seq<int>, ids: seq<string>, i: nat)
    requires Follows(idx, routes, dst, ases, ids) && i < |ids|
    ensures ases[i] != dst && NextHop(idx, routes, dst, ases[i]) == Some(Hop(ids[i], ases[i + 1]))
  {
    var _ := ids[i];
  }

  lemma FollowsSnoc(idx: Index, routes: Tables, dst: int, ases: seq<int>, ids: seq<string>, h: Hop)
    requires Follows(idx, routes, dst, ases, ids) && ases[|ids|] != dst
    requires NextHop(idx, routes, dst, ases[|ids|]) == Some(h)
    ensures Follows(idx, routes, dst, ases + [h.peer], ids + [h.linkId])
  {
    var ases', ids' := ases + [h.peer], ids + [h.linkId];
    forall i | 0 <= i < |ids'|
      ensures ases'[i] != dst && NextHop(idx, routes, dst, ases'[i]) == Some(Hop(ids'[i], ases'[i + 1]))
    {
      assert ases'[i] == ases[i];
      if i < |ids| { FollowsAt(idx, routes, dst, ases, ids, i); }
    }
    assert Follows(idx, routes, dst, ases', ids');
  }

  method Walk(idx: Index, routes: Tables, src: int, dst: int) returns (vm: Overlay)
    ensures IsWalk(idx, routes, src, dst, vm)
  {
    vm := Overlay([src], [], false);
    if src == dst {
      vm := vm.(complete := true);
      return;
    }
    var visited := {src};
    var cur := src;
    ghost var peers := {src} + set k | k in idx :: idx[k].peer;
    while cur != dst
      invariant !vm.complete && Follows(idx, routes, dst, vm.asPath, vm.pathLinks)
      invariant vm.asPath[0] == src && cur == vm.asPath[|vm.pathLinks|] && Distinct(vm.asPath)
      invariant (forall x :: x in visited <==> x in vm.asPath) && visited <= peers
      decreases peers - visited
    {
      if cur !in routes || dst !in routes[cur] {
        return;
      }
      var key := Key(cur, routes[cur][dst]);
      if key !in idx {
        return;
      }
      var h := idx[key];
      if h.peer in visited {
        return;
      }
      FollowsSnoc(idx, routes, dst, vm.asPath, vm.pathLinks, h);
      visited := visited + {h.peer};
      vm := vm.(asPath := vm.asPath + [h.peer], pathLinks := vm.pathLinks + [h.linkId]);
      cur := h.peer;
    }
    vm := vm.(complete := true);
  }

  /** Following the tables `n` times without any guard. */
  function After(idx: Index, routes: Tables, dst: int, x: int, n: nat): Option<int> {
    if n == 0 then Some(x)
    else match After(idx, routes, dst, x, n - 1)
         case None => None
         case Some(y) =>
           match NextHop(idx, routes, dst, y)
           case None => None
           case Some(h) => Some(h.peer)
  }

  lemma {:induction false} WalkIsIteration(idx: Index, routes: Tables, src: int, dst: int, vm: Overlay, i: nat)
    requires IsWalk(idx, routes, src, dst, vm) && i < |vm.asPath|
    ensures After(idx, routes, dst, src, i) == Some(vm.asPath[i])
  {
    if i > 0 {
      WalkIsIteration(idx, routes, src, dst, vm, i - 1);
      FollowsAt(idx, routes, dst, vm.asPath, vm.pathLinks, i - 1);
    }
  }

  lemma {:induction false} GuardedWalkTraps(idx: Index, routes: Tables, src: int, dst: int, vm: Overlay, n: nat)
    requires IsWalk(idx, routes, src, dst, vm) && !vm.complete
    ensures match After(idx, routes, dst, src, n)
            case None => true
            case Some(y) => y in vm.asPath && y != dst
  {
    var prev := if n == 0 then None else After(idx, routes, dst, src, n - 1);
    var here := After(idx, routes, dst, src, n);
    if here.Some? {
      var j: nat;
      if n == 0 {
        j := 0;
      } else {
        GuardedWalkTraps(idx, routes, src, dst, vm, n - 1);
        var i :| 0 <= i < |vm.asPath| && vm.asPath[i] == prev.value;
        if i < |vm.pathLinks| {
          FollowsAt(idx, routes, dst, vm.asPath, vm.pathLinks, i);
          j := i + 1;
        } else {
          j :| j < |vm.asPath| && vm.asPath[j] == here.value;
        }
      }
      assert vm.asPath[j] == here.value;
      if j < |vm.pathLinks| { FollowsAt(idx, routes, dst, vm.asPath, vm.pathLinks, j); }
    }
  }

  /**
   * For arbitrary tables, loops and gaps included: the walk is complete exactly when the
   * unguarded iteration ever reaches the destination, so the visited set never cuts off
   * a walk that would have arrived.
   */
  lemma {:induction false} CompleteIffIterationArrives(idx: Index, routes: Tables, src: int, dst: int, vm: Overlay)
    requires IsWalk(idx, routes, src, dst, vm)
    ensures vm.complete <==> exists n :: After(idx, routes, dst, src, n) == Some(dst)
  {
    if vm.complete {
      WalkIsIteration(idx, routes, src, dst, vm, |vm.pathLinks|);
    } else {
      forall n ensures After(idx, routes, dst, src, n) != Some(dst) {
        GuardedWalkTraps(idx, routes, src, dst, vm, n);
      }
    }
  }

  /** A walk is determined by the tables: no two reports satisfy the contract of `Walk`. */
  lemma {:induction false} WalkUnique(idx: Index, routes: Tables, src: int, dst: int, v: Overlay, w: Overlay)
    requires IsWalk(idx, routes, src, dst, v) && IsWalk(idx, routes, src, dst, w)
    requires |v.asPath| <= |w.asPath|
    ensures v == w
  {
    forall i | 0 <= i < |v.asPath| ensures v.asPath[i] == w.asPath[i] {
      WalkIsIteration(idx, routes, src, dst, v, i);
      WalkIsIteration(idx, routes, src, dst, w, i);
    }
    var n := |v.pathLinks|;
    if n < |w.pathLinks| { FollowsAt(idx, routes, dst, w.asPath, w.pathLinks, n); assert false; }
    forall i | 0 <= i < n ensures v.pathLinks[i] == w.pathLinks[i] {
      FollowsAt(idx, routes, dst, v.asPath, v.pathLinks, i);
      FollowsAt(idx, routes, dst, w.asPath, w.pathLinks, i);
      assert NextHop(idx, routes, dst, v.asPath[i]) == NextHop(idx, routes, dst, w.asPath[i]);
    }
  }

  // ---------------------------------------------------------------- walking computed tables

  /** Link `id` is live and joins AS `x` to AS `y`. */
  ghost predicate LiveLink(links: seq<Link>, shaped: map<string, Shaping>, x: int, y: int, id: string) {
    exists i, s {:trigger Near(links[i], s)} :: 0 <= i < |links| && Live(shaped, links[i]) && links[i].id == id
      && Near(links[i], s).asn == x && Far(links[i], s).asn == y
  }

  /** A chain of ASes from `x` to `y`, neighbours joined by a live link. */
  ghost predicate LiveRoute(links: seq<Link>, shaped: map<string, Shaping>, x: int, y: int, ases: seq<int>,
                            ids: seq<string>)
  {
    |ases| == |ids| + 1 && ases[0] == x && ases[|ids|] == y
    && forall i {:trigger ids[i]} :: 0 <= i < |ids| ==> LiveLink(links, shaped, ases[i], ases[i + 1], ids[i])
  }

  /** The tables and index that a poll of the mock fabric produces for graph `g`. */
  ghost predicate Polled(g: Graph, shaped: map<string, Shaping>, adj: Adjacency, idx: Index, routes: Tables) {
    DistinctEndpoints(g.links) && EndpointsKnown(g) && AdjacencyOf(adj, g.links, shaped)
    && idx == IndexOf(g.links, |g.links|) && AreRoutes(g, adj, routes)
  }

  lemma {:induction false} RouteIsPath(adj: Adjacency, links: seq<Link>, shaped: map<string, Shaping>, x: int, y: int,
                                       ases: seq<int>, ids: seq<string>) returns (p: seq<Edge>)
    requires AdjacencyOf(adj, links, shaped) && LiveRoute(links, shaped, x, y, ases, ids)
    ensures IsPath(adj, x, y, p) && |p| == |ids|
    decreases |ids|
  {
    if ids == [] {
      p := [];
    } else {
      assert LiveLink(links, shaped, ases[0], ases[1], ids[0]);
      var i, s :| 0 <= i < |links| && Live(shaped, links[i]) && Near(links[i], s).asn == x
      && Far(links[i], s).asn == ases[1];
      var e := Edge(ases[1], Near(links[i], s).ifid);
      assert ArcAmong(links, |links|, shaped, x, e);
      forall k | 0 <= k < |ids[1..]| ensures LiveLink(links, shaped, ases[1..][k], ases[1..][k + 1], ids[1..][k]) {
        assert ids[1..][k] == ids[k + 1];
      }
      p := RouteIsPath(adj, links, shaped, ases[1], y, ases[1..], ids[1..]);
      ConsPath(adj, x, y, e, p);
      p := [e] + p;
    }
  }

  lemma {:induction false} TailShortest(adj: Adjacency, x: int, y: int, p: seq<Edge>)
    requires IsShortest(adj, x, y, p) && p != []
    ensures p[0] in EdgesAt(adj, x) && IsShortest(adj, p[0].peer, y, p[1..])
  {
    TailPath(adj, x, y, p);
    forall q | IsPath(adj, p[0].peer, y, q) ensures |p[1..]| <= |q| {
      ConsPath(adj, x, y, p[0], q);
    }
  }

  /** Every edge is one end of a live link, known to the graph and found by the index. */
  lemma {:induction false} EdgeIsIndexed(g: Graph, shaped: map<string, Shaping>, adj: Adjacency, idx: Index,
                                         routes: Tables, x: int, e: Edge)
    requires Polled(g, shaped, adj, idx, routes) && e in EdgesAt(adj, x)
    ensures x in routes && Key(x, e.ifid) in idx
    ensures var h := idx[Key(x, e.ifid)]; h.peer == e.peer && LiveLink(g.links, shaped, x, e.peer, h.linkId)
  {
    assert ArcAmong(g.links, |g.links|, shaped, x, e);
    var i, s :| 0 <= i < |g.links| && Live(shaped, g.links[i]) && Near(g.links[i], s).asn == x
                && e == Edge(Far(g.links[i], s).asn, Near(g.links[i], s).ifid);
    IndexFinds(g.links, |g.links|, i, s);
    assert HasAs(g, x);
  }

  /** One step of the walk: the entry of `cur` exists, rides a live link, and its far AS is exactly one hop nearer. */
  lemma {:induction false} TablesAgree(g: Graph, shaped: map<string, Shaping>, adj: Adjacency, idx: Index,
                                       routes: Tables, cur: int, dst: int, n: nat)
    requires Polled(g, shaped, adj, idx, routes) && cur != dst
    requires exists p :: IsShortest(adj, cur, dst, p) && |p| == n
    ensures n > 0 && NextHop(idx, routes, dst, cur).Some?
    ensures var h := NextHop(idx, routes, dst, cur).value;
            LiveLink(g.links, shaped, cur, h.peer, h.linkId)
            && exists q :: IsShortest(adj, h.peer, dst, q) && |q| == n - 1
  {
    var p :| IsShortest(adj, cur, dst, p) && |p| == n;
    TailShortest(adj, cur, dst, p);
    EdgeIsIndexed(g, shaped, adj, idx, routes, cur, p[0]);
    assert IsFirstHop(adj, cur, dst, routes[cur][dst]);
    var r: seq<Edge> :| IsShortest(adj, cur, dst, r) && r != [] && r[0].ifid == routes[cur][dst];
    TailShortest(adj, cur, dst, r);
    EdgeIsIndexed(g, shaped, adj, idx, routes, cur, r[0]);
    assert IsShortest(adj, r[0].peer, dst, r[1..]) && |r[1..]| == n - 1;
  }

  lemma {:induction false} DistanceAlongWalk(g: Graph, shaped: map<string, Shaping>, adj: Adjacency, idx: Index,
                                             routes: Tables, src: int, dst: int, vm: Overlay, n: nat, i: nat)
    requires Polled(g, shaped, adj, idx, routes) && IsWalk(idx, routes, src, dst, vm) && i < |vm.asPath|
    requires exists p :: IsShortest(adj, src, dst, p) && |p| == n
    ensures i <= n && exists p :: IsShortest(adj, vm.asPath[i], dst, p) && |p| == n - i
    ensures i > 0 ==> LiveLink(g.links, shaped, vm.asPath[i - 1], vm.asPath[i], vm.pathLinks[i - 1])
  {
    hide Polled, IsShortest, NextHop, LiveLink, IndexOf;
    if i > 0 {
      DistanceAlongWalk(g, shaped, adj, idx, routes, src, dst, vm, n, i - 1);
      FollowsAt(idx, routes, dst, vm.asPath, vm.pathLinks, i - 1);
      TablesAgree(g, shaped, adj, idx, routes, vm.asPath[i - 1], dst, n - (i - 1));
    }
  }

  /** A destination that can be reached is reached: the walk cannot end early. */
  lemma {:induction false} NeverCutOff(g: Graph, shaped: map<string, Shaping>, adj: Adjacency, idx: Index,
                                       routes: Tables, src: int, dst: int, vm: Overlay, p: seq<Edge>)
    requires Polled(g, shaped, adj, idx, routes) && IsWalk(idx, routes, src, dst, vm)
    requires IsShortest(adj, src, dst, p)
    ensures vm.complete
  {
    var m := |vm.pathLinks|;
    var last := vm.asPath[m];
    DistanceAlongWalk(g, shaped, adj, idx, routes, src, dst, vm, |p|, m);
    if last != dst {
      TablesAgree(g, shaped, adj, idx, routes, last, dst, |p| - m);
      var peer := NextHop(idx, routes, dst, last).value.peer;
      forall k | 0 <= k <= m ensures vm.asPath[k] != peer {
        DistanceAlongWalk(g, shaped, adj, idx, routes, src, dst, vm, |p|, k);
        forall q, r | IsShortest(adj, peer, dst, q) && IsShortest(adj, peer, dst, r) ensures |q| == |r| {}
      }
    }
  }

  /** When the destination can be reached, the guard never fires and the walk is a shortest live route. */
  lemma {:induction false} ReachableWalk(g: Graph, shaped: map<string, Shaping>, adj: Adjacency, idx: Index,
                                         routes: Tables, src: int, dst: int, vm: Overlay, p: seq<Edge>)
    requires Polled(g, shaped, adj, idx, routes) && IsWalk(idx, routes, src, dst, vm)
    requires IsShortest(adj, src, dst, p)
    ensures vm.complete && |vm.pathLinks| == |p| && LiveRoute(g.links, shaped, src, dst, vm.asPath, vm.pathLinks)
  {
    var m := |vm.pathLinks|;
    forall i {:trigger vm.asPath[i]} | 0 <= i <= m
      ensures i <= |p| && exists q :: IsShortest(adj, vm.asPath[i], dst, q) && |q| == |p| - i
      ensures i > 0 ==> LiveLink(g.links, shaped, vm.asPath[i - 1], vm.asPath[i], vm.pathLinks[i - 1])
    {
      DistanceAlongWalk(g, shaped, adj, idx, routes, src, dst, vm, |p|, i);
    }
    if vm.complete {
      assert IsPath(adj, dst, dst, []);
    } else {
      NeverCutOff(g, shaped, adj, idx, routes, src, dst, vm, p);
    }
  }

  /** Some path means some shortest path. */
  lemma {:induction false} ShortestExists(adj: Adjacency, x: int, y: int, p: seq<Edge>) returns (q: seq<Edge>)
    requires IsPath(adj, x, y, p)
    ensures IsShortest(adj, x, y, q)
    decreases |p|
  {
    if r :| IsPath(adj, x, y, r) && |r| < |p| {
      q := ShortestExists(adj, x, y, r);
    } else {
      q := p;
    }
  }

  /**
   * The separately computed tables agree: the walk is complete exactly when some live route
   * exists; then it is a live route of minimum hop count, and otherwise it stops at the source.
   */
  lemma {:induction false} OverlayIsShortestRoute(g: Graph, shaped: map<string, Shaping>, adj: Adjacency, idx: Index,
                                                  routes: Tables, src: int, dst: int, vm: Overlay)
    requires Polled(g, shaped, adj, idx, routes) && IsWalk(idx, routes, src, dst, vm)
    ensures vm.complete <==> exists ases, ids :: LiveRoute(g.links, shaped, src, dst, ases, ids)
    ensures vm.complete ==> LiveRoute(g.links, shaped, src, dst, vm.asPath, vm.pathLinks)
    ensures vm.complete ==>
              forall ases, ids :: LiveRoute(g.links, shaped, src, dst, ases, ids) ==> |vm.pathLinks| <= |ids|
    ensures !vm.complete ==> vm.asPath == [src] && NextHop(idx, routes, dst, src) == None
  {
    forall ases, ids | LiveRoute(g.links, shaped, src, dst, ases, ids)
      ensures vm.complete && |vm.pathLinks| <= |ids|
    {
      var p := RouteIsPath(adj, g.links, shaped, src, dst, ases, ids);
      var q := ShortestExists(adj, src, dst, p);
      ReachableWalk(g, shaped, adj, idx, routes, src, dst, vm, q);
    }
    if p :| IsPath(adj, src, dst, p) {
      var q := ShortestExists(adj, src, dst, p);
      ReachableWalk(g, shaped, adj, idx, routes, src, dst, vm, q);
    } else {
      assert NextHop(idx, routes, dst, src) == None by {
        assert src in routes ==> IsTable(adj, src, routes[src]);
      }
      if vm.pathLinks != [] { FollowsAt(idx, routes, dst, vm.asPath, vm.pathLinks, 0); }
      assert IsPath(adj, src, src, []);
    }
  }

  /** One poll of the mock fabric followed by one walk. */
  method PollAndWalk(g: Graph, shaped: map<string, Shaping>, src: int, dst: int) returns (vm: Overlay)
    requires DistinctEndpoints(g.links) && EndpointsKnown(g)
    ensures vm.complete <==> exists ases, ids :: LiveRoute(g.links, shaped, src, dst, ases, ids)
    ensures vm.complete ==> LiveRoute(g.links, shaped, src, dst, vm.asPath, vm.pathLinks)
    ensures vm.complete ==>
              forall ases, ids :: LiveRoute(g.links, shaped, src, dst, ases, ids) ==> |vm.pathLinks| <= |ids|
    ensures !vm.complete ==> vm.asPath == [src]
  {
    var idx := NewIndex(g);
    var routes, adj := BgpRoutes(g, shaped);
    vm := Walk(idx, routes, src, dst);
    OverlayIsShortestRoute(g, shaped, adj, idx, routes, src, dst, vm);
  }
}
