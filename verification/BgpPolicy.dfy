/**
 * The generated BGP policy: an import and an export filter per relationship. Routes
 * propagate in steps over any topology; every importable route may be announced
 * again, so the results hold whatever best-route selection picks.
 */
module BgpPolicy {
  import opened Prelude

  /** How one side of a session sees its neighbour. */
  datatype Rel = Core | Parent | Child | Peer

  datatype Import = ImpCore | ImpProvider | ImpCustomer | ImpPeer

  datatype Export = ExpUp | ExpCustomer

  datatype Origin = FromStatic | FromBgp

  const C_CUST := (65000, 1)

  /** `path` lists the ASes a route has passed, from its originator to its holder. */
  datatype Route = Route(net: int, origin: Origin, localPref: int, communities: set<(int, int)>, path: seq<int>)

  // ---------------------------------------------------------------- the filters

  function RelFilters(r: Rel): (Import, Export) {
    match r
    case Core => (ImpCore, ExpUp)
    case Parent => (ImpProvider, ExpUp)
    case Child => (ImpCustomer, ExpCustomer)
    case Peer => (ImpPeer, ExpUp)
  }

  predicate Exports(f: Export, fabric: set<int>, r: Route) {
    match f
    case ExpCustomer => r.net in fabric
    case ExpUp => r.net in fabric && (r.origin == FromStatic || C_CUST in r.communities)
  }

  function Imported(f: Import, fabric: set<int>, r: Route): Option<Route> {
    if r.net !in fabric then None
    else match f
         case ImpCustomer => Some(r.(localPref := 300, communities := r.communities + {C_CUST}))
         case ImpPeer => Some(r.(localPref := 250))
         case ImpCore => Some(r.(localPref := 200))
         case ImpProvider => Some(r.(localPref := 100))
  }

  // ---------------------------------------------------------------- propagation

  /** One direction of a session: `from` sees `to` as `rel`. */
  datatype Session = Session(from: int, to: int, rel: Rel)

  function Mirror(r: Rel): Rel {
    match r
    case Core => Core
    case Parent => Child
    case Child => Parent
    case Peer => Peer
  }

  /** Routes as (holder, route) pairs. */
  type World = set<(int, Route)>

  datatype Net = Net(fabric: set<int>, sessions: set<Session>, originates: set<(int, int)>)

  datatype Event = Announce(over: Session, route: Route) | Withdraw(holder: int, route: Route)

  function StaticRoute(asn: int, net: int): Route {
    Route(net, FromStatic, 0, {}, [asn])
  }

  /** What arrives when `r` is announced over `s`: eBGP carries communities and extends the path, not the preference. */
  function Delivered(n: Net, s: Session, r: Route): Option<Route> {
    if Exports(RelFilters(s.rel).1, n.fabric, r) && s.to !in r.path
    then Imported(RelFilters(Mirror(s.rel)).0, n.fabric, r.(origin := FromBgp, localPref := 0, path := r.path + [s.to]))
    else None
  }

  function Step(n: Net, w: World, e: Event): World {
    match e
    case Announce(s, r) =>
      if s in n.sessions && (s.from, r) in w && Delivered(n, s, r).Some? then w + {(s.to, Delivered(n, s, r).value)}
      else w
    case Withdraw(x, r) => if r.origin == FromBgp then w - {(x, r)} else w
  }

  /** What every AS holds after a run; all start with the networks they originate. */
  function After(n: Net, run: seq<Event>): World {
    if run == [] then set o | o in n.originates :: (o.0, StaticRoute(o.0, o.1))
    else Step(n, After(n, run[..|run| - 1]), run[|run| - 1])
  }

  // ---------------------------------------------------------------- permitted paths

  /** `rels[i]` is how the i-th AS of the path sees the next one, over some session. */
  ghost predicate Chain(n: Net, path: seq<int>, rels: seq<Rel>) {
    |path| == |rels| + 1 && Distinct(path)
    && forall i {:trigger rels[i]} :: 0 <= i < |rels| ==> Session(path[i], path[i + 1], rels[i]) in n.sessions
  }

  /** It starts with a customer-to-provider step, or everything after its first step is provider-to-customer. */
  predicate Permitted(rels: seq<Rel>) {
    rels == [] || rels[0] == Parent || forall i :: 1 <= i < |rels| ==> rels[i] == Child
  }

  function Preference(r: Rel): int {
    match r
    case Parent => 300
    case Peer => 250
    case Core => 200
    case Child => 100
  }

  /** The route that a path produces when it is propagated along `rels`. */
  function RouteAlong(net: int, path: seq<int>, rels: seq<Rel>): Route {
    Route(net, if rels == [] then FromStatic else FromBgp, if rels == [] then 0 else Preference(rels[|rels| - 1]),
          if Parent in rels then {C_CUST} else {}, path)
  }

  /** Route `r`, held by `x`, is what an originated network becomes along the permitted chain `rels`. */
  ghost predicate CameOver(n: Net, x: int, r: Route, rels: seq<Rel>) {
    Chain(n, r.path, rels) && Permitted(rels) && r == RouteAlong(r.net, r.path, rels)
    && r.path[|rels|] == x && (r.path[0], r.net) in n.originates && (rels != [] ==> r.net in n.fabric)
  }

  /** Where a held route comes from. */
  ghost predicate Explained(n: Net, x: int, r: Route) {
    exists rels :: CameOver(n, x, r, rels)
  }

  lemma {:induction false} PermittedIffExported(rels: seq<Rel>, rel: Rel)
    requires Permitted(rels)
    ensures Permitted(rels + [rel]) <==> rels == [] || rel == Child || Parent in rels
  {
    var next := rels + [rel];
    assert next[|rels|] == rel;
    if rels != [] && Parent in rels {
      assert rels[0] == Parent;
    }
  }

  lemma {:induction false} ChainSnoc(n: Net, path: seq<int>, rels: seq<Rel>, to: int, rel: Rel)
    requires Chain(n, path, rels) && to !in path && Session(path[|rels|], to, rel) in n.sessions
    ensures Chain(n, path + [to], rels + [rel])
  {
    DistinctAppend(path, [to]);
    var path', rels' := path + [to], rels + [rel];
    forall i {:trigger rels'[i]} | 0 <= i < |rels'|
      ensures Session(path'[i], path'[i + 1], rels'[i]) in n.sessions
    {
      if i < |rels| { assert rels'[i] == rels[i]; }
    }
  }

  /** One announcement along a permitted chain: it is delivered exactly if the longer chain is permitted. */
  lemma {:induction false} DeliveredIffPermitted(n: Net, path: seq<int>, rels: seq<Rel>, net: int, s: Session)
    requires Chain(n, path, rels) && Permitted(rels) && net in n.fabric && s.to !in path
    ensures Delivered(n, s, RouteAlong(net, path, rels)).Some? <==> Permitted(rels + [s.rel])
    ensures Permitted(rels + [s.rel]) ==>
              Delivered(n, s, RouteAlong(net, path, rels)) == Some(RouteAlong(net, path + [s.to], rels + [s.rel]))
  {
    PermittedIffExported(rels, s.rel);
    assert (rels + [s.rel])[|rels|] == s.rel;
    assert {C_CUST} + {C_CUST} == {C_CUST} && {} + {C_CUST} == {C_CUST};
    assert Parent in rels + [s.rel] <==> Parent in rels || s.rel == Parent;
  }

  /** Safety: in every run, every held route came over a permitted chain, with the marker iff a step of it went up. */
  lemma {:induction false} HeldIsPermitted(n: Net, run: seq<Event>, x: int, r: Route)
    requires (x, r) in After(n, run)
    ensures Explained(n, x, r)
    ensures forall rels :: CameOver(n, x, r, rels) ==> ((65000, 1) in r.communities <==> Parent in rels)
  {
    if run == [] {
      assert CameOver(n, x, r, []);
    } else {
      var before, e := run[..|run| - 1], run[|run| - 1];
      if (x, r) in After(n, before) {
        HeldIsPermitted(n, before, x, r);
      } else {
        HeldIsPermitted(n, before, e.over.from, e.route);
        var rels :| CameOver(n, e.over.from, e.route, rels);
        DeliveredIffPermitted(n, e.route.path, rels, e.route.net, e.over);
        assert e.over == Session(e.over.from, e.over.to, e.over.rel);
        ChainSnoc(n, e.route.path, rels, e.over.to, e.over.rel);
        assert CameOver(n, x, r, rels + [e.over.rel]);
      }
    }
  }

  /** Completeness: every permitted chain is propagated by some run. */
  lemma {:induction false} PermittedIsHeld(n: Net, path: seq<int>, rels: seq<Rel>, net: int) returns (run: seq<Event>)
    requires Chain(n, path, rels) && Permitted(rels) && net in n.fabric && (path[0], net) in n.originates
    ensures (path[|rels|], RouteAlong(net, path, rels)) in After(n, run)
    decreases |rels|
  {
    if rels == [] {
      run := [];
      assert path == [path[0]];
    } else {
      var m := |rels| - 1;
      var path0, rels0 := path[..m + 1], rels[..m];
      assert Chain(n, path0, rels0) by {
        forall i {:trigger rels0[i]} | 0 <= i < m ensures Session(path0[i], path0[i + 1], rels0[i]) in n.sessions {
          assert rels0[i] == rels[i];
        }
      }
      var before := PermittedIsHeld(n, path0, rels0, net);
      var s := Session(path[m], path[m + 1], rels[m]);
      assert s in n.sessions;
      assert path == path0 + [s.to] && rels == rels0 + [s.rel];
      DeliveredIffPermitted(n, path0, rels0, net, s);
      run := before + [Announce(s, RouteAlong(net, path0, rels0))];
      assert run[..|run| - 1] == before;
    }
  }

  /** The filters permit exactly these paths. */
  lemma {:induction false} PropagatedIffPermitted(n: Net, path: seq<int>, net: int)
    requires path != [] && net in n.fabric && (path[0], net) in n.originates
    ensures (exists run, x, r :: (x, r) in After(n, run) && r.path == path && r.net == net)
            <==> (exists rels :: Chain(n, path, rels) && Permitted(rels))
  {
    if run, x, r :| (x, r) in After(n, run) && r.path == path && r.net == net {
      HeldIsPermitted(n, run, x, r);
    }
    if rels :| Chain(n, path, rels) && Permitted(rels) {
      var run := PermittedIsHeld(n, path, rels, net);
      assert RouteAlong(net, path, rels).path == path;
    }
  }

  /** What the preference of held routes says: learned from a customer before peer, core and provider, in this order. */
  lemma {:induction false} PreferenceOrders(n: Net, x: int, r: Route, rels: seq<Rel>, r': Route, rels': seq<Rel>)
    requires CameOver(n, x, r, rels) && CameOver(n, x, r', rels') && rels != [] && rels' != []
    ensures r.localPref > r'.localPref <==> Standing(rels[|rels| - 1]) > Standing(rels'[|rels'| - 1])
  {
  }

  /** How good a neighbour is to learn from, by how the neighbour sees the learner. */
  function Standing(r: Rel): nat {
    match r
    case Parent => 3
    case Peer => 2
    case Core => 1
    case Child => 0
  }

  // ---------------------------------------------------------------- valleys

  /** Up to providers, at most one step across, then down to customers. */
  predicate ValleyFree(rels: seq<Rel>) {
    rels == []
    || (if rels[0] == Parent then ValleyFree(rels[1..]) else forall i :: 1 <= i < |rels| ==> rels[i] == Child)
  }

  /** Pairwise: after a step that is not up, every step is down. */
  lemma {:induction false} ValleyFreeExactly(rels: seq<Rel>)
    ensures ValleyFree(rels) <==> forall i, j :: 0 <= i < j < |rels| && rels[i] != Parent ==> rels[j] == Child
  {
    if rels != [] && rels[0] == Parent {
      var rest := rels[1..];
      ValleyFreeExactly(rest);
      forall i, j | 0 <= i < j < |rels| && rels[i] != Parent && ValleyFree(rels) ensures rels[j] == Child {
        assert rest[i - 1] == rels[i] && rest[j - 1] == rels[j];
      }
      forall i, j | 0 <= i < j < |rest| && rest[i] != Parent
        && forall i, j :: 0 <= i < j < |rels| && rels[i] != Parent ==> rels[j] == Child
        ensures rest[j] == Child
      {
        assert rest[i] == rels[i + 1] && rest[j] == rels[j + 1];
      }
    }
  }

  /** A valley shows at one AS: some step that is not up is followed at once by one that is not down. */
  lemma {:induction false} ValleyAtOneAs(rels: seq<Rel>, i: nat, j: nat) returns (k: nat)
    requires i < j < |rels| && rels[i] != Parent && rels[j] != Child
    ensures i <= k < j && rels[k] != Parent && rels[k + 1] != Child
    decreases j - i
  {
    if i + 1 == j || rels[i + 1] != Child {
      k := i;
    } else {
      k := ValleyAtOneAs(rels, i + 1, j);
    }
  }

  /** Some originator's chain starts at a provider and ends with a step that is not up and then one that is not down. */
  ghost predicate Valley(n: Net, path: seq<int>, rels: seq<Rel>, net: int) {
    Chain(n, path, rels) && net in n.fabric && (path[0], net) in n.originates
    && |rels| >= 3 && rels[0] == Parent && rels[|rels| - 2] != Parent && rels[|rels| - 1] != Child
  }

  /** Every route held in any run came over a valley-free chain only. */
  ghost predicate AlwaysValleyFree(n: Net) {
    forall run, x, r, rels :: (x, r) in After(n, run) && CameOver(n, x, r, rels) ==> ValleyFree(rels)
  }

  lemma {:induction false} ChainPrefix(n: Net, path: seq<int>, rels: seq<Rel>, m: nat)
    requires Chain(n, path, rels) && m <= |rels|
    ensures Chain(n, path[..m + 1], rels[..m])
  {
    forall i {:trigger rels[..m][i]} | 0 <= i < m
      ensures Session(path[..m + 1][i], path[..m + 1][i + 1], rels[..m][i]) in n.sessions
    {
      assert rels[..m][i] == rels[i];
    }
  }

  lemma {:induction false} HeldValleyShows(n: Net, x: int, r: Route, rels: seq<Rel>)
    requires CameOver(n, x, r, rels) && !ValleyFree(rels)
    ensures exists path, rels, net :: Valley(n, path, rels, net)
  {
    ValleyFreeExactly(rels);
    var i: nat, j: nat :| i < j < |rels| && rels[i] != Parent && rels[j] != Child;
    var k := ValleyAtOneAs(rels, i, j);
    ChainPrefix(n, r.path, rels, k + 2);
    assert Valley(n, r.path[..k + 3], rels[..k + 2], r.net);
  }

  lemma {:induction false} ValleyIsHeld(n: Net, path: seq<int>, rels: seq<Rel>, net: int)
    requires Valley(n, path, rels, net)
    ensures !AlwaysValleyFree(n)
  {
    var run := PermittedIsHeld(n, path, rels, net);
    ValleyFreeExactly(rels);
    assert CameOver(n, path[|rels|], RouteAlong(net, path, rels), rels);
  }

  /**
   * Every run of a network stays valley-free exactly if no originator's chain starts at a provider and later has
   * a step that is not up followed at once by one that is not down.
   */
  lemma {:induction false} ValleyFreeNetworks(n: Net)
    ensures AlwaysValleyFree(n) <==> !exists path, rels, net :: Valley(n, path, rels, net)
  {
    hide CameOver, ValleyFree, Valley, After;
    if path, rels, net :| Valley(n, path, rels, net) {
      ValleyIsHeld(n, path, rels, net);
    }
    if run, x, r, rels :| (x, r) in After(n, run) && CameOver(n, x, r, rels) && !ValleyFree(rels) {
      HeldValleyShows(n, x, r, rels);
    }
  }

  /** A customer's route crosses two peerings and climbs again. */
  lemma ValleyIsPropagated() returns (n: Net, run: seq<Event>)
    ensures exists x, r, rels :: (x, r) in After(n, run) && CameOver(n, x, r, rels) && !ValleyFree(rels)
  {
    var rels := [Parent, Peer, Peer, Parent];
    var path := [1, 2, 3, 4, 5];
    n := Net({7}, {Session(1, 2, Parent), Session(2, 3, Peer), Session(3, 4, Peer), Session(4, 5, Parent)}, {(1, 7)});
    run := PermittedIsHeld(n, path, rels, 7);
    assert rels[1..][0] == Peer && rels[1..][1] == Peer;
    assert (5, RouteAlong(7, path, rels)) in After(n, run) && CameOver(n, 5, RouteAlong(7, path, rels), rels);
  }
}
