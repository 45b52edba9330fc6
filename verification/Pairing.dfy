/**
 * Pairing of border-router interfaces into links, as done when the topology files
 * are loaded: each interface names its own and its remote underlay address.
 */
module Pairing {
  import opened Prelude
  import opened Topology

  /** One border-router interface of one topology file. */
  datatype IfaceRec = IfaceRec(asNum: int, ia: string, ifid: string, linkTo: string,
                               localAddr: string, remoteAddr: string, localHost: string)

  const SUBNET_PREFIX := "fd00:fade:"

  /** The text before the first "::" of `s` from position `i` on. */
  function BeforeDoubleColon(s: string, i: nat): Option<string>
    requires i <= |s|
    decreases |s| - i
  {
    if i + 2 > |s| then None
    else if s[i] == ':' && s[i + 1] == ':' then Some(s[..i])
    else BeforeDoubleColon(s, i + 1)
  }

  function SubnetOf(host: string): Result<string> {
    if !(SUBNET_PREFIX <= host) then Err("unexpected underlay host")
    else match BeforeDoubleColon(host[|SUBNET_PREFIX|..], 0)
         case None => Err("unexpected underlay host")
         case Some(hex) => Ok("link " + hex)
  }

  function EndpointFrom(r: IfaceRec): Endpoint {
    Endpoint(r.ia, r.asNum, r.ifid, r.localHost, r.linkTo)
  }

  /** The records by local address after the first `n`; a later record displaces an earlier one. */
  function ByLocalAddr(recs: seq<IfaceRec>, n: nat): map<string, IfaceRec>
    requires n <= |recs|
  {
    if n == 0 then map[] else ByLocalAddr(recs, n - 1)[recs[n - 1].localAddr := recs[n - 1]]
  }

  /** The record found under the remote address of `r`. */
  function Counterpart(recs: seq<IfaceRec>, r: IfaceRec): Option<IfaceRec> {
    Lookup(ByLocalAddr(recs, |recs|), r.remoteAddr)
  }

  predicate Emits(recs: seq<IfaceRec>, r: IfaceRec) {
    Counterpart(recs, r).Some? && r.asNum < Counterpart(recs, r).value.asNum
  }

  function Kind(core: map<int, bool>, lo: IfaceRec, hi: IfaceRec): string {
    if Lookup(core, lo.asNum) == Some(true) && Lookup(core, hi.asNum) == Some(true) then "core"
    else if lo.linkTo == "peer" || hi.linkTo == "peer" then "peer"
    else "child"
  }

  function LinkFor(id: (int, int) -> string, core: map<int, bool>, lo: IfaceRec, hi: IfaceRec, subnet: string): Link {
    Link(id(lo.asNum, hi.asNum), Kind(core, lo, hi), subnet, EndpointFrom(lo), EndpointFrom(hi))
  }

  /** The links of the first `n` records in record order, or the first subnet error. */
  function LinksOf(recs: seq<IfaceRec>, id: (int, int) -> string, core: map<int, bool>, n: nat): Result<seq<Link>>
    requires n <= |recs|
  {
    if n == 0 then Ok([])
    else
      var before := LinksOf(recs, id, core, n - 1);
      var r := recs[n - 1];
      if before.Err? || !Emits(recs, r) then before
      else match SubnetOf(r.localHost)
           case Err(e) => Err(e)
           case Ok(subnet) => Ok(before.value + [LinkFor(id, core, r, Counterpart(recs, r).value, subnet)])
  }

  /** The pairing loop; `id` is the formatting of the two AS numbers. */
  method PairInterfaces(recs: seq<IfaceRec>, id: (int, int) -> string, core: map<int, bool>)
    returns (links: Result<seq<Link>>)
    ensures links == LinksOf(recs, id, core, |recs|)
  {
    var byLocalAddr := map[];
    for i := 0 to |recs|
      invariant byLocalAddr == ByLocalAddr(recs, i)
    {
      byLocalAddr := byLocalAddr[recs[i].localAddr := recs[i]];
    }
    var out: seq<Link> := [];
    for i := 0 to |recs|
      invariant LinksOf(recs, id, core, i) == Ok(out)
    {
      var rec := recs[i];
      if rec.remoteAddr !in byLocalAddr {
        continue;
      }
      var counterpart := byLocalAddr[rec.remoteAddr];
      if rec.asNum >= counterpart.asNum {
        continue;
      }
      var subnet := SubnetOf(rec.localHost);
      if subnet.Err? {
        LinksErrSticks(recs, id, core, i + 1);
        return Err(subnet.error);
      }
      out := out + [LinkFor(id, core, rec, counterpart, subnet.value)];
    }
    return Ok(out);
  }

  lemma {:induction false} LinksErrSticks(recs: seq<IfaceRec>, id: (int, int) -> string, core: map<int, bool>, n: nat)
    requires n <= |recs| && LinksOf(recs, id, core, n).Err?
    ensures LinksOf(recs, id, core, |recs|) == LinksOf(recs, id, core, n)
    decreases |recs| - n
  {
    if n < |recs| { LinksErrSticks(recs, id, core, n + 1); }
  }

  // ---------------------------------------------------------------- what a link says

  /** The subnet is named by what stands between the common prefix and the first "::" after it. */
  lemma {:induction false} SubnetExactly(host: string, hex: string, rest: string)
    requires host == SUBNET_PREFIX + hex + "::" + rest
    requires forall i :: 0 <= i < |hex| ==> !(hex[i] == ':' && (hex + ":")[i + 1] == ':')
    ensures SubnetOf(host) == Ok("link " + hex)
  {
    var text := host[|SUBNET_PREFIX|..];
    assert text == hex + "::" + rest && SUBNET_PREFIX <= host;
    FirstDoubleColon(text, hex, rest, 0);
  }

  lemma {:induction false} FirstDoubleColon(s: string, hex: string, rest: string, i: nat)
    requires s == hex + "::" + rest && i <= |hex|
    requires forall j :: 0 <= j < |hex| ==> !(hex[j] == ':' && (hex + ":")[j + 1] == ':')
    ensures BeforeDoubleColon(s, i) == Some(hex)
    decreases |hex| - i
  {
    assert s[|hex|] == ':' && s[|hex| + 1] == ':' && s[..|hex|] == hex;
    if i < |hex| {
      assert s[i] == hex[i] && s[i + 1] == (hex + ":")[i + 1];
      FirstDoubleColon(s, hex, rest, i + 1);
    }
  }

  /** Other hosts are refused. */
  lemma {:induction false} SubnetRefused(host: string)
    requires !(SUBNET_PREFIX <= host)
             || forall j :: |SUBNET_PREFIX| <= j && j + 1 < |host| ==> !(host[j] == ':' && host[j + 1] == ':')
    ensures SubnetOf(host).Err?
  {
    if SUBNET_PREFIX <= host { NoDoubleColon(host[|SUBNET_PREFIX|..], 0); }
  }

  lemma {:induction false} NoDoubleColon(s: string, i: nat)
    requires i <= |s| && forall j :: 0 <= j && j + 1 < |s| ==> !(s[j] == ':' && s[j + 1] == ':')
    ensures BeforeDoubleColon(s, i) == None
    decreases |s| - i
  {
    if i + 2 <= |s| { NoDoubleColon(s, i + 1); }
  }

  /** Link `l` was made of record `i` and its counterpart `c`, and says of them what it should. */
  ghost predicate Describes(recs: seq<IfaceRec>, id: (int, int) -> string, core: map<int, bool>, l: Link, i: nat,
                            c: IfaceRec)
    requires i < |recs|
  {
    var r := recs[i];
    var bothCore := (r.asNum in core && core[r.asNum]) && (c.asNum in core && core[c.asNum]);
    && l.id == id(r.asNum, c.asNum) && r.asNum < c.asNum
    && l.a == Endpoint(r.ia, r.asNum, r.ifid, r.localHost, r.linkTo)
    && l.b == Endpoint(c.ia, c.asNum, c.ifid, c.localHost, c.linkTo)
    && SubnetOf(r.localHost) == Ok(l.subnet)
    && (bothCore ==> l.kind == "core")
    && (!bothCore && (r.linkTo == "peer" || c.linkTo == "peer") ==> l.kind == "peer")
    && (!bothCore && r.linkTo != "peer" && c.linkTo != "peer" ==> l.kind == "child")
  }

  /** What every link says: its id, the kind of the relationship, its subnet and both ends. */
  lemma {:induction false} LinksDescribe(recs: seq<IfaceRec>, id: (int, int) -> string, core: map<int, bool>, n: nat,
                                         k: nat) returns (i: nat)
    requires n <= |recs| && LinksOf(recs, id, core, n).Ok? && k < |LinksOf(recs, id, core, n).value|
    ensures i < n && Counterpart(recs, recs[i]).Some?
    ensures Describes(recs, id, core, LinksOf(recs, id, core, n).value[k], i, Counterpart(recs, recs[i]).value)
  {
    hide SubnetOf, ByLocalAddr, Describes;
    if k < |LinksOf(recs, id, core, n - 1).value| {
      i := LinksDescribe(recs, id, core, n - 1, k);
    } else {
      i := n - 1;
      NewLinkDescribes(recs, id, core, i);
    }
  }

  lemma NewLinkDescribes(recs: seq<IfaceRec>, id: (int, int) -> string, core: map<int, bool>, i: nat)
    requires i < |recs| && Emits(recs, recs[i]) && SubnetOf(recs[i].localHost).Ok?
    ensures var c := Counterpart(recs, recs[i]).value;
            Describes(recs, id, core, LinkFor(id, core, recs[i], c, SubnetOf(recs[i].localHost).value), i, c)
  {
    hide SubnetOf, ByLocalAddr;
  }

  // ---------------------------------------------------------------- what the links are

  ghost predicate UniqueAddresses(recs: seq<IfaceRec>) {
    forall i, j :: 0 <= i < |recs| && 0 <= j < |recs| && recs[i].localAddr == recs[j].localAddr ==> i == j
  }

  ghost predicate UniqueIfids(recs: seq<IfaceRec>) {
    forall i, j :: 0 <= i < |recs| && 0 <= j < |recs| && recs[i].asNum == recs[j].asNum && recs[i].ifid == recs[j].ifid
                  ==> i == j
  }

  /** Records `i` and `j` name each other. */
  ghost predicate Mutual(recs: seq<IfaceRec>, i: nat, j: nat)
    requires i < |recs| && j < |recs|
  {
    recs[i].remoteAddr == recs[j].localAddr && recs[j].remoteAddr == recs[i].localAddr
  }

  /** A record that somebody points at points back. */
  ghost predicate Reciprocal(recs: seq<IfaceRec>) {
    forall i, j :: 0 <= i < |recs| && 0 <= j < |recs| && recs[i].remoteAddr == recs[j].localAddr ==> Mutual(recs, i, j)
  }

  lemma {:induction false} AddrFound(recs: seq<IfaceRec>, n: nat, addr: string)
    requires n <= |recs| && addr in ByLocalAddr(recs, n)
    ensures exists j :: 0 <= j < n && recs[j].localAddr == addr && ByLocalAddr(recs, n)[addr] == recs[j]
  {
    if addr != recs[n - 1].localAddr { AddrFound(recs, n - 1, addr); }
  }

  lemma {:induction false} AddrKept(recs: seq<IfaceRec>, n: nat, j: nat)
    requires UniqueAddresses(recs) && j < n <= |recs|
    ensures Lookup(ByLocalAddr(recs, n), recs[j].localAddr) == Some(recs[j])
  {
    if j < n - 1 { AddrKept(recs, n - 1, j); }
  }

  /** Where the links come from: link `k` was emitted for record `from[k]`. */
  ghost predicate From(recs: seq<IfaceRec>, links: seq<Link>, from: seq<nat>, n: nat)
    requires n <= |recs|
  {
    |from| == |links|
    && (forall k, l :: 0 <= k < l < |from| ==> from[k] < from[l])
    && (forall k :: 0 <= k < |from| ==>
          from[k] < n && Emits(recs, recs[from[k]])
          && links[k].a == EndpointFrom(recs[from[k]])
          && links[k].b == EndpointFrom(Counterpart(recs, recs[from[k]]).value))
    && forall i :: 0 <= i < n && Emits(recs, recs[i]) ==> i in from
  }

  lemma {:induction false} Provenance(recs: seq<IfaceRec>, id: (int, int) -> string, core: map<int, bool>, n: nat)
    returns (from: seq<nat>)
    requires n <= |recs| && LinksOf(recs, id, core, n).Ok?
    ensures From(recs, LinksOf(recs, id, core, n).value, from, n)
  {
    hide SubnetOf, ByLocalAddr, EndpointFrom, Kind;
    if n == 0 {
      from := [];
    } else {
      from := Provenance(recs, id, core, n - 1);
      if Emits(recs, recs[n - 1]) {
        var old' := from;
        from := from + [n - 1];
        assert forall i :: i in old' ==> i in from;
        assert from[|old'|] == n - 1;
      }
    }
  }

  /** The record behind one end of a link. */
  lemma {:induction false} EndRecord(recs: seq<IfaceRec>, links: seq<Link>, from: seq<nat>, k: nat, back: bool)
    returns (i: nat)
    requires UniqueAddresses(recs) && From(recs, links, from, |recs|) && k < |links|
    ensures i < |recs| && Near(links[k], back) == EndpointFrom(recs[i])
    ensures back ==> recs[from[k]].remoteAddr == recs[i].localAddr && recs[from[k]].asNum < recs[i].asNum
    ensures !back ==> i == from[k]
  {
    i := from[k];
    if back {
      AddrFound(recs, |recs|, recs[from[k]].remoteAddr);
      i :| i < |recs| && recs[i].localAddr == recs[from[k]].remoteAddr
      && Counterpart(recs, recs[from[k]]) == Some(recs[i]);
    }
  }

  /** And every link end belongs to an AS that was loaded, the two ends to different ones. */
  lemma {:induction false} LoadedEndsKnown(ases: seq<AS>, recs: seq<IfaceRec>, id: (int, int) -> string,
                                           core: map<int, bool>)
    requires UniqueAddresses(recs) && LinksOf(recs, id, core, |recs|).Ok?
    requires forall i :: 0 <= i < |recs| ==> exists k :: 0 <= k < |ases| && ases[k].num == recs[i].asNum
    ensures EndpointsKnown(Graph(ases, LinksOf(recs, id, core, |recs|).value))
    ensures forall l :: l in LinksOf(recs, id, core, |recs|).value ==> l.a.asn < l.b.asn
  {
    var links := LinksOf(recs, id, core, |recs|).value;
    var from := Provenance(recs, id, core, |recs|);
    forall k, s {:trigger Near(links[k], s)} | 0 <= k < |links|
      ensures HasAs(Graph(ases, links), Near(links[k], s).asn)
    {
      var i := EndRecord(recs, links, from, k, s);
    }
  }

  /** Records `i` and `j` name each other, and `i` is of the lower AS. */
  ghost predicate MutualAscending(recs: seq<IfaceRec>, i: nat, j: nat) {
    i < |recs| && j < |recs| && Mutual(recs, i, j) && recs[i].asNum < recs[j].asNum
  }

  /** Link `l` joins the mutual records `i` and `j`, the lower AS first. */
  ghost predicate Joins(recs: seq<IfaceRec>, l: Link, i: nat, j: nat) {
    MutualAscending(recs, i, j) && l.a == EndpointFrom(recs[i]) && l.b == EndpointFrom(recs[j])
  }

  /** Every mutual pair of different ASes gets its link, lower AS first. */
  lemma {:induction false} MutualPairsAreLinked(recs: seq<IfaceRec>, id: (int, int) -> string, core: map<int, bool>,
                                                i: nat, j: nat)
    requires UniqueAddresses(recs) && LinksOf(recs, id, core, |recs|).Ok?
    requires MutualAscending(recs, i, j)
    ensures exists k :: 0 <= k < |LinksOf(recs, id, core, |recs|).value|
                        && Joins(recs, LinksOf(recs, id, core, |recs|).value[k], i, j)
  {
    var from := Provenance(recs, id, core, |recs|);
    AddrKept(recs, |recs|, j);
    assert Emits(recs, recs[i]);
    var k :| 0 <= k < |from| && from[k] == i;
    assert Joins(recs, LinksOf(recs, id, core, |recs|).value[k], i, j);
  }

  /** And no link is anything else. */
  lemma {:induction false} LinksAreMutualPairs(recs: seq<IfaceRec>, id: (int, int) -> string, core: map<int, bool>,
                                               k: nat)
    requires UniqueAddresses(recs) && Reciprocal(recs) && LinksOf(recs, id, core, |recs|).Ok?
    requires k < |LinksOf(recs, id, core, |recs|).value|
    ensures exists i, j :: Joins(recs, LinksOf(recs, id, core, |recs|).value[k], i, j)
  {
    var links := LinksOf(recs, id, core, |recs|).value;
    var from := Provenance(recs, id, core, |recs|);
    var j := EndRecord(recs, links, from, k, true);
    assert Joins(recs, links[k], from[k], j);
  }

  /** Record `i` points at record `k` of a higher AS: the pairing makes a link of the two. */
  predicate Points(recs: seq<IfaceRec>, i: nat, k: nat) {
    i < |recs| && k < |recs| && recs[i].remoteAddr == recs[k].localAddr && recs[i].asNum < recs[k].asNum
  }

  /** What has to hold of the records: nothing pointed at is pointed at twice, or points upwards itself. */
  ghost predicate EachUsedOnce(recs: seq<IfaceRec>) {
    forall i, j, k, l :: i != j && Points(recs, i, k) && Points(recs, j, l) ==> k != l && k != j
  }

  /** The link made for a record that points. */
  lemma {:induction false} PointIsLinked(recs: seq<IfaceRec>, links: seq<Link>, from: seq<nat>, i: nat, k: nat)
    returns (m: nat)
    requires UniqueAddresses(recs) && From(recs, links, from, |recs|) && Points(recs, i, k)
    ensures m < |links| && from[m] == i
    ensures links[m].a == EndpointFrom(recs[i]) && links[m].b == EndpointFrom(recs[k])
  {
    AddrKept(recs, |recs|, k);
    assert Emits(recs, recs[i]);
    m :| 0 <= m < |from| && from[m] == i;
  }

  /** No interface ends up on two links exactly if each record is used once, reciprocal or not. */
  lemma {:induction false} EndsDistinctExactly(recs: seq<IfaceRec>, id: (int, int) -> string, core: map<int, bool>)
    requires UniqueAddresses(recs) && UniqueIfids(recs) && LinksOf(recs, id, core, |recs|).Ok?
    ensures DistinctEndpoints(LinksOf(recs, id, core, |recs|).value) <==> EachUsedOnce(recs)
  {
    var links := LinksOf(recs, id, core, |recs|).value;
    var from := Provenance(recs, id, core, |recs|);
    if EachUsedOnce(recs) {
      UsedOnceApart(recs, links, from);
    }
    if i, j, k, l :| i != j && Points(recs, i, k) && Points(recs, j, l) && (k == l || k == j) {
      var m := PointIsLinked(recs, links, from, i, k);
      var n := PointIsLinked(recs, links, from, j, l);
      assert Near(links[m], true) == if k == l then Near(links[n], true) else Near(links[n], false);
    }
  }

  lemma {:induction false} UsedOnceApart(recs: seq<IfaceRec>, links: seq<Link>, from: seq<nat>)
    requires UniqueAddresses(recs) && UniqueIfids(recs) && From(recs, links, from, |recs|) && EachUsedOnce(recs)
    ensures DistinctEndpoints(links)
  {
    forall k, l, s, t | 0 <= k < |links| && 0 <= l < |links|
      && Near(links[k], s).asn == Near(links[l], t).asn && Near(links[k], s).ifid == Near(links[l], t).ifid
      ensures k == l && s == t
    {
      var i := EndRecord(recs, links, from, k, s);
      var j := EndRecord(recs, links, from, l, t);
      assert i == j;
      var i' := EndRecord(recs, links, from, k, true);
      var j' := EndRecord(recs, links, from, l, true);
      assert Points(recs, from[k], i') && Points(recs, from[l], j');
    }
  }

  /** Reciprocal records are used once each, so the loaded graph meets what routing and indexing ask of it. */
  lemma {:induction false} LoadedEndsDistinct(recs: seq<IfaceRec>, id: (int, int) -> string, core: map<int, bool>)
    requires UniqueAddresses(recs) && UniqueIfids(recs) && Reciprocal(recs)
    requires LinksOf(recs, id, core, |recs|).Ok?
    ensures DistinctEndpoints(LinksOf(recs, id, core, |recs|).value)
  {
    forall i, j, k, l | i != j && Points(recs, i, k) && Points(recs, j, l) ensures k != l && k != j {
      assert Mutual(recs, i, k) && Mutual(recs, j, l);
    }
    EndsDistinctExactly(recs, id, core);
  }

  ghost predicate JoinsSome(recs: seq<IfaceRec>, l: Link) {
    exists i, j :: Joins(recs, l, i, j)
  }

  ghost predicate Linked(recs: seq<IfaceRec>, links: seq<Link>, k: nat, i: nat, j: nat) {
    k < |links| && Joins(recs, links[k], i, j)
  }

  /** Exactly one link for each mutual pair of a lower and a higher AS, and no others. */
  ghost predicate OneLinkPerPair(recs: seq<IfaceRec>, links: seq<Link>) {
    (forall i: nat, j: nat :: MutualAscending(recs, i, j) ==> exists k: nat :: Linked(recs, links, k, i, j))
    && (forall l | l in links :: JoinsSome(recs, l))
    && (forall i: nat, j: nat, k: nat, l: nat | Linked(recs, links, k, i, j) && Linked(recs, links, l, i, j) :: k == l)
  }

  lemma {:induction false} AtMostOnce<T>(s: seq<T>, x: T)
    requires Distinct(s)
    ensures multiset(s)[x] <= 1
  {
    if s != [] {
      var init := s[..|s| - 1];
      assert s == init + [s[|s| - 1]];
      AtMostOnce(init, x);
      if s[|s| - 1] == x { assert x !in init; }
    }
  }

  lemma Twice<T>(s: seq<T>, i: nat, j: nat)
    requires i < j < |s| && s[i] == s[j]
    ensures multiset(s)[s[i]] >= 2
  {
    assert s == s[..j] + [s[j]] + s[j + 1..];
    assert s[i] == s[..j][i] && s[i] in s[..j];
  }

  /** Sorting the links afterwards, or any other reordering, makes no two of their ends meet. */
  lemma {:induction false} ReorderedDistinct(links: seq<Link>, out: seq<Link>)
    requires DistinctEndpoints(links) && multiset(out) == multiset(links)
    ensures DistinctEndpoints(out)
  {
    forall k, l | 0 <= k < l < |links| ensures links[k] != links[l] {
      var _, _ := Near(links[k], false), Near(links[l], false);
    }
    forall i, j, s, t {:trigger Near(out[i], s), Near(out[j], t)} | 0 <= i < |out| && 0 <= j < |out|
      && Near(out[i], s).asn == Near(out[j], t).asn && Near(out[i], s).ifid == Near(out[j], t).ifid
      ensures i == j && s == t
    {
      assert out[i] in multiset(links) && out[j] in multiset(links);
      var k :| 0 <= k < |links| && links[k] == out[i];
      var l :| 0 <= l < |links| && links[l] == out[j];
      var _, _ := Near(links[k], s), Near(links[l], t);
      AtMostOnce(links, out[i]);
      if i < j { Twice(out, i, j); }
      if j < i { Twice(out, j, i); }
    }
  }

  lemma {:induction false} LinkedOncePerPair(recs: seq<IfaceRec>, id: (int, int) -> string, core: map<int, bool>,
                                             out: seq<Link>)
    requires UniqueAddresses(recs) && UniqueIfids(recs) && Reciprocal(recs)
    requires LinksOf(recs, id, core, |recs|).Ok? && multiset(out) == multiset(LinksOf(recs, id, core, |recs|).value)
    ensures OneLinkPerPair(recs, out) && DistinctEndpoints(out)
  {
    var links := LinksOf(recs, id, core, |recs|).value;
    hide LinksOf, Mutual, UniqueIfids, UniqueAddresses, Reciprocal;
    LoadedEndsDistinct(recs, id, core);
    ReorderedDistinct(links, out);
    forall l | l in out ensures JoinsSome(recs, l) {
      assert l in multiset(links);
      var k: nat :| k < |links| && links[k] == l;
      LinksAreMutualPairs(recs, id, core, k);
    }
    forall i: nat, j: nat | MutualAscending(recs, i, j) ensures exists k :: Linked(recs, out, k, i, j) {
      MutualPairsAreLinked(recs, id, core, i, j);
      var m :| 0 <= m < |links| && Joins(recs, links[m], i, j);
      assert links[m] in multiset(out);
      var k: nat :| k < |out| && out[k] == links[m];
      assert Linked(recs, out, k, i, j);
    }
    forall i: nat, j: nat, k: nat, l: nat | Linked(recs, out, k, i, j) && Linked(recs, out, l, i, j)
      ensures k == l
    {
      var _, _ := Near(out[k], false), Near(out[l], false);
    }
  }

  /** One way to fail: two lower ASes point at the same interface. */
  lemma {:induction false} SharedCounterpartIsLinkedTwice(recs: seq<IfaceRec>, id: (int, int) -> string,
                                                          core: map<int, bool>, i: nat, j: nat, k: nat)
    requires UniqueAddresses(recs) && LinksOf(recs, id, core, |recs|).Ok?
    requires i != j && Points(recs, i, k) && Points(recs, j, k)
    ensures !DistinctEndpoints(LinksOf(recs, id, core, |recs|).value)
  {
    var links := LinksOf(recs, id, core, |recs|).value;
    var from := Provenance(recs, id, core, |recs|);
    var m := PointIsLinked(recs, links, from, i, k);
    var n := PointIsLinked(recs, links, from, j, k);
    assert Near(links[m], true) == Near(links[n], true);
  }

  /** The other way, with no counterpart shared: an interface that is pointed at points at a third AS. */
  lemma {:induction false} ChainIsLinkedTwice(id: (int, int) -> string, core: map<int, bool>)
    returns (recs: seq<IfaceRec>)
    ensures UniqueAddresses(recs) && UniqueIfids(recs)
    ensures forall i, j, k :: Points(recs, i, k) && Points(recs, j, k) ==> i == j
    ensures LinksOf(recs, id, core, |recs|).Ok? && !DistinctEndpoints(LinksOf(recs, id, core, |recs|).value)
  {
    var host := "fd00:fade:1::1";
    recs := [IfaceRec(1, "1-1", "1", "core", "x", "y", host), IfaceRec(2, "1-2", "1", "core", "y", "z", host),
             IfaceRec(3, "1-3", "1", "core", "z", "", host)];
    ChainHasSubnet(host);
    assert forall r :: r in recs ==> SubnetOf(r.localHost).Ok?;
    hide SubnetOf;
    SubnetsSuffice(recs, id, core, |recs|);
    assert Points(recs, 0, 1) && Points(recs, 1, 2);
    EndsDistinctExactly(recs, id, core);
  }

  lemma ChainHasSubnet(host: string)
    requires host == "fd00:fade:1::1"
    ensures SubnetOf(host).Ok?
  {
    var rest := host[|SUBNET_PREFIX|..];
    assert rest == "1::1";
    assert BeforeDoubleColon(rest, 0) == BeforeDoubleColon(rest, 1);
    assert SUBNET_PREFIX <= host;
  }

  lemma {:induction false} SubnetsSuffice(recs: seq<IfaceRec>, id: (int, int) -> string, core: map<int, bool>, n: nat)
    requires n <= |recs| && forall r :: r in recs ==> SubnetOf(r.localHost).Ok?
    ensures LinksOf(recs, id, core, n).Ok?
  {
    if n > 0 { SubnetsSuffice(recs, id, core, n - 1); }
  }
}
