/**
 * From a trace path to the inspector's view model and back: candidate paths are
 * flattened to interface lists and synthetic telemetry, and the view model pairs
 * the interfaces up again and collapses the telemetry onto links.
 */
module Trace {
  import opened Prelude
  import opened Topology
  import opened TracePaths
  import Decimal
  import BgpPath

  datatype Iface = Iface(ia: string, ifid: nat)

  datatype PathJson = PathJson(fingerprint: string, mtu: int, expiry: string, interfaces: seq<Iface>,
                               latencyUs: seq<int>)

  /** One telemetry record; a router may leave out a slot. */
  datatype HopRecord = HopRecord(hop: int, ia: string, source: bool, ingress: bool, egress: bool, verified: bool,
                                 nodeId: Option<nat>, rttNextBrUs: Option<int>, egrLinkTxPct: Option<real>,
                                   queueLen: Option<int>)

  datatype ProbeResult = ProbeResult(path: PathJson, probeRttMs: real, fwd: seq<HopRecord>, rev: seq<HopRecord>)

  datatype TraceHop = TraceHop(ia: string, link: string, rttNextBrUs: Option<int>, egrTxPct: Option<real>,
                               queueLen: Option<int>, nodeId: Option<nat>, verified: bool)

  datatype TraceVm = TraceVm(src: string, dst: string, fingerprint: string, auto: bool, pathLinks: seq<string>,
                             ok: bool, error: string, updatedAt: int, probeRttMs: real, hops: seq<TraceHop>)

  datatype Session = Session(src: int, dst: int, fingerprint: string)

  const TRACE_INTRA_AS_US := 100
  const TRACE_RTT_FIXED_MS := 1.0
  const TRACE_EGR_LINK_TX_PCT := 0.4

  // ---------------------------------------------------------------- names

  function FirstIndex(s: string, c: char): Option<nat> {
    if s == "" then None
    else if s[0] == c then Some(0)
    else match FirstIndex(s[1..], c) case None => None case Some(i) => Some(i + 1)
  }

  function LastIndex(s: string, c: char): (i: Option<nat>)
    ensures i.Some? ==> i.value < |s|
  {
    if s == "" then None
    else if s[|s| - 1] == c then Some(|s| - 1)
    else LastIndex(s[..|s| - 1], c)
  }

  /** The AS number of an ISD-AS string as the topology loader reads it: exactly two dash-separated parts. */
  function IaToNum(ia: string): Option<int> {
    match FirstIndex(ia, '-')
    case None => None
    case Some(i) => if i < |ia| && FirstIndex(ia[i + 1..], '-') == None then Decimal.Atoi(ia[i + 1..]) else None
  }

  /** The AS number of an ISD-AS string as the inspector reads it: whatever follows the last dash. */
  function AsNumOf(ia: string): Option<int> {
    match LastIndex(ia, '-')
    case None => None
    case Some(i) => Decimal.Atoi(ia[i + 1..])
  }

  lemma {:induction false} FirstIndexIs(s: string, c: char)
    ensures match FirstIndex(s, c)
            case None => forall j :: 0 <= j < |s| ==> s[j] != c
            case Some(i) => i < |s| && s[i] == c && forall j :: 0 <= j < i ==> s[j] != c
  {
    if s != "" && s[0] != c { FirstIndexIs(s[1..], c); }
  }

  lemma {:induction false} LastIndexIs(s: string, c: char, i: nat)
    requires i < |s| && s[i] == c && forall j :: i < j < |s| ==> s[j] != c
    ensures LastIndex(s, c) == Some(i)
  {
    if i < |s| - 1 { LastIndexIs(s[..|s| - 1], c, i); }
  }

  /** Names the loader accepts mean the same to the inspector. */
  lemma {:induction false} NamesAgree(ia: string)
    requires IaToNum(ia).Some?
    ensures AsNumOf(ia) == IaToNum(ia)
  {
    FirstIndexIs(ia, '-');
    var i := FirstIndex(ia, '-').value;
    FirstIndexIs(ia[i + 1..], '-');
    assert forall j :: i < j < |ia| ==> ia[j] == ia[i + 1..][j - i - 1];
    LastIndexIs(ia, '-', i);
  }

  /** A name written from an AS number is read back to it, by the loader and so by the inspector. */
  lemma {:induction false} NameOfNumber(isd: string, num: nat)
    requires '-' !in isd && num < Decimal.INT64_LIMIT
    ensures IaToNum(isd + "-" + Decimal.Itoa(num)) == Some(num) == AsNumOf(isd + "-" + Decimal.Itoa(num))
  {
    hide AsNumOf, FirstIndex, Decimal.Atoi, Decimal.Itoa;
    var text := Decimal.Itoa(num);
    var ia := isd + "-" + text;
    Decimal.AtoiOfItoa(num);
    Decimal.ItoaShape(num);
    FirstIndexIs(ia, '-');
    assert ia[|isd|] == '-' && forall j :: 0 <= j < |isd| ==> ia[j] == isd[j];
    FirstIndexIs(text, '-');
    assert ia[|isd| + 1..] == text;
    NamesAgree(ia);
  }

  ghost predicate WellNamed(g: Graph) {
    forall k :: 0 <= k < |g.ases| ==> IaToNum(g.ases[k].ia) == Some(g.ases[k].num)
  }

  function IaByNum(ases: seq<AS>, n: nat): map<int, string>
    requires n <= |ases|
  {
    if n == 0 then map[] else IaByNum(ases, n - 1)[ases[n - 1].num := ases[n - 1].ia]
  }

  /** Lookup with the zero value for a missing key. */
  function Name(ias: map<int, string>, num: int): string {
    if num in ias then ias[num] else ""
  }

  lemma {:induction false} NamesResolve(g: Graph, n: nat, num: int)
    requires WellNamed(g) && n <= |g.ases| && exists k :: 0 <= k < n && g.ases[k].num == num
    ensures AsNumOf(Name(IaByNum(g.ases, n), num)) == Some(num)
  {
    hide AsNumOf, IaToNum;
    var last := g.ases[n - 1];
    if last.num == num {
      assert IaToNum(last.ia) == Some(num);
      NamesAgree(last.ia);
    } else {
      NamesResolve(g, n - 1, num);
    }
  }

  lemma KnownNameResolves(g: Graph, num: int)
    requires WellNamed(g) && HasAs(g, num)
    ensures AsNumOf(Name(IaByNum(g.ases, |g.ases|), num)) == Some(num)
  {
    hide AsNumOf, IaToNum;
    NamesResolve(g, |g.ases|, num);
  }

  // ---------------------------------------------------------------- flattening

  function Departure(ias: map<int, string>, e: Edge): Iface {
    Iface(Name(ias, e.from.asn), Decimal.ParseUint(e.from.ifid))
  }

  function Arrival(ias: map<int, string>, e: Edge): Iface {
    Iface(Name(ias, e.to.asn), Decimal.ParseUint(e.to.ifid))
  }

  /** Departure and arrival interface of the first `n` edges, in travel order. */
  function Interfaces(ias: map<int, string>, p: Path, n: nat): (r: seq<Iface>)
    requires n <= |p|
    ensures |r| == 2 * n
  {
    if n == 0 then [] else Interfaces(ias, p, n - 1) + [Departure(ias, p[n - 1]), Arrival(ias, p[n - 1])]
  }

  /** Link latencies with the forwarding delay of the AS between two links. */
  function Latencies(base: string -> int, p: Path, n: nat): seq<int>
    requires n <= |p|
  {
    if n == 0 then []
    else if n == 1 then [base(p[0].link.id)]
    else Latencies(base, p, n - 1) + [TRACE_INTRA_AS_US, base(p[n - 1].link.id)]
  }

  function MockName(i: nat): string {
    "mock-" + Decimal.FormatUint(i)
  }

  function PathOf(ias: map<int, string>, base: string -> int, expiry: string, i: nat, p: Path): PathJson {
    PathJson(MockName(i), 1472, expiry, Interfaces(ias, p, |p|), Latencies(base, p, |p|))
  }

  method BuildPath(ias: map<int, string>, base: string -> int, expiry: string, i: nat, p: Path) returns (json: PathJson)
    requires p != []
    ensures json == PathOf(ias, base, expiry, i, p)
  {
    var ifaces: seq<Iface> := [];
    var lat: seq<int> := [];
    for k := 0 to |p|
      invariant ifaces == Interfaces(ias, p, k)
      invariant lat == Latencies(base, p, k) + (if 0 < k < |p| then [TRACE_INTRA_AS_US] else [])
    {
      var e := p[k];
      ifaces := ifaces + [Iface(Name(ias, e.from.asn), Decimal.ParseUint(e.from.ifid)),
        Iface(Name(ias, e.to.asn), Decimal.ParseUint(e.to.ifid))];
      lat := lat + [base(e.link.id)];
      assert lat == Latencies(base, p, k + 1);
      if k < |p| - 1 {
        lat := lat + [TRACE_INTRA_AS_US];
      }
    }
    json := PathJson(MockName(i), 1472, expiry, ifaces, lat);
  }

  /** Link latencies at even positions, the forwarding delay between them at odd ones. */
  lemma {:induction false} LatenciesAre(base: string -> int, p: Path, n: nat)
    requires 0 < n <= |p|
    ensures |Latencies(base, p, n)| == 2 * n - 1
    ensures forall k :: 0 <= k < n ==> Latencies(base, p, n)[2 * k] == base(p[k].link.id)
    ensures forall k :: 0 <= k < n - 1 ==> Latencies(base, p, n)[2 * k + 1] == 100
  {
    if n > 1 { LatenciesAre(base, p, n - 1); }
  }

  lemma {:induction false} InterfacesAt(ias: map<int, string>, p: Path, n: nat, k: nat)
    requires k < n <= |p|
    ensures Interfaces(ias, p, n)[2 * k] == Departure(ias, p[k])
            && Interfaces(ias, p, n)[2 * k + 1] == Arrival(ias, p[k])
  {
    if k < n - 1 { InterfacesAt(ias, p, n - 1, k); }
  }

  // ---------------------------------------------------------------- pairing up again

  function LinksByIf(links: seq<Link>, n: nat): map<Key, string>
    requires n <= |links|
  {
    if n == 0 then map[]
    else
      var l := links[n - 1];
      LinksByIf(links, n - 1)[EndKey(l, false) := l.id][EndKey(l, true) := l.id]
  }

  lemma {:induction false} SameAsIndex(links: seq<Link>, n: nat, k: Key)
    requires n <= |links|
    ensures k in LinksByIf(links, n) <==> k in BgpPath.IndexOf(links, n)
    ensures k in LinksByIf(links, n) ==> LinksByIf(links, n)[k] == BgpPath.IndexOf(links, n)[k].linkId
  {
    if n > 0 { SameAsIndex(links, n - 1, k); }
  }

  /** The link an interface of a path belongs to. */
  function LinkAt(linkByIf: map<Key, string>, i: Iface): Result<string> {
    match AsNumOf(i.ia)
    case None => Err("malformed ia")
    case Some(num) =>
      match Lookup(linkByIf, Key(num, Decimal.FormatUint(i.ifid)))
      case None => Err("interface not in topology")
      case Some(link) => Ok(link)
  }

  function PairUpTo(linkByIf: map<Key, string>, ifaces: seq<Iface>, n: nat): Result<seq<string>>
    requires 2 * n <= |ifaces|
  {
    if n == 0 then Ok([])
    else
      match PairUpTo(linkByIf, ifaces, n - 1)
      case Err(e) => Err(e)
      case Ok(before) =>
        match LinkAt(linkByIf, ifaces[2 * n - 2])
        case Err(e) => Err(e)
        case Ok(link) => Ok(before + [link])
  }

  function PairedLinks(linkByIf: map<Key, string>, ifaces: seq<Iface>): Result<seq<string>> {
    if |ifaces| % 2 != 0 then Err("odd interface count") else PairUpTo(linkByIf, ifaces, |ifaces| / 2)
  }

  /** pairLinks: the second element of a pair is only cross-checked for the log. */
  method PairLinks(linkByIf: map<Key, string>, ifaces: seq<Iface>) returns (r: Result<seq<string>>)
    ensures r == PairedLinks(linkByIf, ifaces)
  {
    hide AsNumOf;
    if |ifaces| % 2 != 0 {
      return Err("odd interface count");
    }
    var links: seq<string> := [];
    var i := 0;
    while i + 1 < |ifaces|
      invariant 0 <= i <= |ifaces| && i % 2 == 0
      invariant PairUpTo(linkByIf, ifaces, i / 2) == Ok(links)
    {
      var link := LinkAt(linkByIf, ifaces[i]);
      assert PairUpTo(linkByIf, ifaces, i / 2 + 1) == if link.Ok? then Ok(links + [link.value]) else Err(link.error);
      if link.Err? {
        PairErrSticks(linkByIf, ifaces, i / 2 + 1);
        return Err(link.error);
      }
      links := links + [link.value];
      i := i + 2;
    }
    return Ok(links);
  }

  lemma {:induction false} PairErrSticks(linkByIf: map<Key, string>, ifaces: seq<Iface>, n: nat)
    requires 2 * n <= |ifaces| && PairUpTo(linkByIf, ifaces, n).Err?
    ensures PairUpTo(linkByIf, ifaces, |ifaces| / 2) == PairUpTo(linkByIf, ifaces, n)
    decreases |ifaces| - n
  {
    if n < |ifaces| / 2 { PairErrSticks(linkByIf, ifaces, n + 1); }
  }

  function NumAt(i: Iface): seq<int> {
    match AsNumOf(i.ia) case None => [] case Some(n) => [n]
  }

  /** The first interface's AS and the arrival ASes of the first `n` pairs, unreadable names skipped. */
  function HopsUpTo(ifaces: seq<Iface>, n: nat): seq<int>
    requires ifaces != [] && 2 * n <= |ifaces|
  {
    if n == 0 then NumAt(ifaces[0]) else HopsUpTo(ifaces, n - 1) + NumAt(ifaces[2 * n - 1])
  }

  method HopsOf(ifaces: seq<Iface>) returns (hops: seq<int>)
    ensures hops == if ifaces == [] then [] else HopsUpTo(ifaces, |ifaces| / 2)
  {
    hide AsNumOf, NumAt;
    if ifaces == [] {
      return [];
    }
    hops := NumAt(ifaces[0]);
    var i := 1;
    ghost var m: nat := 0;
    while i < |ifaces|
      invariant i == 2 * m + 1 && 2 * m <= |ifaces|
      invariant hops == HopsUpTo(ifaces, m)
    {
      hops := hops + NumAt(ifaces[i]);
      i, m := i + 2, m + 1;
    }
    assert m == |ifaces| / 2;
  }

  /** `p` travels over links of `g`. */
  ghost predicate Travels(g: Graph, p: Path) {
    forall k :: 0 <= k < |p| ==>
      exists i, s {:trigger Traversal(g.links[i], s)} :: 0 <= i < |g.links| && p[k] == Traversal(g.links[i], s)
  }

  function LinkIds(p: Path): seq<string> {
    seq(|p|, k requires 0 <= k < |p| => p[k].link.id)
  }

  /** The ASes of a path, source included. */
  function Route(src: int, p: Path): seq<int> {
    [src] + seq(|p|, k requires 0 <= k < |p| => p[k].to.asn)
  }

  ghost predicate Usable(g: Graph) {
    DistinctEndpoints(g.links) && EndpointsKnown(g) && WellNamed(g)
  }

  /** One departure interface finds its link again when its id survives the trip through a number. */
  lemma {:induction false} DepartureFound(g: Graph, e: Edge, i: nat, s: bool)
    requires Usable(g) && i < |g.links| && e == Traversal(g.links[i], s)
    requires Decimal.Canonical(e.from.ifid)
    ensures LinkAt(LinksByIf(g.links, |g.links|), Departure(IaByNum(g.ases, |g.ases|), e)) == Ok(e.link.id)
  {
    hide AsNumOf, IaToNum, Decimal.Canonical, Decimal.ParseUint, Decimal.FormatUint;
    assert HasAs(g, Near(g.links[i], s).asn);
    KnownNameResolves(g, e.from.asn);
    Decimal.IfidRoundTrip(e.from.ifid);
    BgpPath.IndexFinds(g.links, |g.links|, i, s);
    SameAsIndex(g.links, |g.links|, EndKey(g.links[i], s));
  }

  /** Flattening a path and pairing it up again returns its links in order. */
  lemma {:induction false} PairingUndoesFlattening(g: Graph, p: Path, n: nat)
    requires Usable(g) && Travels(g, p) && n <= |p|
    requires forall k :: 0 <= k < |p| ==> Decimal.Canonical(p[k].from.ifid)
    ensures PairUpTo(LinksByIf(g.links, |g.links|), Interfaces(IaByNum(g.ases, |g.ases|), p, |p|), n)
            == Ok(LinkIds(p)[..n])
  {
    hide AsNumOf, IaToNum, Decimal.Canonical, Decimal.ParseUint, Decimal.FormatUint, LinkAt, Departure, Usable,
         LinksByIf;
    if n > 0 {
      PairingUndoesFlattening(g, p, n - 1);
      InterfacesAt(IaByNum(g.ases, |g.ases|), p, |p|, n - 1);
      var i, s :| 0 <= i < |g.links| && p[n - 1] == Traversal(g.links[i], s);
      DepartureFound(g, p[n - 1], i, s);
      assert LinkIds(p)[..n] == LinkIds(p)[..n - 1] + [p[n - 1].link.id];
    }
  }

  /** The exact condition: with unique link ids and no link from an AS to itself, only canonical ids survive. */
  lemma {:induction false} DepartureFoundIffCanonical(g: Graph, i: nat, s: bool)
    requires Usable(g) && i < |g.links| && g.links[i].a.asn != g.links[i].b.asn
    requires forall j :: 0 <= j < |g.links| && g.links[j].id == g.links[i].id ==> j == i
    ensures var e := Traversal(g.links[i], s);
            LinkAt(LinksByIf(g.links, |g.links|), Departure(IaByNum(g.ases, |g.ases|), e)) == Ok(e.link.id)
            <==> Decimal.Canonical(e.from.ifid)
  {
    hide AsNumOf, IaToNum, Decimal.Canonical, Decimal.ParseUint, Decimal.FormatUint;
    var e := Traversal(g.links[i], s);
    var found := LinkAt(LinksByIf(g.links, |g.links|), Departure(IaByNum(g.ases, |g.ases|), e));
    assert HasAs(g, Near(g.links[i], s).asn);
    KnownNameResolves(g, e.from.asn);
    Decimal.IfidRoundTrip(e.from.ifid);
    if Decimal.Canonical(e.from.ifid) {
      DepartureFound(g, e, i, s);
    } else if found == Ok(e.link.id) {
      var k := Key(e.from.asn, Decimal.FormatUint(Decimal.ParseUint(e.from.ifid)));
      SameAsIndex(g.links, |g.links|, k);
      var j, t := BgpPath.IndexSound(g.links, |g.links|, k);
    }
  }

  /** Link ids are unique, as they are when no two links join the same two ASes, and no link joins an AS to itself. */
  ghost predicate PlainLinks(g: Graph) {
    forall i, j :: 0 <= i < |g.links| && 0 <= j < |g.links| ==>
      g.links[i].a.asn != g.links[i].b.asn && (g.links[j].id == g.links[i].id ==> j == i)
  }

  /** For a whole path: pairing it up again returns its links exactly if every departure id is canonical. */
  lemma {:induction false} PairingIffCanonical(g: Graph, p: Path, n: nat)
    requires Usable(g) && PlainLinks(g) && Travels(g, p) && n <= |p|
    ensures PairUpTo(LinksByIf(g.links, |g.links|), Interfaces(IaByNum(g.ases, |g.ases|), p, |p|), n)
            == Ok(LinkIds(p)[..n])
            <==> forall k :: 0 <= k < n ==> Decimal.Canonical(p[k].from.ifid)
  {
    hide AsNumOf, IaToNum, Decimal.Canonical, Decimal.ParseUint, Decimal.FormatUint, LinkAt, Departure, Usable,
         LinksByIf;
    hide Interfaces, LinkIds, Travels, PlainLinks, IaByNum;
    if n > 0 {
      PairingIffCanonical(g, p, n - 1);
      InterfacesAt(IaByNum(g.ases, |g.ases|), p, |p|, n - 1);
      EdgeFoundIffCanonical(g, p, n - 1);
      LinkIdsMore(p, n);
    }
  }

  lemma {:induction false} EdgeFoundIffCanonical(g: Graph, p: Path, k: nat)
    requires Usable(g) && PlainLinks(g) && Travels(g, p) && k < |p|
    ensures LinkAt(LinksByIf(g.links, |g.links|), Departure(IaByNum(g.ases, |g.ases|), p[k])) == Ok(p[k].link.id)
            <==> Decimal.Canonical(p[k].from.ifid)
  {
    hide AsNumOf, IaToNum, Decimal.Canonical, LinkAt, Departure, Usable, LinksByIf, IaByNum;
    assert Travels(g, p);
    var e := p[k];
    var i, s :| 0 <= i < |g.links| && e == Traversal(g.links[i], s);
    DepartureFoundIffCanonical(g, i, s);
  }

  /** The first `n` link ids are those before and one more. */
  lemma LinkIdsMore(p: Path, n: nat)
    requires 0 < n <= |p|
    ensures LinkIds(p)[..n] == LinkIds(p)[..n - 1] + [p[n - 1].link.id]
    ensures forall ids: seq<string>, id ::
              ids + [id] == LinkIds(p)[..n] ==> ids == LinkIds(p)[..n - 1] && id == p[n - 1].link.id
  {
    forall ids: seq<string>, id | ids + [id] == LinkIds(p)[..n]
      ensures ids == LinkIds(p)[..n - 1] && id == p[n - 1].link.id
    {
      assert (ids + [id])[n - 1] == id && (ids + [id])[..n - 1] == ids;
    }
  }

  lemma SmallNumbers()
    ensures Decimal.Itoa(1) == "1" && Decimal.Itoa(2) == "2"
  {
  }

  /** One link between two ASes, with an interface id that starts with a zero, is lost. */
  lemma {:induction false} LeadingZeroIsLost() returns (g: Graph, p: Path)
    ensures Usable(g) && PlainLinks(g) && Travels(g, p)
    ensures PairedLinks(LinksByIf(g.links, |g.links|), Interfaces(IaByNum(g.ases, |g.ases|), p, |p|)) != Ok(LinkIds(p))
  {
    SmallNumbers();
    hide IaToNum, AsNumOf, Decimal.ParseUint, Decimal.FormatUint;
    var l := Link("1-2", "core", "link 1", Endpoint("1-1", 1, "07", "", "core"), Endpoint("1-2", 2, "1", "", "core"));
    g := Graph([AS("1-1", 1, true, ""), AS("1-2", 2, true, "")], [l]);
    NameOfNumber("1", 1);
    NameOfNumber("1", 2);
    assert "1" + "-" + "1" == "1-1" && "1" + "-" + "2" == "1-2";
    assert g.ases[0].num == 1 && g.ases[1].num == 2;
    p := [Traversal(l, false)];
    assert p[0] == Traversal(g.links[0], false) && p[0].from.ifid == "07";
    PairingIffCanonical(g, p, 1);
    assert LinkIds(p)[..1] == LinkIds(p);
  }

  /** The names on both interfaces of an edge read back as its two ASes. */
  lemma {:induction false} EndsResolve(g: Graph, p: Path, k: nat)
    requires Usable(g) && Travels(g, p) && k < |p|
    ensures var ias := IaByNum(g.ases, |g.ases|);
            NumAt(Departure(ias, p[k])) == [p[k].from.asn] && NumAt(Arrival(ias, p[k])) == [p[k].to.asn]
  {
    hide AsNumOf, IaToNum, Decimal.ParseUint, IaByNum;
    assert Travels(g, p);
    var e := p[k];
    var i, s :| 0 <= i < |g.links| && e == Traversal(g.links[i], s);
    assert Near(g.links[i], !s) == Far(g.links[i], s);
    assert HasAs(g, Near(g.links[i], s).asn) && HasAs(g, Near(g.links[i], !s).asn);
    KnownNameResolves(g, p[k].from.asn);
    KnownNameResolves(g, p[k].to.asn);
  }

  /** The recovered hops are the ASes the path visits. */
  lemma {:induction false} HopsUndoFlattening(g: Graph, src: int, p: Path, n: nat)
    requires Usable(g) && Travels(g, p) && p != [] && p[0].from.asn == src && n <= |p|
    ensures HopsUpTo(Interfaces(IaByNum(g.ases, |g.ases|), p, |p|), n) == Route(src, p)[..n + 1]
  {
    hide NumAt, Departure, Arrival, Usable, IaByNum, Travels;
    var ias := IaByNum(g.ases, |g.ases|);
    if n == 0 {
      InterfacesAt(ias, p, |p|, 0);
      EndsResolve(g, p, 0);
    } else {
      InterfacesAt(ias, p, |p|, n - 1);
      EndsResolve(g, p, n - 1);
      HopsUndoFlattening(g, src, p, n - 1);
      assert Route(src, p)[..n + 1] == Route(src, p)[..n] + [p[n - 1].to.asn];
    }
  }

  // ---------------------------------------------------------------- the view model

  /** The egress records among the first `n`, in order. */
  function Egress(recs: seq<HopRecord>, n: nat): seq<HopRecord>
    requires n <= |recs|
  {
    if n == 0 then [] else Egress(recs, n - 1) + (if recs[n - 1].egress then [recs[n - 1]] else [])
  }

  method EgressRecords(recs: seq<HopRecord>) returns (out: seq<HopRecord>)
    ensures out == Egress(recs, |recs|)
  {
    out := [];
    for i := 0 to |recs|
      invariant out == Egress(recs, i)
    {
      if recs[i].egress {
        out := out + [recs[i]];
      }
    }
  }

  function Reversed<T>(s: seq<T>): (r: seq<T>)
    ensures |r| == |s|
  {
    seq(|s|, i requires 0 <= i < |s| => s[|s| - 1 - i])
  }

  function HopFor(rec: HopRecord, link: string): TraceHop {
    TraceHop(rec.ia, link, rec.rttNextBrUs, rec.egrLinkTxPct, rec.queueLen, rec.nodeId, rec.verified)
  }

  function HopsFor(egress: seq<HopRecord>, links: seq<string>): seq<TraceHop>
    requires |egress| == |links|
  {
    seq(|egress|, i requires 0 <= i < |egress| => HopFor(egress[i], links[i]))
  }

  function VmFor(ias: map<int, string>, sess: Session, res: ProbeResult, links: seq<string>, egress: seq<HopRecord>,
                 now: int): TraceVm
    requires |egress| == |links|
  {
    TraceVm(Name(ias, sess.src), Name(ias, sess.dst), res.path.fingerprint, sess.fingerprint == "", links, true, "",
            now, res.probeRttMs, HopsFor(egress, links))
  }

  /** The view model of a probe: forward egress records if there is one per link, else the reverse ones turned round. */
  function VmOf(ias: map<int, string>, linkByIf: map<Key, string>, sess: Session, res: ProbeResult,
                now: int): Result<TraceVm>
  {
    match PairedLinks(linkByIf, res.path.interfaces)
    case Err(e) => Err(e)
    case Ok(links) =>
      var fwd, rev := Egress(res.fwd, |res.fwd|), Egress(res.rev, |res.rev|);
      if |fwd| == |links| then Ok(VmFor(ias, sess, res, links, fwd, now))
      else if |rev| == |links| then Ok(VmFor(ias, sess, res, links, Reversed(rev), now))
      else Err("fwd/rev egress records != path links")
  }

  method BuildVm(ias: map<int, string>, linkByIf: map<Key, string>, sess: Session, res: ProbeResult, now: int)
    returns (r: Result<TraceVm>)
    ensures r == VmOf(ias, linkByIf, sess, res, now)
  {
    hide Name, LinkAt, PairUpTo, Egress;
    var paired := PairLinks(linkByIf, res.path.interfaces);
    if paired.Err? {
      return Err(paired.error);
    }
    var pathLinks := paired.value;
    var egress := EgressRecords(res.fwd);
    if |egress| != |pathLinks| {
      var revEgress := EgressRecords(res.rev);
      if |revEgress| != |pathLinks| {
        return Err("fwd/rev egress records != path links");
      }
      egress := [];
      for k := 0 to |revEgress|
        invariant egress == Reversed(revEgress)[..k]
      {
        egress := egress + [revEgress[|revEgress| - 1 - k]];
      }
      assert egress == Reversed(revEgress);
    }
    var hops: seq<TraceHop> := [];
    for i := 0 to |egress|
      invariant hops == HopsFor(egress, pathLinks)[..i]
    {
      var rec := egress[i];
      hops := hops + [TraceHop(rec.ia, pathLinks[i], rec.rttNextBrUs, rec.egrLinkTxPct, rec.queueLen, rec.nodeId,
        rec.verified)];
    }
    assert hops == HopsFor(egress, pathLinks);
    return Ok(TraceVm(Name(ias, sess.src), Name(ias, sess.dst), res.path.fingerprint, sess.fingerprint == "", pathLinks,
                      true, "", now, res.probeRttMs, hops));
  }

  lemma {:induction false} EgressPrefix(a: seq<HopRecord>, b: seq<HopRecord>, n: nat)
    requires n <= |a| && n <= |b| && forall k :: 0 <= k < n ==> a[k] == b[k]
    ensures Egress(a, n) == Egress(b, n)
  {
    if n > 0 { EgressPrefix(a, b, n - 1); }
  }

  lemma {:induction false} EgressCons(r: HopRecord, s: seq<HopRecord>, n: nat)
    requires n <= |s|
    ensures Egress([r] + s, n + 1) == (if r.egress then [r] else []) + Egress(s, n)
  {
    if n > 0 { EgressCons(r, s, n - 1); }
  }

  /** Filtering and turning round commute. */
  lemma {:induction false} EgressReversed(s: seq<HopRecord>)
    ensures Egress(Reversed(s), |s|) == Reversed(Egress(s, |s|))
  {
    if s != [] {
      var init, r := s[..|s| - 1], s[|s| - 1];
      EgressReversed(init);
      assert Reversed(s) == [r] + Reversed(init);
      EgressCons(r, Reversed(init), |init|);
      EgressPrefix(s, init, |init|);
    }
  }

  /** `r` is the egress records of `recs`, in order: record `k` of it stands at `at[k]`. */
  ghost predicate Picks(recs: seq<HopRecord>, r: seq<HopRecord>, at: seq<nat>) {
    |at| == |r|
    && (forall k, l :: 0 <= k < l < |at| ==> at[k] < at[l])
    && (forall k :: 0 <= k < |at| ==> at[k] < |recs| && r[k] == recs[at[k]] && r[k].egress)
    && forall i :: 0 <= i < |recs| && recs[i].egress ==> i in at
  }

  lemma {:induction false} PicksMore(recs: seq<HopRecord>, r: seq<HopRecord>, at: seq<nat>, x: HopRecord)
    requires Picks(recs, r, at)
    ensures x.egress ==> Picks(recs + [x], r + [x], at + [|recs|])
    ensures !x.egress ==> Picks(recs + [x], r, at)
  {
    var more := at + [|recs|];
    assert more[|at|] == |recs|;
    assert forall i :: i in at ==> i in more;
  }

  lemma {:induction false} EgressPicks(recs: seq<HopRecord>, n: nat) returns (at: seq<nat>)
    requires n <= |recs|
    ensures Picks(recs[..n], Egress(recs, n), at)
  {
    if n == 0 {
      at := [];
    } else {
      hide Picks;
      at := EgressPicks(recs, n - 1);
      PicksMore(recs[..n - 1], Egress(recs, n - 1), at, recs[n - 1]);
      assert recs[..n] == recs[..n - 1] + [recs[n - 1]];
      if recs[n - 1].egress { at := at + [n - 1]; }
    }
  }

  /** Hop `h` shows record `rec` on link `link`, field by field. */
  ghost predicate Shows(h: TraceHop, rec: HopRecord, link: string) {
    h.link == link && h.ia == rec.ia && h.rttNextBrUs == rec.rttNextBrUs && h.egrTxPct == rec.egrLinkTxPct
    && h.queueLen == rec.queueLen && h.nodeId == rec.nodeId && h.verified == rec.verified
  }

  /**
   * What a view model shows of a probe: hop `k` is the k-th forward egress record on link `k` if there is one for
   * each link, even if the reverse stack would fit too; else the k-th reverse egress record from the end.
   */
  ghost predicate ShowsProbe(v: TraceVm, links: seq<string>, res: ProbeResult) {
    var fwd, rev := Egress(res.fwd, |res.fwd|), Egress(res.rev, |res.rev|);
    v.pathLinks == links && |v.hops| == |links| && v.fingerprint == res.path.fingerprint
    && v.probeRttMs == res.probeRttMs
    && if |fwd| == |links| then forall k :: 0 <= k < |links| ==> Shows(v.hops[k], fwd[k], links[k])
       else |rev| == |links| && forall k :: 0 <= k < |links| ==> Shows(v.hops[k], rev[|rev| - 1 - k], links[k])
  }

  /** For any probe result, whatever its records: when there is a view model, and what every field of it is. */
  lemma {:induction false} VmShows(ias: map<int, string>, linkByIf: map<Key, string>, sess: Session, res: ProbeResult,
                                   now: int)
    ensures var paired, r := PairedLinks(linkByIf, res.path.interfaces), VmOf(ias, linkByIf, sess, res, now);
            && (r.Ok? <==> paired.Ok? && (|Egress(res.fwd, |res.fwd|)| == |paired.value|
                                          || |Egress(res.rev, |res.rev|)| == |paired.value|))
            && (paired.Err? ==> r == Err(paired.error))
            && (r.Ok? ==>
                  var v := r.value;
                  && ShowsProbe(v, paired.value, res) && v.ok && v.error == "" && v.updatedAt == now
                  && v.src == Name(ias, sess.src) && v.dst == Name(ias, sess.dst)
                  && v.auto == (sess.fingerprint == ""))
  {
    hide PairedLinks, Egress, Name;
  }

  /** A probe whose reverse stack mirrors the forward one shows the same hops when the forward stack is lost. */
  lemma {:induction false} ReverseStackSuffices(ias: map<int, string>, linkByIf: map<Key, string>, sess: Session,
                                                res: ProbeResult, lost: seq<HopRecord>, now: int)
    requires res.rev == Reversed(res.fwd)
    requires PairedLinks(linkByIf, res.path.interfaces).Ok?
    requires |Egress(res.fwd, |res.fwd|)| == |PairedLinks(linkByIf, res.path.interfaces).value|
    ensures VmOf(ias, linkByIf, sess, res.(fwd := lost), now).Ok?
    ensures |Egress(lost, |lost|)| != |Egress(res.fwd, |res.fwd|)| ==>
              VmOf(ias, linkByIf, sess, res.(fwd := lost), now) == VmOf(ias, linkByIf, sess, res, now)
  {
    hide PairedLinks, Name;
    EgressReversed(res.fwd);
    var e := Egress(res.fwd, |res.fwd|);
    assert Reversed(Reversed(e)) == e;
  }

  // ---------------------------------------------------------------- the mock probe

  /** Go's conversion of a float to an integer. */
  function Truncate(r: real): int {
    if r >= 0.0 then r.Floor else -((-r).Floor)
  }

  /** Round trip over one link: its base latency plus the delay shaped on it. */
  function LinkRtt(base: string -> int, shaping: map<string, Shaping>, id: string): int {
    base(id) + (if id in shaping && shaping[id].delayMs.Some? then Truncate(shaping[id].delayMs.value * 1000.0) else 0)
  }

  function Record(ias: map<int, string>, base: string -> int, shaping: map<string, Shaping>, p: Path, i: nat): HopRecord
    requires i < |p|
  {
    HopRecord(i + 1, Name(ias, p[i].to.asn), false, false, true, true,
              Some(1), Some(LinkRtt(base, shaping, p[i].link.id)), Some(TRACE_EGR_LINK_TX_PCT), Some(0))
  }

  function SourceRecord(ia: string): HopRecord {
    HopRecord(0, ia, true, false, false, true, None, None, None, None)
  }

  function SinkRecord(hop: int, ia: string): HopRecord {
    HopRecord(hop, ia, false, true, false, true, None, None, None, None)
  }

  function Records(ias: map<int, string>, base: string -> int, shaping: map<string, Shaping>, p: Path,
                   n: nat): (r: seq<HopRecord>)
    requires n <= |p|
    ensures |r| == n
  {
    if n == 0 then [] else Records(ias, base, shaping, p, n - 1) + [Record(ias, base, shaping, p, n - 1)]
  }

  function RttSum(base: string -> int, shaping: map<string, Shaping>, p: Path, n: nat): int
    requires n <= |p|
  {
    if n == 0 then 0 else RttSum(base, shaping, p, n - 1) + LinkRtt(base, shaping, p[n - 1].link.id)
  }

  /** The result of probing candidate `i`, path `p`. */
  function ProbeOf(ias: map<int, string>, base: string -> int, shaping: map<string, Shaping>, expiry: string,
                   src: int, dst: int, i: nat, p: Path): ProbeResult {
    var fwd := [SourceRecord(Name(ias, src))] + Records(ias, base, shaping, p, |p|)
      + [SinkRecord(|p| + 1, Name(ias, dst))];
    ProbeResult(PathOf(ias, base, expiry, i, p), RttSum(base, shaping, p, |p|) as real / 1000.0 + TRACE_RTT_FIXED_MS,
      fwd, Reversed(fwd))
  }

  /** The candidate a fingerprint selects: the first one if it is empty, else the first of that name. */
  ghost predicate Selects(fingerprint: string, cands: seq<Path>, i: nat)
    ensures Selects(fingerprint, cands, i) ==> i < |cands|
  {
    i < |cands| && (fingerprint == "" ==> i == 0)
    && (fingerprint != "" ==> fingerprint == MockName(i) && forall j :: 0 <= j < i ==> fingerprint != MockName(j))
  }

  method Select(cands: seq<Path>, fingerprint: string) returns (c: Option<nat>)
    ensures c.Some? ==> Selects(fingerprint, cands, c.value)
    ensures forall i: nat :: Selects(fingerprint, cands, i) ==> c == Some(i)
  {
    hide MockName;
    if cands == [] {
      return None;
    }
    if fingerprint == "" {
      return Some(0);
    }
    for i := 0 to |cands|
      invariant forall j :: 0 <= j < i ==> fingerprint != MockName(j)
    {
      if MockName(i) == fingerprint {
        assert forall j: nat :: Selects(fingerprint, cands, j) ==> j == i;
        return Some(i);
      }
    }
    return None;
  }

  /** The forward records of a path and the sum of its link round trips. */
  method ForwardRecords(ias: map<int, string>, base: string -> int, shaping: map<string, Shaping>, src: int, dst: int,
                        p: Path)
    returns (fwd: seq<HopRecord>, sum: int)
    ensures fwd == [SourceRecord(Name(ias, src))] + Records(ias, base, shaping, p, |p|)
            + [SinkRecord(|p| + 1, Name(ias, dst))]
    ensures sum == RttSum(base, shaping, p, |p|)
  {
    hide Truncate;
    fwd := [SourceRecord(Name(ias, src))];
    sum := 0;
    for i := 0 to |p|
      invariant fwd == [SourceRecord(Name(ias, src))] + Records(ias, base, shaping, p, i)
      invariant sum == RttSum(base, shaping, p, i)
    {
      var id := p[i].link.id;
      var rtt := base(id);
      if id in shaping && shaping[id].delayMs.Some? {
        rtt := rtt + Truncate(shaping[id].delayMs.value * 1000.0);
      }
      sum := sum + rtt;
      fwd := fwd + [HopRecord(i + 1, Name(ias, p[i].to.asn), false, false, true, true, Some(1), Some(rtt),
        Some(TRACE_EGR_LINK_TX_PCT), Some(0))];
    }
    fwd := fwd + [SinkRecord(|p| + 1, Name(ias, dst))];
  }

  lemma EnumeratedNonEmpty(adj: Adjacency, src: int, dst: int, found: seq<Path>, i: nat)
    requires Enumerated(adj, src, dst, found) && i < |found|
    ensures found[i] != []
  {
    assert IsCandidate(adj, src, dst, found[i]);
  }

  /** The answer to a probe among candidates: the one the fingerprint selects, or an error if it selects none. */
  ghost predicate Answers(ias: map<int, string>, base: string -> int, shaping: map<string, Shaping>, expiry: string,
                          src: int, dst: int, fingerprint: string, cands: seq<Path>, r: Result<ProbeResult>) {
    match r
    case Ok(res) =>
      exists i: nat ::
        Selects(fingerprint, cands, i) && res == ProbeOf(ias, base, shaping, expiry, src, dst, i, cands[i])
    case Err(_) => forall i: nat :: !Selects(fingerprint, cands, i)
  }

  /** The result for one candidate. */
  method ProbeAlong(ias: map<int, string>, base: string -> int, shaping: map<string, Shaping>, expiry: string,
                    src: int, dst: int, i: nat, p: Path) returns (res: ProbeResult)
    requires p != []
    ensures res == ProbeOf(ias, base, shaping, expiry, src, dst, i, p)
  {
    hide MockName, PathOf, Records, RttSum;
    var fwd, sum := ForwardRecords(ias, base, shaping, src, dst, p);
    var rev := Mirror(fwd);
    var json := BuildPath(ias, base, expiry, i, p);
    res := ProbeResult(json, sum as real / 1000.0 + TRACE_RTT_FIXED_MS, fwd, rev);
  }

  method Probe(ias: map<int, string>, adj: Adjacency, base: string -> int, shaping: map<string, Shaping>,
               expiry: string,
               src: int, dst: int, fingerprint: string) returns (r: Result<ProbeResult>)
    requires forall x :: Distinct(EdgesAt(adj, x))
    ensures exists cands :: Enumerated(adj, src, dst, cands)
                         && Answers(ias, base, shaping, expiry, src, dst, fingerprint, cands, r)
  {
    hide ProbeOf, Selects, Enumerated;
    var paths := Candidates(adj, src, dst);
    var c := Select(paths, fingerprint);
    if c.None? {
      return Err("no such path");
    }
    EnumeratedNonEmpty(adj, src, dst, paths, c.value);
    var res := ProbeAlong(ias, base, shaping, expiry, src, dst, c.value, paths[c.value]);
    r := Ok(res);
  }

  /** The same request is answered over the same path every time, whatever is shaped in between. */
  lemma {:induction false} ProbesAgree(ias: map<int, string>, adj: Adjacency, base: string -> int, expiry: string,
                                       src: int, dst: int, fingerprint: string,
                                       shaping: map<string, Shaping>, c: seq<Path>, r: Result<ProbeResult>,
                                       shaping': map<string, Shaping>, c': seq<Path>, r': Result<ProbeResult>)
    requires Enumerated(adj, src, dst, c) && Answers(ias, base, shaping, expiry, src, dst, fingerprint, c, r)
    requires Enumerated(adj, src, dst, c') && Answers(ias, base, shaping', expiry, src, dst, fingerprint, c', r')
    ensures r.Ok? <==> r'.Ok?
    ensures r.Ok? ==> r.value.path == r'.value.path
  {
    hide Enumerated, PathOf, Records, RttSum, MockName;
    EnumerationUnique(adj, src, dst, c, c');
    if r.Ok? && r'.Ok? {
      var i: nat :| Selects(fingerprint, c, i) && r.value == ProbeOf(ias, base, shaping, expiry, src, dst, i, c[i]);
      var j: nat :| Selects(fingerprint, c, j) && r'.value == ProbeOf(ias, base, shaping', expiry, src, dst, j, c[j]);
      assert i == j;
    }
  }

  method Mirror(fwd: seq<HopRecord>) returns (rev: seq<HopRecord>)
    ensures rev == Reversed(fwd)
  {
    if fwd == [] {
      return [];
    }
    var out := new HopRecord[|fwd|](i => fwd[0]);
    for i := 0 to |fwd|
      invariant forall k :: 0 <= k < i ==> out[|fwd| - 1 - k] == fwd[k]
    {
      out[|fwd| - 1 - i] := fwd[i];
    }
    assert forall j :: 0 <= j < |fwd| ==> out[j] == fwd[|fwd| - 1 - j] by {
      forall j | 0 <= j < |fwd| ensures out[j] == fwd[|fwd| - 1 - j] {
        var k := |fwd| - 1 - j;
        assert out[|fwd| - 1 - k] == fwd[k];
      }
    }
    rev := out[..];
    assert rev == Reversed(fwd);
  }

  lemma {:induction false} RecordsAt(ias: map<int, string>, base: string -> int, shaping: map<string, Shaping>,
                                     p: Path, n: nat, k: nat)
    requires k < n <= |p|
    ensures Records(ias, base, shaping, p, n)[k] == Record(ias, base, shaping, p, k)
  {
    hide Record;
    if k < n - 1 { RecordsAt(ias, base, shaping, p, n - 1, k); }
  }

  lemma {:induction false} AllEgress(s: seq<HopRecord>, n: nat)
    requires n <= |s| && forall k :: 0 <= k < n ==> s[k].egress
    ensures Egress(s, n) == s[..n]
  {
    if n > 0 { AllEgress(s, n - 1); }
  }

  /** Only the records between the first and the last one are egress records, and they all are. */
  lemma {:induction false} EgressOfMiddle(first: HopRecord, recs: seq<HopRecord>, last: HopRecord)
    requires !first.egress && !last.egress && forall k :: 0 <= k < |recs| ==> recs[k].egress
    ensures Egress([first] + recs + [last], |recs| + 2) == recs
  {
    var front := [first] + recs;
    var n := |front|;
    AllEgress(recs, |recs|);
    EgressCons(first, recs, |recs|);
    EgressPrefix(front + [last], front, n);
    assert (front + [last])[n] == last;
    assert Egress(front, n) == recs[..|recs|] == recs;
  }

  lemma {:induction false} ProbeEgress(ias: map<int, string>, base: string -> int, shaping: map<string, Shaping>,
                                       expiry: string, src: int, dst: int, i: nat, p: Path)
    ensures var fwd := ProbeOf(ias, base, shaping, expiry, src, dst, i, p).fwd;
            Egress(fwd, |fwd|) == Records(ias, base, shaping, p, |p|)
  {
    hide Name, PathOf, RttSum, LinkRtt, Egress;
    var recs := Records(ias, base, shaping, p, |p|);
    forall k | 0 <= k < |p| ensures recs[k].egress {
      RecordsAt(ias, base, shaping, p, |p|, k);
    }
    EgressOfMiddle(SourceRecord(Name(ias, src)), recs, SinkRecord(|p| + 1, Name(ias, dst)));
  }

  /** Candidates travel over links of the graph, starting at the source. */
  lemma {:induction false} CandidateTravels(g: Graph, adj: Adjacency, src: int, p: Path)
    requires IsAdjacency(adj, g.links, |g.links|) && IsSimple(adj, src, p)
    ensures Travels(g, p) && (p != [] ==> p[0].from.asn == src)
  {
    if p != [] {
      CandidateTravels(g, adj, src, Init(p));
      assert Last(p) in EdgesAt(adj, Tip(src, Init(p)));
      assert LeavesOver(g.links, |g.links|, Tip(src, Init(p)), Last(p));
      forall k | 0 <= k < |p|
        ensures exists i, s {:trigger Traversal(g.links[i], s)} ::
                  0 <= i < |g.links| && p[k] == Traversal(g.links[i], s)
      {
        if k < |p| - 1 { assert Init(p)[k] == p[k]; }
      }
      assert |p| > 1 ==> Init(p)[0] == p[0];
    }
  }

  /** Different candidates have different names. */
  lemma MockNamesDiffer(i: nat, j: nat)
    requires MockName(i) == MockName(j)
    ensures i == j
  {
    var m, n := Decimal.FormatUint(i), Decimal.FormatUint(j);
    assert ("mock-" + m)[5..] == m && ("mock-" + n)[5..] == n;
    Decimal.FormatShape(i);
    Decimal.FormatShape(j);
  }

  /** Shaping a link to a delay of `ms` adds that to its base latency, in whole microseconds, rounded towards zero. */
  lemma AddedDelay(base: string -> int, shaping: map<string, Shaping>, id: string) returns (us: int)
    ensures LinkRtt(base, shaping, id) == base(id) + us
    ensures id !in shaping || shaping[id].delayMs.None? ==> us == 0
    ensures id in shaping && shaping[id].delayMs.Some? ==>
              var x := shaping[id].delayMs.value * 1000.0;
              if x >= 0.0 then us as real <= x < us as real + 1.0 else us as real - 1.0 < x <= us as real
  {
    us := LinkRtt(base, shaping, id) - base(id);
  }

  /** Record `k` of a mock probe over `p`: the source, the far router of edge `k - 1`, or the sink. */
  ghost predicate IsRecord(ias: map<int, string>, base: string -> int, shaping: map<string, Shaping>, src: int,
                           dst: int, p: Path, k: nat, r: HopRecord)
    requires k <= |p| + 1
  {
    r.hop == k && r.verified && (r.source <==> k == 0) && (r.ingress <==> k == |p| + 1) && (r.egress <==> 1 <= k <= |p|)
    && r.ia == Name(ias, if k == 0 then src else if k <= |p| then p[k - 1].to.asn else dst)
    && (if 1 <= k <= |p|
        then r.rttNextBrUs == Some(LinkRtt(base, shaping, p[k - 1].link.id)) && r.egrLinkTxPct == Some(0.4)
             && r.nodeId == Some(1) && r.queueLen == Some(0)
        else r.rttNextBrUs.None? && r.egrLinkTxPct.None? && r.nodeId.None? && r.queueLen.None?)
  }

  /** What a mock probe reports: its path's name, one record per router forward, and the same ones back. */
  lemma {:induction false} ProbeShows(ias: map<int, string>, base: string -> int, shaping: map<string, Shaping>,
                                      expiry: string, src: int, dst: int, i: nat, p: Path, k: nat)
    requires k <= |p| + 1
    ensures var res := ProbeOf(ias, base, shaping, expiry, src, dst, i, p);
            && res.path.fingerprint == "mock-" + Decimal.FormatUint(i)
            && res.path.expiry == expiry && res.path.mtu == 1472
            && |res.fwd| == |res.rev| == |p| + 2 && res.rev[|p| + 1 - k] == res.fwd[k]
            && IsRecord(ias, base, shaping, src, dst, p, k, res.fwd[k])
  {
    hide Name, LinkRtt, RttSum, Interfaces, Latencies, Records;
    if 1 <= k <= |p| { RecordsAt(ias, base, shaping, p, |p|, k - 1); }
  }

  /** One link more adds its round trip to that of the probe; no link at all takes one millisecond. */
  lemma {:induction false} ProbeRttAdds(ias: map<int, string>, base: string -> int, shaping: map<string, Shaping>,
                                        expiry: string, src: int, dst: int, i: nat, p: Path, e: Edge)
    ensures ProbeOf(ias, base, shaping, expiry, src, dst, i, []).probeRttMs == 1.0
    ensures ProbeOf(ias, base, shaping, expiry, src, dst, i, p + [e]).probeRttMs
            == ProbeOf(ias, base, shaping, expiry, src, dst, i, p).probeRttMs
               + LinkRtt(base, shaping, e.link.id) as real / 1000.0
  {
    hide Name, LinkRtt, PathOf, Records;
    RttSumPrefix(base, shaping, p, [e], |p|);
  }

  lemma {:induction false} RttSumPrefix(base: string -> int, shaping: map<string, Shaping>, p: Path, q: Path, n: nat)
    requires n <= |p|
    ensures RttSum(base, shaping, p + q, n) == RttSum(base, shaping, p, n)
  {
    hide LinkRtt;
    if n > 0 { RttSumPrefix(base, shaping, p, q, n - 1); }
  }

  lemma {:induction false} MockHops(ias: map<int, string>, base: string -> int, shaping: map<string, Shaping>, p: Path)
    ensures forall k :: 0 <= k < |p| ==>
      HopsFor(Records(ias, base, shaping, p, |p|), LinkIds(p))[k]
      == TraceHop(Name(ias, p[k].to.asn), p[k].link.id, Some(LinkRtt(base, shaping, p[k].link.id)),
                  Some(TRACE_EGR_LINK_TX_PCT), Some(0), Some(1), true)
  {
    forall k | 0 <= k < |p|
      ensures HopsFor(Records(ias, base, shaping, p, |p|), LinkIds(p))[k]
        == TraceHop(Name(ias, p[k].to.asn), p[k].link.id, Some(LinkRtt(base, shaping, p[k].link.id)),
                    Some(TRACE_EGR_LINK_TX_PCT), Some(0), Some(1), true)
    {
      RecordsAt(ias, base, shaping, p, |p|, k);
    }
  }

  /** The interfaces of a candidate read back as its links and the ASes it visits. */
  lemma {:induction false} CandidateReadsBack(g: Graph, adj: Adjacency, src: int, dst: int, p: Path)
    requires Usable(g) && IsAdjacency(adj, g.links, |g.links|) && IsCandidate(adj, src, dst, p)
    requires forall k :: 0 <= k < |p| ==> Decimal.Canonical(p[k].from.ifid)
    ensures var ifaces := Interfaces(IaByNum(g.ases, |g.ases|), p, |p|);
            PairedLinks(LinksByIf(g.links, |g.links|), ifaces) == Ok(LinkIds(p))
            && HopsUpTo(ifaces, |p|) == Route(src, p)
  {
    hide AsNumOf, IsSimple, Usable, IaByNum, LinksByIf, Decimal.Canonical, LinkAt, NumAt;
    CandidateTravels(g, adj, src, p);
    PairingUndoesFlattening(g, p, |p|);
    assert LinkIds(p)[..|p|] == LinkIds(p);
    HopsUndoFlattening(g, src, p, |p|);
    assert Route(src, p)[..|p| + 1] == Route(src, p);
  }

  /**
   * A mock probe always yields a view model: its links are the path's, in order, and hop k is the far AS of
   * edge k with that link's base plus shaped delay (MockHops); the reverse stack alone would have given the same.
   */
  lemma {:induction false} MockTraceReadsBack(g: Graph, adj: Adjacency, base: string -> int,
                                              shaping: map<string, Shaping>, expiry: string,
                                              sess: Session, i: nat, p: Path, now: int, lost: seq<HopRecord>)
    requires Usable(g) && IsAdjacency(adj, g.links, |g.links|) && IsCandidate(adj, sess.src, sess.dst, p)
    requires forall k :: 0 <= k < |p| ==> Decimal.Canonical(p[k].from.ifid)
    ensures var ias, linkByIf := IaByNum(g.ases, |g.ases|), LinksByIf(g.links, |g.links|);
            var res := ProbeOf(ias, base, shaping, expiry, sess.src, sess.dst, i, p);
            var r := VmOf(ias, linkByIf, sess, res, now);
            r.Ok? && r.value.pathLinks == LinkIds(p) && |r.value.hops| == |p|
            && (forall k :: 0 <= k < |p| ==>
                  r.value.hops[k] == TraceHop(Name(ias, p[k].to.asn), p[k].link.id,
                    Some(LinkRtt(base, shaping, p[k].link.id)),
                                              Some(TRACE_EGR_LINK_TX_PCT), Some(0), Some(1), true))
            && (|Egress(lost, |lost|)| != |p| ==> VmOf(ias, linkByIf, sess, res.(fwd := lost), now) == r)
  {
    hide Name, LinkRtt, RttSum, Latencies, IsSimple, IsCandidate, Usable, IaByNum, LinksByIf, IsAdjacency, PairedLinks,
         Egress, Records, Record;
    var ias, linkByIf := IaByNum(g.ases, |g.ases|), LinksByIf(g.links, |g.links|);
    var res := ProbeOf(ias, base, shaping, expiry, sess.src, sess.dst, i, p);
    CandidateReadsBack(g, adj, sess.src, sess.dst, p);
    ProbeEgress(ias, base, shaping, expiry, sess.src, sess.dst, i, p);
    MockHops(ias, base, shaping, p);
    ReverseStackSuffices(ias, linkByIf, sess, res, lost, now);
  }
}
