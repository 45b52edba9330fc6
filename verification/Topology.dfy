/** The topology graph: ASes, inter-AS links, and the shaping applied to links. */
module Topology {
  import opened Prelude
  import Decimal

  datatype Endpoint = Endpoint(ia: string, asn: int, ifid: string, ip: string, linkTo: string)

  datatype Link = Link(id: string, kind: string, subnet: string, a: Endpoint, b: Endpoint)

  datatype AS = AS(ia: string, num: int, core: bool, mgmtIp: string)

  datatype Graph = Graph(ases: seq<AS>, links: seq<Link>)

  /** Netem parameters of a link; an unset parameter is absent. */
  datatype Shaping = Shaping(delayMs: Option<real>, jitterMs: Option<real>, lossPct: Option<real>,
                             rateMbit: Option<real>)

  /** The two ways of looking along a link: from A to B, or (`back`) from B to A. */
  function Near(l: Link, back: bool): Endpoint {
    if back then l.b else l.a
  }

  function Far(l: Link, back: bool): Endpoint {
    if back then l.a else l.b
  }

  /**
   * A map key naming one interface. Go writes it as text, "as/ifid" or "as:ifid"; the text
   * determines the pair (KeyTextInjective), so maps here are keyed by the pair itself.
   */
  datatype Key = Key(asn: int, ifid: string)

  function KeyText(k: Key, sep: char): string {
    Decimal.Itoa(k.asn) + [sep] + k.ifid
  }

  lemma {:induction false} KeyTextInjective(k: Key, m: Key, sep: char)
    requires sep == '/' || sep == ':'
    requires KeyText(k, sep) == KeyText(m, sep)
    ensures k == m
  {
    Decimal.KeyInjective(k.asn, k.ifid, m.asn, m.ifid, sep);
  }

  /** The key of one end of a link. */
  function EndKey(l: Link, back: bool): Key {
    Key(Near(l, back).asn, Near(l, back).ifid)
  }

  /** No (AS, interface id) pair is used by two link ends. */
  ghost predicate DistinctEndpoints(links: seq<Link>) {
    forall i, j, s, t {:trigger Near(links[i], s), Near(links[j], t)} ::
      0 <= i < |links| && 0 <= j < |links|
      && Near(links[i], s).asn == Near(links[j], t).asn && Near(links[i], s).ifid == Near(links[j], t).ifid
      ==> i == j && s == t
  }

  ghost predicate HasAs(g: Graph, num: int) {
    exists k :: 0 <= k < |g.ases| && g.ases[k].num == num
  }

  /** Every link end belongs to an AS of the graph. */
  ghost predicate EndpointsKnown(g: Graph) {
    forall i, s {:trigger Near(g.links[i], s)} :: 0 <= i < |g.links| ==> HasAs(g, Near(g.links[i], s).asn)
  }
}
