/**
 * End-to-end loss recovery: a mock link credits its sender in full and its receiver
 * with what the shaped loss lets through; the deriver reads both counters back as
 * rates and estimates the loss from them.
 */
module MockLoss {
  import opened Prelude
  import opened Topology
  import opened Store
  import Routing

  const RATE_WINDOW: nat := 5
  const LOSS_MIN_MBIT := 0.1

  // ---------------------------------------------------------------- the mock link

  /** The share of the traffic that arrives. */
  function LossFactor(p: Option<Shaping>): (f: real)
    ensures f >= 0.0
  {
    if p.Some? && p.value.lossPct.Some? then
      var f := 1.0 - p.value.lossPct.value / 100.0;
      if f < 0.0 then 0.0 else f
    else 1.0
  }

  function Capped(mbit: real, p: Option<Shaping>): real {
    if p.Some? && p.value.rateMbit.Some? && mbit > p.value.rateMbit.value then p.value.rateMbit.value else mbit
  }

  /** Bytes of one second at a rate in Mbit/s. */
  function MbitToBytes(mbit: real): real {
    mbit * 1000000.0 / 8.0
  }

  /** Products of a share and an amount, kept apart from linear arithmetic by hiding this definition. */
  function Times(f: real, x: real): real {
    f * x
  }

  lemma TimesAdds(f: real, x: real, y: real)
    ensures Times(f, x + y) == Times(f, x) + Times(f, y)
  {
  }

  lemma TimesZero(f: real, x: real)
    ensures Times(f, 0.0) == 0.0 && Times(0.0, x) == 0.0
  {
  }

  lemma TimesPositive(f: real, x: real)
    requires f > 0.0
    ensures Times(f, x) > 0.0 <==> x > 0.0
  {
    if x <= 0.0 {
      assert f * (0.0 - x) >= 0.0;
      assert f * (0.0 - x) == 0.0 - f * x;
    }
  }

  lemma TimesOver(f: real, r: real, e: real)
    requires e > 0.0
    ensures Times(f, r) / e == Times(f, r / e)
  {
  }

  lemma TimesScales(f: real, x: real)
    ensures MbitToBytes(Times(f, x)) == Times(f, MbitToBytes(x)) && Mbit(Times(f, x)) == Times(f, Mbit(x))
  {
  }

  /** What one step sent each way, in Mbit/s, and the share of it that arrived. */
  datatype Tick = Tick(now: Int64, ab: real, ba: real, factor: real)

  function Sent(t: Tick, ab: bool): real {
    if ab then t.ab else t.ba
  }

  /** The sender's and the receiver's cumulative byte counters after the first `n` steps. */
  function CumOut(ticks: seq<Tick>, ab: bool, n: nat): real
    requires n <= |ticks|
  {
    if n == 0 then 0.0 else CumOut(ticks, ab, n - 1) + MbitToBytes(Sent(ticks[n - 1], ab))
  }

  function CumIn(ticks: seq<Tick>, ab: bool, n: nat): real
    requires n <= |ticks|
  {
    if n == 0 then 0.0 else CumIn(ticks, ab, n - 1) + MbitToBytes(Times(ticks[n - 1].factor, Sent(ticks[n - 1], ab)))
  }

  function OutLog(ticks: seq<Tick>, ab: bool, n: nat): (r: seq<Sample>)
    requires n <= |ticks|
    ensures |r| == n
  {
    if n == 0 then [] else OutLog(ticks, ab, n - 1) + [Sample(ticks[n - 1].now, CumOut(ticks, ab, n))]
  }

  function InLog(ticks: seq<Tick>, ab: bool, n: nat): (r: seq<Sample>)
    requires n <= |ticks|
    ensures |r| == n
  {
    if n == 0 then [] else InLog(ticks, ab, n - 1) + [Sample(ticks[n - 1].now, CumIn(ticks, ab, n))]
  }

  lemma {:induction false} Extend(ticks: seq<Tick>, t: Tick, ab: bool, n: nat)
    requires n <= |ticks|
    ensures CumOut(ticks + [t], ab, n) == CumOut(ticks, ab, n) && CumIn(ticks + [t], ab, n) == CumIn(ticks, ab, n)
    ensures OutLog(ticks + [t], ab, n) == OutLog(ticks, ab, n) && InLog(ticks + [t], ab, n) == InLog(ticks, ab, n)
  {
    if n > 0 { Extend(ticks, t, ab, n - 1); }
  }

  /** A key of one of the ten series of link `l`. */
  predicate Owns(l: Link, k: MetricKey) {
    !k.Health? && (Key(k.asn, k.ifid) == EndKey(l, false) || Key(k.asn, k.ifid) == EndKey(l, true))
  }

  function OutKey(l: Link, back: bool): MetricKey {
    OutBytes(Near(l, back).asn, Near(l, back).ifid)
  }

  function InKey(l: Link, back: bool): MetricKey {
    InBytes(Near(l, back).asn, Near(l, back).ifid)
  }

  function UpKey(l: Link, back: bool): MetricKey {
    Up(Near(l, back).asn, Near(l, back).ifid)
  }

  function BeaconKey(l: Link, back: bool): MetricKey {
    Beacons(Near(l, back).asn, Near(l, back).ifid)
  }

  function RttKey(l: Link, back: bool): MetricKey {
    Rtt(Near(l, back).asn, Near(l, back).ifid)
  }

  /** What the random walks of one link came to in one step. */
  datatype Walk = Walk(rttA: real, rttB: real, ambientAB: real, ambientBA: real, beaconRateA: real, beaconRateB: real)

  /** What a step sends: a down link ignores shaping and carries nothing. */
  function TickOf(down: bool, now: Int64, walk: Walk, burst: real, shaping: Option<Shaping>): Tick {
    if down then Tick(now, 0.0, 0.0, LossFactor(None))
    else
      var ab, ba := walk.ambientAB + burst, walk.ambientBA + burst;
      Tick(now, Capped(ab, shaping), Capped(ba, shaping), LossFactor(shaping))
  }

  class LinkGen {
    const link: Link
    const down: bool
    var cumOutA: real
    var cumInA: real
    var cumOutB: real
    var cumInB: real
    var beaconA: real
    var beaconB: real
    ghost var ticks: seq<Tick>

    /** The counters are what the steps so far add up to. */
    ghost predicate Counted()
      reads this
    {
      && cumOutA == CumOut(ticks, true, |ticks|) && cumInB == CumIn(ticks, true, |ticks|)
      && cumOutB == CumOut(ticks, false, |ticks|) && cumInA == CumIn(ticks, false, |ticks|)
    }

    /** And so are the store's logs of them. */
    ghost predicate Recorded(st: Store)
      reads this, st, st.Footprint()
    {
      && Counted()
      && st.Log(OutKey(link, false)) == OutLog(ticks, true, |ticks|)
      && st.Log(InKey(link, true)) == InLog(ticks, true, |ticks|)
      && st.Log(OutKey(link, true)) == OutLog(ticks, false, |ticks|)
      && st.Log(InKey(link, false)) == InLog(ticks, false, |ticks|)
    }

    constructor (link: Link, down: bool)
      ensures this.link == link && this.down == down && ticks == [] && Counted()
    {
      this.link, this.down := link, down;
      cumOutA, cumInA, cumOutB, cumInB, beaconA, beaconB := 0.0, 0.0, 0.0, 0.0, 0.0, 0.0;
      ticks := [];
    }

    lemma NothingRecorded(st: Store)
      requires ticks == [] && Counted() && st.data == map[]
      ensures Recorded(st)
    {
    }

    /** The counter arithmetic of one step. */
    method Advance(walk: Walk, burst: real, p: Option<Shaping>)
      modifies this`cumOutA, this`cumInA, this`cumOutB, this`cumInB, this`beaconA, this`beaconB
      ensures var t := TickOf(down, 0, walk, burst, p);
              && cumOutA == old(cumOutA) + MbitToBytes(t.ab)
              && cumInB == old(cumInB) + MbitToBytes(Times(t.factor, t.ab))
              && cumOutB == old(cumOutB) + MbitToBytes(t.ba)
              && cumInA == old(cumInA) + MbitToBytes(Times(t.factor, t.ba))
      ensures beaconA == old(beaconA) + (if down then 0.0 else walk.beaconRateA)
      ensures beaconB == old(beaconB) + (if down then 0.0 else walk.beaconRateB)
    {
      hide MbitToBytes, Times;
      var p := if down then None else p;
      var mbitAB, mbitBA := walk.ambientAB + burst, walk.ambientBA + burst;
      if p.Some? && p.value.rateMbit.Some? {
        if mbitAB > p.value.rateMbit.value {
          mbitAB := p.value.rateMbit.value;
        }
        if mbitBA > p.value.rateMbit.value {
          mbitBA := p.value.rateMbit.value;
        }
      }
      var rateA, rateB := 0.0, 0.0;
      if down {
        mbitAB, mbitBA := 0.0, 0.0;
      } else {
        rateA, rateB := walk.beaconRateA, walk.beaconRateB;
      }
      var lossFactor := 1.0;
      if p.Some? && p.value.lossPct.Some? {
        lossFactor := 1.0 - p.value.lossPct.value / 100.0;
        if lossFactor < 0.0 {
          lossFactor := 0.0;
        }
      }
      assert lossFactor == LossFactor(p);
      cumOutA := cumOutA + MbitToBytes(mbitAB);
      cumInB := cumInB + MbitToBytes(Times(lossFactor, mbitAB));
      cumOutB := cumOutB + MbitToBytes(mbitBA);
      cumInA := cumInA + MbitToBytes(Times(lossFactor, mbitBA));
      beaconA := beaconA + rateA;
      beaconB := beaconB + rateB;
    }

    /** Two samples of one step. */
    method PutBoth(st: Store, now: Int64, k: MetricKey, v: real, l: MetricKey, w: real)
      requires st.Valid()
      modifies st, st.Footprint()
      ensures st.Valid() && fresh(st.Footprint() - old(st.Footprint()))
      ensures k != l ==> st.Log(k) == old(st.Log(k)) + [Sample(now, v)]
      ensures k != l ==> st.Log(l) == old(st.Log(l)) + [Sample(now, w)]
      ensures forall m: MetricKey :: m != k && m != l ==> st.Log(m) == old(st.Log(m))
    {
      hide Store.Valid, Store.Log;
      st.Put(k, now, v);
      st.Put(l, now, w);
    }

    method PublishRtt(st: Store, now: Int64, rttA: real, rttB: real)
      requires st.Valid()
      modifies st, st.Footprint()
      ensures st.Valid() && fresh(st.Footprint() - old(st.Footprint()))
      ensures EndKey(link, false) != EndKey(link, true) ==>
                forall back: bool ::
                  st.Log(RttKey(link, back)) == old(st.Log(RttKey(link, back)))
                                                + [Sample(now, if back then rttB else rttA)]
      ensures forall k: MetricKey :: !(k.Rtt? && Owns(link, k)) ==> st.Log(k) == old(st.Log(k))
    {
      hide Store.Valid, Store.Log;
      PutBoth(st, now, RttKey(link, false), rttA, RttKey(link, true), rttB);
    }

    method PublishCounters(st: Store, now: Int64)
      requires st.Valid() && EndKey(link, false) != EndKey(link, true) && this as object !in st.Footprint()
      modifies st, st.Footprint()
      ensures st.Valid() && fresh(st.Footprint() - old(st.Footprint()))
      ensures st.Log(OutKey(link, false)) == old(st.Log(OutKey(link, false))) + [Sample(now, cumOutA)]
      ensures st.Log(InKey(link, false)) == old(st.Log(InKey(link, false))) + [Sample(now, cumInA)]
      ensures st.Log(OutKey(link, true)) == old(st.Log(OutKey(link, true))) + [Sample(now, cumOutB)]
      ensures st.Log(InKey(link, true)) == old(st.Log(InKey(link, true))) + [Sample(now, cumInB)]
      ensures forall k: MetricKey :: !((k.OutBytes? || k.InBytes?) && Owns(link, k)) ==> st.Log(k) == old(st.Log(k))
    {
      hide Store.Valid, Store.Log;
      PutBoth(st, now, OutKey(link, false), cumOutA, InKey(link, false), cumInA);
      PutBoth(st, now, OutKey(link, true), cumOutB, InKey(link, true), cumInB);
    }

    method PublishGauges(st: Store, now: Int64)
      requires st.Valid() && this as object !in st.Footprint()
      modifies st, st.Footprint()
      ensures st.Valid() && fresh(st.Footprint() - old(st.Footprint()))
      ensures EndKey(link, false) != EndKey(link, true) ==>
                forall back: bool ::
                  st.Log(UpKey(link, back)) == old(st.Log(UpKey(link, back))) + [Sample(now, if down then 0.0 else 1.0)]
                  && st.Log(BeaconKey(link, back)) == old(st.Log(BeaconKey(link, back)))
                                                      + [Sample(now, if back then beaconB else beaconA)]
      ensures forall k: MetricKey :: !((k.Up? || k.Beacons?) && Owns(link, k)) ==> st.Log(k) == old(st.Log(k))
    {
      hide Store.Valid, Store.Log;
      var up := if down then 0.0 else 1.0;
      PutBoth(st, now, UpKey(link, false), up, UpKey(link, true), up);
      PutBoth(st, now, BeaconKey(link, false), beaconA, BeaconKey(link, true), beaconB);
    }

    /** The ten samples one step writes. */
    method Publish(st: Store, now: Int64, rttA: real, rttB: real)
      requires st.Valid() && EndKey(link, false) != EndKey(link, true) && this as object !in st.Footprint()
      modifies st, st.Footprint()
      ensures st.Valid() && fresh(st.Footprint() - old(st.Footprint()))
      ensures st.Log(OutKey(link, false)) == old(st.Log(OutKey(link, false))) + [Sample(now, cumOutA)]
      ensures st.Log(InKey(link, false)) == old(st.Log(InKey(link, false))) + [Sample(now, cumInA)]
      ensures st.Log(OutKey(link, true)) == old(st.Log(OutKey(link, true))) + [Sample(now, cumOutB)]
      ensures st.Log(InKey(link, true)) == old(st.Log(InKey(link, true))) + [Sample(now, cumInB)]
      ensures forall back: bool ::
                st.Log(RttKey(link, back)) == old(st.Log(RttKey(link, back)))
                                              + [Sample(now, if back then rttB else rttA)]
                && st.Log(UpKey(link, back)) == old(st.Log(UpKey(link, back)))
                                                + [Sample(now, if down then 0.0 else 1.0)]
      ensures forall k: MetricKey :: !Owns(link, k) ==> st.Log(k) == old(st.Log(k))
    {
      hide Store.Valid, Store.Log, Owns, EndKey;
      PublishRtt(st, now, rttA, rttB);
      PublishCounters(st, now);
      PublishGauges(st, now);
    }

    /** One step of one link. The walk is an input, and the burst is zero when it is elsewhere. */
    method StepLink(st: Store, now: Int64, walk: Walk, burst: real, shaping: Option<Shaping>)
      requires st.Valid() && Recorded(st) && EndKey(link, false) != EndKey(link, true)
      requires this as object !in st.Footprint()
      modifies this, st, st.Footprint()
      ensures st.Valid() && Recorded(st) && fresh(st.Footprint() - old(st.Footprint()))
      ensures ticks == old(ticks) + [TickOf(down, now, walk, burst, shaping)]
      ensures forall back: bool ::
                st.Log(RttKey(link, back)) == old(st.Log(RttKey(link, back)))
                                              + [Sample(now, if back then walk.rttB else walk.rttA)]
                && st.Log(UpKey(link, back)) == old(st.Log(UpKey(link, back)))
                                                + [Sample(now, if down then 0.0 else 1.0)]
      ensures forall k: MetricKey :: !Owns(link, k) ==> st.Log(k) == old(st.Log(k))
    {
      hide Store.Valid, Store.Log, Capped, LossFactor, MbitToBytes, Times, Owns;
      Advance(walk, burst, shaping);
      Publish(st, now, walk.rttA, walk.rttB);
      ghost var t := TickOf(down, now, walk, burst, shaping);
      Extend(ticks, t, true, |ticks|);
      Extend(ticks, t, false, |ticks|);
      ticks := ticks + [t];
    }
  }

  // ---------------------------------------------------------------- all links over one store

  class Generator {
    const g: Graph
    const st: Store
    const links: seq<LinkGen>
    var shaped: map<string, Shaping>

    /** Every link's counters and logs are what its own steps add up to, all in the one store. */
    ghost predicate Valid()
      reads this, links, st, st.Footprint()
    {
      st.Valid() && DistinctEndpoints(g.links) && |links| == |g.links| && this as object !in st.Footprint()
      && forall i :: 0 <= i < |links| ==>
           links[i].link == g.links[i] && links[i] as object !in st.Footprint() && links[i].Recorded(st)
    }

    /** Over a store nothing was put into; `downLink` names the link that is down. */
    constructor (g: Graph, st: Store, downLink: string)
      requires st.Valid() && DistinctEndpoints(g.links) && st.data == map[]
      ensures this.g == g && this.st == st && Valid() && shaped == map[]
      ensures forall i :: 0 <= i < |links| ==> fresh(links[i]) && links[i].ticks == []
                                               && links[i].down == (g.links[i].id == downLink)
    {
      hide LinkGen.Recorded, DistinctEndpoints;
      var links := NewLinks(g, st, downLink);
      this.g, this.st, this.links := g, st, links;
      shaped := map[];
    }

    static method NewLinks(g: Graph, st: Store, downLink: string) returns (links: seq<LinkGen>)
      requires st.data == map[]
      ensures |links| == |g.links|
      ensures forall i :: 0 <= i < |links| ==>
        fresh(links[i]) && links[i].link == g.links[i] && links[i].ticks == [] && links[i].Recorded(st)
        && links[i].down == (g.links[i].id == downLink)
    {
      hide CumOut, CumIn, LinkGen.Recorded;
      links := [];
      for i := 0 to |g.links|
        invariant |links| == i
        invariant forall j :: 0 <= j < i ==>
          fresh(links[j]) && links[j].link == g.links[j] && links[j].ticks == [] && links[j].Counted()
          && links[j].down == (g.links[j].id == downLink)
      {
        var l := new LinkGen(g.links[i], g.links[i].id == downLink);
        links := links + [l];
      }
      forall i | 0 <= i < |links| ensures links[i].Recorded(st) {
        links[i].NothingRecorded(st);
      }
    }

    /** Applies from the next step on; no parameters clear it. */
    method SetShaping(id: string, p: Option<Shaping>)
      requires Valid()
      modifies this`shaped
      ensures Valid()
      ensures forall l :: Lookup(shaped, l) == if l == id then p else Lookup(old(shaped), l)
    {
      shaped := if p.None? then shaped - {id} else shaped[id := p.value];
    }

    /** What link `i` sends in a step, under the shaping applied to it. */
    ghost function NextTick(i: nat, now: Int64, walk: Walk, burst: real): Tick
      requires i < |links|
      reads this`shaped
    {
      TickOf(links[i].down, now, walk, burst, Lookup(shaped, links[i].link.id))
    }

    /**
     * One step of every link and of the health gauges. `burst` is the magnitude of the wandering burst, `burstIdx`
     * the link it is on.
     */
    method Step(now: Int64, walks: seq<Walk>, burstIdx: nat, burst: real)
      requires Valid() && |walks| == |links|
      modifies links, st, st.Footprint()
      ensures Valid() && shaped == old(shaped) && fresh(st.Footprint() - old(st.Footprint()))
      ensures forall i :: 0 <= i < |links| ==>
        links[i].ticks == old(links[i].ticks) + [NextTick(i, now, walks[i], if i == burstIdx then burst else 0.0)]
    {
      StepLinks(now, walks, burstIdx, burst);
      PutHealth(now);
    }

    method StepLinks(now: Int64, walks: seq<Walk>, burstIdx: nat, burst: real)
      requires Valid() && |walks| == |links|
      modifies links, st, st.Footprint()
      ensures Valid() && fresh(st.Footprint() - old(st.Footprint()))
      ensures forall i :: 0 <= i < |links| ==>
        links[i].ticks == old(links[i].ticks) + [NextTick(i, now, walks[i], if i == burstIdx then burst else 0.0)]
    {
      hide Valid, NextTick;
      for i := 0 to |links|
        invariant Valid() && fresh(st.Footprint() - old(st.Footprint()))
        invariant forall j :: i <= j < |links| ==> links[j].ticks == old(links[j].ticks)
        invariant forall j :: 0 <= j < i ==>
          links[j].ticks == old(links[j].ticks) + [NextTick(j, now, walks[j], if j == burstIdx then burst else 0.0)]
      {
        StepOne(i, now, walks[i], if i == burstIdx then burst else 0.0);
      }
    }

    lemma LinksDistinct()
      requires Valid()
      ensures forall i, j :: 0 <= i < j < |links| ==> links[i] != links[j]
    {
      forall i: nat, j: nat | i < j < |links| ensures links[i] != links[j] {
        DistinctPair(i, j);
      }
    }

    lemma DistinctPair(i: nat, j: nat)
      requires Valid() && i < j < |links|
      ensures links[i] != links[j]
    {
      if EndKey(g.links[i], false) == EndKey(g.links[j], false) { EndsApart(i, false, j, false); }
    }

    lemma EndsApart(i: nat, s: bool, j: nat, t: bool)
      requires Valid() && i < |links| && j < |links| && EndKey(g.links[i], s) == EndKey(g.links[j], t)
      ensures i == j && s == t
    {
      var _, _ := Near(g.links[i], s), Near(g.links[j], t);
    }

    /** The series of one link are not those of another. */
    lemma KeysApart(i: nat, j: nat)
      requires Valid() && i < |links| && j < |links| && i != j
      ensures links[i] != links[j]
      ensures forall s :: !Owns(g.links[i], OutKey(g.links[j], s)) && !Owns(g.links[i], InKey(g.links[j], s))
    {
      LinksDistinct();
      forall s, t ensures EndKey(g.links[i], t) != EndKey(g.links[j], s) {
        if EndKey(g.links[i], t) == EndKey(g.links[j], s) { EndsApart(i, t, j, s); }
      }
    }

    method StepOne(i: nat, now: Int64, walk: Walk, burst: real)
      requires Valid() && i < |links|
      modifies links[i], st, st.Footprint()
      ensures Valid() && fresh(st.Footprint() - old(st.Footprint()))
      ensures links[i].ticks == old(links[i].ticks) + [NextTick(i, now, walk, burst)]
      ensures shaped == old(shaped)
      ensures forall j :: 0 <= j < |links| && j != i ==> links[j].ticks == old(links[j].ticks)
    {
      hide Store.Valid, Store.Log, TickOf, Owns;
      if EndKey(g.links[i], false) == EndKey(g.links[i], true) { EndsApart(i, false, i, true); }
      forall j: nat | j < |links| && j != i
        ensures links[i] != links[j]
        ensures forall s :: !Owns(g.links[i], OutKey(g.links[j], s)) && !Owns(g.links[i], InKey(g.links[j], s))
      {
        KeysApart(i, j);
      }
      links[i].StepLink(st, now, walk, burst, Lookup(shaped, links[i].link.id));
      forall j | 0 <= j < |links| && j != i ensures links[j].Recorded(st) {
        assert links[j] != links[i] && links[j].link == g.links[j];
      }
    }

    method PutHealth(now: Int64)
      requires Valid()
      modifies st, st.Footprint()
      ensures forall i :: 0 <= i < |links| ==> links[i].ticks == old(links[i].ticks)
      ensures Valid() && fresh(st.Footprint() - old(st.Footprint()))
    {
      hide Valid;
      for i := 0 to |g.ases|
        invariant Valid() && fresh(st.Footprint() - old(st.Footprint()))
      {
        PutUp(g.ases[i].num, "br", now);
        PutUp(g.ases[i].num, "cs", now);
        PutUp(g.ases[i].num, "sd", now);
      }
    }

    method PutUp(asn: int, svc: string, now: Int64)
      requires Valid()
      modifies st, st.Footprint()
      ensures Valid() && fresh(st.Footprint() - old(st.Footprint()))
    {
      hide Store.Valid, Store.Log, CumOut, CumIn, OutLog, InLog, DistinctEndpoints;
      st.Put(Health(asn, svc), now, 1.0);
    }
  }

  // ---------------------------------------------------------------- the derived loss

  /** Loss in percent from two rates in Mbit/s; nothing below the minimum egress rate. */
  function LossEstimate(outMbit: real, inMbit: real): real {
    if outMbit <= LOSS_MIN_MBIT then 0.0
    else
      var l := (outMbit - inMbit) / outMbit * 100.0;
      if l < 0.0 then 0.0 else l
  }

  function Mbit(rate: real): real {
    rate * 8.0 / 1000000.0
  }

  function Window(st: Store): (w: nat)
    reads st
    ensures w == 5 || w == st.cap < 5
  {
    if RATE_WINDOW > st.cap then st.cap else RATE_WINDOW
  }

  /** The measured rate of one counter in Mbit/s. */
  ghost function Measured(st: Store, k: MetricKey): real
    reads st, st.Footprint()
  {
    Mbit(RateOf(Tail(st.Log(k), Window(st))))
  }

  /** The loss part of one link's view model: per direction, the worse one wins. */
  method DeriveLoss(st: Store, l: Link) returns (loss: real)
    requires st.Valid()
    ensures var ab := LossEstimate(Measured(st, OutKey(l, false)), Measured(st, InKey(l, true)));
            var ba := LossEstimate(Measured(st, OutKey(l, true)), Measured(st, InKey(l, false)));
            loss == if ab >= ba then ab else ba
  {
    hide RateOf, Tail;
    var outA := st.Rate(OutBytes(l.a.asn, l.a.ifid), RATE_WINDOW);
    var inB := st.Rate(InBytes(l.b.asn, l.b.ifid), RATE_WINDOW);
    var outB := st.Rate(OutBytes(l.b.asn, l.b.ifid), RATE_WINDOW);
    var inA := st.Rate(InBytes(l.a.asn, l.a.ifid), RATE_WINDOW);
    var lossAB := LossEstimate(Mbit(outA), Mbit(inB));
    var lossBA := LossEstimate(Mbit(outB), Mbit(inA));
    loss := if lossAB >= lossBA then lossAB else lossBA;
  }

  // ---------------------------------------------------------------- recovery

  /** `ins` follows `outs` at the same times, rising by `f` times as much in every interval. */
  ghost predicate Scaled(outs: seq<Sample>, ins: seq<Sample>, f: real) {
    |outs| == |ins|
    && (forall i :: 0 <= i < |outs| ==> ins[i].t == outs[i].t)
    && forall i {:trigger outs[i]} :: 1 <= i < |outs| ==> ins[i].v - ins[i - 1].v == Times(f, outs[i].v - outs[i - 1].v)
  }

  /** One interval counts on both sides or on neither, unless nothing arrives at all. */
  lemma {:induction false} ScaledInterval(a: Sample, b: Sample, c: Sample, d: Sample, f: real)
    requires c.t == a.t && d.t == b.t && d.v - c.v == Times(f, b.v - a.v) && f >= 0.0
    ensures Rises(c, d) <==> f > 0.0 && Rises(a, b)
  {
    hide Times;
    TimesZero(f, b.v - a.v);
    if f > 0.0 { TimesPositive(f, b.v - a.v); }
  }

  /** Both sides count the same intervals, so rises scale and times agree; with nothing arriving, nothing is counted. */
  lemma {:induction false} ScaledSums(outs: seq<Sample>, ins: seq<Sample>, f: real, n: nat)
    requires Scaled(outs, ins, f) && n <= |outs| && f >= 0.0
    ensures Risen(ins, n) == Times(f, Risen(outs, n))
    ensures Elapsed(ins, n) == if f > 0.0 then Elapsed(outs, n) else 0.0
  {
    hide Rises, Times;
    TimesZero(f, 0.0);
    if n > 1 {
      ScaledSums(outs, ins, f, n - 1);
      var d := outs[n - 1].v - outs[n - 2].v;
      ScaledInterval(outs[n - 2], outs[n - 1], ins[n - 2], ins[n - 1], f);
      TimesAdds(f, Risen(outs, n - 1), d);
      TimesZero(f, d);
      TimesZero(f, Risen(outs, n - 1));
      TimesZero(f, Risen(outs, n));
    }
  }

  lemma {:induction false} ScaledRates(outs: seq<Sample>, ins: seq<Sample>, f: real)
    requires Scaled(outs, ins, f) && f >= 0.0
    ensures RateOf(ins) == Times(f, RateOf(outs))
  {
    hide Risen, Elapsed, Scaled, Times;
    ScaledSums(outs, ins, f, |outs|);
    ScaledLengths(outs, ins, f);
    TimesZero(f, RateOf(outs));
    if f > 0.0 && Elapsed(outs, |outs|) > 0.0 {
      TimesOver(f, Risen(outs, |outs|), Elapsed(outs, |outs|));
    }
  }

  lemma ScaledLengths(outs: seq<Sample>, ins: seq<Sample>, f: real)
    requires Scaled(outs, ins, f)
    ensures |outs| == |ins|
  {
  }

  lemma DivCancels(x: real, y: real)
    requires y > 0.0
    ensures (x * y) / y == x
  {
    var q := (x * y) / y;
    assert q * y == x * y;
    assert (q - x) * y == 0.0;
  }

  /** The estimate undoes the scaling. */
  lemma EstimateRecovers(out: real, f: real)
    requires out > LOSS_MIN_MBIT && f >= 0.0
    ensures LossEstimate(out, Times(f, out)) == if f > 1.0 then 0.0 else (1.0 - f) * 100.0
  {
    assert out - f * out == (1.0 - f) * out;
    DivCancels(1.0 - f, out);
  }

  function Clamped(p: real): real {
    if p < 0.0 then 0.0 else if p > 100.0 then 100.0 else p
  }

  lemma {:induction false} LogsAt(ticks: seq<Tick>, ab: bool, n: nat, i: nat)
    requires i < n <= |ticks|
    ensures OutLog(ticks, ab, n)[i] == Sample(ticks[i].now, CumOut(ticks, ab, i + 1))
    ensures InLog(ticks, ab, n)[i] == Sample(ticks[i].now, CumIn(ticks, ab, i + 1))
  {
    if i < n - 1 { LogsAt(ticks, ab, n - 1, i); }
  }

  lemma StepScales(ticks: seq<Tick>, ab: bool, i: nat)
    requires i < |ticks|
    ensures CumIn(ticks, ab, i + 1) - CumIn(ticks, ab, i)
            == Times(ticks[i].factor, CumOut(ticks, ab, i + 1) - CumOut(ticks, ab, i))
  {
    hide Times, MbitToBytes;
    TimesScales(ticks[i].factor, Sent(ticks[i], ab));
    assert CumOut(ticks, ab, i + 1) - CumOut(ticks, ab, i) == MbitToBytes(Sent(ticks[i], ab));
  }

  /** Sample `i` of the last `w`, in both counters of one direction. */
  lemma {:induction false} TailAt(ticks: seq<Tick>, ab: bool, w: nat, i: nat)
    requires i < |Tail(OutLog(ticks, ab, |ticks|), w)|
    ensures var outs, ins := Tail(OutLog(ticks, ab, |ticks|), w), Tail(InLog(ticks, ab, |ticks|), w);
            var m := |ticks| - |outs| + i;
            |ins| == |outs| && m < |ticks| && outs[i] == Sample(ticks[m].now, CumOut(ticks, ab, m + 1))
            && ins[i] == Sample(ticks[m].now, CumIn(ticks, ab, m + 1))
  {
    hide CumOut, CumIn, OutLog, InLog;
    LogsAt(ticks, ab, |ticks|, |ticks| - |Tail(OutLog(ticks, ab, |ticks|), w)| + i);
  }

  lemma TailsAlike(ticks: seq<Tick>, ab: bool, w: nat)
    ensures |Tail(OutLog(ticks, ab, |ticks|), w)| == if w <= |ticks| then w else |ticks|
    ensures |Tail(InLog(ticks, ab, |ticks|), w)| == if w <= |ticks| then w else |ticks|
  {
  }

  /** Between two neighbours among them the receiver's counter rises by the share of the step that got through. */
  lemma {:induction false} IntervalScales(ticks: seq<Tick>, ab: bool, w: nat, i: nat)
    requires 0 < i < |Tail(OutLog(ticks, ab, |ticks|), w)|
    ensures var outs, ins := Tail(OutLog(ticks, ab, |ticks|), w), Tail(InLog(ticks, ab, |ticks|), w);
            var m := |ticks| - |outs| + i;
            |ins| == |outs| && 0 <= m < |ticks| && |ticks| - w < m
            && ins[i].v - ins[i - 1].v == Times(ticks[m].factor, outs[i].v - outs[i - 1].v)
  {
    TailsAlike(ticks, ab, w);
    var m := |ticks| - |Tail(OutLog(ticks, ab, |ticks|), w)| + i;
    hide CumOut, CumIn, OutLog, InLog, Times, Tail;
    TailAt(ticks, ab, w, i - 1);
    TailAt(ticks, ab, w, i);
    StepScales(ticks, ab, m);
  }

  /** The last `w` samples of one direction's two counters, when the last `w - 1` steps let the share `f` through. */
  lemma {:induction false} TailsScaled(ticks: seq<Tick>, ab: bool, w: nat, f: real)
    requires forall i :: 0 <= i < |ticks| && |ticks| - w < i ==> ticks[i].factor == f
    ensures Scaled(Tail(OutLog(ticks, ab, |ticks|), w), Tail(InLog(ticks, ab, |ticks|), w), f)
  {
    TailsAlike(ticks, ab, w);
    hide OutLog, InLog, Times, Tail;
    var outs, ins := Tail(OutLog(ticks, ab, |ticks|), w), Tail(InLog(ticks, ab, |ticks|), w);
    forall i | 0 <= i < |outs| ensures ins[i].t == outs[i].t {
      TailAt(ticks, ab, w, i);
    }
    forall i {:trigger outs[i]} | 1 <= i < |outs|
      ensures ins[i].v - ins[i - 1].v == Times(f, outs[i].v - outs[i - 1].v)
    {
      IntervalScales(ticks, ab, w, i);
    }
  }

  // ---------------------------------------------------------------- what traffic measures

  /** Up, a step sends ambient traffic and burst each way, or the cap if that is less; down, nothing. */
  lemma TickSends(down: bool, now: Int64, walk: Walk, burst: real, shaping: Option<Shaping>)
    ensures var t := TickOf(down, now, walk, burst, shaping);
            var cap := if shaping.Some? then shaping.value.rateMbit else None;
            if down then t.ab == 0.0 && t.ba == 0.0
            else
              && (cap.None? || walk.ambientAB + burst <= cap.value ==> t.ab == walk.ambientAB + burst)
              && (cap.None? || walk.ambientBA + burst <= cap.value ==> t.ba == walk.ambientBA + burst)
              && (cap.Some? && walk.ambientAB + burst > cap.value ==> t.ab == cap.value)
              && (cap.Some? && walk.ambientBA + burst > cap.value ==> t.ba == cap.value)
  {
  }

  /** A link drops out of the mock BGP exactly when nothing that is sent over it arrives. */
  lemma LiveIffArrives(shaped: map<string, Shaping>, l: Link)
    ensures Routing.Live(shaped, l) <==> LossFactor(Lookup(shaped, l.id)) > 0.0
  {
  }

  /** The steps between the last `w` samples were at least a second apart. */
  ghost predicate SecondsApart(ticks: seq<Tick>, w: nat) {
    forall i :: 0 < i < |ticks| && |ticks| - w < i ==> ticks[i].now - ticks[i - 1].now >= 1000
  }

  /** Neighbours among the last `w` samples of a sender's counter differ by what the step sent. */
  lemma {:induction false} IntervalSent(ticks: seq<Tick>, ab: bool, w: nat, i: nat)
    requires 0 < i < |Tail(OutLog(ticks, ab, |ticks|), w)|
    ensures var outs := Tail(OutLog(ticks, ab, |ticks|), w);
            var m := |ticks| - |outs| + i;
            0 < m < |ticks| && |ticks| - w < m && outs[i].v - outs[i - 1].v == MbitToBytes(Sent(ticks[m], ab))
            && outs[i].t == ticks[m].now && outs[i - 1].t == ticks[m - 1].now
  {
    hide MbitToBytes;
    var m := |ticks| - |Tail(OutLog(ticks, ab, |ticks|), w)| + i;
    TailsAlike(ticks, ab, w);
    TailAt(ticks, ab, w, i - 1);
    TailAt(ticks, ab, w, i);
    assert CumOut(ticks, ab, m + 1) == CumOut(ticks, ab, m) + MbitToBytes(Sent(ticks[m], ab));
  }

  /** Steps a second apart that send `x` Mbit/s each are measured as `x`: 125000 bytes per second and Mbit/s. */
  lemma {:induction false} SteadyMeasures(ticks: seq<Tick>, ab: bool, w: nat, x: real)
    requires x > 0.0 && w >= 2 && |ticks| >= 2
    requires forall i :: 0 < i < |ticks| && |ticks| - w < i ==>
               Sent(ticks[i], ab) == x && ticks[i].now - ticks[i - 1].now == 1000
    ensures RateOf(Tail(OutLog(ticks, ab, |ticks|), w)) == x * 125000.0
    ensures Mbit(RateOf(Tail(OutLog(ticks, ab, |ticks|), w))) == x
  {
    var outs := Tail(OutLog(ticks, ab, |ticks|), w);
    TailsAlike(ticks, ab, w);
    hide OutLog, InLog, Tail, RateOf;
    forall i: nat | 0 < i < |outs|
      ensures outs[i].v - outs[i - 1].v == x * 125000.0 && outs[i].t - outs[i - 1].t == 1000
    {
      IntervalSent(ticks, ab, w, i);
    }
    SteadilyRises(outs, x * 125000.0);
  }

  /** A counter that rises by `r` in exactly a second every time has that rate. */
  lemma {:induction false} SteadilyRises(s: seq<Sample>, r: real)
    requires r > 0.0 && |s| >= 2
    requires forall i :: 0 < i < |s| ==> s[i].v - s[i - 1].v == r && s[i].t - s[i - 1].t == 1000
    ensures RateOf(s) == r
  {
    hide RateOf;
    assert RisesAt(s, 1);
    forall i | RisesAt(s, i) ensures (s[i].v - s[i - 1].v) * 1000.0 == r * (s[i].t - s[i - 1].t) as real {
      var ms := s[i].t - s[i - 1].t;
      assert ms == 1000;
    }
    RateIsSlope(s, r);
  }

  /** A direction that never sends more than `cap` Mbit/s in a step is never measured above it. */
  lemma {:induction false} CappedMeasures(ticks: seq<Tick>, ab: bool, w: nat, cap: real)
    requires cap >= 0.0 && SecondsApart(ticks, w)
    requires forall i :: 0 < i < |ticks| && |ticks| - w < i ==> Sent(ticks[i], ab) <= cap
    ensures Mbit(RateOf(Tail(OutLog(ticks, ab, |ticks|), w))) <= cap
  {
    var outs := Tail(OutLog(ticks, ab, |ticks|), w);
    hide OutLog, Tail, RateOf;
    forall i: nat | 0 < i < |outs|
      ensures outs[i].v - outs[i - 1].v <= cap * 125000.0 && outs[i].t - outs[i - 1].t >= 1000
    {
      IntervalSent(ticks, ab, w, i);
    }
    SlowlyRises(outs, cap * 125000.0);
  }

  /** A counter that rises by at most `r` in at least a second every time has at most that rate. */
  lemma {:induction false} SlowlyRises(s: seq<Sample>, r: real)
    requires r >= 0.0 && forall i :: 0 < i < |s| ==> s[i].v - s[i - 1].v <= r && s[i].t - s[i - 1].t >= 1000
    ensures RateOf(s) <= r
  {
    SlowBounds(s, r);
    hide RateOf, AtLeast, AtMost, RisesAt;
    if exists i :: RisesAt(s, i) {
      RateBetween(s, 0.0, r);
    } else {
      RateZeroIff(s);
    }
  }

  lemma {:induction false} SlowBounds(s: seq<Sample>, r: real)
    requires r >= 0.0 && forall i :: 0 < i < |s| ==> s[i].v - s[i - 1].v <= r && s[i].t - s[i - 1].t >= 1000
    ensures AtMost(s, |s|, r) && AtLeast(s, |s|, 0.0)
  {
    forall i | RisesAt(s, i) ensures (s[i].v - s[i - 1].v) * 1000.0 <= r * (s[i].t - s[i - 1].t) as real {
      LongerIsMore(s[i].v - s[i - 1].v, r, (s[i].t - s[i - 1].t) as real);
    }
  }

  lemma LongerIsMore(dv: real, r: real, ms: real)
    requires r >= 0.0 && ms >= 1000.0 && dv <= r
    ensures dv * 1000.0 <= r * ms
  {
    assert r * ms - r * 1000.0 == r * (ms - 1000.0);
  }

  /** A direction that sends nothing, as both do on a link that is down, measures zero. */
  lemma {:induction false} SilentMeasures(ticks: seq<Tick>, ab: bool, w: nat)
    requires forall i :: 0 < i < |ticks| && |ticks| - w < i ==> Sent(ticks[i], ab) == 0.0
    ensures Mbit(RateOf(Tail(OutLog(ticks, ab, |ticks|), w))) == 0.0
  {
    var outs := Tail(OutLog(ticks, ab, |ticks|), w);
    hide OutLog, Tail, RateOf;
    forall i: nat | 0 < i < |outs| ensures outs[i].v == outs[i - 1].v {
      IntervalSent(ticks, ab, w, i);
    }
    RateZeroIff(outs);
  }

  function LossOnly(p: real): Option<Shaping> {
    Some(Shaping(None, None, Some(p), None))
  }

  /** The steps between the last `w` samples let through what a loss of `p` percent does. */
  ghost predicate HeldLoss(ticks: seq<Tick>, w: nat, p: real) {
    forall i :: 0 <= i < |ticks| && |ticks| - w < i ==> ticks[i].factor == LossFactor(LossOnly(p))
  }

  /** One direction: whenever the measured egress is above the minimum, the estimate is the shaped loss. */
  lemma {:induction false} DirectionRecovers(ticks: seq<Tick>, ab: bool, w: nat, p: real)
    requires HeldLoss(ticks, w, p)
    ensures var out := RateOf(Tail(OutLog(ticks, ab, |ticks|), w));
            var in' := RateOf(Tail(InLog(ticks, ab, |ticks|), w));
            LossEstimate(Mbit(out), Mbit(in')) == if Mbit(out) > LOSS_MIN_MBIT then Clamped(p) else 0.0
  {
    hide RateOf, Tail, OutLog, InLog, Times;
    var f := LossFactor(LossOnly(p));
    TailsScaled(ticks, ab, w, f);
    var out := RateOf(Tail(OutLog(ticks, ab, |ticks|), w));
    ScaledRates(Tail(OutLog(ticks, ab, |ticks|), w), Tail(InLog(ticks, ab, |ticks|), w), f);
    TimesScales(f, out);
    if Mbit(out) > LOSS_MIN_MBIT { EstimateRecovers(Mbit(out), f); }
  }

  /** A link that is up and shaped to a loss of `p` percent keeps holding it, whatever else is shaped. */
  lemma {:induction false} StepHoldsLoss(ticks: seq<Tick>, w: nat, now: Int64, walk: Walk, burst: real, s: Shaping,
                                         p: real)
    requires s.lossPct == Some(p)
    requires HeldLoss(ticks, w, p)
    ensures HeldLoss(ticks + [TickOf(false, now, walk, burst, Some(s))], w, p)
  {
    var all := ticks + [TickOf(false, now, walk, burst, Some(s))];
    forall i | 0 <= i < |all| && |all| - w < i ensures all[i].factor == LossFactor(LossOnly(p)) {
      if i < |ticks| { assert all[i] == ticks[i]; }
    }
  }

  /** After anything at all, as many steps at a loss of `p` percent as the window has intervals make it hold `p`. */
  lemma {:induction false} HoldsLossAfter(history: seq<Tick>, recent: seq<Tick>, w: nat, p: real)
    requires |recent| + 1 >= w && forall t :: t in recent ==> t.factor == LossFactor(LossOnly(p))
    ensures HeldLoss(history + recent, w, p)
  {
    var all := history + recent;
    forall i | 0 <= i < |all| && |all| - w < i ensures all[i].factor == LossFactor(LossOnly(p)) {
      assert all[i] == recent[i - |history|] && all[i] in recent;
    }
  }

  /**
   * The whole way round, for any link among all that share the store: traffic walks, bursts and rate caps do not
   * matter. If the link's steps inside the rate window held loss `p`, its derived loss is `p` as soon as either
   * direction's egress is measurable, else nothing.
   */
  method LossRoundTrip(gen: Generator, i: nat, p: real) returns (loss: real)
    requires gen.Valid() && i < |gen.links| && HeldLoss(gen.links[i].ticks, Window(gen.st), p)
    ensures var ab := Measured(gen.st, OutKey(gen.g.links[i], false));
            var ba := Measured(gen.st, OutKey(gen.g.links[i], true));
            loss == if ab > 0.1 || ba > 0.1 then Clamped(p) else 0.0
  {
    hide RateOf, Tail, OutLog, InLog, CumOut, CumIn, LossEstimate, Mbit, LossFactor, HeldLoss;
    DirectionRecovers(gen.links[i].ticks, true, Window(gen.st), p);
    DirectionRecovers(gen.links[i].ticks, false, Window(gen.st), p);
    loss := DeriveLoss(gen.st, gen.g.links[i]);
  }
}
