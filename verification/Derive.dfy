/**
 * Per-link state that survives between frames: the debounced band and the running
 * minimum of the round-trip time.
 */
module Derive {
  import opened Prelude
  import opened Store

  datatype Band = Nominal | Elevated | Degraded | Critical | Down | Stale

  const HYSTERESIS: nat := 3
  const BASELINE_FLOOR := 0.5

  datatype LinkState = LinkState(band: Band, pendBand: Option<Band>, pendN: nat)

  const FRESH := LinkState(Nominal, None, 0)

  // ---------------------------------------------------------------- the deriver

  function Committed(ls: LinkState, raw: Band): LinkState {
    var next :=
      if raw == ls.band then ls.(pendN := 0, pendBand := None)
      else if ls.pendBand == Some(raw) then ls.(pendN := ls.pendN + 1)
      else ls.(pendN := 1, pendBand := Some(raw));
    if next.pendN >= HYSTERESIS then next.(band := raw) else next
  }

  function MinOpt(a: Option<real>, b: Option<real>): Option<real> {
    if a.None? then b else if b.None? then a else if a.value <= b.value then a else b
  }

  /** The least positive value among samples; a reading of zero or less is no measurement. */
  function MinPos(s: seq<Sample>): (m: Option<real>)
    ensures m.Some? ==> m.value > 0.0
  {
    if s == [] then None
    else MinOpt(MinPos(s[..|s| - 1]), if s[|s| - 1].v > 0.0 then Some(s[|s| - 1].v) else None)
  }

  /** The running minimum after a frame that found `ring` in the store. */
  function Framed(base: Option<real>, ring: seq<Sample>): Option<real> {
    var seen := MinPos(ring);
    var m := if base.Some? && base.value > 0.0 && (seen.None? || base.value < seen.value) then base else seen;
    if m.Some? then m else base
  }

  function Floored(m: Option<real>): real {
    if m.None? || m.value < BASELINE_FLOOR then BASELINE_FLOOR else m.value
  }

  /** The running minimum after a saved value was merged in. */
  function Seeded(base: Option<real>, v: real): Option<real> {
    if v <= 0.0 then base else if base.None? || v < base.value then Some(v) else base
  }

  /** What a saved running minimum comes back as; one of zero or less is not taken over. */
  function Reseeded(base: Option<real>): Option<real> {
    if base.Some? then Seeded(None, base.value) else None
  }

  class Deriver {
    var state: map<string, LinkState>
    var baselineMin: map<MetricKey, real>

    constructor (links: seq<string>)
      ensures forall l :: l in state <==> l in links
      ensures forall l :: l in state ==> state[l] == FRESH
      ensures baselineMin == map[]
    {
      state := map l | l in links :: FRESH;
      baselineMin := map[];
    }

    method Commit(link: string, raw: Band) returns (band: Band)
      modifies this`state
      ensures state == old(state)[link := Committed(if link in old(state) then old(state)[link] else FRESH, raw)]
      ensures band == state[link].band
    {
      var ls := if link in state then state[link] else FRESH;
      if raw == ls.band {
        ls := ls.(pendN := 0, pendBand := None);
      } else if ls.pendBand == Some(raw) {
        ls := ls.(pendN := ls.pendN + 1);
      } else {
        ls := ls.(pendN := 1, pendBand := Some(raw));
      }
      if ls.pendN >= HYSTERESIS {
        ls := ls.(band := raw);
      }
      state := state[link := ls];
      band := ls.band;
    }

    /** The reference round-trip time of one frame; also advances the running minimum. */
    method Baseline(st: Store, key: MetricKey) returns (base: real)
      requires st.Valid()
      modifies this`baselineMin
      ensures Lookup(baselineMin, key) == Framed(old(Lookup(baselineMin, key)), Tail(st.Log(key), st.cap))
      ensures forall k :: k != key ==> Lookup(baselineMin, k) == old(Lookup(baselineMin, k))
      ensures base == Floored(Lookup(baselineMin, key))
    {
      hide MinPos, Tail, Store.Valid;
      var series := st.Series(key, MIN_INT64);
      SinceForever(Tail(st.Log(key), st.cap));
      var m := LeastPositive(series);
      if key in baselineMin && baselineMin[key] > 0.0 && (m.None? || baselineMin[key] < m.value) {
        m := Some(baselineMin[key]);
      }
      if m.Some? {
        baselineMin := baselineMin[key := m.value];
      }
      base := if m.None? || m.value < BASELINE_FLOOR then BASELINE_FLOOR else m.value;
    }

    /** The loop over the series: readings of zero or less are skipped. */
    static method LeastPositive(series: seq<Sample>) returns (m: Option<real>)
      ensures m == MinPos(series)
    {
      m := None;
      for i := 0 to |series|
        invariant m == MinPos(series[..i])
      {
        assert series[..i + 1][..i] == series[..i];
        var v := series[i].v;
        if v <= 0.0 {
          continue;
        }
        if m.None? || v < m.value {
          m := Some(v);
        }
      }
      assert series[..|series|] == series;
    }

    method Baselines() returns (m: map<MetricKey, real>)
      ensures m == baselineMin
    {
      m := baselineMin;
    }

    /** A restart: the minimums are saved, and merged into a deriver that starts from nothing. */
    method Restarted(links: seq<string>) returns (d: Deriver)
      ensures fresh(d) && forall k :: Lookup(d.baselineMin, k) == Reseeded(Lookup(baselineMin, k))
    {
      var saved := Baselines();
      d := new Deriver(links);
      d.SeedBaselines(saved);
    }

    /** Merges saved minimums, in whatever order the map is walked. */
    method SeedBaselines(m: map<MetricKey, real>)
      modifies this`baselineMin
      ensures forall k ::
        Lookup(baselineMin, k)
        == if k in m then Seeded(old(Lookup(baselineMin, k)), m[k]) else old(Lookup(baselineMin, k))
    {
      var todo := m.Keys;
      while todo != {}
        invariant todo <= m.Keys
        invariant forall k ::
          Lookup(baselineMin, k)
          == if k in m && k !in todo then Seeded(old(Lookup(baselineMin, k)), m[k]) else old(Lookup(baselineMin, k))
        decreases todo
      {
        var k :| k in todo;
        todo := todo - {k};
        if m[k] > 0.0 && (k !in baselineMin || m[k] < baselineMin[k]) {
          baselineMin := baselineMin[k := m[k]];
        }
      }
    }
  }

  // ---------------------------------------------------------------- what the debouncer shows

  function AfterFrames(raws: seq<Band>): LinkState {
    if raws == [] then FRESH else Committed(AfterFrames(raws[..|raws| - 1]), raws[|raws| - 1])
  }

  /** The value of the most recent three consecutive equal entries, or nominal if there are none. */
  function LastTriple(raws: seq<Band>): Band {
    if |raws| < 3 then Nominal
    else if raws[|raws| - 1] == raws[|raws| - 2] == raws[|raws| - 3] then raws[|raws| - 1]
    else LastTriple(raws[..|raws| - 1])
  }

  /** How many entries at the end are equal. */
  function Trailing(raws: seq<Band>): nat {
    if raws == [] then 0
    else if |raws| > 1 && raws[|raws| - 2] == raws[|raws| - 1] then 1 + Trailing(raws[..|raws| - 1])
    else 1
  }

  ghost predicate Tracks(ls: LinkState, raws: seq<Band>) {
    if raws == [] then ls == FRESH
    else
      var r := raws[|raws| - 1];
      if r == ls.band then (ls.pendN == 0 && ls.pendBand == None) || (ls.pendN == HYSTERESIS && ls.pendBand == Some(r))
      else ls.pendBand == Some(r) && ls.pendN == Trailing(raws) < HYSTERESIS
  }

  lemma TrailingTriple(raws: seq<Band>)
    ensures Trailing(raws) >= 3 <==> |raws| >= 3 && raws[|raws| - 1] == raws[|raws| - 2] == raws[|raws| - 3]
    ensures raws != [] ==> Trailing(raws) >= 1
  {
    if |raws| >= 2 {
      var init := raws[..|raws| - 1];
      assert Trailing(init) >= 1 && (Trailing(init) >= 2 <==> |init| >= 2 && init[|init| - 1] == init[|init| - 2]);
    }
  }

  /** After any frames the committed band is that of the last triple of raw bands. */
  lemma {:induction false} BandIsLastTriple(raws: seq<Band>)
    ensures AfterFrames(raws).band == LastTriple(raws)
    ensures Tracks(AfterFrames(raws), raws)
  {
    if raws != [] {
      var init := raws[..|raws| - 1];
      BandIsLastTriple(init);
      TrailingTriple(init);
      TrailingTriple(raws);
    }
  }

  /** How often the committed band changed. */
  function Changes(raws: seq<Band>): nat {
    if raws == [] then 0
    else
      var init := raws[..|raws| - 1];
      Changes(init) + (if AfterFrames(raws).band != AfterFrames(init).band then 1 else 0)
  }

  /** `n` frames change the band at most `n / 3` times. */
  lemma {:induction false} FewChanges(raws: seq<Band>)
    ensures Changes(raws) <= |raws| / 3
    ensures 3 * Changes(raws) + (if AfterFrames(raws).pendN >= 3 then 0 else AfterFrames(raws).pendN) <= |raws|
  {
    if raws != [] {
      FewChanges(raws[..|raws| - 1]);
      BandIsLastTriple(raws[..|raws| - 1]);
    }
  }

  // ---------------------------------------------------------------- what the running minimum is

  /** Everything that can happen to one key; a restart saves the minimum, loses the store, and seeds again. */
  datatype Event = Put(s: Sample) | Frame | Seed(v: real) | Restart

  datatype KeyState = KeyState(log: seq<Sample>, base: Option<real>)

  function Step(cap: nat, k: KeyState, e: Event): KeyState {
    match e
    case Put(s) => k.(log := k.log + [s])
    case Frame => k.(base := Framed(k.base, Tail(k.log, cap)))
    case Seed(v) => k.(base := Seeded(k.base, v))
    case Restart => KeyState([], Reseeded(k.base))
  }

  function After(cap: nat, run: seq<Event>): KeyState {
    if run == [] then KeyState([], None) else Step(cap, After(cap, run[..|run| - 1]), run[|run| - 1])
  }

  /** The least positive value ever put or seeded, in whatever order. */
  function Least(run: seq<Event>): Option<real> {
    if run == [] then None
    else
      var v := match run[|run| - 1] case Put(s) => s.v case Seed(v) => v case _ => 0.0;
      MinOpt(Least(run[..|run| - 1]), if v > 0.0 then Some(v) else None)
  }

  /** Puts since the last frame or restart. */
  function Gap(run: seq<Event>): nat {
    if run == [] then 0
    else match run[|run| - 1]
         case Put(_) => Gap(run[..|run| - 1]) + 1
         case Seed(_) => Gap(run[..|run| - 1])
         case _ => 0
  }

  /** At most `cap` puts between frames, and a frame between the last put and a restart. */
  predicate Paced(cap: nat, run: seq<Event>) {
    run == []
    || (Paced(cap, run[..|run| - 1])
        && (run[|run| - 1].Frame? ==> Gap(run[..|run| - 1]) <= cap)
        && (run[|run| - 1].Restart? ==> Gap(run[..|run| - 1]) == 0))
  }

  predicate AtLeast(m: Option<real>, bound: Option<real>) {
    MinOpt(m, bound) == bound
  }

  lemma {:induction false} MinPosConcat(a: seq<Sample>, b: seq<Sample>)
    ensures MinPos(a + b) == MinOpt(MinPos(a), MinPos(b))
  {
    if b == [] {
      assert a + b == a;
    } else {
      assert (a + b)[..|a + b| - 1] == a + b[..|b| - 1];
      MinPosConcat(a, b[..|b| - 1]);
    }
  }

  ghost predicate Accounted(cap: nat, run: seq<Event>) {
    var k := After(cap, run);
    Gap(run) <= |k.log| && (k.base.Some? ==> k.base.value > 0.0)
    && MinOpt(k.base, MinPos(k.log[|k.log| - Gap(run)..])) == Least(run)
    && AtLeast(MinPos(k.log), Least(run))
  }

  /** A log in three parts: evicted, still in the ring but seen before, and new since the last frame. */
  lemma {:induction false} FrameMinimum(base: Option<real>, lost: seq<Sample>, seen: seq<Sample>, new': seq<Sample>,
                                        least: Option<real>)
    requires base.Some? ==> base.value > 0.0
    requires MinOpt(base, MinPos(new')) == least && AtLeast(MinPos(lost + (seen + new')), least)
    ensures Framed(base, seen + new') == least
  {
    hide MinPos;
    MinPosConcat(lost, seen + new');
    MinPosConcat(seen, new');
  }

  lemma {:induction false} FrameAccounts(cap: nat, run: seq<Event>)
    requires Accounted(cap, run) && Gap(run) <= cap
    ensures Framed(After(cap, run).base, Tail(After(cap, run).log, cap)) == Least(run)
  {
    hide MinPos, After, Least, Gap, Framed, MinOpt;
    var k := After(cap, run);
    var ring := Tail(k.log, cap);
    var lost, m := k.log[..|k.log| - |ring|], |ring| - Gap(run);
    assert k.log == lost + ring && ring == ring[..m] + ring[m..] && ring[m..] == k.log[|k.log| - Gap(run)..];
    FrameMinimum(k.base, lost, ring[..m], ring[m..], Least(run));
  }

  lemma MinPosNone()
    ensures MinPos([]) == None
  {
  }

  lemma MinPosOne(s: Sample)
    ensures MinPos([s]) == if s.v > 0.0 then Some(s.v) else None
  {
    assert [s][..0] == [];
  }

  lemma {:induction false} PutAccounts(cap: nat, run: seq<Event>, s: Sample)
    requires Accounted(cap, run)
    ensures Accounted(cap, run + [Put(s)])
  {
    hide MinPos;
    var k := After(cap, run);
    assert (run + [Put(s)])[..|run|] == run;
    var new' := k.log[|k.log| - Gap(run)..];
    MinPosOne(s);
    MinPosConcat(new', [s]);
    MinPosConcat(k.log, [s]);
    assert (k.log + [s])[|k.log| - Gap(run)..] == new' + [s];
  }

  lemma {:induction false} AlwaysAccounted(cap: nat, run: seq<Event>)
    requires Paced(cap, run)
    ensures Accounted(cap, run)
  {
    hide MinPos, Framed;
    MinPosNone();
    if run != [] {
      var before, e := run[..|run| - 1], run[|run| - 1];
      AlwaysAccounted(cap, before);
      var k := After(cap, before);
      assert before + [e] == run;
      match e
      case Put(s) => PutAccounts(cap, before, s);
      case Seed(v) => SeedAccounts(cap, before, v);
      case _ => FrameOrRestartAccounts(cap, before, e);
    }
  }

  lemma {:induction false} SeedAccounts(cap: nat, run: seq<Event>, v: real)
    requires Accounted(cap, run)
    ensures Accounted(cap, run + [Seed(v)])
  {
    hide MinPos, After, Framed, Least, Gap;
    AfterSnoc(cap, run, Seed(v));
    var k := After(cap, run);
    var fresh' := MinPos(k.log[|k.log| - Gap(run)..]);
    MinWithSeed(k.base, fresh', Least(run), v);
  }

  lemma MinWithSeed(base: Option<real>, m: Option<real>, least: Option<real>, v: real)
    requires (base.Some? ==> base.value > 0.0) && MinOpt(base, m) == least
    ensures MinOpt(Seeded(base, v), m) == MinOpt(least, if v > 0.0 then Some(v) else None)
  {
  }

  /** How the specification functions go on by one event. */
  lemma AfterSnoc(cap: nat, run: seq<Event>, e: Event)
    ensures After(cap, run + [e]) == Step(cap, After(cap, run), e)
    ensures Least(run + [e]) == MinOpt(Least(run), match e
                                                   case Put(s) => if s.v > 0.0 then Some(s.v) else None
                                                   case Seed(v) => if v > 0.0 then Some(v) else None
                                                   case _ => None)
    ensures Gap(run + [e]) == if e.Put? then Gap(run) + 1 else if e.Seed? then Gap(run) else 0
  {
    assert (run + [e])[..|run|] == run;
  }

  lemma {:induction false} FrameOrRestartAccounts(cap: nat, run: seq<Event>, e: Event)
    requires Accounted(cap, run) && (e.Frame? || e.Restart?)
    requires Gap(run) <= cap && (e.Restart? ==> Gap(run) == 0)
    ensures Accounted(cap, run + [e])
  {
    hide MinPos, After, Framed, Least, Gap;
    var k := After(cap, run);
    AfterSnoc(cap, run, e);
    MinPosNone();
    assert k.log[|k.log|..] == [];
    if e.Frame? {
      FrameAccounts(cap, run);
      LeastIsPositive(run);
    }
  }

  lemma {:induction false} LeastIsPositive(run: seq<Event>)
    ensures Least(run).Some? ==> Least(run).value > 0.0
  {
    if run != [] { LeastIsPositive(run[..|run| - 1]); }
  }

  /** After each frame of a paced run the running minimum is the least positive value ever put or seeded. */
  lemma {:induction false} BaselineIsLeast(cap: nat, run: seq<Event>)
    requires Paced(cap, run + [Frame])
    ensures After(cap, run + [Frame]).base == Least(run)
  {
    assert (run + [Frame])[..|run|] == run;
    AlwaysAccounted(cap, run);
    FrameAccounts(cap, run);
  }

  /** The reference of a frame is the least positive value ever put or seeded, but at least half a millisecond. */
  lemma {:induction false} ReferenceIsFlooredLeast(cap: nat, run: seq<Event>)
    requires Paced(cap, run + [Frame])
    ensures var reference := Floored(After(cap, run + [Frame]).base);
            match Least(run)
            case None => reference == 0.5
            case Some(v) => reference >= 0.5 && reference >= v && (reference == 0.5 || reference == v)
  {
    hide After, Least;
    BaselineIsLeast(cap, run);
  }

  lemma {:induction false} LeastConcat(a: seq<Event>, b: seq<Event>)
    ensures Least(a + b) == MinOpt(Least(a), Least(b))
  {
    if b == [] {
      assert a + b == a;
    } else {
      assert (a + b)[..|a + b| - 1] == a + b[..|b| - 1];
      LeastConcat(a, b[..|b| - 1]);
    }
  }

  /** Seeding late, or restarting in between, makes no difference. */
  lemma {:induction false} LateSeedAndRestart(cap: nat, a: seq<Event>, b: seq<Event>, v: real)
    requires Paced(cap, a + [Seed(v)] + b + [Frame]) && Paced(cap, a + [Restart] + b + [Seed(v)] + [Frame])
    ensures After(cap, a + [Seed(v)] + b + [Frame]).base == After(cap, a + [Restart] + b + [Seed(v)] + [Frame]).base
  {
    BaselineIsLeast(cap, a + [Seed(v)] + b);
    BaselineIsLeast(cap, a + [Restart] + b + [Seed(v)]);
    LeastConcat(a, [Seed(v)]);
    LeastConcat(a + [Seed(v)], b);
    LeastConcat(a, [Restart]);
    LeastConcat(a + [Restart], b);
    LeastConcat(a + [Restart] + b, [Seed(v)]);
    assert [Restart][..0] == [] && [Seed(v)][..0] == [];
  }

  /** A pattern without its values: the same events in the same order. */
  predicate SameShape(a: seq<Event>, b: seq<Event>) {
    |a| == |b|
    && forall i :: 0 <= i < |a| ==>
         (a[i].Put? <==> b[i].Put?) && (a[i].Seed? <==> b[i].Seed?) && (a[i].Frame? <==> b[i].Frame?)
  }

  lemma {:induction false} ShapePaces(cap: nat, a: seq<Event>, b: seq<Event>)
    requires SameShape(a, b)
    ensures Gap(a) == Gap(b) && (Paced(cap, a) <==> Paced(cap, b))
  {
    if a != [] {
      ShapePaces(cap, a[..|a| - 1], b[..|b| - 1]);
    }
  }

  const LO := Sample(0, 1.0)
  const HI := Sample(0, 2.0)

  /** `e` with the value of `s` in place of its own. */
  function Revalued(e: Event, s: Sample): Event {
    match e
    case Put(_) => Put(s)
    case Seed(_) => Seed(s.v)
    case _ => e
  }

  /** Every value of `run` replaced by the high one. */
  function AllHigh(run: seq<Event>): seq<Event> {
    seq(|run|, i requires 0 <= i < |run| => Revalued(run[i], HI))
  }

  predicate IsHigh(m: Option<real>) {
    m == None || m == Some(HI.v)
  }

  ghost predicate Highs(s: seq<Sample>) {
    forall i :: 0 <= i < |s| ==> s[i] == HI
  }

  lemma {:induction false} HighsMin(s: seq<Sample>)
    requires Highs(s)
    ensures IsHigh(MinPos(s))
  {
    if s != [] { HighsMin(s[..|s| - 1]); }
  }

  /** A step with a high value, which sees high values only, keeps the running minimum high. */
  lemma {:induction false} HighStep(cap: nat, k: KeyState, e: Event)
    requires IsHigh(k.base) && (e.Frame? ==> Highs(Tail(k.log, cap)))
    ensures var k' := Step(cap, k, Revalued(e, HI));
            IsHigh(k'.base) && k'.log == if e.Put? then k.log + [HI] else if e.Restart? then [] else k.log
  {
    hide MinPos, Highs, Tail;
    if e.Frame? { HighsMin(Tail(k.log, cap)); }
  }

  lemma LeastOfNothing()
    ensures Least([]) == None
  {
  }

  lemma {:induction false} LeastRevalued(run: seq<Event>, e: Event)
    ensures Least(run + [Revalued(e, HI)]) == if e.Put? || e.Seed? then MinOpt(Least(run), Some(HI.v)) else Least(run)
  {
    assert (run + [Revalued(e, HI)])[..|run|] == run;
  }

  lemma {:induction false} AllHighIsHigh(cap: nat, run: seq<Event>)
    ensures var k := After(cap, AllHigh(run)); IsHigh(k.base) && Highs(k.log) && IsHigh(Least(AllHigh(run)))
    ensures SameShape(run, AllHigh(run))
  {
    hide MinPos, Step, Least;
    LeastOfNothing();
    if run != [] {
      var init, e := run[..|run| - 1], run[|run| - 1];
      AllHighIsHigh(cap, init);
      assert AllHigh(run) == AllHigh(init) + [Revalued(e, HI)];
      AfterSnoc(cap, AllHigh(init), Revalued(e, HI));
      LeastRevalued(AllHigh(init), e);
      HighStep(cap, After(cap, AllHigh(init)), e);
    }
  }

  /** The low put is in the log, `gap` entries from the end, and nothing else has shown it yet. */
  ghost predicate Marked(cap: nat, low: seq<Event>, gap: nat) {
    var k := After(cap, low);
    Least(low) == Some(LO.v) && IsHigh(k.base) && 0 < gap <= |k.log| && Highs(k.log[|k.log| - gap + 1..])
  }

  lemma {:induction false} MarkedStep(cap: nat, low: seq<Event>, gap: nat, e: Event)
    requires Marked(cap, low, gap) && (e.Put? || e.Seed?)
    ensures Marked(cap, low + [Revalued(e, HI)], if e.Put? then gap + 1 else gap)
  {
    hide MinPos, Least, Step;
    var log := After(cap, low).log;
    AfterSnoc(cap, low, Revalued(e, HI));
    LeastRevalued(low, e);
    HighStep(cap, After(cap, low), e);
    assert (log + [HI])[|log| - gap + 1..] == log[|log| - gap + 1..] + [HI];
  }

  /** The first put since the last frame or restart made the only low one: it is still unseen. */
  lemma {:induction false} MarkFirst(cap: nat, run: seq<Event>) returns (low: seq<Event>)
    requires Gap(run) > 0
    ensures SameShape(run, low) && Marked(cap, low, Gap(run))
  {
    hide Marked;
    var init, e := run[..|run| - 1], run[|run| - 1];
    if Gap(init) == 0 {
      low := AllHigh(init) + [Put(LO)];
      StartMark(cap, init);
    } else {
      var before := MarkFirst(cap, init);
      MarkedStep(cap, before, Gap(init), e);
      low := before + [Revalued(e, HI)];
    }
  }

  lemma {:induction false} StartMark(cap: nat, init: seq<Event>)
    ensures Marked(cap, AllHigh(init) + [Put(LO)], 1) && SameShape(init, AllHigh(init))
  {
    hide MinPos;
    AllHighIsHigh(cap, init);
    AfterSnoc(cap, AllHigh(init), Put(LO));
  }

  /** The minimum was lost: it is neither in the running minimum nor in what the next frame will see. */
  ghost predicate Lost(cap: nat, low: seq<Event>) {
    var k := After(cap, low);
    Least(low) == Some(LO.v) && IsHigh(k.base) && Highs(Tail(k.log, cap))
  }

  /** Nothing later brings it back. */
  lemma {:induction false} LostStays(cap: nat, low: seq<Event>, e: Event)
    requires Lost(cap, low)
    ensures Lost(cap, low + [Revalued(e, HI)])
  {
    hide MinPos, Least, Step;
    AfterSnoc(cap, low, Revalued(e, HI));
    LeastRevalued(low, e);
    HighStep(cap, After(cap, low), e);
  }

  /** A frame that does not reach back to the marked put, or a restart before any frame, loses it. */
  lemma {:induction false} MarkedIsLost(cap: nat, low: seq<Event>, gap: nat, e: Event)
    requires Marked(cap, low, gap) && (e.Restart? || (e.Frame? && gap > cap))
    ensures Lost(cap, low + [e])
  {
    hide MinPos, Least, Step;
    AfterSnoc(cap, low, Revalued(e, HI));
    LeastRevalued(low, e);
    HighStep(cap, After(cap, low), e);
  }

  lemma {:induction false} UnpacedLoses(cap: nat, run: seq<Event>) returns (low: seq<Event>)
    requires !Paced(cap, run)
    ensures SameShape(run, low) && Lost(cap, low)
  {
    hide Lost, Marked;
    var init, e := run[..|run| - 1], run[|run| - 1];
    if !Paced(cap, init) {
      var before := UnpacedLoses(cap, init);
      LostStays(cap, before, e);
      low := before + [Revalued(e, HI)];
    } else {
      var before := MarkFirst(cap, init);
      MarkedIsLost(cap, before, Gap(init), e);
      low := before + [e];
    }
  }

  /** Which patterns keep the minimum whatever the values: exactly the paced ones. */
  lemma {:induction false} ExactIffPaced(cap: nat, run: seq<Event>)
    ensures (forall r :: SameShape(run, r) ==> After(cap, r + [Frame]).base == Least(r))
            <==> Paced(cap, run + [Frame])
  {
    if Paced(cap, run + [Frame]) {
      forall r | SameShape(run, r) ensures After(cap, r + [Frame]).base == Least(r) {
        ShapePaces(cap, run + [Frame], r + [Frame]);
        BaselineIsLeast(cap, r);
      }
    } else {
      var low := UnpacedLoses(cap, run + [Frame]);
      var r := low[..|run|];
      assert low == r + [Frame];
      AfterSnoc(cap, r, Frame);
      assert SameShape(run, r);
    }
  }

  /** Every frame of `run` left the least positive value so far. */
  ghost predicate FramesExact(cap: nat, run: seq<Event>) {
    forall k :: 0 <= k < |run| && run[k].Frame? ==> After(cap, run[..k + 1]).base == Least(run[..k + 1])
  }

  lemma {:induction false} PacedPrefix(cap: nat, run: seq<Event>, n: nat)
    requires Paced(cap, run) && n <= |run|
    ensures Paced(cap, run[..n])
  {
    if n < |run| {
      PacedPrefix(cap, run[..|run| - 1], n);
      assert run[..|run| - 1][..n] == run[..n];
    } else {
      assert run[..n] == run;
    }
  }

  /** The same for all frames at once: a pattern that ends with a frame keeps every one exact iff it is paced. */
  lemma {:induction false} AllExactIffPaced(cap: nat, run: seq<Event>)
    ensures (forall r :: SameShape(run + [Frame], r) ==> FramesExact(cap, r)) <==> Paced(cap, run + [Frame])
  {
    hide After, Least, Paced, SameShape;
    ExactIffPaced(cap, run);
    if Paced(cap, run + [Frame]) {
      forall r: seq<Event>, k: nat | SameShape(run + [Frame], r) && k < |r| && r[k].Frame?
        ensures After(cap, r[..k + 1]).base == Least(r[..k + 1])
      {
        FrameExact(cap, run, r, k);
      }
    } else {
      var r :| SameShape(run, r) && After(cap, r + [Frame]).base != Least(r);
      LastFrameInexact(cap, run, r);
    }
  }

  lemma {:induction false} LastFrameInexact(cap: nat, run: seq<Event>, r: seq<Event>)
    requires SameShape(run, r) && After(cap, r + [Frame]).base != Least(r)
    ensures SameShape(run + [Frame], r + [Frame]) && !FramesExact(cap, r + [Frame])
  {
    hide After, Least;
    var all, n := r + [Frame], |r|;
    AfterSnoc(cap, r, Frame);
    assert all[..n + 1] == all && all[n] == Frame;
  }

  lemma {:induction false} FrameExact(cap: nat, run: seq<Event>, r: seq<Event>, k: nat)
    requires Paced(cap, run + [Frame]) && SameShape(run + [Frame], r) && k < |r| && r[k].Frame?
    ensures After(cap, r[..k + 1]).base == Least(r[..k + 1])
  {
    ShapePaces(cap, run + [Frame], r);
    PacedPrefix(cap, r, k + 1);
    assert r[..k + 1] == r[..k] + [Frame];
    BaselineIsLeast(cap, r[..k]);
    AfterSnoc(cap, r[..k], Frame);
  }

  function Repeat(s: Sample, n: nat): seq<Event> {
    if n == 0 then [] else Repeat(s, n - 1) + [Put(s)]
  }

  lemma {:induction false} LowThenHighs(cap: nat, lo: Sample, hi: Sample, n: nat)
    requires 0.0 < lo.v < hi.v
    ensures var run := [Put(lo)] + Repeat(hi, n);
            After(cap, run) == KeyState([lo] + seq(n, _ => hi), None) && Least(run) == Some(lo.v)
  {
    if n == 0 {
      AfterSnoc(cap, [], Put(lo));
    } else {
      LowThenHighs(cap, lo, hi, n - 1);
      assert [Put(lo)] + Repeat(hi, n) == [Put(lo)] + Repeat(hi, n - 1) + [Put(hi)];
      AfterSnoc(cap, [Put(lo)] + Repeat(hi, n - 1), Put(hi));
    }
  }

  lemma {:induction false} MinOfSame(s: Sample, n: nat)
    requires s.v > 0.0
    ensures MinPos(seq(n, _ => s)) == if n == 0 then None else Some(s.v)
  {
    if n > 0 {
      MinOfSame(s, n - 1);
      assert seq(n, _ => s)[..n - 1] == seq(n - 1, _ => s);
    }
  }

  /** For a store of any capacity: one low put followed by as many high ones as it holds, and the low one is gone. */
  lemma {:induction false} EvictionNeedsPacing(cap: nat, lo: Sample, hi: Sample)
    requires 0.0 < lo.v < hi.v && cap >= 1
    ensures var run := [Put(lo)] + Repeat(hi, cap);
            After(cap, run + [Frame]).base == Some(hi.v) && Least(run + [Frame]) == Some(lo.v)
  {
    var run := [Put(lo)] + Repeat(hi, cap);
    LowThenHighs(cap, lo, hi, cap);
    AfterSnoc(cap, run, Frame);
    assert Tail([lo] + seq(cap, _ => hi), cap) == seq(cap, _ => hi);
    MinOfSame(hi, cap);
  }
}
