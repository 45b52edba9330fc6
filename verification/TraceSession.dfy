/**
 * The one shared trace session. Requests set and clear it while probes, which run
 * outside the lock, complete at any later time. `Manager` is the object; `Step` is
 * the same machine with every locked section one atomic event, so that statements
 * about all interleavings are statements about all event sequences.
 */
module TraceSession {
  import opened Prelude
  import opened Topology
  import opened Trace

  /** What a manager knows of the topology. */
  datatype Config = Config(ias: map<int, string>, linkByIf: map<Key, string>, asSet: set<int>)

  /** The fields guarded by the lock. */
  datatype State = State(sess: Option<Session>, vm: Option<TraceVm>, latest: Option<ProbeResult>)

  predicate Acceptable(c: Config, s: Session) {
    s.src in c.asSet && s.dst in c.asSet && s.src != s.dst
  }

  function PendingVm(c: Config, s: Session): TraceVm {
    TraceVm(Name(c.ias, s.src), Name(c.ias, s.dst), "", s.fingerprint == "", [], true, "", 0, 0.0, [])
  }

  function SetTo(c: Config, m: State, s: Session): State {
    if Acceptable(c, s) then State(Some(s), Some(PendingVm(c, s)), None) else m
  }

  /** The view model an error leaves behind: everything but the health fields is kept. */
  function Flagged(c: Config, m: State, s: Session, error: string, now: int): TraceVm {
    var vm := if m.vm.Some? then m.vm.value else PendingVm(c, s);
    vm.(ok := false, error := error, updatedAt := now)
  }

  /** The second locked section of a tick: the probe for `s` came back. */
  function Finished(c: Config, m: State, s: Session, outcome: Result<ProbeResult>, now: int): State {
    if m.sess != Some(s) then m
    else
      var vm := match outcome
                case Err(e) => Err(e)
                case Ok(res) => VmOf(c.ias, c.linkByIf, s, res, now);
      match vm
      case Err(e) => m.(vm := Some(Flagged(c, m, s, e, now)))
      case Ok(v) => m.(vm := Some(v), latest := Some(outcome.value))
  }

  class Manager {
    const config: Config
    var sess: Option<Session>
    var vm: Option<TraceVm>
    var latest: Option<ProbeResult>
    var inFlight: bool

    ghost function Guarded(): State
      reads this
    {
      State(sess, vm, latest)
    }

    constructor (config: Config)
      ensures Guarded() == State(None, None, None) && !inFlight && this.config == config
    {
      this.config := config;
      sess, vm, latest, inFlight := None, None, None, false;
    }

    method Set(src: int, dst: int, fingerprint: string) returns (ok: bool)
      modifies this`sess, this`vm, this`latest
      ensures ok <==> src in config.asSet && dst in config.asSet && src != dst
      ensures Guarded() == SetTo(config, old(Guarded()), Session(src, dst, fingerprint))
    {
      if src !in config.asSet || dst !in config.asSet || src == dst {
        return false;
      }
      sess := Some(Session(src, dst, fingerprint));
      vm := Some(TraceVm(Name(config.ias, src), Name(config.ias, dst), "", fingerprint == "", [], true, "",
                         0, 0.0, []));
      latest := None;
      ok := true;
    }

    method Clear()
      modifies this`sess, this`vm, this`latest
      ensures Guarded() == State(None, None, None)
    {
      sess, vm, latest := None, None, None;
    }

    /** The ticker's look under the lock. */
    method Active() returns (active: bool)
      ensures active == sess.Some?
    {
      active := sess.Some?;
    }

    /** The ticker's compare-and-swap, after a look that found a session: one tick of its own at a time. */
    method ClaimTick() returns (start: bool)
      modifies this`inFlight
      ensures start == !old(inFlight) && inFlight
    {
      if inFlight {
        return false;
      }
      inFlight := true;
      start := true;
    }

    /** The ticker's part of one round when nothing else happens in between. */
    method TryTick() returns (start: bool)
      modifies this`inFlight
      ensures start == (sess.Some? && !old(inFlight))
      ensures inFlight == (old(inFlight) || sess.Some?)
    {
      var active := Active();
      if !active {
        return false;
      }
      start := ClaimTick();
    }

    /** First locked section of a tick: the session is copied. */
    method TickBegin() returns (s: Option<Session>)
      ensures s == sess
    {
      s := sess;
    }

    /** A whole tick during which nothing else happens; without a session it does nothing. */
    method TickOnce(outcome: Result<ProbeResult>, now: int)
      modifies this`vm, this`latest
      ensures Guarded() == if old(sess).None? then old(Guarded())
                           else Finished(config, old(Guarded()), old(sess).value, outcome, now)
    {
      hide Finished;
      var s := TickBegin();
      if s.None? {
        return;
      }
      TickFinish(s.value, outcome, now);
    }

    /** Second locked section of a tick. */
    method TickFinish(s: Session, outcome: Result<ProbeResult>, now: int)
      modifies this`vm, this`latest
      ensures Guarded() == Finished(config, old(Guarded()), s, outcome, now)
    {
      hide VmOf;
      if sess != Some(s) {
        return;
      }
      var built: Result<TraceVm>;
      if outcome.Ok? {
        built := BuildVm(config.ias, config.linkByIf, s, outcome.value, now);
      } else {
        built := Err(outcome.error);
      }
      if built.Err? {
        if vm.None? {
          vm := Some(TraceVm(Name(config.ias, s.src), Name(config.ias, s.dst), "", s.fingerprint == "", [], true, "",
                             0, 0.0, []));
        }
        vm := Some(vm.value.(ok := false, error := built.error, updatedAt := now));
        return;
      }
      vm := Some(built.value);
      latest := Some(outcome.value);
    }
  }

  // ---------------------------------------------------------------- interleavings

  /** One call of TickOnce: about to copy the session, or with its probe on the wire. */
  datatype Call = Waiting | Probing(sess: Session)

  /**
   * The manager, its overlap guard, whether the ticker found a session and is about to claim a tick, and every
   * outstanding tick; `ticker` holds those the ticker started.
   */
  datatype World = World(m: State, inFlight: bool, armed: bool, calls: map<nat, Call>, ticker: set<nat>)

  datatype Event =
    | SetReq(s: Session)
    | ClearReq
    | TickerLooks
    | TickerClaims(id: nat)
    | TickCalled(id: nat)
    | Begin(id: nat)
    | Finish(id: nat, outcome: Result<ProbeResult>, now: int)

  function Returned(w: World, id: nat): World {
    w.(calls := w.calls - {id}, ticker := w.ticker - {id}, inFlight := w.inFlight && id !in w.ticker)
  }

  /** One event; an event that cannot happen changes nothing. */
  function Step(c: Config, w: World, e: Event): World {
    match e
    case SetReq(s) => w.(m := SetTo(c, w.m, s))
    case ClearReq => w.(m := State(None, None, None))
    case TickerLooks => w.(armed := w.armed || w.m.sess.Some?)
    case TickerClaims(id) =>
      if !w.armed || id in w.calls then w
      else if w.inFlight then w.(armed := false)
      else w.(armed := false, inFlight := true, calls := w.calls[id := Waiting], ticker := w.ticker + {id})
    case TickCalled(id) => if id in w.calls then w else w.(calls := w.calls[id := Waiting])
    case Begin(id) =>
      if Lookup(w.calls, id) != Some(Waiting) then w
      else if w.m.sess.None? then Returned(w, id)
      else w.(calls := w.calls[id := Probing(w.m.sess.value)])
    case Finish(id, outcome, now) =>
      if id !in w.calls || w.calls[id].Waiting? then w
      else Returned(w.(m := Finished(c, w.m, w.calls[id].sess, outcome, now)), id)
  }

  const INITIAL := World(State(None, None, None), false, false, map[], {})

  /** The world after a sequence of events. */
  function After(c: Config, run: seq<Event>): World {
    if run == [] then INITIAL else Step(c, After(c, run[..|run| - 1]), run[|run| - 1])
  }

  /** The view model without its health fields. */
  function Content(vm: TraceVm): TraceVm {
    vm.(ok := true, error := "", updatedAt := 0)
  }

  ghost predicate Consistent(c: Config, m: State) {
    match m.sess
    case None => m.vm.None? && m.latest.None?
    case Some(s) =>
      Acceptable(c, s) && m.vm.Some?
      && (m.latest.None? ==> Content(m.vm.value) == PendingVm(c, s))
      && (m.latest.Some? ==> VmOf(c.ias, c.linkByIf, s, m.latest.value, 0) == Ok(Content(m.vm.value)))
  }

  /** The overlap guard is up exactly while the one tick the ticker started is outstanding. */
  ghost predicate Guard(w: World) {
    |w.ticker| == (if w.inFlight then 1 else 0) && w.ticker <= w.calls.Keys
  }

  lemma VmOfLater(c: Config, s: Session, res: ProbeResult, now: int)
    requires VmOf(c.ias, c.linkByIf, s, res, now).Ok?
    ensures VmOf(c.ias, c.linkByIf, s, res, 0) == Ok(Content(VmOf(c.ias, c.linkByIf, s, res, now).value))
  {
    hide PairedLinks, Egress, Name;
  }

  lemma {:induction false} FinishedConsistent(c: Config, m: State, s: Session, outcome: Result<ProbeResult>, now: int)
    requires Consistent(c, m)
    ensures Consistent(c, Finished(c, m, s, outcome, now))
    ensures m.sess == Some(s) ==> m.vm.Some?
  {
    hide VmOf;
    if m.sess == Some(s) && outcome.Ok? && VmOf(c.ias, c.linkByIf, s, outcome.value, now).Ok? {
      VmOfLater(c, s, outcome.value, now);
    }
  }

  lemma {:induction false} ReturnedGuard(w: World, id: nat)
    requires Guard(w)
    ensures Guard(Returned(w, id))
  {
    if id in w.ticker {
      assert w.ticker - {id} == {} by {
        assert |w.ticker - {id}| == |w.ticker| - 1;
      }
    } else {
      assert w.ticker - {id} == w.ticker;
    }
  }

  lemma {:induction false} StepConsistent(c: Config, w: World, e: Event)
    requires Consistent(c, w.m)
    ensures Consistent(c, Step(c, w, e).m)
  {
    hide VmOf, Name, Finished;
    if e.Finish? && e.id in w.calls && w.calls[e.id].Probing? {
      FinishedConsistent(c, w.m, w.calls[e.id].sess, e.outcome, e.now);
    }
  }

  lemma {:induction false} StepGuard(c: Config, w: World, e: Event)
    requires Guard(w)
    ensures Guard(Step(c, w, e))
  {
    hide Finished, SetTo, Returned;
    match e
    case Finish(id, outcome, now) =>
      if id in w.calls && w.calls[id].Probing? {
        ReturnedGuard(w.(m := Finished(c, w.m, w.calls[id].sess, outcome, now)), id);
      }
    case Begin(id) => ReturnedGuard(w, id);
    case TickerClaims(id) => if !w.inFlight { assert w.ticker == {} && |w.ticker + {id}| == 1; }
    case _ =>
  }

  /**
   * After every interleaving the view model exists exactly when a session does and names that session; what it
   * shows is the pending form or is derived from `latest` alone; and at most one tick of the ticker is outstanding.
   */
  lemma {:induction false} AlwaysConsistent(c: Config, run: seq<Event>)
    ensures Consistent(c, After(c, run).m) && Guard(After(c, run))
  {
    hide VmOf, Name, Step;
    if run != [] {
      var w, e := After(c, run[..|run| - 1]), run[|run| - 1];
      AlwaysConsistent(c, run[..|run| - 1]);
      StepConsistent(c, w, e);
      StepGuard(c, w, e);
    }
  }

  /** A view model always names the current session, whatever happened to the probes. */
  lemma {:induction false} NamesCurrentSession(c: Config, run: seq<Event>)
    ensures var m := After(c, run).m;
            (m.vm.Some? <==> m.sess.Some?)
            && (m.vm.Some? ==> m.vm.value.src == Name(c.ias, m.sess.value.src)
                               && m.vm.value.dst == Name(c.ias, m.sess.value.dst)
                               && m.vm.value.auto == (m.sess.value.fingerprint == ""))
  {
    hide Name, PairedLinks, Egress;
    AlwaysConsistent(c, run);
  }

  // ---------------------------------------------------------------- what the view model shows

  /** The request leaves nothing of what was shown before. */
  predicate Resets(c: Config, e: Event) {
    e.ClearReq? || (e.SetReq? && e.s.src in c.asSet && e.s.dst in c.asSet && e.s.src != e.s.dst)
  }

  /** Event `k` delivers a probe for session `s` while that is the current one. */
  ghost predicate Delivers(c: Config, run: seq<Event>, k: nat, s: Session) {
    k < |run| && run[k].Finish? && Lookup(After(c, run[..k]).calls, run[k].id) == Some(Probing(s))
    && After(c, run[..k]).m.sess == Some(s)
  }

  /** And no later event delivers another one, or resets the session. */
  ghost predicate LastDelivery(c: Config, run: seq<Event>, k: nat, s: Session) {
    Delivers(c, run, k, s)
    && forall j :: k < j < |run| ==> !Resets(c, run[j]) && !DeliversSome(c, run, j)
  }

  ghost predicate DeliversSome(c: Config, run: seq<Event>, k: nat) {
    exists s :: Delivers(c, run, k, s)
  }

  /** Why a delivery gives no view model, if it does not: the probe failed, or its result does not fit the topology. */
  function Failure(c: Config, s: Session, outcome: Result<ProbeResult>): Option<string> {
    match outcome
    case Err(e) => Some(e)
    case Ok(res) => match VmOf(c.ias, c.linkByIf, s, res, 0) case Err(e) => Some(e) case Ok(_) => None
  }

  lemma VmErrsAlike(c: Config, s: Session, res: ProbeResult, now: int)
    ensures VmOf(c.ias, c.linkByIf, s, res, now).Ok? <==> VmOf(c.ias, c.linkByIf, s, res, 0).Ok?
    ensures VmOf(c.ias, c.linkByIf, s, res, now).Err? ==>
              VmOf(c.ias, c.linkByIf, s, res, now) == VmOf(c.ias, c.linkByIf, s, res, 0)
  {
    hide PairedLinks, Egress, Name;
  }

  /** Only deliveries and resets change what the manager holds. */
  lemma {:induction false} OthersChangeNothing(c: Config, run: seq<Event>)
    requires run != [] && !Resets(c, run[|run| - 1]) && !DeliversSome(c, run, |run| - 1)
    ensures After(c, run).m == After(c, run[..|run| - 1]).m
  {
    hide VmOf, Name;
    var n := |run| - 1;
    var w, e := After(c, run[..n]), run[n];
    if e.Finish? && e.id in w.calls && w.calls[e.id].Probing? && w.m.sess == Some(w.calls[e.id].sess) {
      DeliveryIs(c, run, w.calls[e.id].sess);
    }
  }

  lemma DeliveryIs(c: Config, run: seq<Event>, s: Session)
    requires run != [] && run[|run| - 1].Finish?
    requires Lookup(After(c, run[..|run| - 1]).calls, run[|run| - 1].id) == Some(Probing(s))
    requires After(c, run[..|run| - 1]).m.sess == Some(s)
    ensures DeliversSome(c, run, |run| - 1)
  {
    assert Delivers(c, run, |run| - 1, s);
  }

  /** What a manager shows right after a delivery of `outcome` for session `s`, having shown `before`. */
  ghost predicate ShowsDelivery(c: Config, s: Session, outcome: Result<ProbeResult>, now: int, before: State, m: State)
  {
    m.sess == Some(s) && before.vm.Some? && m.vm.Some? && m.vm.value.updatedAt == now
    && match Failure(c, s, outcome)
       case Some(e) =>
         !m.vm.value.ok && m.vm.value.error == e && Content(m.vm.value) == Content(before.vm.value)
         && m.latest == before.latest
       case None =>
         outcome.Ok? && PairedLinks(c.linkByIf, outcome.value.path.interfaces).Ok?
         && m.vm.value.ok && m.vm.value.error == "" && m.latest == Some(outcome.value)
         && ShowsProbe(m.vm.value, PairedLinks(c.linkByIf, outcome.value.path.interfaces).value, outcome.value)
  }

  lemma {:induction false} DeliveryShown(c: Config, run: seq<Event>, s: Session)
    requires run != [] && Delivers(c, run, |run| - 1, s)
    ensures var n := |run| - 1;
            ShowsDelivery(c, s, run[n].outcome, run[n].now, After(c, run[..n]).m, After(c, run).m)
  {
    hide VmOf, Name, ShowsProbe, PairedLinks;
    var n := |run| - 1;
    AlwaysConsistent(c, run[..n]);
    if run[n].outcome.Ok? {
      VmErrsAlike(c, s, run[n].outcome.value, run[n].now);
      VmShows(c.ias, c.linkByIf, s, run[n].outcome.value, run[n].now);
    }
  }

  lemma {:induction false} EarlierEvents(c: Config, run: seq<Event>, k: nat)
    requires k + 1 < |run|
    ensures DeliversSome(c, run, k) == DeliversSome(c, run[..|run| - 1], k)
    ensures forall s :: Delivers(c, run, k, s) <==> Delivers(c, run[..|run| - 1], k, s)
  {
    var init := run[..|run| - 1];
    assert init[..k] == run[..k];
    if s :| Delivers(c, run, k, s) { assert Delivers(c, init, k, s); }
    if s :| Delivers(c, init, k, s) { assert Delivers(c, run, k, s); }
  }

  /**
   * In every run, from a delivery to the next one or a reset, the view model shows that delivery: what the probe
   * reported, or, if it failed or does not fit, the error and its time on top of what was shown before.
   */
  lemma {:induction false} LastDeliveryShown(c: Config, run: seq<Event>, k: nat, s: Session)
    requires LastDelivery(c, run, k, s)
    ensures ShowsDelivery(c, s, run[k].outcome, run[k].now, After(c, run[..k]).m, After(c, run).m)
    decreases |run|
  {
    hide After, Delivers, ShowsDelivery, Resets;
    LastInside(c, run, k, s);
    var n := |run| - 1;
    if k == n {
      DeliveryShown(c, run, s);
    } else {
      forall j: nat | j < n ensures DeliversSome(c, run, j) == DeliversSome(c, run[..n], j) {
        EarlierEvents(c, run, j);
      }
      EarlierEvents(c, run, k);
      LastDeliveryShown(c, run[..n], k, s);
      OthersChangeNothing(c, run);
      assert run[..n][..k] == run[..k];
    }
  }

  /** Nothing was delivered since the session was set. */
  ghost predicate Pending(c: Config, run: seq<Event>) {
    !exists k, s :: LastDelivery(c, run, k, s)
  }

  /** Until the first delivery the view model is blank and healthy, and no result is kept. */
  lemma {:induction false} PendingShown(c: Config, run: seq<Event>)
    requires Pending(c, run) && After(c, run).m.sess.Some?
    ensures var m := After(c, run).m;
            m.latest.None? && m.vm.Some?
            && var v := m.vm.value;
               v.ok && v.error == "" && v.updatedAt == 0 && v.fingerprint == "" && v.pathLinks == [] && v.hops == []
               && v.probeRttMs == 0.0
  {
    hide VmOf, Name, LastDelivery, Delivers, After;
    var n := |run| - 1;
    RunNotEmpty(c, run);
    if Resets(c, run[n]) {
      ResetShown(c, run);
    } else {
      NotDelivered(c, run);
      forall k: nat, s | LastDelivery(c, run[..n], k, s) ensures false {
        StillLast(c, run, k, s);
      }
      OthersChangeNothing(c, run);
      PendingShown(c, run[..n]);
    }
  }

  lemma RunNotEmpty(c: Config, run: seq<Event>)
    requires After(c, run).m.sess.Some?
    ensures run != []
  {
  }

  lemma {:induction false} ResetShown(c: Config, run: seq<Event>)
    requires run != [] && Resets(c, run[|run| - 1])
    ensures var m := After(c, run).m;
            m.latest.None?
            && (m.sess.Some? ==>
                  m.vm.Some?
                  && var v := m.vm.value;
                     v.ok && v.error == "" && v.updatedAt == 0 && v.fingerprint == "" && v.pathLinks == []
                     && v.hops == [] && v.probeRttMs == 0.0)
  {
    hide VmOf, Name;
  }

  lemma {:induction false} NotDelivered(c: Config, run: seq<Event>)
    requires run != [] && Pending(c, run)
    ensures !DeliversSome(c, run, |run| - 1)
  {
    hide Delivers, After;
    if DeliversSome(c, run, |run| - 1) {
      var s :| Delivers(c, run, |run| - 1, s);
      LastEventDelivers(c, run, s);
    }
  }

  lemma LastEventDelivers(c: Config, run: seq<Event>, s: Session)
    requires run != [] && Delivers(c, run, |run| - 1, s)
    ensures LastDelivery(c, run, |run| - 1, s)
  {
  }

  lemma DeliversInside(c: Config, run: seq<Event>, k: nat, s: Session)
    requires Delivers(c, run, k, s)
    ensures k < |run|
  {
  }

  lemma {:induction false} StillLast(c: Config, run: seq<Event>, k: nat, s: Session)
    requires run != [] && LastDelivery(c, run[..|run| - 1], k, s)
    requires !Resets(c, run[|run| - 1]) && !DeliversSome(c, run, |run| - 1)
    ensures LastDelivery(c, run, k, s)
  {
    hide After, Resets, Delivers;
    DeliversInside(c, run[..|run| - 1], k, s);
    forall j: nat | j + 1 < |run| ensures DeliversSome(c, run, j) == DeliversSome(c, run[..|run| - 1], j) {
      EarlierEvents(c, run, j);
    }
    EarlierEvents(c, run, k);
  }

  /** So a view model is unhealthy exactly if the last delivery since the session was set failed or does not fit. */
  lemma {:induction false} UnhealthyExactly(c: Config, run: seq<Event>)
    requires After(c, run).m.sess.Some?
    ensures After(c, run).m.vm.Some?
    ensures !After(c, run).m.vm.value.ok
            <==> exists k, s :: LastDelivery(c, run, k, s) && FailsAt(c, run, k, s)
  {
    hide After, LastDelivery, Failure, ShowsProbe, PairedLinks;
    if Pending(c, run) {
      PendingShown(c, run);
    } else {
      var k: nat, s :| LastDelivery(c, run, k, s);
      LastDeliveryShown(c, run, k, s);
      forall k': nat, s' | LastDelivery(c, run, k', s') ensures k' == k && s' == s {
        OneLast(c, run, k, s, k', s');
      }
      LastInside(c, run, k, s);
    }
  }

  ghost predicate FailsAt(c: Config, run: seq<Event>, k: nat, s: Session) {
    k < |run| && run[k].Finish? && Failure(c, s, run[k].outcome).Some?
  }

  lemma LastInside(c: Config, run: seq<Event>, k: nat, s: Session)
    requires LastDelivery(c, run, k, s)
    ensures k < |run| && run[k].Finish?
  {
  }

  lemma {:induction false} OneLast(c: Config, run: seq<Event>, k: nat, s: Session, k': nat, s': Session)
    requires LastDelivery(c, run, k, s) && LastDelivery(c, run, k', s')
    ensures k == k' && s == s'
  {
    hide After;
    assert DeliversSome(c, run, k) && DeliversSome(c, run, k');
  }

  /** What is kept as the latest result is what the view model shows, whatever happened to health since. */
  lemma {:induction false} LatestShown(c: Config, run: seq<Event>, res: ProbeResult)
    requires After(c, run).m.latest == Some(res)
    ensures var m, paired := After(c, run).m, PairedLinks(c.linkByIf, res.path.interfaces);
            m.vm.Some? && paired.Ok? && ShowsProbe(m.vm.value, paired.value, res)
  {
    hide VmOf, Name, PairedLinks, Egress;
    AlwaysConsistent(c, run);
    var m := After(c, run).m;
    VmShows(c.ias, c.linkByIf, m.sess.value, res, 0);
  }

  /** A clear between the ticker's look and its claim starts a tick without a session. */
  lemma LateClear(c: Config, s: Session) returns (run: seq<Event>)
    requires Acceptable(c, s)
    ensures var w := After(c, run);
            w.m.sess.None? && w.inFlight && w.ticker == {0} && Lookup(w.calls, 0) == Some(Waiting)
  {
    assert After(c, []) == INITIAL;
    hide Name, Acceptable, VmOf, After;
    var m := SetTo(c, INITIAL.m, s);
    run := [];
    AfterOne(c, run, SetReq(s), INITIAL);
    run := run + [SetReq(s)];
    AfterOne(c, run, TickerLooks, INITIAL.(m := m));
    run := run + [TickerLooks];
    AfterOne(c, run, ClearReq, INITIAL.(m := m, armed := true));
    run := run + [ClearReq];
    AfterOne(c, run, TickerClaims(0), INITIAL.(armed := true));
    run := run + [TickerClaims(0)];
  }

  lemma AfterOne(c: Config, run: seq<Event>, e: Event, w: World)
    requires After(c, run) == w
    ensures After(c, run + [e]) == Step(c, w, e)
  {
    assert (run + [e])[..|run|] == run;
  }

  /** Such a tick returns at once: it takes the guard down and leaves the manager alone. */
  lemma {:induction false} TickWithoutSession(c: Config, run: seq<Event>, id: nat)
    requires Lookup(After(c, run).calls, id) == Some(Waiting) && After(c, run).m.sess.None?
    ensures var w, w' := After(c, run), After(c, run + [Begin(id)]);
            w'.m == w.m && id !in w'.calls && (id in w.ticker ==> !w'.inFlight && w'.ticker == {})
  {
    hide VmOf, Name;
    assert (run + [Begin(id)])[..|run|] == run;
    AlwaysConsistent(c, run);
    ReturnedGuard(After(c, run), id);
  }

  // ---------------------------------------------------------------- stale probes

  /** The session the last accepted request left behind. */
  function LastRequest(c: Config, run: seq<Event>): Option<Session> {
    if run == [] then None
    else
      var e := run[|run| - 1];
      if e.ClearReq? then None
      else if e.SetReq? && Acceptable(c, e.s) then Some(e.s)
      else LastRequest(c, run[..|run| - 1])
  }

  lemma {:induction false} SessionIsLastRequest(c: Config, run: seq<Event>)
    ensures After(c, run).m.sess == LastRequest(c, run)
  {
    hide VmOf, Name;
    if run != [] { SessionIsLastRequest(c, run[..|run| - 1]); }
  }

  /** A probe that finishes when the last request was a clear or asked for another session changes nothing. */
  lemma {:induction false} StaleFinishIsIgnored(c: Config, run: seq<Event>, id: nat, s: Session,
                                                outcome: Result<ProbeResult>, now: int)
    requires Lookup(After(c, run).calls, id) == Some(Probing(s))
    requires LastRequest(c, run) != Some(s)
    ensures After(c, run + [Finish(id, outcome, now)]).m == After(c, run).m
  {
    hide VmOf, Name;
    SessionIsLastRequest(c, run);
    assert (run + [Finish(id, outcome, now)])[..|run|] == run;
  }

  /** Tick `id` copied session `s` at position `k` and has not returned since. */
  ghost predicate BegunAt(c: Config, run: seq<Event>, k: nat, id: nat, s: Session) {
    k < |run| && run[k] == Begin(id) && After(c, run[..k]).m.sess == Some(s)
  }

  lemma {:induction false} ProbeBegan(c: Config, run: seq<Event>, id: nat, s: Session)
    requires Lookup(After(c, run).calls, id) == Some(Probing(s))
    ensures exists k :: BegunAt(c, run, k, id, s)
  {
    hide VmOf, Name;
    if run != [] {
      var n := |run| - 1;
      var before := run[..n];
      if Lookup(After(c, before).calls, id) == Some(Probing(s)) {
        ProbeBegan(c, before, id, s);
        var k: nat :| BegunAt(c, before, k, id, s);
        assert before[..k] == run[..k];
        assert BegunAt(c, run, k, id, s);
      } else {
        assert BegunAt(c, run, n, id, s);
      }
    }
  }

  /** Event `k` delivered `res` to tick `id`, whose probe was for `s`, and no accepted request came later. */
  ghost predicate DeliveredAt(c: Config, run: seq<Event>, k: nat, id: nat, s: Session, res: ProbeResult) {
    k < |run| && run[k].Finish? && run[k].id == id && run[k].outcome == Ok(res)
    && Lookup(After(c, run[..k]).calls, id) == Some(Probing(s))
    && forall j :: k <= j <= |run| ==> After(c, run[..j]).m.sess == Some(s)
  }

  /** A stored result came from a probe for a session equal to the current one, set before the probe came back. */
  lemma {:induction false} LatestProvenance(c: Config, run: seq<Event>, res: ProbeResult)
    requires After(c, run).m.latest == Some(res)
    ensures exists k, id, s :: DeliveredAt(c, run, k, id, s, res) && After(c, run).m.sess == Some(s)
    decreases |run|, 1
  {
    hide VmOf, Name;
    var n := |run| - 1;
    var before, e := run[..n], run[n];
    var w := After(c, before);
    AlwaysConsistent(c, before);
    assert run[..n + 1] == run && run[..n] == before;
    if e.Finish? && e.id in w.calls && w.calls[e.id].Probing? && w.m.sess == Some(w.calls[e.id].sess)
       && e.outcome == Ok(res) && After(c, run).m != w.m {
      var s := w.calls[e.id].sess;
      if w.m.latest == Some(res) && !VmOf(c.ias, c.linkByIf, s, res, e.now).Ok? {
        ExtendDelivery(c, run, res);
      } else {
        assert DeliveredAt(c, run, n, e.id, s, res);
      }
    } else {
      ExtendDelivery(c, run, res);
    }
  }

  lemma {:induction false} ExtendDelivery(c: Config, run: seq<Event>, res: ProbeResult)
    requires run != [] && After(c, run[..|run| - 1]).m.latest == Some(res)
    requires After(c, run).m.sess == After(c, run[..|run| - 1]).m.sess
    ensures exists k, id, s :: DeliveredAt(c, run, k, id, s, res) && After(c, run).m.sess == Some(s)
    decreases |run|, 0
  {
    hide VmOf, Name, Step;
    var n := |run| - 1;
    var before := run[..n];
    LatestProvenance(c, before, res);
    var k: nat, id, s :| DeliveredAt(c, before, k, id, s, res) && After(c, before).m.sess == Some(s);
    assert before[..k] == run[..k];
    forall j | k <= j <= |run| ensures After(c, run[..j]).m.sess == Some(s) {
      if j <= n { assert before[..j] == run[..j]; } else { assert run[..j] == run; }
    }
    assert DeliveredAt(c, run, k, id, s, res);
  }
}
