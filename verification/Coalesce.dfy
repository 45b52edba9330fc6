/**
 * The leading/trailing coalescer: the first call of a quiet period runs at once and
 * opens a window; calls inside the window are folded into one run when it closes.
 * Calls and timer fires interleave freely, and a run decided under the lock starts
 * at any later time.
 */
module Coalesce {
  import opened Prelude

  /** The fields under the lock: when the open window may close, and whether calls arrived in it. */
  datatype Guarded = Guarded(timer: Option<int>, dirty: bool)

  class Coalescer {
    const d: int
    var timer: Option<int>
    var dirty: bool

    ghost function State(): Guarded
      reads this
    {
      Guarded(timer, dirty)
    }

    constructor (d: int)
      ensures this.d == d && State() == IDLE
    {
      this.d := d;
      timer, dirty := None, false;
    }

    /** The locked part of a call; the caller runs f if told to. */
    method Call(now: int) returns (run: bool)
      modifies this
      ensures (State(), run) == Called(d, old(State()), now)
    {
      if timer.None? {
        timer := Some(now + d);
        return true;
      }
      dirty := true;
      run := false;
    }

    /** The locked part of the timer's function; it runs f if told to. */
    method Fire() returns (run: bool)
      modifies this
      ensures (State(), run) == Fired(old(State()))
    {
      run := dirty;
      dirty := false;
      timer := None;
    }
  }

  const IDLE := Guarded(None, false)

  function Called(d: int, g: Guarded, now: int): (Guarded, bool) {
    if g.timer.None? then (g.(timer := Some(now + d)), true) else (g.(dirty := true), false)
  }

  function Fired(g: Guarded): (Guarded, bool) {
    (IDLE, g.dirty)
  }

  // ---------------------------------------------------------------- runs of the machine

  datatype Event = CallAt(t: int) | FireAt(t: int) | Start

  /** A decision to run f: when it was made, and whether it opened a window. */
  datatype Decision = Decision(t: int, lead: bool)

  datatype World = World(g: Guarded, now: int, made: seq<Decision>, started: nat)

  const INITIAL := World(IDLE, 0, [], 0)

  /** Time does not run backwards, an open window is closed once it is due, and only decided runs start. */
  predicate Enabled(w: World, e: Event) {
    match e
    case CallAt(t) => t >= w.now
    case FireAt(t) => t >= w.now && w.g.timer.Some? && t >= w.g.timer.value
    case Start => w.started < |w.made|
  }

  function Step(d: int, w: World, e: Event): World {
    match e
    case CallAt(t) =>
      var (g, run) := Called(d, w.g, t);
      w.(g := g, now := t, made := if run then w.made + [Decision(t, true)] else w.made)
    case FireAt(t) =>
      var (g, run) := Fired(w.g);
      w.(g := g, now := t, made := if run then w.made + [Decision(t, false)] else w.made)
    case Start => w.(started := w.started + 1)
  }

  function After(d: int, run: seq<Event>): World {
    if run == [] then INITIAL else Step(d, After(d, run[..|run| - 1]), run[|run| - 1])
  }

  ghost predicate Possible(d: int, run: seq<Event>) {
    run == [] || (Possible(d, run[..|run| - 1]) && Enabled(After(d, run[..|run| - 1]), run[|run| - 1]))
  }

  /** No window is open and no decided run is waiting to start. */
  predicate Quiescent(w: World) {
    w.g.timer.None? && w.started == |w.made|
  }

  function Calls(run: seq<Event>): nat {
    if run == [] then 0 else Calls(run[..|run| - 1]) + (if run[|run| - 1].CallAt? then 1 else 0)
  }

  /** A window lasts; a trailing run is followed by a leading one. */
  ghost predicate Spaced(d: int, made: seq<Decision>) {
    forall i {:trigger made[i]} :: 0 <= i && i + 1 < |made| ==>
      made[i].t <= made[i + 1].t
      && (if made[i].lead then made[i + 1].t >= made[i].t + d else made[i + 1].lead)
  }

  ghost predicate Sound(d: int, w: World) {
    (w.g.dirty ==> w.g.timer.Some?)
    && w.started <= |w.made|
    && Spaced(d, w.made)
    && (w.made != [] ==>
          var last := w.made[|w.made| - 1];
          last.t <= w.now
          && match w.g.timer
             case Some(due) => last.lead && due == last.t + d
             case None => last.lead ==> last.t + d <= w.now)
    && (w.made == [] ==> w.g.timer.None?)
  }

  lemma {:induction false} SpacedSnoc(d: int, made: seq<Decision>, next: Decision)
    requires Spaced(d, made)
    requires made != [] ==> var last := made[|made| - 1];
                            last.t <= next.t && (if last.lead then next.t >= last.t + d else next.lead)
    ensures Spaced(d, made + [next])
  {
    var all := made + [next];
    forall i {:trigger all[i]} | 0 <= i && i + 1 < |all|
      ensures all[i].t <= all[i + 1].t && (if all[i].lead then all[i + 1].t >= all[i].t + d else all[i + 1].lead)
    {
      if i + 1 < |made| { assert all[i] == made[i] && all[i + 1] == made[i + 1]; }
    }
  }

  lemma {:induction false} StepSound(d: int, w: World, e: Event)
    requires d >= 0 && Sound(d, w) && Enabled(w, e)
    ensures Sound(d, Step(d, w, e))
  {
    hide Spaced;
    match e
    case CallAt(t) => if w.g.timer.None? { SpacedSnoc(d, w.made, Decision(t, true)); }
    case FireAt(t) => if w.g.dirty { SpacedSnoc(d, w.made, Decision(t, false)); }
    case Start =>
  }

  /** In every interleaving: dirty implies an open window, and the decisions are spaced. */
  lemma {:induction false} AlwaysSound(d: int, run: seq<Event>)
    requires d >= 0 && Possible(d, run)
    ensures Sound(d, After(d, run))
  {
    if run != [] {
      AlwaysSound(d, run[..|run| - 1]);
      StepSound(d, After(d, run[..|run| - 1]), run[|run| - 1]);
    }
  }

  /** Any half-open interval of length `d` holds at most two decisions to run. */
  lemma {:induction false} AtMostTwoPerWindow(d: int, run: seq<Event>, i: nat, x: int)
    requires d >= 0 && Possible(d, run) && i + 2 < |After(d, run).made|
    ensures var made := After(d, run).made;
            made[i].t <= made[i + 1].t <= made[i + 2].t && !(x <= made[i].t && made[i + 2].t < x + d)
  {
    AlwaysSound(d, run);
    var made := After(d, run).made;
    assert made[i].t <= made[i + 1].t && made[i + 1].t <= made[i + 2].t;
  }

  /** Runs never outnumber calls: every decision is paid for by a call, a trailing one by a call inside its window. */
  lemma {:induction false} RunsAreCalls(d: int, run: seq<Event>)
    requires d >= 0 && Possible(d, run)
    ensures |After(d, run).made| + (if After(d, run).g.dirty then 1 else 0) <= Calls(run)
    ensures After(d, run).started <= Calls(run)
  {
    hide Spaced;
    AlwaysSound(d, run);
    if run != [] { RunsAreCalls(d, run[..|run| - 1]); }
  }

  lemma {:induction false} CallIsOwed(d: int, run: seq<Event>, k: nat)
    requires d >= 0 && Possible(d, run) && k < |run| && run[k].CallAt?
    requires forall j :: k < j < |run| ==> !run[j].Start?
    ensures var w := After(d, run); w.g.dirty || w.started < |w.made|
  {
    hide Spaced;
    var before := run[..|run| - 1];
    AlwaysSound(d, before);
    if k < |run| - 1 {
      CallIsOwed(d, before, k);
    }
  }

  /** Each call is followed by a run that starts after it before the coalescer is quiescent again. */
  lemma {:induction false} EveryCallIsServed(d: int, run: seq<Event>, k: nat)
    requires d >= 0 && Possible(d, run) && k < |run| && run[k].CallAt?
    requires Quiescent(After(d, run))
    ensures exists j :: k < j < |run| && run[j] == Start
  {
    hide Spaced;
    AlwaysSound(d, run);
    if forall j :: k < j < |run| ==> !run[j].Start? {
      CallIsOwed(d, run, k);
    }
  }
}
