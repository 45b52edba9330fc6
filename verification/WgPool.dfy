/**
 * The pool of preconfigured WireGuard slots: claims are kept in memory and written to
 * a state file before a slot is handed out; processes fail, crash and restart, and
 * operators burn slots while none is running.
 */
module WgPool {
  import opened Prelude

  datatype Slot = Slot(n: int, ip: string, privateKey: string, publicKey: string)

  datatype ClaimRec = ClaimRec(n: int, asn: int, at: int)

  datatype State = State(claims: seq<ClaimRec>, burned: seq<int>)

  /** The state file: not there yet, readable, or damaged. */
  datatype File = Absent | Holds(state: State) | Damaged

  const EXHAUSTED := "wg conf pool exhausted"

  function Numbers(claims: seq<ClaimRec>): set<int> {
    set i | 0 <= i < |claims| :: claims[i].n
  }

  function Burned(s: State): set<int> {
    set i | 0 <= i < |s.burned| :: s.burned[i]
  }

  function Taken(s: State): set<int> {
    Numbers(s.claims) + Burned(s)
  }

  /** The first slot of the pool that is not taken. */
  function FirstFree(pool: seq<Slot>, taken: set<int>): (r: Option<Slot>)
    ensures r == None <==> forall i :: 0 <= i < |pool| ==> pool[i].n in taken
    ensures r.Some? ==> r.value in pool && r.value.n !in taken
  {
    if pool == [] then None
    else if pool[0].n !in taken then Some(pool[0])
    else FirstFree(pool[1..], taken)
  }

  /** First in the order of the pool. */
  lemma {:induction false} FirstFreeIsFirst(pool: seq<Slot>, taken: set<int>, i: nat)
    requires i < |pool| && pool[i].n !in taken && forall j :: 0 <= j < i ==> pool[j].n in taken
    ensures FirstFree(pool, taken) == Some(pool[i])
  {
    if i > 0 { FirstFreeIsFirst(pool[1..], taken, i - 1); }
  }

  // ---------------------------------------------------------------- the store

  /** The file as the store sees it. */
  class Disk {
    var file: File

    constructor (file: File)
      ensures this.file == file
    {
      this.file := file;
    }
  }

  /** How one attempt to persist ends. */
  datatype Persist = Stored | Refused(changed: bool)

  class Store {
    const pool: seq<Slot>
    const disk: Disk
    var state: State
    var taken: set<int>

    ghost predicate Valid()
      reads this
    {
      taken == Taken(state)
    }

    constructor Loaded(pool: seq<Slot>, disk: Disk, loaded: State)
      ensures this.pool == pool && this.disk == disk && state == loaded && Valid()
    {
      this.pool, this.disk, state := pool, disk, loaded;
      var t: set<int> := {};
      for i := 0 to |loaded.claims|
        invariant t == Numbers(loaded.claims[..i])
      {
        NumbersSnoc(loaded.claims[..i], loaded.claims[i]);
        assert loaded.claims[..i + 1] == loaded.claims[..i] + [loaded.claims[i]];
        t := t + {loaded.claims[i].n};
      }
      assert loaded.claims[..|loaded.claims|] == loaded.claims;
      for i := 0 to |loaded.burned|
        invariant t == Numbers(loaded.claims) + set k | 0 <= k < i :: loaded.burned[k]
      {
        t := t + {loaded.burned[i]};
      }
      taken := t;
    }

    static method Open(pool: seq<Slot>, disk: Disk) returns (r: Result<Store>)
      ensures r.Ok? <==> disk.file != Damaged
      ensures r.Ok? ==> r.value.Valid() && fresh(r.value) && r.value.pool == pool && r.value.disk == disk
      ensures r.Ok? ==> r.value.state == match disk.file case Holds(s) => s case _ => State([], [])
    {
      if disk.file == Damaged {
        return Err("wgpool: parse state");
      }
      var s := new Store.Loaded(pool, disk, if disk.file.Holds? then disk.file.state else State([], []));
      r := Ok(s);
    }

    method PersistLocked(outcome: Persist) returns (ok: bool)
      modifies disk
      ensures ok == outcome.Stored?
      ensures disk.file == if outcome == Refused(false) then old(disk.file) else Holds(state)
    {
      if outcome != Refused(false) {
        disk.file := Holds(state);
      }
      ok := outcome.Stored?;
    }

    /** A failed claim keeps its slot taken in this process, but hands out nothing. */
    method Claim(asn: int, now: int, outcome: Persist) returns (r: Result<Slot>)
      requires Valid()
      modifies this, disk
      ensures Valid()
      ensures var free := FirstFree(pool, old(taken));
              if free.None? then r == Err(EXHAUSTED) && state == old(state) && disk.file == old(disk.file)
              else
                state == old(state).(claims := old(state).claims + [ClaimRec(free.value.n, asn, now)])
                && disk.file == (if outcome == Refused(false) then old(disk.file) else Holds(state))
                && r == if outcome.Stored? then Ok(free.value) else Err("persist")
    {
      for i := 0 to |pool|
        invariant Valid() && state == old(state) && disk.file == old(disk.file) && taken == old(taken)
        invariant FirstFree(pool[i..], taken) == FirstFree(pool, taken)
      {
        var sl := pool[i];
        assert pool[i..][0] == sl && pool[i..][1..] == pool[i + 1..];
        if sl.n in taken {
          continue;
        }
        NumbersSnoc(state.claims, ClaimRec(sl.n, asn, now));
        taken := taken + {sl.n};
        state := state.(claims := state.claims + [ClaimRec(sl.n, asn, now)]);
        var ok := PersistLocked(outcome);
        if !ok {
          return Err("persist");
        }
        return Ok(sl);
      }
      r := Err(EXHAUSTED);
    }
  }

  lemma NumbersSnoc(claims: seq<ClaimRec>, c: ClaimRec)
    ensures Numbers(claims + [c]) == Numbers(claims) + {c.n}
  {
    var all := claims + [c];
    assert all[|claims|] == c && forall i :: 0 <= i < |claims| ==> all[i] == claims[i];
    forall n | n in Numbers(claims) ensures n in Numbers(all) {
      var i :| 0 <= i < |claims| && claims[i].n == n;
      assert all[i].n == n;
    }
    assert all[|claims|].n in Numbers(all);
  }

  // ---------------------------------------------------------------- failures, crashes, restarts

  /** A running process: its pool file and the claim state in memory. */
  datatype Process = Process(pool: seq<Slot>, state: State)

  datatype World = World(disk: State, proc: Option<Process>, handed: seq<int>)

  /** How a claim ends: as `Persist` says, or with a crash before or after the file was replaced. */
  datatype End = Persisted(p: Persist) | Crashed(changed: bool)

  datatype Event = Open(pool: seq<Slot>) | ClaimSlot(asn: int, at: int, end: End) | Crash | Burn(n: int)

  function Step(w: World, e: Event): World {
    match e
    case Open(pool) => if w.proc.Some? then w else w.(proc := Some(Process(pool, w.disk)))
    case Crash => w.(proc := None)
    case Burn(n) => if w.proc.Some? then w else w.(disk := w.disk.(burned := w.disk.burned + [n]))
    case ClaimSlot(asn, at, end) =>
      if w.proc.None? then w
      else
        var p := w.proc.value;
        var free := FirstFree(p.pool, Taken(p.state));
        if free.None? then w
        else
          var state := p.state.(claims := p.state.claims + [ClaimRec(free.value.n, asn, at)]);
          var disk := if end == Persisted(Refused(false)) || end == Crashed(false) then w.disk else state;
          World(disk, if end.Crashed? then None else Some(p.(state := state)),
                if end == Persisted(Stored) then w.handed + [free.value.n] else w.handed)
  }

  function After(run: seq<Event>): World {
    if run == [] then World(State([], []), None, []) else Step(After(run[..|run| - 1]), run[|run| - 1])
  }

  /** What has been handed out is on disk, once; a process knows at least what the disk knows. */
  ghost predicate Sound(w: World) {
    Distinct(w.handed)
    && (forall i :: 0 <= i < |w.handed| ==> w.handed[i] in Numbers(w.disk.claims))
    && (w.proc.Some? ==> w.proc.value.state.burned == w.disk.burned
                         && Numbers(w.disk.claims) <= Numbers(w.proc.value.state.claims))
  }

  lemma {:induction false} StepSound(w: World, e: Event)
    requires Sound(w)
    ensures Sound(Step(w, e))
  {
    hide Numbers, Burned;
    if e.ClaimSlot? && w.proc.Some? {
      var p := w.proc.value;
      var free := FirstFree(p.pool, Taken(p.state));
      if free.Some? {
        NumbersSnoc(p.state.claims, ClaimRec(free.value.n, e.asn, e.at));
        assert free.value.n !in w.handed;
        DistinctAppend(w.handed, [free.value.n]);
      }
    }
  }

  /** No slot number is handed out twice, and every handed-out slot is on disk, however processes fail and restart. */
  lemma {:induction false} NeverHandedTwice(run: seq<Event>)
    ensures Sound(After(run))
  {
    if run != [] {
      NeverHandedTwice(run[..|run| - 1]);
      StepSound(After(run[..|run| - 1]), run[|run| - 1]);
    }
  }

  /** A burned slot stays burned. */
  lemma {:induction false} BurnedStays(w: World, e: Event, n: int)
    requires Sound(w) && n in w.disk.burned
    ensures n in Step(w, e).disk.burned
    ensures n in Step(w, e).handed ==> n in w.handed
  {
    hide Numbers;
    if e.ClaimSlot? && w.proc.Some? {
      var i :| 0 <= i < |w.disk.burned| && w.disk.burned[i] == n;
      assert n in Burned(w.proc.value.state);
    }
  }

  /** A slot that was burned before it was handed out never is. */
  lemma {:induction false} BurnedIsNeverHanded(run: seq<Event>, later: seq<Event>, n: int)
    requires n in After(run).disk.burned && n !in After(run).handed
    ensures n !in After(run + later).handed && n in After(run + later).disk.burned
    decreases |later|
  {
    if later == [] {
      assert run + later == run;
    } else {
      var before := later[..|later| - 1];
      BurnedIsNeverHanded(run, before, n);
      assert (run + later)[..|run + later| - 1] == run + before;
      NeverHandedTwice(run + before);
      BurnedStays(After(run + before), later[|later| - 1], n);
    }
  }

  /** A claim that is stored hands out a slot exactly if one is free, and then one that never was and is not burned. */
  lemma {:induction false} HandsOutFreshOrExhausted(run: seq<Event>, asn: int, at: int)
    requires After(run).proc.Some?
    ensures var w := After(run); var p := w.proc.value; var w' := Step(w, ClaimSlot(asn, at, Persisted(Stored)));
            if forall i :: 0 <= i < |p.pool| ==> p.pool[i].n in Taken(p.state) then w' == w
            else
              |w'.handed| == |w.handed| + 1
              && var n := w'.handed[|w.handed|];
                 n !in w.handed && n !in w.disk.burned && n in Numbers(w'.disk.claims)
  {
    NeverHandedTwice(run);
    var w := After(run);
    var p := w.proc.value;
    var free := FirstFree(p.pool, Taken(p.state));
    if free.Some? {
      NumbersSnoc(p.state.claims, ClaimRec(free.value.n, asn, at));
      assert forall n :: n in w.disk.burned ==> n in Burned(p.state);
    }
  }
}
