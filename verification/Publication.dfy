/**
 * Publication of live shaping: the base document is overlaid with the shaped delays
 * and rates and written for the control service, by runs of `regen` that the
 * coalescer decides on.
 */
module Publication {
  import opened Prelude
  import Decimal
  import Coalesce

  datatype Json = JObj(fields: map<string, Json>) | JStr(s: string) | JNum(n: int) | JOther(tag: int)

  type Doc = map<string, Json>

  /** The netem parameters read from one device. */
  datatype Params = Params(delayMs: Option<real>, jitterMs: Option<real>, lossPct: Option<real>, rateMbit: Option<real>)

  type Live = map<string, Params>

  const LATENCY := "Latency"
  const BANDWIDTH := "Bandwidth"
  const INTER := "Inter"

  // ---------------------------------------------------------------- the merged document

  /** Rounding half away from zero. */
  function Round(r: real): int {
    if r >= 0.0 then (r + 0.5).Floor else -((0.5 - r).Floor)
  }

  /** The delay as the control service parses it: whole microseconds. */
  function DelayInter(p: Params): Option<Json> {
    if p.delayMs.Some? then Some(JStr(Decimal.Itoa(Round(p.delayMs.value * 1000.0)) + "us")) else None
  }

  function RateInter(p: Params): Option<Json> {
    if p.rateMbit.Some? && p.rateMbit.value > 0.0 then Some(JNum((p.rateMbit.value * 1000.0).Floor)) else None
  }

  /** The object under a key, or an empty one if there is none or something else is there. */
  function Fields(m: map<string, Json>, k: string): map<string, Json> {
    if k in m && m[k].JObj? then m[k].fields else map[]
  }

  function SetInter(doc: Doc, section: string, ifid: string, v: Json): Doc {
    var sec := Fields(doc, section);
    doc[section := JObj(sec[ifid := JObj(Fields(sec, ifid)[INTER := v])])]
  }

  /** What some interfaces contribute to one section. */
  function Patches(live: Live, f: Params -> Option<Json>): map<string, Json> {
    map i | i in live && f(live[i]).Some? :: f(live[i]).value
  }

  function PatchedSection(sec: map<string, Json>, patches: map<string, Json>): map<string, Json> {
    map k | k in sec.Keys + patches.Keys :: if k in patches then JObj(Fields(sec, k)[INTER := patches[k]]) else sec[k]
  }

  function Patched(doc: Doc, section: string, patches: map<string, Json>): Doc {
    if patches == map[] then doc else doc[section := JObj(PatchedSection(Fields(doc, section), patches))]
  }

  /** The base document overlaid by shaping, independently of any order. */
  function Overlay(base: Doc, live: Live): Doc {
    Patched(Patched(base, LATENCY, Patches(live, DelayInter)), BANDWIDTH, Patches(live, RateInter))
  }

  lemma {:induction false} SetInterPatches(doc: Doc, section: string, patches: map<string, Json>, ifid: string, v: Json)
    requires ifid !in patches
    ensures SetInter(Patched(doc, section, patches), section, ifid, v) == Patched(doc, section, patches[ifid := v])
  {
    var sec := Fields(doc, section);
    var after := PatchedSection(sec, patches[ifid := v]);
    var before := Fields(Patched(doc, section, patches), section);
    assert before == if patches == map[] then sec else PatchedSection(sec, patches);
    assert Fields(before, ifid) == Fields(sec, ifid);
    assert before[ifid := JObj(Fields(sec, ifid)[INTER := v])] == after;
    assert patches[ifid := v] != map[] by { assert ifid in patches[ifid := v]; }
  }

  lemma {:induction false} SetInterCommutes(doc: Doc, section: string, other: string, patches: map<string, Json>,
                                            ifid: string, v: Json)
    requires section != other
    ensures SetInter(Patched(doc, other, patches), section, ifid, v)
            == Patched(SetInter(doc, section, ifid, v), other, patches)
  {
  }

  /** One more interface, with or without a contribution to the section. */
  lemma {:induction false} PatchesAdd(live: Live, i: string, p: Params, f: Params -> Option<Json>)
    requires i !in live
    ensures Patches(live[i := p], f) == if f(p).Some? then Patches(live, f)[i := f(p).value] else Patches(live, f)
    ensures i !in Patches(live, f)
  {
  }

  function WithDelay(doc: Doc, i: string, p: Params): Doc {
    if DelayInter(p).Some? then SetInter(doc, LATENCY, i, DelayInter(p).value) else doc
  }

  function WithRate(doc: Doc, i: string, p: Params): Doc {
    if RateInter(p).Some? then SetInter(doc, BANDWIDTH, i, RateInter(p).value) else doc
  }

  lemma {:induction false} OverlayAdd(base: Doc, live: Live, i: string, p: Params)
    requires i !in live
    ensures WithRate(WithDelay(Overlay(base, live), i, p), i, p) == Overlay(base, live[i := p])
  {
    hide SetInter, Patches, Patched, DelayInter, RateInter;
    PatchesAdd(live, i, p, DelayInter);
    PatchesAdd(live, i, p, RateInter);
    var lat := Patched(base, LATENCY, Patches(live, DelayInter));
    if DelayInter(p).Some? {
      SetInterCommutes(lat, LATENCY, BANDWIDTH, Patches(live, RateInter), i, DelayInter(p).value);
      SetInterPatches(base, LATENCY, Patches(live, DelayInter), i, DelayInter(p).value);
    }
    if RateInter(p).Some? {
      SetInterPatches(Patched(base, LATENCY, Patches(live[i := p], DelayInter)), BANDWIDTH, Patches(live, RateInter), i,
        RateInter(p).value);
    }
  }

  /** The merge loop: interfaces in whatever order the map is walked. */
  method Merged(base: Doc, live: Live) returns (doc: Doc)
    ensures doc == Overlay(base, live)
  {
    hide SetInter, DelayInter, RateInter, Overlay;
    doc := base;
    ghost var done: Live := map[];
    var todo := live.Keys;
    OverlayNothing(base);
    while todo != {}
      invariant todo <= live.Keys && done.Keys == live.Keys - todo
      invariant forall i :: i in done ==> done[i] == live[i]
      invariant doc == Overlay(base, done)
      decreases todo
    {
      var i :| i in todo;
      var p := live[i];
      OverlayAdd(base, done, i, p);
      if DelayInter(p).Some? {
        doc := SetInter(doc, LATENCY, i, DelayInter(p).value);
      }
      if RateInter(p).Some? {
        doc := SetInter(doc, BANDWIDTH, i, RateInter(p).value);
      }
      done := done[i := p];
      todo := todo - {i};
    }
    assert done == live;
  }

  lemma OverlayNothing(base: Doc)
    ensures Overlay(base, map[]) == base
  {
    assert Patches(map[], DelayInter) == map[] && Patches(map[], RateInter) == map[];
  }

  /** One field of one interface's entry in a section. */
  function Field(doc: Doc, section: string, ifid: string, field: string): Option<Json> {
    Lookup(Fields(Fields(doc, section), ifid), field)
  }

  /** What the interfaces contribute to a section. */
  function PatchesOf(live: Live, section: string): map<string, Json> {
    if section == LATENCY then Patches(live, DelayInter)
    else if section == BANDWIDTH then Patches(live, RateInter)
    else map[]
  }

  /**
   * Everything about the overlay, value by value: a section without a contribution is the base's; in one with
   * contributions no other entry is touched or added, and a contributing entry has its Inter field set.
   */
  lemma {:induction false} OverlayTouchesOnlyInter(base: Doc, live: Live, section: string)
    ensures var doc, patches := Overlay(base, live), PatchesOf(live, section);
            if patches == map[] then Lookup(doc, section) == Lookup(base, section)
            else
              section in doc && doc[section].JObj?
              && doc[section].fields.Keys == Fields(base, section).Keys + patches.Keys
              && forall k :: k in doc[section].fields ==>
                   doc[section].fields[k]
                     == if k in patches then JObj(Fields(Fields(base, section), k)[INTER := patches[k]])
                                             else Fields(base, section)[k]
  {
    hide DelayInter, RateInter, Patches;
    var mid := Patched(base, LATENCY, Patches(live, DelayInter));
    PatchedAt(base, LATENCY, Patches(live, DelayInter), section);
    PatchedAt(mid, BANDWIDTH, Patches(live, RateInter), section);
  }

  lemma {:induction false} PatchedAt(doc: Doc, section: string, patches: map<string, Json>, at: string)
    ensures Lookup(Patched(doc, section, patches), at)
            == if at == section && patches != map[] then Some(JObj(PatchedSection(Fields(doc, section), patches)))
               else Lookup(doc, at)
  {
  }

  /** The fields of a value that is an object or absent; an absent one counts as empty. */
  function Members(v: Option<Json>): Option<map<string, Json>> {
    if v.None? then Some(map[]) else if v.value.JObj? then Some(v.value.fields) else None
  }

  /** Only the Inter field of an entry may differ; the entry may be new. */
  ghost predicate EntryKept(old': Option<Json>, new': Option<Json>) {
    old' == new'
    || (Members(old').Some? && new'.Some? && new'.value.JObj?
        && forall f :: f != INTER ==> Lookup(new'.value.fields, f) == Lookup(Members(old').value, f))
  }

  /** Only Inter fields of a section's entries may differ; entries and the section may be new. */
  ghost predicate SectionKept(old': Option<Json>, new': Option<Json>) {
    old' == new'
    || (Members(old').Some? && new'.Some? && new'.value.JObj?
        && forall k :: EntryKept(Lookup(Members(old').value, k), Lookup(new'.value.fields, k)))
  }

  /** Two documents are the same but for Inter fields under Latency and Bandwidth. */
  ghost predicate DiffersOnlyAtInter(base: Doc, doc: Doc) {
    forall s :: if s == LATENCY || s == BANDWIDTH then SectionKept(Lookup(base, s), Lookup(doc, s))
                else Lookup(base, s) == Lookup(doc, s)
  }

  /** Nothing in the way: where a contribution goes, the section and the entry are absent or objects. */
  ghost predicate Accepts(base: Doc, section: string, patches: map<string, Json>) {
    patches != map[] ==>
      Members(Lookup(base, section)).Some?
      && forall k :: k in patches ==> Members(Lookup(Fields(base, section), k)).Some?
  }

  lemma {:induction false} SectionKeptIff(base: Doc, live: Live, section: string)
    ensures SectionKept(Lookup(base, section), Lookup(Overlay(base, live), section))
            <==> Accepts(base, section, PatchesOf(live, section))
  {
    hide Overlay, PatchesOf;
    OverlayTouchesOnlyInter(base, live, section);
    var patches := PatchesOf(live, section);
    var old', new' := Lookup(base, section), Lookup(Overlay(base, live), section);
    if patches != map[] && Members(old').Some? {
      assert Members(old').value == Fields(base, section);
      forall k ensures EntryKept(Lookup(Members(old').value, k), Lookup(new'.value.fields, k))
                       <==> (k in patches ==> Members(Lookup(Fields(base, section), k)).Some?)
      {
      }
    }
  }

  /**
   * The base passes through untouched except at Inter fields exactly if no contribution meets something that is not
   * an object; such a section or entry is replaced whole.
   */
  lemma {:induction false} UntouchedExactly(base: Doc, live: Live)
    ensures DiffersOnlyAtInter(base, Overlay(base, live))
            <==> Accepts(base, LATENCY, Patches(live, DelayInter)) && Accepts(base, BANDWIDTH, Patches(live, RateInter))
  {
    hide Overlay, SectionKept, Accepts, Patches;
    SectionKeptIff(base, live, LATENCY);
    SectionKeptIff(base, live, BANDWIDTH);
    var doc := Overlay(base, live);
    forall s | s != LATENCY && s != BANDWIDTH ensures Lookup(base, s) == Lookup(doc, s) {
      OverlayTouchesOnlyInter(base, live, s);
    }
    if Accepts(base, LATENCY, Patches(live, DelayInter)) && Accepts(base, BANDWIDTH, Patches(live, RateInter)) {
      assert DiffersOnlyAtInter(base, doc);
    }
  }

  /** A section that is text in the base is lost as soon as one delay is shaped. */
  lemma TextSectionIsReplaced(ifid: string, ms: real)
    ensures !DiffersOnlyAtInter(map[LATENCY := JStr("x")],
                                Overlay(map[LATENCY := JStr("x")], map[ifid := Params(Some(ms), None, None, None)]))
  {
    var live := map[ifid := Params(Some(ms), None, None, None)];
    assert ifid in Patches(live, DelayInter);
    UntouchedExactly(map[LATENCY := JStr("x")], live);
  }

  /** Field by field: contributions show at Inter, everything else as in the base. */
  lemma {:induction false} OverlayField(base: Doc, live: Live, section: string, ifid: string, field: string)
    ensures Field(Overlay(base, live), section, ifid, field)
            == if field == INTER && ifid in PatchesOf(live, section) then Some(PatchesOf(live, section)[ifid])
               else Field(base, section, ifid, field)
  {
    hide Overlay, PatchesOf;
    OverlayTouchesOnlyInter(base, live, section);
  }

  /** `n` is the whole number nearest to `x`, the one farther from zero if two are. */
  predicate IsNearest(n: int, x: real) {
    var r := n as real;
    x - 0.5 <= r <= x + 0.5 && (r == x - 0.5 ==> x < 0.0) && (r == x + 0.5 ==> x > 0.0)
  }

  lemma RoundIsNearest(x: real)
    ensures IsNearest(Round(x), x)
  {
  }

  lemma NearestUnique(m: int, n: int, x: real)
    requires IsNearest(m, x) && IsNearest(n, x)
    ensures m == n
  {
  }

  /**
   * The delay of an interface in the document: decimal text of the nearest whole number of microseconds and "us",
   * which reads back to that number; without a delay, what the base has.
   */
  lemma {:induction false} DelayShown(base: Doc, live: Live, i: string) returns (n: int)
    requires i in live
    ensures var shown := Field(Overlay(base, live), "Latency", i, "Inter");
            match live[i].delayMs
            case None => shown == Field(base, "Latency", i, "Inter")
            case Some(ms) =>
              exists text ::
                && shown == Some(JStr(text + "us")) && IsNearest(n, ms * 1000.0)
                && (0 - Decimal.INT64_LIMIT <= n < Decimal.INT64_LIMIT ==> Decimal.Atoi(text) == Some(n))
  {
    hide Overlay, Field, IsNearest, Round, Decimal.Atoi, Decimal.Itoa;
    OverlayField(base, live, LATENCY, i, INTER);
    n := 0;
    if live[i].delayMs.Some? {
      var us := live[i].delayMs.value * 1000.0;
      n := Round(us);
      RoundIsNearest(us);
      if 0 - Decimal.INT64_LIMIT <= n < Decimal.INT64_LIMIT { Decimal.AtoiOfItoa(n); }
      assert Field(Overlay(base, live), "Latency", i, "Inter") == Some(JStr(Decimal.Itoa(n) + "us"));
    }
  }

  /** The rate of an interface in the document: whole kbit/s, rounded down; without a positive one, as in the base. */
  lemma {:induction false} RateShownExactly(base: Doc, live: Live, i: string) returns (n: int)
    requires i in live
    ensures var shown := Field(Overlay(base, live), "Bandwidth", i, "Inter");
            if live[i].rateMbit.Some? && live[i].rateMbit.value > 0.0
            then shown == Some(JNum(n)) && n as real <= live[i].rateMbit.value * 1000.0 < n as real + 1.0
            else shown == Field(base, "Bandwidth", i, "Inter")
  {
    hide Overlay, Field;
    OverlayField(base, live, BANDWIDTH, i, INTER);
    n := if live[i].rateMbit.Some? then (live[i].rateMbit.value * 1000.0).Floor else 0;
  }

  // ---------------------------------------------------------------- the writer

  /** The output file: absent, the rendering of a document, or something else. */
  datatype Content = Missing | Rendered(doc: Doc) | Foreign

  /**
   * The writer's flags with the outside world it acts on: the file, and how often the file was replaced and the
   * unit signalled.
   */
  datatype Output = Output(metaFail: bool, hupFail: bool, file: Content, puts: nat, signals: nat)

  /** How the environment answers one write. */
  datatype Env = Env(readable: bool, writable: bool, signalled: bool)

  /** What a write sets out to publish; the base document may be unreadable. */
  function DocOf(base: Result<Doc>, live: Live): Result<Doc> {
    match base case Err(e) => Err(e) case Ok(b) => Ok(Overlay(b, live))
  }

  function Written(unit: bool, o: Output, doc: Result<Doc>, env: Env): (Output, bool) {
    if doc.Err? then (o.(metaFail := true, hupFail := true), false)
    else if env.readable && o.file == Rendered(doc.value) then (o.(metaFail := false, hupFail := false), true)
    else if !env.writable then (o.(metaFail := true, hupFail := true), false)
    else
      var o' := o.(metaFail := false, file := Rendered(doc.value), puts := o.puts + 1);
      if !unit then (o'.(hupFail := false), true)
      else if !env.signalled then (o'.(hupFail := true), false)
      else (o'.(hupFail := false, signals := o.signals + 1), true)
  }

  class Writer {
    const unit: bool
    var metaFail: bool
    var hupFail: bool
    var file: Content
    var puts: nat
    var signals: nat

    ghost function State(): Output
      reads this
    {
      Output(metaFail, hupFail, file, puts, signals)
    }

    constructor (unit: bool, file: Content)
      ensures this.unit == unit && State() == Output(false, false, file, 0, 0)
    {
      this.unit, this.file := unit, file;
      metaFail, hupFail, puts, signals := false, false, 0, 0;
    }

    method Write(base: Result<Doc>, live: Live, env: Env) returns (ok: bool)
      modifies this
      ensures (State(), ok) == Written(unit, old(State()), DocOf(base, live), env)
    {
      hide Overlay;
      if base.Err? {
        metaFail, hupFail := true, true;
        return false;
      }
      var doc := Merged(base.value, live);
      if env.readable && file == Rendered(doc) {
        metaFail, hupFail := false, false;
        return true;
      }
      if !env.writable {
        metaFail, hupFail := true, true;
        return false;
      }
      file, puts := Rendered(doc), puts + 1;
      metaFail := false;
      if !unit {
        hupFail := false;
        return true;
      }
      if !env.signalled {
        hupFail := true;
        return false;
      }
      signals := signals + 1;
      hupFail := false;
      ok := true;
    }
  }

  /** Rewriting what a successful write left behind neither writes nor signals, as long as the file can be read back. */
  lemma RewriteIsFree(unit: bool, o: Output, doc: Doc, env: Env, again: Env)
    requires Written(unit, o, Ok(doc), env).1 && again.readable
    ensures var o' := Written(unit, o, Ok(doc), env).0;
            o'.file == Rendered(doc) && Written(unit, o', Ok(doc), again) == (o', true)
  {
  }

  // ---------------------------------------------------------------- what the reload flag tells

  datatype Attempt = Attempt(doc: Result<Doc>, env: Env)

  function AfterWrites(unit: bool, o: Output, ws: seq<Attempt>): Output {
    if ws == [] then o
    else Written(unit, AfterWrites(unit, o, ws[..|ws| - 1]), ws[|ws| - 1].doc, ws[|ws| - 1].env).0
  }

  /** Write `i` replaced the file. */
  predicate Replaces(unit: bool, o: Output, ws: seq<Attempt>, i: nat) {
    i < |ws| && AfterWrites(unit, o, ws[..i + 1]).puts > AfterWrites(unit, o, ws[..i]).puts
  }

  /** Write `i` signalled the unit. */
  predicate Signals(unit: bool, o: Output, ws: seq<Attempt>, i: nat) {
    i < |ws| && AfterWrites(unit, o, ws[..i + 1]).signals > AfterWrites(unit, o, ws[..i]).signals
  }

  /** Write `i` found its document on disk already. */
  predicate Identical(unit: bool, o: Output, ws: seq<Attempt>, i: nat) {
    i < |ws| && ws[i].doc.Ok? && ws[i].env.readable && AfterWrites(unit, o, ws[..i]).file == Rendered(ws[i].doc.value)
  }

  /** What a clear reload flag is taken to mean: every replacement of the file was followed by a signal. */
  ghost predicate SignalledSince(unit: bool, o: Output, ws: seq<Attempt>) {
    forall i: nat :: Replaces(unit, o, ws, i) ==> exists j: nat :: i <= j && Signals(unit, o, ws, j)
  }

  ghost predicate LastReplacement(unit: bool, o: Output, ws: seq<Attempt>, m: nat) {
    Replaces(unit, o, ws, m) && forall i: nat :: Replaces(unit, o, ws, i) ==> i <= m
  }

  /**
   * What `Status` says of the file: the write flag is clear exactly if there was a document and the latest write
   * found it on disk or put it there, which it does unless the file cannot be written. So while the flag is clear
   * the file holds the latest document; after a failure it holds what it held before.
   */
  lemma {:induction false} MetaFlagExactly(unit: bool, o: Output, ws: seq<Attempt>)
    requires ws != []
    ensures var n, last, o' := |ws| - 1, ws[|ws| - 1], AfterWrites(unit, o, ws);
            && (!o'.metaFail <==> last.doc.Ok? && (Identical(unit, o, ws, n) || Replaces(unit, o, ws, n)))
            && (Replaces(unit, o, ws, n) <==> last.doc.Ok? && !Identical(unit, o, ws, n) && last.env.writable)
            && (!o'.metaFail ==> o'.file == Rendered(last.doc.value))
            && (!Replaces(unit, o, ws, n) ==> o'.file == AfterWrites(unit, o, ws[..n]).file)
  {
    assert ws[..|ws| - 1 + 1] == ws;
  }

  /** A write reports success exactly if it leaves both flags clear; one that fails sets the reload flag in any case. */
  lemma {:induction false} ReportedExactly(unit: bool, o: Output, doc: Result<Doc>, env: Env)
    ensures var (o', ok) := Written(unit, o, doc, env);
            (ok <==> !o'.metaFail && !o'.hupFail) && (o'.metaFail ==> o'.hupFail)
  {
  }

  /** One write: what it did to the file, the unit and the flag. */
  lemma {:induction false} LastWrite(unit: bool, o: Output, ws: seq<Attempt>)
    requires ws != []
    ensures var n, env := |ws| - 1, ws[|ws| - 1].env;
            && Signals(unit, o, ws, n) == (Replaces(unit, o, ws, n) && unit && env.signalled)
            && !(Replaces(unit, o, ws, n) && Identical(unit, o, ws, n))
            && (!AfterWrites(unit, o, ws).hupFail
                <==> Identical(unit, o, ws, n) || (Replaces(unit, o, ws, n) && (unit ==> env.signalled)))
  {
    assert ws[..|ws| - 1 + 1] == ws;
  }

  lemma {:induction false} EarlierWrites(unit: bool, o: Output, ws: seq<Attempt>, i: nat)
    requires i + 1 < |ws|
    ensures var init := ws[..|ws| - 1];
            && Replaces(unit, o, ws, i) == Replaces(unit, o, init, i)
            && Signals(unit, o, ws, i) == Signals(unit, o, init, i)
  {
    var init := ws[..|ws| - 1];
    assert ws[..i] == init[..i] && ws[..i + 1] == init[..i + 1];
  }

  /** The unit was signalled since the file was last replaced exactly if the last replacement itself signalled it. */
  lemma {:induction false} SignalledIffLastWas(unit: bool, o: Output, ws: seq<Attempt>)
    ensures SignalledSince(unit, o, ws)
            <==> forall m: nat :: LastReplacement(unit, o, ws, m) ==> unit && ws[m].env.signalled
  {
    hide Replaces, Signals;
    forall i: nat | i < |ws|
      ensures Signals(unit, o, ws, i) == (Replaces(unit, o, ws, i) && unit && ws[i].env.signalled)
    {
      WriteAt(unit, o, ws, i);
    }
    ReplacesInside(unit, o, ws);
    if exists i: nat :: Replaces(unit, o, ws, i) {
      var m := FindLast(unit, o, ws);
    }
  }

  lemma ReplacesInside(unit: bool, o: Output, ws: seq<Attempt>)
    ensures forall i: nat :: Replaces(unit, o, ws, i) || Signals(unit, o, ws, i) ==> i < |ws|
  {
  }

  lemma {:induction false} WriteAt(unit: bool, o: Output, ws: seq<Attempt>, i: nat)
    requires i < |ws|
    ensures Signals(unit, o, ws, i) == (Replaces(unit, o, ws, i) && unit && ws[i].env.signalled)
    decreases |ws|
  {
    if i == |ws| - 1 {
      LastWrite(unit, o, ws);
    } else {
      EarlierWrites(unit, o, ws, i);
      WriteAt(unit, o, ws[..|ws| - 1], i);
    }
  }

  lemma {:induction false} FindLast(unit: bool, o: Output, ws: seq<Attempt>) returns (m: nat)
    requires exists i: nat :: Replaces(unit, o, ws, i)
    ensures LastReplacement(unit, o, ws, m)
  {
    ReplacesInside(unit, o, ws);
    hide Replaces, Signals;
    m :| Replaces(unit, o, ws, m);
    while exists i: nat :: Replaces(unit, o, ws, i) && i > m
      invariant Replaces(unit, o, ws, m)
      decreases |ws| - m
    {
      var later: nat :| Replaces(unit, o, ws, later) && later > m;
      m := later;
    }
  }

  /**
   * When a clear reload flag misleads. With a unit: exactly if the signal after the last replacement failed and the
   * latest write found its document on disk, which clears the flag. Without one: whenever the file was ever replaced.
   */
  lemma {:induction false} SignalledExactly(unit: bool, o: Output, ws: seq<Attempt>)
    requires ws != [] && !AfterWrites(unit, o, ws).hupFail
    ensures !SignalledSince(unit, o, ws)
            <==> exists m: nat :: LastReplacement(unit, o, ws, m)
                             && (unit ==> !ws[m].env.signalled && Identical(unit, o, ws, |ws| - 1))
  {
    hide AfterWrites, SignalledSince, Replaces, Signals, Identical;
    SignalledIffLastWas(unit, o, ws);
    LastWrite(unit, o, ws);
    ReplacesInside(unit, o, ws);
  }

  /** So a failed signal is forgotten by the next identical write. */
  lemma FailedSignalForgotten(o: Output, doc: Doc)
    requires o.file != Rendered(doc)
    ensures var ws := [Attempt(Ok(doc), Env(true, true, false)), Attempt(Ok(doc), Env(true, true, true))];
            && AfterWrites(true, o, ws[..1]).hupFail
            && !AfterWrites(true, o, ws).hupFail && !SignalledSince(true, o, ws)
  {
    var ws := [Attempt(Ok(doc), Env(true, true, false)), Attempt(Ok(doc), Env(true, true, true))];
    assert ws[..1] == [ws[0]] && [ws[0]][..0] == [];
    LastWrite(true, o, ws[..1]);
    LastWrite(true, o, ws);
    EarlierWrites(true, o, ws, 0);
    assert Replaces(true, o, ws, 0);
  }

  // ---------------------------------------------------------------- publication over time

  /**
   * Everything that moves: the shaping in the kernel, change notices not yet given, the coalescer, runs of
   * `regen` decided on, runs under way with what they have read, in the order they started, and what the run that
   * published last had read. The published document is the base overlaid by `shown`. Interfaces are shaped to values
   * of any type: parameters, or numbers that stand for them.
   */
  datatype World<V> = World(shaping: map<string, V>, owed: nat, g: Coalesce.Guarded, pending: nat,
                            runs: seq<map<string, V>>, shown: map<string, V>)

  datatype Event<V> =
    | Shape(ifid: string, p: V)
    | Notify(t: int)
    | Fire
    | Start
    | Read(run: nat, ifid: string)
    | Publish(run: nat)

  /** Run `k` has read every interface. */
  predicate CanPublish<V>(w: World<V>, k: nat) {
    k < |w.runs| && w.runs[k].Keys == w.shaping.Keys
  }

  /** One event; an event that cannot happen changes nothing. Reads and writes succeed. */
  function Step<V>(d: int, w: World<V>, e: Event<V>): World<V> {
    match e
    case Shape(i, p) => if i in w.shaping then w.(shaping := w.shaping[i := p], owed := w.owed + 1) else w
    case Notify(t) =>
      if w.owed == 0 then w
      else
        var (g, run) := Coalesce.Called(d, w.g, t);
        w.(owed := w.owed - 1, g := g, pending := w.pending + (if run then 1 else 0))
    case Fire =>
      if w.g.timer.None? then w
      else
        var (g, run) := Coalesce.Fired(w.g);
        w.(g := g, pending := w.pending + (if run then 1 else 0))
    case Start => if w.pending == 0 then w else w.(pending := w.pending - 1, runs := w.runs + [map[]])
    case Read(k, i) =>
      if k < |w.runs| && i in w.shaping && i !in w.runs[k]
      then w.(runs := w.runs[k := w.runs[k][i := w.shaping[i]]]) else w
    case Publish(k) =>
      if CanPublish(w, k) then w.(runs := w.runs[..k] + w.runs[k + 1..], shown := w.runs[k]) else w
  }

  /** After startup has published once. */
  function Initial<V>(shaping: map<string, V>): World<V> {
    World(shaping, 0, Coalesce.IDLE, 0, [], shaping)
  }

  function After<V>(d: int, shaping: map<string, V>, run: seq<Event<V>>): World<V> {
    if run == [] then Initial(shaping) else Step(d, After(d, shaping, run[..|run| - 1]), run[|run| - 1])
  }

  predicate Quiescent<V>(w: World<V>) {
    w.owed == 0 && w.g.timer.None? && w.pending == 0 && w.runs == []
  }

  /** The run that started last: still under way, published last of all, or published before an older one. */
  datatype Newest = UnderWay | Shown | Overwritten

  function NewestStep<V>(w: World<V>, was: Newest, e: Event<V>): Newest {
    match e
    case Start => if w.pending > 0 then UnderWay else was
    case Publish(k) =>
      if !CanPublish(w, k) then was
      else if !was.UnderWay? then Overwritten
      else if k == |w.runs| - 1 then Shown
      else UnderWay
    case _ => was
  }

  function NewestAfter<V>(d: int, shaping: map<string, V>, run: seq<Event<V>>): Newest {
    if run == [] then Shown
    else
      var before := run[..|run| - 1];
      NewestStep(After(d, shaping, before), NewestAfter(d, shaping, before), run[|run| - 1])
  }

  /** A notice is still to come, or a run that has not begun will read everything. */
  predicate RunToCome<V>(w: World<V>) {
    w.owed > 0 || w.g.dirty || w.pending > 0
  }

  /** `seen` is what the newest run has read so far, or published. */
  ghost predicate Current<V>(w: World<V>, newest: Newest, seen: map<string, V>) {
    (w.g.dirty ==> w.g.timer.Some?)
    && (newest.UnderWay? ==> w.runs != [] && seen == w.runs[|w.runs| - 1] && seen.Keys <= w.shaping.Keys)
    && (newest.Shown? ==> seen == w.shown && seen.Keys == w.shaping.Keys)
    && (newest.Overwritten? || RunToCome(w) || forall i :: i in seen ==> seen[i] == w.shaping[i])
  }

  /** One event keeps the newest run's reading current unless a run is still to come. */
  lemma {:induction false} StepCurrent<V>(d: int, w: World<V>, newest: Newest, seen: map<string, V>, e: Event<V>)
    returns (seen': map<string, V>)
    requires Current(w, newest, seen)
    ensures Current(Step(d, w, e), NewestStep(w, newest, e), seen')
  {
    seen' := seen;
    match e
    case Start => if w.pending > 0 { seen' := map[]; }
    case Read(k, i) => if newest.UnderWay? { seen' := Step(d, w, e).runs[|w.runs| - 1]; }
    case _ =>
  }

  lemma {:induction false} AlwaysCurrent<V>(d: int, shaping: map<string, V>, run: seq<Event<V>>)
    returns (seen: map<string, V>)
    ensures Current(After(d, shaping, run), NewestAfter(d, shaping, run), seen)
  {
    hide Step, NewestStep;
    if run == [] {
      seen := shaping;
    } else {
      var before := run[..|run| - 1];
      seen := AlwaysCurrent(d, shaping, before);
      seen := StepCurrent(d, After(d, shaping, before), NewestAfter(d, shaping, before), seen, run[|run| - 1]);
    }
  }

  /** However runs overlap: when all is quiet and no older run published after the newest, what shows is current. */
  lemma {:induction false} QuietMeansCurrent<V>(d: int, shaping: map<string, V>, run: seq<Event<V>>)
    requires Quiescent(After(d, shaping, run)) && !NewestAfter(d, shaping, run).Overwritten?
    ensures After(d, shaping, run).shown == After(d, shaping, run).shaping
  {
    var seen := AlwaysCurrent(d, shaping, run);
  }

  /** Runs publish in the order they started. */
  ghost predicate InOrder<V>(d: int, shaping: map<string, V>, run: seq<Event<V>>) {
    run == []
    || (InOrder(d, shaping, run[..|run| - 1])
        && (run[|run| - 1].Publish? && CanPublish(After(d, shaping, run[..|run| - 1]), run[|run| - 1].run)
            ==> run[|run| - 1].run == 0))
  }

  lemma {:induction false} InOrderNotOverwritten<V>(d: int, shaping: map<string, V>, run: seq<Event<V>>)
    requires InOrder(d, shaping, run)
    ensures !NewestAfter(d, shaping, run).Overwritten?
    ensures NewestAfter(d, shaping, run).Shown? <==> After(d, shaping, run).runs == []
  {
    if run != [] { InOrderNotOverwritten(d, shaping, run[..|run| - 1]); }
  }

  /** No run starts while another one is under way. */
  ghost predicate NoOverlap<V>(d: int, shaping: map<string, V>, run: seq<Event<V>>) {
    run == []
    || (NoOverlap(d, shaping, run[..|run| - 1])
        && (run[|run| - 1].Start? ==> After(d, shaping, run[..|run| - 1]).runs == []))
  }

  lemma {:induction false} NoOverlapInOrder<V>(d: int, shaping: map<string, V>, run: seq<Event<V>>)
    requires NoOverlap(d, shaping, run)
    ensures InOrder(d, shaping, run) && |After(d, shaping, run).runs| <= 1
  {
    if run != [] { NoOverlapInOrder(d, shaping, run[..|run| - 1]); }
  }

  /**
   * What the writer's file, flags and signals come to in a run: startup writes, and so does each run of `regen`
   * that publishes. `envs[k]` is how the environment answers a write at event `k`, `first` at startup.
   */
  function OutputAfter(unit: bool, o: Output, base: Result<Doc>, first: Env, d: int, shaping: Live,
                       run: seq<Event<Params>>, envs: seq<Env>): Output
    requires |envs| == |run|
  {
    if run == [] then Written(unit, o, DocOf(base, shaping), first).0
    else
      var n := |run| - 1;
      var w := After(d, shaping, run[..n]);
      var before := OutputAfter(unit, o, base, first, d, shaping, run[..n], envs[..n]);
      if run[n].Publish? && CanPublish(w, run[n].run)
      then Written(unit, before, DocOf(base, w.runs[run[n].run]), envs[n]).0
      else before
  }

  lemma WrittenShows(unit: bool, o: Output, doc: Doc, env: Env)
    requires env.writable
    ensures Written(unit, o, Ok(doc), env).0.file == Rendered(doc)
  {
  }

  /** As long as the base can be read and the file written, the file holds what the last publisher had read. */
  lemma {:induction false} FileShows(unit: bool, o: Output, base: Doc, first: Env, d: int, shaping: Live,
                                     run: seq<Event<Params>>, envs: seq<Env>)
    requires |envs| == |run| && first.writable && forall e :: e in envs ==> e.writable
    ensures OutputAfter(unit, o, Ok(base), first, d, shaping, run, envs).file
            == Rendered(Overlay(base, After(d, shaping, run).shown))
  {
    hide Overlay, Written, Quiescent;
    if run == [] {
      WrittenShows(unit, o, Overlay(base, shaping), first);
    } else {
      var n := |run| - 1;
      var w := After(d, shaping, run[..n]);
      if run[n].Publish? && CanPublish(w, run[n].run) {
        var before := OutputAfter(unit, o, Ok(base), first, d, shaping, run[..n], envs[..n]);
        WrittenShows(unit, before, Overlay(base, w.runs[run[n].run]), envs[n]);
      }
      assert envs[n] in envs && forall e :: e in envs[..n] ==> e in envs;
      FileShows(unit, o, base, first, d, shaping, run[..n], envs[..n]);
    }
  }

  /**
   * However shaping was set and cleared and however runs overlap, if they publish in the order they started then
   * in quiet the file holds the base overlaid by current shaping; signals may fail and old files be unreadable.
   */
  lemma {:induction false} QuietMeansPublished(unit: bool, o: Output, base: Doc, first: Env, d: int, shaping: Live,
                                               run: seq<Event<Params>>, envs: seq<Env>)
    requires |envs| == |run| && first.writable && forall e :: e in envs ==> e.writable
    requires InOrder(d, shaping, run) || NoOverlap(d, shaping, run)
    requires Quiescent(After(d, shaping, run))
    ensures OutputAfter(unit, o, Ok(base), first, d, shaping, run, envs).file
            == Rendered(Overlay(base, After(d, shaping, run).shaping))
  {
    hide Overlay, OutputAfter, After;
    if NoOverlap(d, shaping, run) { NoOverlapInOrder(d, shaping, run); }
    InOrderNotOverwritten(d, shaping, run);
    QuietMeansCurrent(d, shaping, run);
    FileShows(unit, o, base, first, d, shaping, run, envs);
  }

  // ---------------------------------------------------------------- what goes stale

  /** Parameters put in place of the numbers that stand for them. */
  function Valued(val: nat -> Params, m: map<string, nat>): Live {
    map i | i in m :: val(m[i])
  }

  function ValuedEvent(val: nat -> Params, e: Event<nat>): Event<Params> {
    match e
    case Shape(i, v) => Shape(i, val(v))
    case Notify(t) => Notify(t)
    case Fire => Fire
    case Start => Start
    case Read(k, i) => Read(k, i)
    case Publish(k) => Publish(k)
  }

  function ValuedRun(val: nat -> Params, run: seq<Event<nat>>): (r: seq<Event<Params>>)
    ensures |r| == |run|
  {
    if run == [] then [] else ValuedRun(val, run[..|run| - 1]) + [ValuedEvent(val, run[|run| - 1])]
  }

  function ValuedRuns(val: nat -> Params, runs: seq<map<string, nat>>): (r: seq<Live>)
    ensures |r| == |runs|
    ensures forall k :: 0 <= k < |runs| ==> r[k] == Valued(val, runs[k])
  {
    seq(|runs|, k requires 0 <= k < |runs| => Valued(val, runs[k]))
  }

  function ValuedWorld(val: nat -> Params, w: World<nat>): World<Params> {
    World(Valued(val, w.shaping), w.owed, w.g, w.pending, ValuedRuns(val, w.runs), Valued(val, w.shown))
  }

  lemma {:induction false} ValuedAdd(val: nat -> Params, m: map<string, nat>, i: string, v: nat)
    ensures Valued(val, m[i := v]) == Valued(val, m)[i := val(v)] && Valued(val, m).Keys == m.Keys
  {
  }

  lemma {:induction false} ValuedChange(val: nat -> Params, runs: seq<map<string, nat>>, k: nat, m: map<string, nat>)
    requires k < |runs|
    ensures ValuedRuns(val, runs[k := m]) == ValuedRuns(val, runs)[k := Valued(val, m)]
    ensures ValuedRuns(val, runs[..k] + runs[k + 1..]) == ValuedRuns(val, runs)[..k] + ValuedRuns(val, runs)[k + 1..]
  {
    hide Valued;
  }

  lemma ValuedStart(val: nat -> Params, runs: seq<map<string, nat>>)
    ensures ValuedRuns(val, runs + [map[]]) == ValuedRuns(val, runs) + [map[]]
  {
    assert Valued(val, map[]) == map[];
  }

  lemma {:induction false} StepValued(val: nat -> Params, d: int, w: World<nat>, e: Event<nat>)
    ensures Step(d, ValuedWorld(val, w), ValuedEvent(val, e)) == ValuedWorld(val, Step(d, w, e))
  {
    hide Valued, ValuedRuns, Coalesce.Called, Coalesce.Fired;
    match e
    case Shape(i, v) =>
      ValuedAdd(val, w.shaping, i, v);
    case Start => ValuedStart(val, w.runs);
    case Read(k, i) => StepValuedRead(val, d, w, k, i);
    case Publish(k) => StepValuedPublish(val, d, w, k);
    case Notify(_) =>
    case Fire =>
  }

  lemma {:induction false} StepValuedRead(val: nat -> Params, d: int, w: World<nat>, k: nat, i: string)
    ensures Step(d, ValuedWorld(val, w), Read(k, i)) == ValuedWorld(val, Step(d, w, Read(k, i)))
  {
    hide Valued, ValuedRuns;
    ValuedAdd(val, w.shaping, "", 0);
    if k < |w.runs| && i in w.shaping {
      ValuedAt(val, w.shaping, i);
      ValuedAdd(val, w.runs[k], i, w.shaping[i]);
      ValuedChange(val, w.runs, k, w.runs[k][i := w.shaping[i]]);
    }
  }

  lemma {:induction false} StepValuedPublish(val: nat -> Params, d: int, w: World<nat>, k: nat)
    ensures Step(d, ValuedWorld(val, w), Publish(k)) == ValuedWorld(val, Step(d, w, Publish(k)))
  {
    hide Valued, ValuedRuns;
    ValuedAdd(val, w.shaping, "", 0);
    if k < |w.runs| {
      ValuedAdd(val, w.runs[k], "", 0);
      ValuedChange(val, w.runs, k, w.runs[k]);
    }
  }

  lemma ValuedAt(val: nat -> Params, m: map<string, nat>, i: string)
    requires i in m
    ensures i in Valued(val, m) && Valued(val, m)[i] == val(m[i])
  {
  }

  /** What happens does not depend on the values. */
  lemma {:induction false} AfterValued(val: nat -> Params, d: int, shaping: map<string, nat>, run: seq<Event<nat>>)
    ensures After(d, Valued(val, shaping), ValuedRun(val, run)) == ValuedWorld(val, After(d, shaping, run))
  {
    hide Step, ValuedWorld;
    if run == [] {
      InitialValued(val, shaping);
    } else {
      AfterValued(val, d, shaping, run[..|run| - 1]);
      StepValued(val, d, After(d, shaping, run[..|run| - 1]), run[|run| - 1]);
      assert ValuedRun(val, run)[..|run| - 1] == ValuedRun(val, run[..|run| - 1]);
    }
  }

  lemma InitialValued(val: nat -> Params, shaping: map<string, nat>)
    ensures Initial(Valued(val, shaping)) == ValuedWorld(val, Initial(shaping))
  {
  }

  /** Every number as a different rate. */
  function Rates(v: nat): Params {
    Rated(v as real + 1.0)
  }

  /** The published document is current, whatever the shaped values. */
  ghost predicate CurrentForAll(base: Doc, d: int, shaping: map<string, nat>, run: seq<Event<nat>>) {
    forall val: nat -> Params ::
      var w := After(d, Valued(val, shaping), ValuedRun(val, run));
      Overlay(base, w.shown) == Overlay(base, w.shaping)
  }

  /** With numbers for values: current whatever the values exactly if what shows are the numbers now set. */
  lemma {:induction false} CurrentIffShown(base: Doc, d: int, shaping: map<string, nat>, run: seq<Event<nat>>)
    ensures CurrentForAll(base, d, shaping, run)
            <==> After(d, shaping, run).shown == After(d, shaping, run).shaping
  {
    hide Overlay, After, Valued, ValuedRun, Rates;
    var w := After(d, shaping, run);
    forall val: nat -> Params ensures After(d, Valued(val, shaping), ValuedRun(val, run)) == ValuedWorld(val, w) {
      AfterValued(val, d, shaping, run);
    }
    if w.shown != w.shaping {
      ShownKeys(d, shaping, run);
      var i :| i in w.shown && w.shown[i] != w.shaping[i];
      RatesApart(base, w.shown, w.shaping, i);
      assert After(d, Valued(Rates, shaping), ValuedRun(Rates, run)) == ValuedWorld(Rates, w);
    }
  }

  /** For each run under way, and for the one that published last, how many events came before each of its reads. */
  datatype Reads = Reads(runs: seq<map<string, nat>>, shown: map<string, nat>)

  function ReadsStep<V>(d: int, w: World<V>, r: Reads, e: Event<V>, n: nat): (r': Reads)
    requires |r.runs| == |w.runs|
    ensures |r'.runs| == |Step(d, w, e).runs|
  {
    match e
    case Start => if w.pending == 0 then r else r.(runs := r.runs + [map[]])
    case Read(k, i) =>
      if k < |w.runs| && i in w.shaping && i !in w.runs[k]
      then
        var read: map<string, nat> := r.runs[k][i := n];
        r.(runs := r.runs[k := read])
      else r
    case Publish(k) => if CanPublish(w, k) then Reads(r.runs[..k] + r.runs[k + 1..], r.runs[k]) else r
    case _ => r
  }

  function ReadsAfter<V>(d: int, shaping: map<string, V>, run: seq<Event<V>>): (r: Reads)
    ensures |r.runs| == |After(d, shaping, run).runs|
  {
    if run == [] then Reads([], map i | i in shaping :: 0)
    else
      var n := |run| - 1;
      ReadsStep(d, After(d, shaping, run[..n]), ReadsAfter(d, shaping, run[..n]), run[n], n)
  }

  /** What interface `i` was set to after the first `n` events. */
  function SetTo<V>(shaping: map<string, V>, run: seq<Event<V>>, n: nat, i: string): V
    requires n <= |run| && i in shaping
  {
    if n == 0 then shaping[i]
    else if run[n - 1].Shape? && run[n - 1].ifid == i then run[n - 1].p
    else SetTo(shaping, run, n - 1, i)
  }

  /** A reading holds what was set when it was taken. */
  ghost predicate ReadAt<V>(shaping: map<string, V>, run: seq<Event<V>>, m: map<string, V>, at: map<string, nat>) {
    m.Keys == at.Keys
    && forall i :: i in m ==> i in shaping && at[i] <= |run| && m[i] == SetTo(shaping, run, at[i], i)
  }

  ghost predicate Dated<V>(shaping: map<string, V>, run: seq<Event<V>>, w: World<V>, r: Reads) {
    w.shaping.Keys == shaping.Keys
    && (forall i :: i in shaping ==> w.shaping[i] == SetTo(shaping, run, |run|, i))
    && |r.runs| == |w.runs|
    && (forall k :: 0 <= k < |w.runs| ==> ReadAt(shaping, run, w.runs[k], r.runs[k]))
    && ReadAt(shaping, run, w.shown, r.shown)
  }

  lemma {:induction false} SetToPrefix<V>(shaping: map<string, V>, run: seq<Event<V>>, e: Event<V>, n: nat, i: string)
    requires n <= |run| && i in shaping
    ensures SetTo(shaping, run + [e], n, i) == SetTo(shaping, run, n, i)
  {
    if n > 0 { SetToPrefix(shaping, run, e, n - 1, i); }
  }

  lemma {:induction false} SetToNow<V>(shaping: map<string, V>, run: seq<Event<V>>, e: Event<V>, i: string)
    requires i in shaping
    ensures SetTo(shaping, run + [e], |run| + 1, i)
            == if e.Shape? && e.ifid == i then e.p else SetTo(shaping, run, |run|, i)
  {
    SetToPrefix(shaping, run, e, |run|, i);
  }

  lemma {:induction false} ReadAtLater<V>(shaping: map<string, V>, run: seq<Event<V>>, e: Event<V>, m: map<string, V>,
                                          at: map<string, nat>)
    requires ReadAt(shaping, run, m, at)
    ensures ReadAt(shaping, run + [e], m, at)
  {
    forall i | i in m ensures m[i] == SetTo(shaping, run + [e], at[i], i) {
      SetToPrefix(shaping, run, e, at[i], i);
    }
  }

  lemma {:induction false} StepDated<V>(d: int, shaping: map<string, V>, run: seq<Event<V>>, w: World<V>, r: Reads,
                                        e: Event<V>)
    requires Dated(shaping, run, w, r)
    ensures Dated(shaping, run + [e], Step(d, w, e), ReadsStep(d, w, r, e, |run|))
  {
    hide ReadAt, SetTo, Coalesce.Called, Coalesce.Fired;
    var w', r' := Step(d, w, e), ReadsStep(d, w, r, e, |run|);
    forall i | i in shaping ensures w'.shaping[i] == SetTo(shaping, run + [e], |run| + 1, i) {
      SetToNow(shaping, run, e, i);
    }
    forall k | 0 <= k < |w.runs| ensures ReadAt(shaping, run + [e], w.runs[k], r.runs[k]) {
      ReadAtLater(shaping, run, e, w.runs[k], r.runs[k]);
    }
    ReadAtLater(shaping, run, e, w.shown, r.shown);
    NothingRead(shaping, run + [e]);
    if e.Read? && e.run < |w.runs| && e.ifid in w.shaping && e.ifid !in w.runs[e.run] {
      ReadMore(shaping, run, w, r, e);
    }
  }

  lemma NothingRead<V>(shaping: map<string, V>, run: seq<Event<V>>)
    ensures ReadAt(shaping, run, map[], map[])
  {
  }

  lemma {:induction false} ReadMore<V>(shaping: map<string, V>, run: seq<Event<V>>, w: World<V>, r: Reads, e: Event<V>)
    requires Dated(shaping, run, w, r) && e.Read? && e.run < |w.runs| && e.ifid in w.shaping
    ensures ReadAt(shaping, run + [e], w.runs[e.run][e.ifid := w.shaping[e.ifid]], r.runs[e.run][e.ifid := |run|])
  {
    ReadAtLater(shaping, run, e, w.runs[e.run], r.runs[e.run]);
    SetToPrefix(shaping, run, e, |run|, e.ifid);
  }

  lemma {:induction false} AlwaysDated<V>(d: int, shaping: map<string, V>, run: seq<Event<V>>)
    ensures Dated(shaping, run, After(d, shaping, run), ReadsAfter(d, shaping, run))
  {
    hide Step, ReadsStep;
    if run != [] {
      var n := |run| - 1;
      AlwaysDated(d, shaping, run[..n]);
      StepDated(d, shaping, run[..n], After(d, shaping, run[..n]), ReadsAfter(d, shaping, run[..n]), run[n]);
      assert run[..n] + [run[n]] == run;
    }
  }

  /** Interface `i` is set at event `k`, after the run that published last had read it. */
  ghost predicate SetAgain<V>(d: int, shaping: map<string, V>, run: seq<Event<V>>, k: nat, i: string) {
    k < |run| && run[k].Shape? && run[k].ifid == i
    && i in ReadsAfter(d, shaping, run).shown && ReadsAfter(d, shaping, run).shown[i] <= k
  }

  /** Every setting has a number of its own: the initial ones 0, that of event `k` the number `k + 1`. */
  ghost predicate Numbered(shaping: map<string, nat>, run: seq<Event<nat>>) {
    (forall i :: i in shaping ==> shaping[i] == 0)
    && forall k :: 0 <= k < |run| && run[k].Shape? ==> run[k].p == k + 1
  }

  lemma {:induction false} SetToSame<V>(shaping: map<string, V>, run: seq<Event<V>>, m: nat, n: nat, i: string)
    requires m <= n <= |run| && i in shaping
    requires forall k :: m <= k < n ==> !(run[k].Shape? && run[k].ifid == i)
    ensures SetTo(shaping, run, n, i) == SetTo(shaping, run, m, i)
    decreases n
  {
    if m < n { SetToSame(shaping, run, m, n - 1, i); }
  }

  lemma {:induction false} SetToNumber(shaping: map<string, nat>, run: seq<Event<nat>>, n: nat, i: string)
    requires Numbered(shaping, run) && n <= |run| && i in shaping
    ensures SetTo<nat>(shaping, run, n, i) <= n
    ensures forall k :: 0 <= k < n && run[k].Shape? && run[k].ifid == i ==> k < SetTo<nat>(shaping, run, n, i)
  {
    if n > 0 { SetToNumber(shaping, run, n - 1, i); }
  }

  /** An interface shows its latest setting exactly if it was not set again after it was read. */
  lemma {:induction false} ShownIffNotSetAgain(d: int, shaping: map<string, nat>, run: seq<Event<nat>>, i: string)
    requires Numbered(shaping, run) && i in shaping
    ensures var w := After(d, shaping, run);
            i in w.shown && i in w.shaping
            && (w.shown[i] == w.shaping[i] <==> !exists k :: SetAgain(d, shaping, run, k, i))
  {
    hide After, ReadsAfter;
    var at := ReadsAfter(d, shaping, run).shown;
    AlwaysDated(d, shaping, run);
    ShownKeys(d, shaping, run);
    SetToNumber(shaping, run, at[i], i);
    SetToNumber(shaping, run, |run|, i);
    if !exists k: nat :: SetAgain(d, shaping, run, k, i) {
      forall k: nat | at[i] <= k < |run| ensures !(run[k].Shape? && run[k].ifid == i) {
        assert !SetAgain(d, shaping, run, k, i);
      }
      SetToSame(shaping, run, at[i], |run|, i);
    } else {
      var k: nat :| SetAgain(d, shaping, run, k, i);
      assert at[i] <= k < SetTo<nat>(shaping, run, |run|, i);
    }
  }

  /**
   * Over every schedule, overlapping or not: the document is current, whatever the values set, exactly if no
   * interface was set again after the run that published last had read it.
   */
  lemma {:induction false} CurrentExactly(base: Doc, d: int, shaping: map<string, nat>, run: seq<Event<nat>>)
    requires Numbered(shaping, run)
    ensures CurrentForAll(base, d, shaping, run) <==> !exists k, i :: SetAgain(d, shaping, run, k, i)
  {
    hide After, SetAgain, CurrentForAll;
    CurrentIffShown(base, d, shaping, run);
    ShownKeys(d, shaping, run);
    AlwaysDated(d, shaping, run);
    forall i | i in shaping
      ensures var w := After(d, shaping, run);
              i in w.shown && i in w.shaping
              && (w.shown[i] == w.shaping[i] <==> !exists k :: SetAgain(d, shaping, run, k, i))
    {
      ShownIffNotSetAgain(d, shaping, run, i);
    }
    forall k: nat, i | SetAgain(d, shaping, run, k, i) ensures i in shaping {
      SetAgainKnown(d, shaping, run, k, i);
    }
  }

  lemma {:induction false} SetAgainKnown<V>(d: int, shaping: map<string, V>, run: seq<Event<V>>, k: nat, i: string)
    requires SetAgain(d, shaping, run, k, i)
    ensures i in shaping
  {
    hide After, ReadsAfter;
    AlwaysDated(d, shaping, run);
  }

  lemma {:induction false} ShownKeys<V>(d: int, shaping: map<string, V>, run: seq<Event<V>>)
    ensures After(d, shaping, run).shown.Keys == After(d, shaping, run).shaping.Keys
  {
    if run != [] {
      hide Step;
      ShownKeys(d, shaping, run[..|run| - 1]);
      StepShownKeys(d, After(d, shaping, run[..|run| - 1]), run[|run| - 1]);
    }
  }

  lemma StepShownKeys<V>(d: int, w: World<V>, e: Event<V>)
    requires w.shown.Keys == w.shaping.Keys
    ensures Step(d, w, e).shown.Keys == Step(d, w, e).shaping.Keys
  {
  }

  lemma RateOfNumber(v: nat)
    ensures RateInter(Rates(v)) == Some(JNum((v + 1) * 1000))
  {
  }

  lemma RateShown(base: Doc, live: Live, i: string)
    requires i in live && RateInter(live[i]).Some?
    ensures Field(Overlay(base, live), BANDWIDTH, i, INTER) == RateInter(live[i])
  {
    hide Overlay, RateInter, Field;
    OverlayField(base, live, BANDWIDTH, i, INTER);
  }

  lemma {:induction false} RatesApart(base: Doc, m: map<string, nat>, n: map<string, nat>, i: string)
    requires i in m && i in n && m[i] != n[i]
    ensures Overlay(base, Valued(Rates, m)) != Overlay(base, Valued(Rates, n))
  {
    hide Overlay, Rates, RateInter, Field;
    RateOfNumber(m[i]);
    RateOfNumber(n[i]);
    RateShown(base, Valued(Rates, m), i);
    RateShown(base, Valued(Rates, n), i);
  }

  lemma Advance<V>(d: int, shaping: map<string, V>, run: seq<Event<V>>, e: Event<V>, w: World<V>)
    requires Step(d, After(d, shaping, run), e) == w
    ensures After(d, shaping, run + [e]) == w
  {
    assert (run + [e])[..|run|] == run;
  }

  function Rated(r: real): Params {
    Params(None, None, None, Some(r))
  }

  lemma RatesShow(base: Doc, r: real, s: real)
    requires 0.0 < r && 0.0 < s && (r * 1000.0).Floor != (s * 1000.0).Floor
    ensures Overlay(base, map["7" := Rated(r)]) != Overlay(base, map["7" := Rated(s)])
  {
    assert RateInter(Rated(r)) != RateInter(Rated(s));
    hide Overlay, RateInter, Field;
    RateShown(base, map["7" := Rated(r)], "7");
    RateShown(base, map["7" := Rated(s)], "7");
  }

  /** Overlapping runs can end on a stale document: the one that read first may publish last. */
  lemma OverlapCanPublishStale(base: Doc) returns (run: seq<Event<Params>>)
    ensures var w := After(1, map["7" := Rated(1.0)], run);
            Quiescent(w) && Overlay(base, w.shown) != Overlay(base, w.shaping)
  {
    hide Overlay, After;
    var s1: Live := map["7" := Rated(1.0)];
    var s2: Live := map["7" := Rated(2.0)];
    var s3: Live := map["7" := Rated(3.0)];
    assert s1["7" := Rated(2.0)] == s2 && s2["7" := Rated(3.0)] == s3;
    assert s2.Keys == s3.Keys == {"7"};
    RatesShow(base, 2.0, 3.0);
    run := FirstRunReads(s1, s2);
    run := SecondRunPublishes(s1, s2, s3, run);
    Advance(1, s1, run, Publish(0), World(s3, 0, Coalesce.Guarded(Some(3), false), 0, [], s2));
    run := run + [Publish(0)];
    Advance(1, s1, run, Fire, World(s3, 0, Coalesce.IDLE, 0, [], s2));
    run := run + [Fire];
  }

  /** A run reads the second setting and stalls; the coalescer goes quiet. */
  lemma FirstRunReads(s1: Live, s2: Live) returns (run: seq<Event<Params>>)
    requires s1 == map["7" := Rated(1.0)] && s2 == map["7" := Rated(2.0)]
    ensures After(1, s1, run) == World(s2, 0, Coalesce.IDLE, 0, [s2], s1)
  {
    var open := Coalesce.Guarded(Some(1), false);
    var w0, w1 := Initial(s1), World(s2, 1, Coalesce.IDLE, 0, [], s1);
    var w2, w3 := World(s2, 0, open, 1, [], s1), World(s2, 0, open, 0, [map[]], s1);
    var w4, w5 := World(s2, 0, open, 0, [s2], s1), World(s2, 0, Coalesce.IDLE, 0, [s2], s1);
    assert s1["7" := Rated(2.0)] == s2;
    assert Step(1, w0, Shape("7", Rated(2.0))) == w1;
    assert Step(1, w1, Notify(0)) == w2;
    assert Step(1, w2, Start) == w3;
    assert Step(1, w3, Read(0, "7")) == w4 by { assert map["7" := s2["7"]] == s2; }
    assert Step(1, w4, Fire) == w5;
    run := [];
    assert After(1, s1, run) == w0;
    hide Step, After;
    Advance(1, s1, run, Shape("7", Rated(2.0)), w1);
    run := run + [Shape("7", Rated(2.0))];
    Advance(1, s1, run, Notify(0), w2);
    run := run + [Notify(0)];
    Advance(1, s1, run, Start, w3);
    run := run + [Start];
    Advance(1, s1, run, Read(0, "7"), w4);
    run := run + [Read(0, "7")];
    Advance(1, s1, run, Fire, w5);
    run := run + [Fire];
  }

  /** A later run reads the third setting and publishes it, with the first still under way. */
  lemma SecondRunPublishes(s1: Live, s2: Live, s3: Live, before: seq<Event<Params>>) returns (run: seq<Event<Params>>)
    requires s2 == map["7" := Rated(2.0)] && s3 == map["7" := Rated(3.0)]
    requires After(1, s1, before) == World(s2, 0, Coalesce.IDLE, 0, [s2], s1)
    ensures After(1, s1, run) == World(s3, 0, Coalesce.Guarded(Some(3), false), 0, [s2], s3)
  {
    var open := Coalesce.Guarded(Some(3), false);
    var w0, w1 := World(s2, 0, Coalesce.IDLE, 0, [s2], s1), World(s3, 1, Coalesce.IDLE, 0, [s2], s1);
    var w2, w3 := World(s3, 0, open, 1, [s2], s1), World(s3, 0, open, 0, [s2, map[]], s1);
    var w4, w5 := World(s3, 0, open, 0, [s2, s3], s1), World(s3, 0, open, 0, [s2], s3);
    assert s2["7" := Rated(3.0)] == s3;
    assert Step(1, w0, Shape("7", Rated(3.0))) == w1;
    assert Step(1, w1, Notify(2)) == w2;
    assert Step(1, w2, Start) == w3;
    assert Step(1, w3, Read(1, "7")) == w4 by { assert map["7" := s3["7"]] == s3; }
    assert Step(1, w4, Publish(1)) == w5 by { assert [s2, s3][..1] + [s2, s3][2..] == [s2]; }
    run := before;
    hide Step, After;
    Advance(1, s1, run, Shape("7", Rated(3.0)), w1);
    run := run + [Shape("7", Rated(3.0))];
    Advance(1, s1, run, Notify(2), w2);
    run := run + [Notify(2)];
    Advance(1, s1, run, Start, w3);
    run := run + [Start];
    Advance(1, s1, run, Read(1, "7"), w4);
    run := run + [Read(1, "7")];
    Advance(1, s1, run, Publish(1), w5);
    run := run + [Publish(1)];
  }
}
