/**
 * The sliding-window rate limiter. Each key's recorded times are pruned in place,
 * over the backing array they already occupy; the ghost history keeps every event
 * ever allowed.
 */
module RateLimit {
  import opened Prelude

  /** The times among the first `n` that lie after the cutoff, in order. */
  function Recent(s: seq<int>, n: nat, cutoff: int): (r: seq<int>)
    requires n <= |s|
    ensures |r| <= n
  {
    if n == 0 then [] else Recent(s, n - 1, cutoff) + (if s[n - 1] > cutoff then [s[n - 1]] else [])
  }

  function Since(s: seq<int>, cutoff: int): seq<int> {
    Recent(s, |s|, cutoff)
  }

  /** `r` is the times of `s` after the cutoff, in order: entry `k` of it stands at `at[k]`. */
  ghost predicate Keeps(s: seq<int>, cutoff: int, r: seq<int>, at: seq<nat>) {
    |at| == |r|
    && (forall k, l :: 0 <= k < l < |at| ==> at[k] < at[l])
    && (forall k :: 0 <= k < |at| ==> at[k] < |s| && r[k] == s[at[k]] && r[k] > cutoff)
    && forall i :: 0 <= i < |s| && s[i] > cutoff ==> i in at
  }

  lemma {:induction false} KeepsMore(s: seq<int>, cutoff: int, r: seq<int>, at: seq<nat>, x: int)
    requires Keeps(s, cutoff, r, at)
    ensures x > cutoff ==> Keeps(s + [x], cutoff, r + [x], at + [|s|])
    ensures x <= cutoff ==> Keeps(s + [x], cutoff, r, at)
  {
    var more := at + [|s|];
    assert more[|at|] == |s|;
    assert forall i :: i in at ==> i in more;
  }

  lemma {:induction false} RecentKeeps(s: seq<int>, n: nat, cutoff: int) returns (at: seq<nat>)
    requires n <= |s|
    ensures Keeps(s[..n], cutoff, Recent(s, n, cutoff), at)
  {
    if n == 0 {
      at := [];
    } else {
      hide Keeps;
      var init, x, r := s[..n - 1], s[n - 1], Recent(s, n - 1, cutoff);
      assert s[..n] == init + [x] && |init| == n - 1;
      at := RecentKeeps(s, n - 1, cutoff);
      KeepsMore(init, cutoff, r, at, x);
      if x > cutoff { at := at + [n - 1]; }
    }
  }

  lemma {:induction false} RecentPrefix(s: seq<int>, t: seq<int>, n: nat, cutoff: int)
    requires n <= |s| && n <= |t| && forall k :: 0 <= k < n ==> s[k] == t[k]
    ensures Recent(s, n, cutoff) == Recent(t, n, cutoff)
  {
    if n > 0 { RecentPrefix(s, t, n - 1, cutoff); }
  }

  lemma {:induction false} SinceSnoc(s: seq<int>, x: int, cutoff: int)
    ensures Since(s + [x], cutoff) == Since(s, cutoff) + (if x > cutoff then [x] else [])
  {
    RecentPrefix(s + [x], s, |s|, cutoff);
  }

  /** Pruning earlier loses nothing that a later cutoff would keep. */
  lemma {:induction false} SinceSince(s: seq<int>, n: nat, early: int, late: int)
    requires early <= late && n <= |s|
    ensures Since(Recent(s, n, early), late) == Recent(s, n, late)
  {
    if n > 0 {
      SinceSince(s, n - 1, early, late);
      if s[n - 1] > early {
        SinceSnoc(Recent(s, n - 1, early), s[n - 1], late);
      } else {
        assert Recent(s, n, early) == Recent(s, n - 1, early);
      }
    }
  }

  /** A slice: the first `len` elements of a backing array. */
  datatype Slice = Slice(buf: array<int>, len: nat)

  /** Every event was allowed with fewer than `max` earlier ones in its trailing window. */
  ghost predicate Admitted(max: int, window: int, history: seq<int>) {
    forall i :: 0 <= i < |history| ==> AdmittedAt(max, window, history, i)
  }

  ghost predicate AdmittedAt(max: int, window: int, history: seq<int>, i: nat)
    requires i < |history|
  {
    |Recent(history, i, history[i] - window)| < max
  }

  /** Filtered to any window that starts at `from` or later, the recorded times are those of the history. */
  ghost predicate Agrees(recorded: seq<int>, history: seq<int>, from: int) {
    forall c :: c >= from ==> Since(recorded, c) == Since(history, c)
  }

  class Limiter {
    const max: int
    const window: int
    var hits: map<string, Slice>
    ghost var history: map<string, seq<int>>
    ghost var clock: int

    ghost function Footprint(): set<object>
      reads this`hits
    {
      set k | k in hits :: hits[k].buf as object
    }

    ghost function History(key: string): seq<int>
      reads this`history
    {
      if key in history then history[key] else []
    }

    /** The recorded times of a key. */
    ghost function Contents(key: string): seq<int>
      reads this`hits, Footprint()
    {
      if key in hits && hits[key].len <= hits[key].buf.Length then hits[key].buf[..hits[key].len] else []
    }

    ghost predicate Shape()
      reads this`hits
    {
      (forall k :: k in hits ==> hits[k].len <= hits[k].buf.Length)
      && forall k, l :: k in hits && l in hits && k != l ==> hits[k].buf != hits[l].buf
    }

    /** What is recorded agrees with the full history, now and for every later window. */
    ghost predicate Valid()
      reads this, Footprint()
    {
      Shape()
      && (forall k :: Agrees(Contents(k), History(k), clock - window))
      && forall k :: Admitted(max, window, History(k))
    }

    constructor (max: int, window: int, start: int)
      ensures Valid() && Footprint() == {} && clock == start && this.max == max && this.window == window
      ensures forall k :: History(k) == []
    {
      this.max, this.window := max, window;
      hits, history, clock := map[], map[], start;
    }

    /** Filters a slice over its own backing array. */
    method Prune(s: Slice, cutoff: int) returns (kept: nat)
      requires s.len <= s.buf.Length
      modifies s.buf
      ensures kept <= s.len && s.buf[..kept] == Since(old(s.buf[..s.len]), cutoff)
    {
      ghost var before := s.buf[..s.len];
      kept := 0;
      for i := 0 to s.len
        invariant kept <= i
        invariant s.buf[..kept] == Recent(before, i, cutoff)
        invariant forall k :: i <= k < s.len ==> s.buf[k] == before[k]
      {
        var t := s.buf[i];
        if t > cutoff {
          s.buf[kept] := t;
          kept := kept + 1;
        }
      }
    }

    /** Appends to the first `len` elements, in place when there is room. */
    method Append(buf: array<int>, len: nat, x: int) returns (s: Slice)
      requires len <= buf.Length
      modifies buf
      ensures s.len == len + 1 <= s.buf.Length && s.buf[..s.len] == old(buf[..len]) + [x]
      ensures s.buf == buf || fresh(s.buf)
    {
      if len < buf.Length {
        buf[len] := x;
        return Slice(buf, len + 1);
      }
      var grown := new int[2 * len + 1](_ => 0);
      for i := 0 to len
        invariant grown[..i] == buf[..i] && buf[..] == old(buf[..])
      {
        grown[i] := buf[i];
      }
      grown[len] := x;
      s := Slice(grown, len + 1);
    }

    /** The two cases of the decision, once the slice is pruned. */
    method Decide(key: string, s: Slice, kept: nat, now: int) returns (allowed: bool)
      requires Shape() && kept <= s.buf.Length && (forall k :: k in hits && k != key ==> hits[k].buf != s.buf)
      modifies this`hits, s.buf
      ensures Shape() && fresh(Footprint() - old(Footprint()) - {s.buf})
      ensures allowed <==> kept < max
      ensures key in hits && hits[key].buf[..hits[key].len] == old(s.buf[..kept]) + (if allowed then [now] else [])
      ensures hits[key].buf == s.buf || fresh(hits[key].buf)
      ensures forall k :: k != key ==> (k in hits <==> k in old(hits)) && (k in hits ==> hits[k] == old(hits)[k])
    {
      if kept >= max {
        hits := hits[key := Slice(s.buf, kept)];
        return false;
      }
      var s' := Append(s.buf, kept, now);
      hits := hits[key := s'];
      allowed := true;
    }

    /** Prunes a key's slice, decides, and records; other keys keep theirs. */
    method Record(key: string, now: int) returns (allowed: bool)
      requires Shape()
      modifies this`hits, Footprint()
      ensures Shape() && fresh(Footprint() - old(Footprint()))
      ensures allowed <==> |Since(old(Contents(key)), now - window)| < max
      ensures Contents(key) == Since(old(Contents(key)), now - window) + (if allowed then [now] else [])
      ensures forall k :: k != key ==> Contents(k) == old(Contents(k))
    {
      hide Since;
      var s: Slice;
      if key in hits {
        s := hits[key];
      } else {
        var empty := new int[0];
        s := Slice(empty, 0);
      }
      assert s.buf[..s.len] == Contents(key);
      var kept := Prune(s, now - window);
      allowed := Decide(key, s, kept, now);
      forall k | k != key ensures Contents(k) == old(Contents(k)) {}
    }

    method Allow(key: string, now: int) returns (allowed: bool)
      requires Valid() && now >= clock
      modifies this`hits, this`history, this`clock, Footprint()
      ensures Valid() && clock == now && fresh(Footprint() - old(Footprint()))
      ensures allowed <==> |Since(old(History(key)), now - window)| < max
      ensures History(key) == old(History(key)) + (if allowed then [now] else [])
      ensures Contents(key) == Since(old(History(key)), now - window) + (if allowed then [now] else [])
      ensures forall k :: k != key ==> History(k) == old(History(k)) && Contents(k) == old(Contents(k))
    {
      hide Since, Admitted, Agrees, Shape, Contents;
      ghost var past := History(key);
      AgreesAt(Contents(key), past, clock - window, now - window);
      allowed := Record(key, now);
      if allowed {
        AdmittedSnoc(past, now, window, max);
        history := history[key := past + [now]];
      }
      clock := now;
      assert History(key) == past + (if allowed then [now] else []);
      forall k ensures Admitted(max, window, History(k)) {
        if k != key { assert History(k) == old(History(k)); }
      }
      forall k ensures Agrees(Contents(k), History(k), now - window) {
        if k == key {
          assert past + [] == past;
          KeptAgrees(past, now, window, allowed);
        } else {
          assert Contents(k) == old(Contents(k)) && History(k) == old(History(k));
          AgreesAt(Contents(k), History(k), old(clock) - window, now - window);
        }
      }
    }
  }

  lemma AgreesAt(recorded: seq<int>, history: seq<int>, from: int, later: int)
    requires Agrees(recorded, history, from) && later >= from
    ensures Agrees(recorded, history, later) && Since(recorded, later) == Since(history, later)
  {
  }

  lemma {:induction false} AdmittedSnoc(past: seq<int>, now: int, window: int, max: int)
    requires Admitted(max, window, past) && |Since(past, now - window)| < max
    ensures Admitted(max, window, past + [now])
  {
    hide Recent;
    var all := past + [now];
    forall i | 0 <= i < |all|
      ensures AdmittedAt(max, window, all, i)
    {
      RecentPrefix(all, past, i, all[i] - window);
      if i < |past| { assert AdmittedAt(max, window, past, i) && all[i] == past[i]; }
    }
  }

  /** What one decision leaves behind for a key agrees with the history at every later cutoff. */
  lemma {:induction false} KeptAgrees(past: seq<int>, now: int, window: int, allowed: bool)
    ensures var new' := if allowed then [now] else [];
            Agrees(Since(past, now - window) + new', past + new', now - window)
  {
    hide Recent;
    var new' := if allowed then [now] else [];
    var kept := Since(past, now - window);
    assert past + [] == past && kept + [] == kept;
    forall c | c >= now - window ensures Since(kept + new', c) == Since(past + new', c) {
      SinceSince(past, |past|, now - window, c);
      SinceSnoc(past, now, c);
      SinceSnoc(kept, now, c);
    }
  }

  // ---------------------------------------------------------------- the rate bound

  /** How many of the first `n` times lie in the half-open interval from `lo` (excluded) to `hi`. */
  function Within(s: seq<int>, n: nat, lo: int, hi: int): nat
    requires n <= |s|
  {
    if n == 0 then 0 else Within(s, n - 1, lo, hi) + (if lo < s[n - 1] <= hi then 1 else 0)
  }

  lemma {:induction false} WithinRecent(s: seq<int>, n: nat, lo: int, hi: int, cutoff: int)
    requires n <= |s| && cutoff <= lo
    ensures Within(s, n, lo, hi) <= |Recent(s, n, cutoff)|
  {
    if n > 0 { WithinRecent(s, n - 1, lo, hi, cutoff); }
  }

  /** No interval of the window's length ever holds more than `max` allowed events. */
  lemma {:induction false} AtMostMaxPerWindow(max: int, window: int, history: seq<int>, n: nat, lo: int)
    requires Admitted(max, window, history) && n <= |history|
    ensures Within(history, n, lo, lo + window) <= if max < 0 then 0 else max
  {
    if n > 0 {
      AtMostMaxPerWindow(max, window, history, n - 1, lo);
      var t := history[n - 1];
      if lo < t <= lo + window {
        WithinRecent(history, n - 1, lo, lo + window, t - window);
        assert AdmittedAt(max, window, history, n - 1);
      }
    }
  }
}
