/**
 * The order in which a breadth-first search meets paths. A path is told by the
 * position of each of its edges in the edge list of the vertex it leaves.
 */
module PathOrder {

  /** The first place where they differ shows `a` smaller. */
  ghost predicate LexLess(a: seq<nat>, b: seq<nat>) {
    exists d: nat :: DivergesAt(a, b, d)
  }

  ghost predicate DivergesAt(a: seq<nat>, b: seq<nat>, d: nat) {
    d < |a| && d < |b| && a[..d] == b[..d] && a[d] < b[d]
  }

  /** Shorter first, then by link order. */
  ghost predicate Precedes(a: seq<nat>, b: seq<nat>) {
    |a| < |b| || (|a| == |b| && LexLess(a, b))
  }

  lemma LexExtend(a: seq<nat>, b: seq<nat>, m: seq<nat>, n: seq<nat>)
    requires LexLess(a, b)
    ensures LexLess(a + m, b + n)
  {
    var d: nat :| DivergesAt(a, b, d);
    assert (a + m)[..d] == a[..d] && (b + n)[..d] == b[..d];
    assert DivergesAt(a + m, b + n, d);
  }

  lemma LexChild(a: seq<nat>, m: nat, n: nat)
    requires m < n
    ensures LexLess(a + [m], a + [n])
  {
    assert (a + [m])[..|a|] == a == (a + [n])[..|a|];
    assert DivergesAt(a + [m], a + [n], |a|);
  }

  lemma LexAsymmetric(a: seq<nat>, b: seq<nat>)
    requires LexLess(a, b)
    ensures !LexLess(b, a)
  {
    var d: nat :| DivergesAt(a, b, d);
    forall e: nat ensures !DivergesAt(b, a, e) {
      if e <= |a| && e <= |b| && d < e { assert a[..e][d] != b[..e][d]; }
      if e < d { assert a[..d][e] == b[..d][e]; }
    }
  }

  lemma LexTransitive(a: seq<nat>, b: seq<nat>, c: seq<nat>)
    requires LexLess(a, b) && LexLess(b, c)
    ensures LexLess(a, c)
  {
    var d: nat :| DivergesAt(a, b, d);
    var e: nat :| DivergesAt(b, c, e);
    var m := if d < e then d else e;
    assert a[..m] == a[..d][..m] == b[..d][..m] == b[..m];
    assert b[..m] == b[..e][..m] == c[..e][..m] == c[..m];
    if m < d { assert a[m] == a[..d][m] == b[m]; }
    if m < e { assert b[m] == b[..e][m] == c[m]; }
    assert DivergesAt(a, c, m);
  }

  lemma PrecedesAsymmetric(a: seq<nat>, b: seq<nat>)
    requires Precedes(a, b)
    ensures !Precedes(b, a) && a != b
  {
    if |a| == |b| { LexAsymmetric(a, b); }
  }

  /** The same, or earlier. */
  ghost predicate NoLater(a: seq<nat>, b: seq<nat>) {
    a == b || Precedes(a, b)
  }

  lemma NoLaterTransitive(a: seq<nat>, b: seq<nat>, c: seq<nat>)
    requires NoLater(a, b) && NoLater(b, c)
    ensures NoLater(a, c)
  {
    if |a| == |b| == |c| && a != b && b != c { LexTransitive(a, b, c); }
  }

  lemma NoLaterExtend(a: seq<nat>, b: seq<nat>, m: nat)
    requires NoLater(a, b)
    ensures NoLater(a + [m], b + [m])
  {
    if |a| == |b| && a != b { LexExtend(a, b, [m], [m]); }
  }

  lemma NoLaterAntisymmetric(a: seq<nat>, b: seq<nat>)
    requires NoLater(a, b) && NoLater(b, a)
    ensures a == b
  {
    if a != b { PrecedesAsymmetric(a, b); }
  }
}
