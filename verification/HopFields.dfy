/**
 * From hop field indices to interfaces: telemetry records name hop fields, path
 * metadata lists interfaces, and one hop field covers two interfaces except at the
 * ends of the path and where two segments are spliced.
 */
module HopFields {
  import opened Prelude

  type IA = int

  /** The parts of a decoded data-plane path that the mapping looks at. */
  datatype Decoded = Decoded(segLen: seq<nat>, peer: seq<bool>, numInf: nat)

  const UINT_MOD: nat := 0x1_0000_0000_0000_0000

  // ---------------------------------------------------------------- the code

  /** Running totals of the segment lengths, in the direction asked for. */
  function Swapped<T>(s: seq<T>, segLen: seq<nat>): seq<T>
    requires |s| == 3 && |segLen| == 3
  {
    if segLen[2] > 0 then [s[2], s[1], s[0]]
    else if segLen[1] > 0 then [s[1], s[0], s[2]]
    else s
  }

  /** Hop field indices at which the segment changes; a peering crossover is no change. */
  function SegChange(d: Decoded): seq<nat>
    requires |d.segLen| == 3 && |d.peer| == 3 && 1 <= d.numInf <= 3
  {
    var c0 := d.segLen[0];
    var c1 := c0 + d.segLen[1];
    var c2 := c1 + d.segLen[2];
    var c0' := if d.numInf > 1 && d.peer[0] then c1 else c0;
    var c1' := if d.numInf > 2 && d.peer[1] then c2 else c1;
    [c0', c1', c2]
  }

  function Turned(d: Decoded, reverse: bool): Decoded
    requires |d.segLen| == 3 && |d.peer| == 3
  {
    if reverse then d.(segLen := Swapped(d.segLen, d.segLen), peer := Swapped(d.peer, d.segLen)) else d
  }

  /** Reverses the segment lengths and flags in place; hop fields are not needed and stay. */
  method ReverseSegments(segLen: array<nat>, peer: array<bool>)
    requires segLen.Length == 3 && peer.Length == 3
    modifies segLen, peer
    ensures segLen[..] == Swapped(old(segLen[..]), old(segLen[..]))
    ensures peer[..] == Swapped(old(peer[..]), old(segLen[..]))
  {
    if segLen[2] > 0 {
      segLen[0], segLen[2] := segLen[2], segLen[0];
      peer[0], peer[2] := peer[2], peer[0];
    } else if segLen[1] > 0 {
      segLen[0], segLen[1] := segLen[1], segLen[0];
      peer[0], peer[1] := peer[1], peer[0];
    }
  }

  /** Overwrites the segment lengths with the indices at which the segment changes. */
  method AccumulateChanges(seg: array<nat>, peer: seq<bool>, numInf: nat)
    requires seg.Length == 3 && |peer| == 3 && 1 <= numInf <= 3
    modifies seg
    ensures seg[..] == SegChange(Decoded(old(seg[..]), peer, numInf))
  {
    seg[1] := seg[0] + seg[1];
    seg[2] := seg[1] + seg[2];
    ghost var c0, c1, c2 := seg[0], seg[1], seg[2];
    for i := 0 to numInf - 1
      invariant seg[0] == if i > 0 && peer[0] then c1 else c0
      invariant seg[1] == if i > 1 && peer[1] then c2 else c1
      invariant seg[2] == c2
    {
      if peer[i] {
        seg[i] := seg[i + 1];
      }
    }
  }

  /** The part of hopfieldToInterfaceIdx that runs before the closure is returned. */
  method SegmentChanges(path: Decoded, reverse: bool) returns (segChange: array<nat>)
    requires |path.segLen| == 3 && |path.peer| == 3 && 1 <= path.numInf <= 3
    ensures fresh(segChange) && segChange[..] == SegChange(Turned(path, reverse))
  {
    hide SegChange, Swapped;
    var segLen := new nat[3](i requires 0 <= i < 3 => path.segLen[i]);
    var peer := new bool[3](i requires 0 <= i < 3 => path.peer[i]);
    assert segLen[..] == path.segLen && peer[..] == path.peer;
    if reverse {
      ReverseSegments(segLen, peer);
    }
    AccumulateChanges(segLen, peer[..], path.numInf);
    segChange := segLen;
  }

  /** The closure: unsigned arithmetic, so an underflow would wrap round. */
  function InterfaceIdx(segChange: seq<nat>, i: nat): nat
    requires |segChange| == 3
  {
    if i > 0 then
      if i < segChange[0] then (2 * i - 1) % UINT_MOD
      else if i < segChange[1] then (2 * i - 3) % UINT_MOD
      else (2 * i - 5) % UINT_MOD
    else 0
  }

  /** FwdPathMeta: the AS of forward hop field `i`, or an error past the interface list. */
  function FwdPathMeta(d: Decoded, interfaces: seq<IA>, i: nat): Result<IA>
    requires |d.segLen| == 3 && |d.peer| == 3 && 1 <= d.numInf <= 3
  {
    var j := InterfaceIdx(SegChange(Turned(d, false)), i);
    if j < |interfaces| then Ok(interfaces[j]) else Err("hop index out of range")
  }

  /** RevPathMeta: the AS of hop field `i` counted from the far end. */
  function RevPathMeta(d: Decoded, interfaces: seq<IA>, i: nat): Result<IA>
    requires |d.segLen| == 3 && |d.peer| == 3 && 1 <= d.numInf <= 3
  {
    var j := InterfaceIdx(SegChange(Turned(d, true)), i);
    if j < |interfaces| then Ok(interfaces[|interfaces| - j - 1]) else Err("hop index out of range")
  }

  // ---------------------------------------------------------------- what paths are

  /**
   * A SCION path by the ASes that own its hop fields, segment by segment in travel order.
   * Neighbouring segments are spliced inside one AS, or joined by a peering link.
   */
  datatype SegPath =
    | One(a: seq<IA>)
    | Two(a: seq<IA>, b: seq<IA>)
    | Three(a: seq<IA>, b: seq<IA>, c: seq<IA>)
    | Peering(a: seq<IA>, b: seq<IA>)

  predicate Spliced(a: seq<IA>, b: seq<IA>) {
    a != [] && b != [] && a[|a| - 1] == b[0]
  }

  predicate WellFormed(p: SegPath) {
    match p
    case One(a) => |a| >= 2
    case Two(a, b) => |a| >= 2 && |b| >= 2 && Spliced(a, b)
    case Three(a, b, c) => |a| >= 2 && |b| >= 2 && |c| >= 2 && Spliced(a, b) && Spliced(b, c)
    case Peering(a, b) => |a| >= 1 && |b| >= 1
  }

  /** What the data plane carries for such a path: a peering path has the flag on both segments. */
  function Encode(p: SegPath): Decoded {
    match p
    case One(a) => Decoded([|a|, 0, 0], [false, false, false], 1)
    case Two(a, b) => Decoded([|a|, |b|, 0], [false, false, false], 2)
    case Three(a, b, c) => Decoded([|a|, |b|, |c|], [false, false, false], 3)
    case Peering(a, b) => Decoded([|a|, |b|, 0], [true, true, false], 2)
  }

  /** The owners of all hop fields, in travel order. */
  function Owners(p: SegPath): seq<IA> {
    match p
    case One(a) => a
    case Two(a, b) => a + b
    case Three(a, b, c) => a + b + c
    case Peering(a, b) => a + b
  }

  /** Each link inside a segment contributes the interface it leaves by and the one it enters by. */
  function SegInterfaces(seg: seq<IA>): seq<IA> {
    if |seg| <= 1 then [] else [seg[0], seg[1]] + SegInterfaces(seg[1..])
  }

  /** The interface list of the path's metadata; a splice adds nothing, a peering link adds its two ends. */
  function Interfaces(p: SegPath): seq<IA>
    requires WellFormed(p)
  {
    match p
    case One(a) => SegInterfaces(a)
    case Two(a, b) => SegInterfaces(a) + SegInterfaces(b)
    case Three(a, b, c) => SegInterfaces(a) + SegInterfaces(b) + SegInterfaces(c)
    case Peering(a, b) => SegInterfaces(a) + [a[|a| - 1], b[0]] + SegInterfaces(b)
  }

  /** The number of splices. */
  function Crossovers(p: SegPath): nat {
    match p
    case One(_) => 0
    case Two(_, _) => 1
    case Three(_, _, _) => 2
    case Peering(_, _) => 0
  }

  // ---------------------------------------------------------------- the mapping is right

  lemma {:induction false} SegInterfacesAt(seg: seq<IA>)
    requires seg != []
    ensures |SegInterfaces(seg)| == 2 * (|seg| - 1)
    ensures forall j :: 0 <= j < 2 * (|seg| - 1) ==> SegInterfaces(seg)[j] == seg[(j + 1) / 2]
  {
    if |seg| > 1 {
      var tail := SegInterfaces(seg[1..]);
      SegInterfacesAt(seg[1..]);
      forall j | 0 <= j < 2 * (|seg| - 1)
        ensures SegInterfaces(seg)[j] == seg[(j + 1) / 2]
      {
        if j >= 2 { assert SegInterfaces(seg)[j] == tail[j - 2] == seg[1..][(j - 1) / 2]; }
      }
    }
  }

  /** The interface list has two entries per link: one link between neighbours that are not spliced. */
  lemma {:induction false} InterfaceCount(p: SegPath)
    requires WellFormed(p)
    ensures |Interfaces(p)| == 2 * (|Owners(p)| - 1 - Crossovers(p))
  {
    SegInterfacesAt(p.a);
    if !p.One? { SegInterfacesAt(p.b); }
    if p.Three? { SegInterfacesAt(p.c); }
  }

  /** The interface a hop field is entered by, counted without wrap-around. */
  function EntryIdx(p: SegPath, i: nat): int {
    match p
    case One(_) => 2 * i - 1
    case Peering(_, _) => 2 * i - 1
    case Two(a, _) => if i < |a| then 2 * i - 1 else 2 * i - 3
    case Three(a, b, _) => if i < |a| then 2 * i - 1 else if i < |a| + |b| then 2 * i - 3 else 2 * i - 5
  }

  /** The closure computes that index: the subtraction never runs below zero. */
  lemma NoUnderflow(p: SegPath, i: nat)
    requires WellFormed(p) && 0 < i < |Owners(p)| && 2 * i < UINT_MOD
    ensures EntryIdx(p, i) >= 0 && InterfaceIdx(SegChange(Encode(p)), i) == EntryIdx(p, i)
  {
  }

  lemma ConcatAt(s: seq<IA>, t: seq<IA>, k: nat)
    requires k < |s| + |t|
    ensures (s + t)[k] == if k < |s| then s[k] else t[k - |s|]
  {
  }

  lemma {:induction false} EntryOfPair(a: seq<IA>, b: seq<IA>, i: nat)
    requires |a| >= 2 && |b| >= 2 && Spliced(a, b) && 0 < i < |a| + |b|
    ensures var e := if i < |a| then 2 * i - 1 else 2 * i - 3; var xy := SegInterfaces(a) + SegInterfaces(b);
            0 <= e < |xy| && xy[e] == (a + b)[i]
  {
    hide SegInterfaces;
    SegInterfacesAt(a);
    SegInterfacesAt(b);
    ConcatAt(a, b, i);
    ConcatAt(SegInterfaces(a), SegInterfaces(b), if i < |a| then 2 * i - 1 else 2 * i - 3);
  }

  lemma {:induction false} EntryOfPeering(a: seq<IA>, b: seq<IA>, i: nat)
    requires |a| >= 1 && |b| >= 1 && 0 < i < |a| + |b|
    ensures var xy := SegInterfaces(a) + [a[|a| - 1], b[0]] + SegInterfaces(b);
            2 * i - 1 < |xy| && xy[2 * i - 1] == (a + b)[i]
  {
    hide SegInterfaces;
    SegInterfacesAt(a);
    SegInterfacesAt(b);
    var mid := [a[|a| - 1], b[0]];
    ConcatAt(a, b, i);
    ConcatAt(SegInterfaces(a) + mid, SegInterfaces(b), 2 * i - 1);
    if i <= |a| { ConcatAt(SegInterfaces(a), mid, 2 * i - 1); }
  }

  lemma {:induction false} EntryOfTriple(a: seq<IA>, b: seq<IA>, c: seq<IA>, i: nat)
    requires |a| >= 2 && |b| >= 2 && |c| >= 2 && Spliced(a, b) && Spliced(b, c) && 0 < i < |a| + |b| + |c|
    ensures var e := EntryIdx(Three(a, b, c), i); var xyz := SegInterfaces(a) + SegInterfaces(b) + SegInterfaces(c);
            0 <= e < |xyz| && xyz[e] == (a + b + c)[i]
  {
    hide SegInterfaces;
    SegInterfacesAt(a);
    SegInterfacesAt(b);
    SegInterfacesAt(c);
    var n := |a| + |b|;
    ConcatAt(a + b, c, i);
    ConcatAt(SegInterfaces(a) + SegInterfaces(b), SegInterfaces(c), EntryIdx(Three(a, b, c), i));
    if i <= n { EntryOfPair(a, b, if i < n then i else n - 1); }
    if i == n { ConcatAt(a, b, n - 1); }
  }

  lemma {:induction false} EntryIsOwned(p: SegPath, i: nat)
    requires WellFormed(p) && 0 < i < |Owners(p)|
    ensures 0 <= EntryIdx(p, i) < |Interfaces(p)| && Interfaces(p)[EntryIdx(p, i)] == Owners(p)[i]
  {
    hide SegInterfaces, Spliced;
    match p
    case One(a) => SegInterfacesAt(a);
    case Two(a, b) => EntryOfPair(a, b, i);
    case Peering(a, b) => EntryOfPeering(a, b, i);
    case Three(a, b, c) => EntryOfTriple(a, b, c, i);
  }

  /** Forward: every hop field is mapped inside the list to the AS that owns it. */
  lemma {:induction false} ForwardNamesOwner(p: SegPath, i: nat)
    requires WellFormed(p) && i < |Owners(p)| && 2 * i < UINT_MOD
    ensures FwdPathMeta(Encode(p), Interfaces(p), i) == Ok(Owners(p)[i])
  {
    if i > 0 {
      hide Interfaces, Owners, SegChange, InterfaceIdx, EntryIdx;
      NoUnderflow(p, i);
      EntryIsOwned(p, i);
    } else {
      InterfaceCount(p);
      SegInterfacesAt(p.a);
    }
  }

  // ---------------------------------------------------------------- the reverse direction

  function Back(s: seq<IA>): (r: seq<IA>)
    ensures |r| == |s|
  {
    seq(|s|, i requires 0 <= i < |s| => s[|s| - 1 - i])
  }

  /** The same path travelled the other way. */
  function TurnRound(p: SegPath): SegPath {
    match p
    case One(a) => One(Back(a))
    case Two(a, b) => Two(Back(b), Back(a))
    case Three(a, b, c) => Three(Back(c), Back(b), Back(a))
    case Peering(a, b) => Peering(Back(b), Back(a))
  }

  lemma {:induction false} BackInterfaces(s: seq<IA>)
    requires s != []
    ensures SegInterfaces(Back(s)) == Back(SegInterfaces(s))
  {
    hide SegInterfaces;
    SegInterfacesAt(s);
    SegInterfacesAt(Back(s));
  }

  lemma BackConcat(s: seq<IA>, t: seq<IA>)
    ensures Back(s + t) == Back(t) + Back(s)
  {
  }

  /** Turning the path round turns its owners and its interface list round. */
  lemma {:induction false} TurnRoundReverses(p: SegPath)
    requires WellFormed(p)
    ensures WellFormed(TurnRound(p))
    ensures Owners(TurnRound(p)) == Back(Owners(p))
    ensures Interfaces(TurnRound(p)) == Back(Interfaces(p))
  {
    hide SegInterfaces, Back;
    BackEnds(p);
    BackInterfaces(p.a);
    if !p.One? {
      BackInterfaces(p.b);
      BackConcat(p.a, p.b);
      BackConcat(SegInterfaces(p.a), SegInterfaces(p.b));
    }
    if p.Three? {
      BackInterfaces(p.c);
      BackConcat(p.a + p.b, p.c);
      BackConcat(SegInterfaces(p.a) + SegInterfaces(p.b), SegInterfaces(p.c));
      Assoc(Back(p.c), Back(p.b), Back(p.a));
      Assoc(Back(SegInterfaces(p.c)), Back(SegInterfaces(p.b)), Back(SegInterfaces(p.a)));
    }
    if p.Peering? {
      var mid := [p.a[|p.a| - 1], p.b[0]];
      BackConcat(SegInterfaces(p.a), mid);
      BackConcat(SegInterfaces(p.a) + mid, SegInterfaces(p.b));
      Assoc(Back(SegInterfaces(p.b)), Back(mid), Back(SegInterfaces(p.a)));
    }
  }

  lemma Assoc(r: seq<IA>, s: seq<IA>, t: seq<IA>)
    ensures r + (s + t) == r + s + t
  {
  }

  lemma {:induction false} BackEnds(p: SegPath)
    requires WellFormed(p)
    ensures WellFormed(TurnRound(p))
    ensures p.Peering? ==> Back([p.a[|p.a| - 1], p.b[0]]) == [Back(p.b)[|p.b| - 1], Back(p.a)[0]]
  {
    if p.Peering? {
      var mid := [p.a[|p.a| - 1], p.b[0]];
      assert Back(mid)[0] == mid[1] && Back(mid)[1] == mid[0];
    }
  }

  /** Swapping segment lengths and flags is all the reversal the mapping needs. */
  lemma TurnedIsTurnRound(p: SegPath)
    requires WellFormed(p)
    ensures Turned(Encode(p), true) == Encode(TurnRound(p))
  {
  }

  /** Reverse hop field `i` names the same AS as forward hop field N-1-i. */
  lemma {:induction false} ReverseNamesSameOwner(p: SegPath, i: nat)
    requires WellFormed(p) && i < |Owners(p)| && 2 * |Owners(p)| < UINT_MOD
    ensures RevPathMeta(Encode(p), Interfaces(p), i) == Ok(Owners(p)[|Owners(p)| - 1 - i])
    ensures RevPathMeta(Encode(p), Interfaces(p), i) == FwdPathMeta(Encode(p), Interfaces(p), |Owners(p)| - 1 - i)
  {
    hide WellFormed, Interfaces, Owners, InterfaceIdx, Spliced;
    TurnRoundReverses(p);
    TurnedIsTurnRound(p);
    ForwardNamesOwner(TurnRound(p), i);
    ForwardNamesOwner(p, |Owners(p)| - 1 - i);
  }

  // ---------------------------------------------------------------- indices past the end

  /**
   * An unsigned index that is past the end and still accepted: doubling loses the top bit, and what is left is one
   * of the first few indices past the end, as many as two less the number of splices, or before it; but never below
   * 3, where the subtraction wraps round.
   */
  predicate AcceptedPast(p: SegPath, i: nat) {
    3 <= i % (UINT_MOD / 2) < |Owners(p)| + 2 - Crossovers(p)
  }

  lemma PastTheEnd(p: SegPath, i: nat)
    requires WellFormed(p) && |Owners(p)| <= i < UINT_MOD
    ensures InterfaceIdx(SegChange(Encode(p)), i) == (2 * i - 5) % UINT_MOD
  {
  }

  /** Twice an unsigned number, less five, in unsigned arithmetic. */
  lemma DoubledLessFive(i: nat)
    requires i < UINT_MOD
    ensures var m := i % (UINT_MOD / 2); (2 * i - 5) % UINT_MOD == if m >= 3 then 2 * m - 5 else 2 * m - 5 + UINT_MOD
  {
    var m := i % (UINT_MOD / 2);
    assert i == m || i == m + UINT_MOD / 2;
    assert 2 * i - 5 == 2 * m - 5 || 2 * i - 5 == 2 * m - 5 + UINT_MOD;
  }

  /** Exactly which indices past the last hop field are not noticed, over all unsigned numbers and both ways round. */
  lemma {:induction false} AcceptedPastTheEnd(p: SegPath, i: nat)
    requires WellFormed(p) && |Owners(p)| <= i < UINT_MOD && 4 * |Owners(p)| < UINT_MOD
    ensures FwdPathMeta(Encode(p), Interfaces(p), i).Ok? <==> AcceptedPast(p, i)
    ensures RevPathMeta(Encode(p), Interfaces(p), i).Ok? <==> AcceptedPast(p, i)
  {
    hide Interfaces, WellFormed, Owners, Encode, SegChange, InterfaceIdx;
    InterfaceCount(p);
    PastTheEnd(p, i);
    DoubledLessFive(i);
    TurnRoundReverses(p);
    TurnedIsTurnRound(p);
    PastTheEnd(TurnRound(p), i);
  }
}
