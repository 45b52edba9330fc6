/**
 * SCION-mapped IPv6 addresses: prefix(8) | ISD(12) | ASN(20) | local(24) | interface(64).
 * Two encoders written independently, for the dashboard and for the name server, and
 * the decoding both must agree with.
 */
module ScitraMap {
  import opened Prelude

  type Bytes = seq<bv8>

  type Bytes4 = s: seq<bv8> | |s| == 4 witness [0, 0, 0, 0]

  type Bytes16 = s: seq<bv8> | |s| == 16 witness [0, 0, 0, 0, 0, 0, 0, 0, 0, 0, 0, 0, 0, 0, 0, 0]

  datatype Host = V4(v4: Bytes4) | V6(v6: Bytes16)

  /** An IPv4-mapped IPv6 address as plain IPv4; anything else as it is. */
  function Unmap(h: Host): Host {
    if h.V6? && (forall i :: 0 <= i < 10 ==> h.v6[i] == 0) && h.v6[10] == 0xff && h.v6[11] == 0xff
    then V4(h.v6[12..]) else h
  }

  function Byte(x: bv64): bv8 {
    (x & 0xff) as bv8
  }

  const AS_DIRECT: bv64 := 0x8_0000
  const AS_HIGH: bv64 := 0x2_0000_0000

  // ---------------------------------------------------------------- the encoders

  /** The dashboard's encoder. A negative argument of the original shows up as a huge unsigned one. */
  method MappedIPv6(isd: bv64, asn: bv64, host: Host) returns (r: Result<Bytes>)
    ensures r.Ok? <==> isd < 0x1000 && asn < AS_DIRECT && host.V4?
    ensures r.Ok? ==> IsMapped(r.value, 0xfc, isd, asn) && r.value[5..] == [0, 0, 0, 0, 0, 0xff, 0xff] + host.v4
  {
    hide Byte, IsdBits, FieldBits, AsnOf;
    if isd >= 0x1000 {
      return Err("ISD exceeds 12 bits");
    }
    if asn >= AS_DIRECT {
      return Err("ASN exceeds direct-mapped range");
    }
    if !host.V4? {
      return Err("host is not IPv4");
    }
    var b := new bv8[16](_ => 0);
    b[0] := 0xfc;
    b[1] := Byte(isd >> 4);
    b[2] := Byte((isd & 0xf) << 4) | Byte(asn >> 16);
    b[3] := Byte(asn >> 8);
    b[4] := Byte(asn);
    b[10], b[11] := 0xff, 0xff;
    forall i | 0 <= i < 4 {
      b[12 + i] := host.v4[i];
    }
    LaidOut(b[..], isd, asn, host.v4);
    r := Ok(b[..]);
  }

  /** Sixteen bytes laid out like this decode to the identity and embed the host. */
  lemma LaidOut(b: Bytes, isd: bv64, asn: bv64, v4: Bytes4)
    requires |b| == 16 && isd < 0x1000 && asn < AS_DIRECT && b[0] == 0xfc
    requires b[1] == Byte(isd >> 4) && b[2] == Byte((isd & 0xf) << 4) | Byte(asn >> 16)
    requires b[3] == Byte(asn >> 8) && b[4] == Byte(asn)
    requires (forall k :: 5 <= k < 10 ==> b[k] == 0) && b[10] == 0xff && b[11] == 0xff && b[12..] == v4
    ensures IsMapped(b, 0xfc, isd, asn) && b[5..] == [0, 0, 0, 0, 0, 0xff, 0xff] + v4
  {
    hide Byte, IsdBits, FieldBits, AsnOf;
    ShiftsDecode(isd, asn);
    assert b[5..] == b[5..12] + b[12..];
  }

  /** The ISD-AS word, or nothing if the AS number has no encoding. */
  function IaWord(isd: bv64, asn: bv64): Option<bv64> {
    if asn < AS_DIRECT then Some((isd << 20) | asn)
    else if AS_HIGH <= asn < AS_HIGH + AS_DIRECT then Some((isd << 20) | AS_DIRECT | (asn & 0x7ffff))
    else None
  }

  /** The last eight bytes: an embedded IPv4 address, or the interface part of an IPv6 one. */
  function InterfaceId(ip: Host): Bytes {
    match ip
    case V4(v4) => [0, 0, 0xff, 0xff] + v4
    case V6(v6) => v6[8..]
  }

  /** Which bytes a host becomes: only IPv4, plain or mapped, is embedded. */
  lemma HostBytes(host: Host)
    ensures match Unmap(host)
            case V4(v4) => InterfaceId(Unmap(host)) == [0, 0, 0xff, 0xff] + v4
                           && (host == V4(v4) || (host.V6? && host.v6[10..12] == [0xff, 0xff] && host.v6[12..] == v4))
            case V6(v6) => host == V6(v6) && InterfaceId(Unmap(host)) == v6[8..]
  {
  }

  method PutHost(addr: array<bv8>, ip: Host)
    requires addr.Length == 16
    modifies addr
    ensures addr[8..] == InterfaceId(ip) && forall k :: 0 <= k < 8 ==> addr[k] == old(addr[k])
  {
    if ip.V4? {
      addr[8], addr[9], addr[10], addr[11] := 0, 0, 0xff, 0xff;
      forall i | 0 <= i < 4 {
        addr[12 + i] := ip.v4[i];
      }
    } else {
      forall i | 8 <= i < 16 {
        addr[i] := ip.v6[i];
      }
    }
  }

  /** The name server's encoder, with its configured prefix. */
  method Scion2Ip(prefix: bv8, isd: bv64, asn: bv64, host: Host) returns (r: Result<Bytes>)
    ensures r.Ok? <==> isd < 0x1000 && (asn < AS_DIRECT || AS_HIGH <= asn < AS_HIGH + AS_DIRECT)
    ensures r.Ok? ==> IsMapped(r.value, prefix, isd, asn) && r.value[5..8] == [0, 0, 0]
    ensures r.Ok? ==> match Unmap(host)
                      case V4(v4) => r.value[8..] == [0, 0, 0xff, 0xff] + v4
                      case V6(v6) => host == V6(v6) && r.value[8..] == v6[8..]
  {
    hide WordByte, IsdBits, FieldBits, AsnOf, Unmap, IaWord, InterfaceId;
    var ip := Unmap(host);
    var addr := new bv8[16](_ => 0);
    addr[0] := prefix;
    if isd >= 0x1000 {
      return Err("ISD cannot be encoded");
    }
    var word := IaWord(isd, asn);
    IaWordExists(isd, asn);
    if word.None? {
      return Err("ASN cannot be encoded");
    }
    var ia := word.value;
    PutWord(addr, ia);
    PutHost(addr, ip);
    IaWordDecodes(isd, asn);
    assert addr[..][5..8] == [0, 0, 0] && addr[..][8..] == addr[8..];
    HostBytes(host);
    r := Ok(addr[..]);
  }

  /** The bytes of a 32-bit word, most significant first. */
  function WordByte(ia: bv64, k: nat): bv8
    requires k < 4
  {
    if k == 0 then Byte(ia >> 24) else if k == 1 then Byte(ia >> 16) else if k == 2 then Byte(ia >> 8) else Byte(ia)
  }

  /** Big-endian, at bytes 1 to 4. */
  method PutWord(addr: array<bv8>, ia: bv64)
    requires addr.Length == 16
    modifies addr
    ensures addr[1] == WordByte(ia, 0) && addr[2] == WordByte(ia, 1) && addr[3] == WordByte(ia, 2)
            && addr[4] == WordByte(ia, 3)
    ensures forall k :: 0 <= k < 16 && !(1 <= k <= 4) ==> addr[k] == old(addr[k])
  {
    hide Byte;
    addr[1], addr[2], addr[3], addr[4] := Byte(ia >> 24), Byte(ia >> 16), Byte(ia >> 8), Byte(ia);
  }

  // ---------------------------------------------------------------- the decoding

  function IsdBits(b1: bv8, b2: bv8): bv64 {
    (b1 as bv64 << 4) | (b2 as bv64 >> 4)
  }

  function FieldBits(b2: bv8, b3: bv8, b4: bv8): bv64 {
    ((b2 as bv64 & 0xf) << 16) | (b3 as bv64 << 8) | b4 as bv64
  }

  /** Half of the 20-bit AS field stands for small AS numbers, half for one block of large ones. */
  function AsnOf(field: bv64): bv64 {
    if field < AS_DIRECT then field else AS_HIGH | (field & 0x7ffff)
  }

  ghost predicate IsMapped(b: Bytes, prefix: bv8, isd: bv64, asn: bv64) {
    |b| == 16 && b[0] == prefix && IsdBits(b[1], b[2]) == isd && AsnOf(FieldBits(b[2], b[3], b[4])) == asn
  }

  lemma ShiftsDecode(isd: bv64, asn: bv64)
    requires isd < 0x1000 && asn < AS_DIRECT
    ensures var b2 := Byte((isd & 0xf) << 4) | Byte(asn >> 16);
            IsdBits(Byte(isd >> 4), b2) == isd && AsnOf(FieldBits(b2, Byte(asn >> 8), Byte(asn))) == asn
  {
  }

  lemma IaWordExists(isd: bv64, asn: bv64)
    ensures IaWord(isd, asn).Some? <==> asn < AS_DIRECT || AS_HIGH <= asn < AS_HIGH + AS_DIRECT
  {
  }

  function Word(isd: bv64, field: bv64): bv64 {
    (isd << 20) | field
  }

  lemma WordIsd(isd: bv64, field: bv64)
    requires isd < 0x1000 && field < 0x10_0000
    ensures var ia := Word(isd, field); IsdBits(WordByte(ia, 0), WordByte(ia, 1)) == isd
  {
  }

  lemma WordField(isd: bv64, field: bv64)
    requires isd < 0x1000 && field < 0x10_0000
    ensures var ia := Word(isd, field); FieldBits(WordByte(ia, 1), WordByte(ia, 2), WordByte(ia, 3)) == field
  {
  }

  function HighField(asn: bv64): bv64 {
    AS_DIRECT | (asn & 0x7ffff)
  }

  lemma HighFieldDecodes(asn: bv64)
    requires AS_HIGH <= asn < AS_HIGH + AS_DIRECT
    ensures AS_DIRECT <= HighField(asn) < 0x10_0000 && AsnOf(HighField(asn)) == asn
  {
  }

  lemma LowFieldDecodes(asn: bv64)
    requires asn < AS_DIRECT
    ensures asn < 0x10_0000 && AsnOf(asn) == asn
  {
  }

  lemma HighWord(isd: bv64, asn: bv64)
    ensures (isd << 20) | AS_DIRECT | (asn & 0x7ffff) == Word(isd, HighField(asn))
  {
  }

  /** The 20-bit AS field of the word. */
  lemma IaWordIs(isd: bv64, asn: bv64) returns (field: bv64)
    requires IaWord(isd, asn).Some?
    ensures field < 0x10_0000 && AsnOf(field) == asn && IaWord(isd, asn).value == Word(isd, field)
  {
    hide AsnOf, HighField;
    if asn < AS_DIRECT {
      LowFieldDecodes(asn);
      field := asn;
    } else {
      HighFieldDecodes(asn);
      HighWord(isd, asn);
      field := HighField(asn);
    }
  }

  lemma IaWordDecodes(isd: bv64, asn: bv64)
    requires isd < 0x1000 && IaWord(isd, asn).Some?
    ensures var ia := IaWord(isd, asn).value;
            IsdBits(WordByte(ia, 0), WordByte(ia, 1)) == isd
            && AsnOf(FieldBits(WordByte(ia, 1), WordByte(ia, 2), WordByte(ia, 3))) == asn
  {
    hide WordByte, IsdBits, FieldBits, AsnOf, Word, IaWord;
    var field := IaWordIs(isd, asn);
    WordIsd(isd, field);
    WordField(isd, field);
  }

  lemma AsnOfInjective(f: bv64, g: bv64)
    requires f < 0x10_0000 && g < 0x10_0000 && AsnOf(f) == AsnOf(g)
    ensures f == g
  {
  }

  lemma FieldIsSmall(b2: bv8, b3: bv8, b4: bv8)
    ensures FieldBits(b2, b3, b4) < 0x10_0000
  {
  }

  lemma BitsDetermined(b1: bv8, b2: bv8, b3: bv8, b4: bv8, c1: bv8, c2: bv8, c3: bv8, c4: bv8)
    requires IsdBits(b1, b2) == IsdBits(c1, c2) && FieldBits(b2, b3, b4) == FieldBits(c2, c3, c4)
    ensures b1 == c1 && b2 == c2 && b3 == c3 && b4 == c4
  {
  }

  /** The first five bytes tell identities apart: they are equal exactly if ISD and AS number are. */
  lemma MappedUnique(b: Bytes, c: Bytes, prefix: bv8, isd: bv64, asn: bv64, isd': bv64, asn': bv64)
    requires IsMapped(b, prefix, isd, asn) && IsMapped(c, prefix, isd', asn')
    ensures b[..5] == c[..5] <==> isd == isd' && asn == asn'
  {
    hide IsdBits, FieldBits, AsnOf;
    if isd == isd' && asn == asn' {
      FieldIsSmall(b[2], b[3], b[4]);
      FieldIsSmall(c[2], c[3], c[4]);
      AsnOfInjective(FieldBits(b[2], b[3], b[4]), FieldBits(c[2], c[3], c[4]));
      BitsDetermined(b[1], b[2], b[3], b[4], c[1], c[2], c[3], c[4]);
    }
    if b[..5] == c[..5] {
      assert forall k :: 0 <= k < 5 ==> b[k] == b[..5][k] && c[k] == c[..5][k];
    }
  }

  /** One host's addresses in different ASes never collide. */
  method HostsApart(isd: bv64, asn: bv64, isd': bv64, asn': bv64, host: Host)
    returns (a: Result<Bytes>, b: Result<Bytes>)
    requires isd < 0x1000 && asn < AS_DIRECT && isd' < 0x1000 && asn' < AS_DIRECT && host.V4?
    ensures a.Ok? && b.Ok? && (a.value == b.value <==> isd == isd' && asn == asn')
  {
    hide IsdBits, FieldBits, AsnOf;
    a := MappedIPv6(isd, asn, host);
    b := MappedIPv6(isd', asn', host);
    MappedUnique(a.value, b.value, 0xfc, isd, asn, isd', asn');
    assert a.value == a.value[..5] + a.value[5..] && b.value == b.value[..5] + b.value[5..];
  }

  /** Run with the common prefix, both encoders give the same sixteen bytes wherever the dashboard's succeeds. */
  method EncodersAgree(isd: bv64, asn: bv64, v4: Bytes4) returns (a: Result<Bytes>, b: Result<Bytes>)
    requires isd < 0x1000 && asn < AS_DIRECT
    ensures a.Ok? && a == b
    ensures IsMapped(a.value, 0xfc, isd, asn) && a.value[12..] == v4
  {
    hide IsdBits, FieldBits, AsnOf;
    a := MappedIPv6(isd, asn, V4(v4));
    b := Scion2Ip(0xfc, isd, asn, V4(v4));
    MappedUnique(a.value, b.value, 0xfc, isd, asn, isd, asn);
    assert a.value == a.value[..5] + a.value[5..];
    assert b.value == b.value[..5] + (b.value[5..8] + b.value[8..]);
    assert a.value == b.value;
    assert a.value[12..] == a.value[5..][7..];
  }
}
