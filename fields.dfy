/**
 * Typed reads of attribute payloads (rta_getattr_u16/u32, rta_getattr_mac),
 * the R-APS request/sub-code split, and the printed output of the decoders.
 */
module Fields {
  import opened Rtattr

  /** One printed record.  A decoder's output is the sequence of these. */
  datatype Line =
    | Title(text: string)
    | MepCreate(instance: U32, domain: U32, direction: U32, vid: U32, port: string)
    | MepConfig(instance: U32, unicastMac: string, mdLevel: U32, mepId: U32, configVid: U16)
    | MepStatus(instance: U32, opcodeUnexpSeen: U32, dmacUnexpSeen: U32,
                txLevelLowSeen: U32, versionUnexpSeen: U32, rxLevelLowSeen: U32)
    | InstanceHeader(instance: U32)
    | PeerStatus(peerMepId: U32, ccmDefect: U32)
    | RapsInfo(request: nat, subCode: nat, status: U32, nodeId: string)

  /** How a decoder ends: with a return code, or in undefined behaviour (a
      field read through a missing attribute, or past a short payload). */
  datatype Outcome = Returned(code: int, out: seq<Line>) | Undefined(out: seq<Line>)

  /** rta_getattr_u32 on tb[t]; none when the source's read is undefined. */
  function U32Of(a: Option<Rec>): (r: Option<U32>)
    ensures r.Some? <==> a.Some? && |a.value.data| >= 4
  {
    if a.Some? && |a.value.data| >= 4 then Some(ReadLe32(a.value.data, 0)) else None
  }

  /** rta_getattr_u16 on tb[t]; none when the source's read is undefined. */
  function U16Of(a: Option<Rec>): (r: Option<U16>)
    ensures r.Some? <==> a.Some? && |a.value.data| >= 2
  {
    if a.Some? && |a.value.data| >= 2 then Some(ReadLe16(a.value.data, 0)) else None
  }

  /** A u32 read gives back the value whose host-order bytes lead the
      payload, and a payload written by addattr32 reads back its value. */
  lemma U32OfBytes(a: Option<Rec>)
    requires U32Of(a).Some?
    ensures Le32(U32Of(a).value) == a.value.data[..4]
  {
    ReadLe32Bytes(a.value.data);
  }

  lemma U32OfLe32(t: U16, v: U32, rest: seq<Byte>)
    ensures U32Of(Some(Rec(t, Le32(v) + rest))) == Some(v)
  {
    var d := Le32(v) + rest;
    Le32Read(v);
    assert ReadLe32(d, 0) == ReadLe32(Le32(v), 0);
  }

  lemma U16OfBytes(a: Option<Rec>)
    requires U16Of(a).Some?
    ensures Le16(U16Of(a).value) == a.value.data[..2]
  {
    ReadLe16Bytes(a.value.data);
  }

  lemma U16OfLe16(t: U16, v: U16, rest: seq<Byte>)
    ensures U16Of(Some(Rec(t, Le16(v) + rest))) == Some(v)
  {
    var d := Le16(v) + rest;
    Le16Read(v);
    assert ReadLe16(d, 0) == ReadLe16(Le16(v), 0);
  }

  lemma LowOctet(b: Byte, q: nat)
    ensures (b + 0x100 * q) % 0x100 == b && (b + 0x100 * q) / 0x100 == q
  {
  }

  /** A host-order read followed by a store gives back the same bytes. */
  lemma ReadLe16Bytes(s: seq<Byte>)
    requires |s| >= 2
    ensures Le16(ReadLe16(s, 0)) == s[..2]
  {
    LowOctet(s[0], s[1]);
    LowOctet(s[1], 0);
  }

  lemma ReadLe32Bytes(s: seq<Byte>)
    requires |s| >= 4
    ensures Le32(ReadLe32(s, 0)) == s[..4]
  {
    var b0, b1, b2, b3: int := s[0], s[1], s[2], s[3];
    var v: int := ReadLe32(s, 0);
    var q2: int := b2 + 0x100 * b3;
    var q1: int := b1 + 0x100 * q2;
    assert v == b0 + 0x100 * q1;
    LowOctet(b0, q1);
    LowOctet(b1, q2);
    LowOctet(b2, b3);
    LowOctet(b3, 0);
    assert v / 0x1_0000 == q2 by {
      assert v / 0x1_0000 == v / 0x100 / 0x100;
    }
    assert v / 0x100_0000 == b3 by {
      assert v / 0x100_0000 == v / 0x1_0000 / 0x100;
    }
  }

  /** The typed reads of an attribute found by parse_rtattr in an encoded
      run (no earlier attribute under the same masked type) give back the
      value the attribute was written with. */
  lemma U32Encoded(kids: seq<Attr>, j: nat, stripNested: bool, v: U32)
    requires AllFit(kids) && j < |kids| && kids[j] == Leaf(kids[j].tag, Le32(v))
    requires forall i | 0 <= i < j :: Masked(kids[i].tag, stripNested) != Masked(kids[j].tag, stripNested)
    ensures U32Of(Lookup(Records(EncodeAll(kids)), Masked(kids[j].tag, stripNested), stripNested)) == Some(v)
  {
    LookupEncoded(kids, j, stripNested);
    U32OfLe32(kids[j].tag, v, []);
    assert Le32(v) + [] == Le32(v);
  }

  lemma U16Encoded(kids: seq<Attr>, j: nat, stripNested: bool, v: U16)
    requires AllFit(kids) && j < |kids| && kids[j] == Leaf(kids[j].tag, Le16(v))
    requires forall i | 0 <= i < j :: Masked(kids[i].tag, stripNested) != Masked(kids[j].tag, stripNested)
    ensures U16Of(Lookup(Records(EncodeAll(kids)), Masked(kids[j].tag, stripNested), stripNested)) == Some(v)
  {
    LookupEncoded(kids, j, stripNested);
    U16OfLe16(kids[j].tag, v, []);
    assert Le16(v) + [] == Le16(v);
  }

  lemma MacEncoded(kids: seq<Attr>, j: nat, stripNested: bool, mac: seq<Byte>)
    requires AllFit(kids) && j < |kids| && kids[j] == Leaf(kids[j].tag, mac) && |mac| == 6
    requires forall i | 0 <= i < j :: Masked(kids[i].tag, stripNested) != Masked(kids[j].tag, stripNested)
    ensures MacOf(Lookup(Records(EncodeAll(kids)), Masked(kids[j].tag, stripNested), stripNested)) == Some(MacText(mac))
  {
    LookupEncoded(kids, j, stripNested);
  }

  /** A digit printf's %X may write. */
  predicate IsUpperHex(c: char)
  {
    '0' <= c <= '9' || 'A' <= c <= 'F'
  }

  /** The digit printf's %X writes for a value below 16. */
  function HexDigit(d: nat): (c: char)
    requires d < 16
    ensures IsUpperHex(c)
  {
    if d < 10 then ('0' as int + d) as char else ('A' as int + d - 10) as char
  }

  /** Two-digit %02X of one octet. */
  function HexPair(x: Byte): string
  {
    [HexDigit(x / 16), HexDigit(x % 16)]
  }

  /** Octets printed as %02X groups joined by '-'. */
  function Groups(b: seq<Byte>): string
    requires |b| >= 1
  {
    if |b| == 1 then HexPair(b[0]) else HexPair(b[0]) + "-" + Groups(b[1..])
  }

  /** rta_getattr_mac: the first six payload bytes as XX-XX-XX-XX-XX-XX. */
  function MacText(data: seq<Byte>): (r: string)
    requires |data| >= 6
    ensures |r| == 17
  {
    GroupsShape(data[..6]);
    Groups(data[..6])
  }

  /** rta_getattr_mac on tb[t]; none when the source's read is undefined. */
  function MacOf(a: Option<Rec>): (r: Option<string>)
    ensures r.Some? <==> a.Some? && |a.value.data| >= 6
    ensures r.Some? ==> |r.value| == 17
  {
    if a.Some? && |a.value.data| >= 6 then Some(MacText(a.value.data)) else None
  }

  /** The text rta_getattr_mac returns parses back to the six octets. */
  lemma MacOfRoundTrip(a: Option<Rec>)
    requires MacOf(a).Some?
    ensures ParseMac(MacOf(a).value) == Some(a.value.data[..6])
  {
    MacRoundTrip(a.value.data);
  }

  /** Reference reading of a hexadecimal digit (either case). */
  function HexValue(c: char): Option<nat>
  {
    if '0' <= c <= '9' then Some(c as int - '0' as int)
    else if 'A' <= c <= 'F' then Some(c as int - 'A' as int + 10)
    else if 'a' <= c <= 'f' then Some(c as int - 'a' as int + 10)
    else None
  }

  function ParseOctet(hi: char, lo: char): Option<Byte>
  {
    match (HexValue(hi), HexValue(lo))
    case (Some(h), Some(l)) => if h < 16 && l < 16 then Some(h * 16 + l) else None
    case _ => None
  }

  function ParseGroups(s: string): Option<seq<Byte>>
    decreases |s|
  {
    if |s| == 2 then
      match ParseOctet(s[0], s[1])
      case Some(o) => Some([o])
      case None => None
    else if |s| >= 5 && s[2] == '-' then
      match (ParseOctet(s[0], s[1]), ParseGroups(s[3..]))
      case (Some(o), Some(rest)) => Some([o] + rest)
      case _ => None
    else None
  }

  /** Reference parser of the XX-XX-XX-XX-XX-XX form (17 characters). */
  function ParseMac(s: string): Option<seq<Byte>>
  {
    if |s| != 17 then None else ParseGroups(s)
  }

  lemma HexDigitRoundTrip(d: nat)
    requires d < 16
    ensures HexValue(HexDigit(d)) == Some(d)
  {
  }

  lemma HexPairRoundTrip(x: Byte)
    ensures ParseOctet(HexPair(x)[0], HexPair(x)[1]) == Some(x)
  {
    var h, l := x / 16, x % 16;
    HexDigitRoundTrip(h);
    HexDigitRoundTrip(l);
    assert x == h * 16 + l;
  }

  /** The printed groups have three characters per octet, less the final
      dash: each octet's two digits are uppercase hex, and each separator
      is '-'. */
  lemma {:induction false} GroupsShape(b: seq<Byte>)
    requires |b| >= 1
    ensures |Groups(b)| == 3 * |b| - 1
    ensures forall k | 0 <= k < |Groups(b)| ::
      if k % 3 == 2 then Groups(b)[k] == '-' else IsUpperHex(Groups(b)[k])
  {
    var h := HexPair(b[0]);
    assert IsUpperHex(h[0]) && IsUpperHex(h[1]);
    if |b| == 1 {
      assert Groups(b) == h;
    } else {
      GroupsShape(b[1..]);
      var g, t := Groups(b), Groups(b[1..]);
      assert g == h + "-" + t;
      forall k | 0 <= k < |g|
        ensures if k % 3 == 2 then g[k] == '-' else IsUpperHex(g[k])
      {
        if k >= 3 {
          assert g[k] == t[k - 3];
          assert (k - 3) % 3 == k % 3;
        } else if k == 2 {
          assert g[k] == '-';
        } else {
          assert g[k] == h[k];
        }
      }
    }
  }

  lemma ParseGroupsStep(o: Byte, h: string, t: string, rest: seq<Byte>)
    requires |h| == 2 && ParseOctet(h[0], h[1]) == Some(o)
    requires |t| >= 2 && ParseGroups(t) == Some(rest)
    ensures ParseGroups(h + "-" + t) == Some([o] + rest)
  {
    var g := h + "-" + t;
    assert g[0] == h[0] && g[1] == h[1] && g[2] == '-' && g[3..] == t;
  }

  /** Parsing the printed groups gives back the octets. */
  lemma {:induction false} GroupsRoundTrip(b: seq<Byte>)
    requires |b| >= 1
    ensures ParseGroups(Groups(b)) == Some(b)
  {
    HexPairRoundTrip(b[0]);
    if |b| == 1 {
      assert b == [b[0]];
    } else {
      GroupsRoundTrip(b[1..]);
      GroupsShape(b[1..]);
      ParseGroupsStep(b[0], HexPair(b[0]), Groups(b[1..]), b[1..]);
      assert b == [b[0]] + b[1..];
    }
  }

  /** rta_getattr_mac round trip: the 17-character text parses back to the
      six octets it was printed from. */
  lemma MacRoundTrip(data: seq<Byte>)
    requires |data| >= 6
    ensures ParseMac(MacText(data)) == Some(data[..6])
  {
    GroupsRoundTrip(data[..6]);
    GroupsShape(data[..6]);
  }

  /** The R-APS request/state and sub-code of the octet v, split as
      `(v & 0xF0) >> 4` and `v & 0x0F`: the high and low nibbles of v's low
      octet. */
  datatype RapsCode = RapsCode(request: nat, subCode: nat)

  function RapsSplit(v: U32): (r: RapsCode)
    ensures r.request < 16 && r.subCode < 16
    ensures r.request * 16 + r.subCode == v % 0x100
  {
    var x := v % 0x100;
    RapsCode(x / 16, x % 16)
  }
}
