/**
 * The request builder of offload.c: a `struct request` (netlink header,
 * ifinfomsg, and a 1024-byte attribute buffer) filled in place.
 *
 * Attributes are appended at the tail (NLMSG_ALIGN(nlmsg_len)); opening a
 * nest appends an empty attribute (rta_len 4) and hands back its offset;
 * closing it patches that attribute's rta_len to `tail - offset`.  The
 * methods state what they do to the attribute bytes; `CloseNest` shows that
 * a patch closes an open nest into the encoding of the nest around the
 * children appended after it, `TerminateTree` that prepare, the fields and
 * terminate together produce the encoding of one attribute tree, and
 * `BridgeTreeWalk` that the attribute walk reads that tree back.
 */
module Request {
  import opened Rtattr
  import opened Abi
  import opened Fields

  /** Size of `buf` in struct request. */
  const BUF_LEN: nat := 1024
  /** sizeof(struct request): the maxlen passed to every addattr call. */
  const REQUEST_LEN: nat := 1056

  /** addattr_nest_end on the attribute bytes s: the rta_len of the nest at
      `off` becomes the distance from it to the tail, kept to 16 bits; no
      other byte changes. */
  function Patch(s: seq<Byte>, off: nat): (r: seq<Byte>)
    requires off + RTA_HDRLEN <= |s|
    ensures |r| == |s|
    ensures ReadLe16(r, off) == (|s| - off) % 0x1_0000
    ensures forall j | 0 <= j < |s| && j != off && j != off + 1 :: r[j] == s[j]
  {
    var l := Le16(|s| - off);
    Le16Read(|s| - off);
    var r := s[..off] + l + s[off + 2..];
    assert r[off] == l[0] && r[off + 1] == l[1];
    r
  }

  /** Closing a nest: patching a bare header that is followed by the
      encodings of some children yields the encoding of the nest holding
      them, wherever the nest starts. */
  lemma CloseNest(pre: seq<Byte>, t: U16, kids: seq<Attr>)
    requires RTA_HDRLEN + |EncodeAll(kids)| < 0x1_0000
    ensures Patch(pre + Header(RTA_HDRLEN, t) + EncodeAll(kids), |pre|) == pre + Encode(Nest(t, kids))
  {
    var body := EncodeAll(kids);
    var len := RTA_HDRLEN + |body|;
    PatchHeader(pre, t, body);
    NestBytes(t, kids);
  }

  /** The patch rewrites only the length half of the header. */
  lemma PatchHeader(pre: seq<Byte>, t: U16, body: seq<Byte>)
    ensures Patch(pre + Header(RTA_HDRLEN, t) + body, |pre|)
      == pre + (Le16(RTA_HDRLEN + |body|) + Le16(t) + body)
  {
    var s := pre + Header(RTA_HDRLEN, t) + body;
    var tl := Le16(t) + body;
    assert s == pre + Le16(RTA_HDRLEN) + tl;
    assert s[..|pre|] == pre;
    assert s[|pre| + 2..] == tl;
    assert |s| - |pre| == RTA_HDRLEN + |body|;
    var l := Le16(RTA_HDRLEN + |body|);
    assert Patch(s, |pre|) == pre + l + tl;
    assert pre + l + tl == pre + (l + Le16(t) + body);
  }

  /** A nest's encoding is its header followed by its children's, with no
      padding. */
  lemma NestBytes(t: U16, kids: seq<Attr>)
    ensures Encode(Nest(t, kids)) == Le16(RTA_HDRLEN + |EncodeAll(kids)|) + Le16(t) + EncodeAll(kids)
  {
    var body := EncodeAll(kids);
    assert Payload(Nest(t, kids)) == body;
    var len := RTA_HDRLEN + |body|;
    EncodeAllLength(kids);
    AlignedSum(RTA_HDRLEN, |body|);
    AlignExact(len);
    var z := Zeros(Align4(len) - len);
    assert z == [];
    assert Encode(Nest(t, kids)) == Header(len, t) + body + z;
  }

  /** IFLA_BRIDGE_FLAGS holding BRIDGE_FLAGS_SELF. */
  function FlagsAttr(): (a: Attr)
    ensures |Encode(a)| == 8
  {
    var a := Leaf(IFLA_BRIDGE_FLAGS, Le16(BRIDGE_FLAGS_SELF));
    EncodeShape(a);
    a
  }

  /** The attribute bytes cfm_nl_bridge_prepare leaves: the IFLA_AF_SPEC
      nest opened, the flags attribute inside it, the CFM nest and the
      operation's nest opened. */
  function PrepareBytes(attr: U16): (r: seq<Byte>)
    ensures |r| == 20
  {
    Header(RTA_HDRLEN, IFLA_AF_SPEC) + Encode(FlagsAttr())
      + Header(RTA_HDRLEN, WithNested(IFLA_BRIDGE_CFM)) + Header(RTA_HDRLEN, WithNested(attr))
  }

  /** The attribute tree every CFM request carries: IFLA_AF_SPEC holding the
      SELF flag and the CFM nest, which holds the operation's nest. */
  function BridgeTree(attr: U16, fields: seq<Attr>): Attr
  {
    Nest(IFLA_AF_SPEC, [FlagsAttr(), Nest(WithNested(IFLA_BRIDGE_CFM), [Nest(WithNested(attr), fields)])])
  }

  lemma EncodeAllOne(a: Attr)
    ensures EncodeAll([a]) == Encode(a)
  {
    assert [a][1..] == [];
  }

  /** What the kernel reads back from the flags attribute: the u16
      BRIDGE_FLAGS_SELF under IFLA_BRIDGE_FLAGS. */
  lemma FlagsAttrReadsSelf()
    ensures U16Of(Lookup(Records(Encode(FlagsAttr())), IFLA_BRIDGE_FLAGS, true)) == Some(BRIDGE_FLAGS_SELF)
  {
    var kids := [FlagsAttr()];
    assert AllFit(kids);
    EncodeAllOne(FlagsAttr());
    U16Encoded(kids, 0, true, BRIDGE_FLAGS_SELF);
  }

  lemma EncodeAllTwo(a: Attr, b: Attr)
    ensures EncodeAll([a, b]) == Encode(a) + Encode(b)
  {
    assert [a, b][1..] == [b];
    EncodeAllOne(b);
  }

  /** Prepare, then the fields, then the three nest ends of terminate,
      innermost first, give the encoding of the bridge tree. */
  lemma TerminateTree(attr: U16, fields: seq<Attr>)
    requires |EncodeAll(fields)| <= BUF_LEN
    ensures var s := PrepareBytes(attr) + EncodeAll(fields);
      && 16 + RTA_HDRLEN <= |s|
      && Patch(Patch(Patch(s, 16), 12), 0) == Encode(BridgeTree(attr, fields))
  {
    var pre12 := Header(RTA_HDRLEN, IFLA_AF_SPEC) + Encode(FlagsAttr());
    var sub := Nest(WithNested(attr), fields);
    var s := PrepareBytes(attr) + EncodeAll(fields);
    var s1 := pre12 + Header(RTA_HDRLEN, WithNested(IFLA_BRIDGE_CFM)) + Encode(sub);
    var s2 := pre12 + Encode(Nest(WithNested(IFLA_BRIDGE_CFM), [sub]));
    CloseSub(attr, fields);
    CloseCfm(pre12, sub);
    CloseAfSpec(Nest(WithNested(IFLA_BRIDGE_CFM), [sub]));
  }

  /** The first nest end of terminate closes the operation's nest. */
  lemma CloseSub(attr: U16, fields: seq<Attr>)
    requires |EncodeAll(fields)| <= BUF_LEN
    ensures Patch(PrepareBytes(attr) + EncodeAll(fields), 16)
      == Header(RTA_HDRLEN, IFLA_AF_SPEC) + Encode(FlagsAttr()) + Header(RTA_HDRLEN, WithNested(IFLA_BRIDGE_CFM))
         + Encode(Nest(WithNested(attr), fields))
  {
    var pre16 := Header(RTA_HDRLEN, IFLA_AF_SPEC) + Encode(FlagsAttr()) + Header(RTA_HDRLEN, WithNested(IFLA_BRIDGE_CFM));
    assert PrepareBytes(attr) + EncodeAll(fields) == pre16 + Header(RTA_HDRLEN, WithNested(attr)) + EncodeAll(fields);
    CloseNest(pre16, WithNested(attr), fields);
  }

  /** The second closes the CFM nest around it. */
  lemma CloseCfm(pre12: seq<Byte>, sub: Attr)
    requires |pre12| == 12 && sub.Nest? && |EncodeAll(sub.kids)| <= BUF_LEN
    ensures Patch(pre12 + Header(RTA_HDRLEN, WithNested(IFLA_BRIDGE_CFM)) + Encode(sub), 12)
      == pre12 + Encode(Nest(WithNested(IFLA_BRIDGE_CFM), [sub]))
    ensures |Encode(Nest(WithNested(IFLA_BRIDGE_CFM), [sub]))| == 2 * RTA_HDRLEN + |EncodeAll(sub.kids)|
  {
    NestBytes(sub.tag, sub.kids);
    EncodeAllOne(sub);
    NestBytes(WithNested(IFLA_BRIDGE_CFM), [sub]);
    CloseNest(pre12, WithNested(IFLA_BRIDGE_CFM), [sub]);
  }

  /** The last closes IFLA_AF_SPEC around the flags and the CFM nest. */
  lemma CloseAfSpec(cfm: Attr)
    requires |Encode(cfm)| <= 2 * BUF_LEN
    ensures Patch(Header(RTA_HDRLEN, IFLA_AF_SPEC) + Encode(FlagsAttr()) + Encode(cfm), 0)
      == Encode(Nest(IFLA_AF_SPEC, [FlagsAttr(), cfm]))
  {
    EncodeAllTwo(FlagsAttr(), cfm);
    assert Header(RTA_HDRLEN, IFLA_AF_SPEC) + Encode(FlagsAttr()) + Encode(cfm)
      == [] + Header(RTA_HDRLEN, IFLA_AF_SPEC) + EncodeAll([FlagsAttr(), cfm]);
    CloseNest([], IFLA_AF_SPEC, [FlagsAttr(), cfm]);
  }

  /** Each level of a request's attribute tree walks back to what was put
      in it: IFLA_AF_SPEC alone at the top, then the SELF flag and the CFM
      nest, then the operation's nest, then the fields in order. */
  lemma BridgeTreeWalk(attr: U16, fields: seq<Attr>)
    requires |EncodeAll(fields)| <= BUF_LEN && AllFit(fields)
    ensures var sub := Nest(WithNested(attr), fields);
      var cfm := Nest(WithNested(IFLA_BRIDGE_CFM), [sub]);
      && Records(Encode(BridgeTree(attr, fields)))
           == [Rec(IFLA_AF_SPEC, EncodeAll([FlagsAttr(), cfm]))]
      && Records(EncodeAll([FlagsAttr(), cfm]))
           == [Rec(IFLA_BRIDGE_FLAGS, Le16(BRIDGE_FLAGS_SELF)), Rec(WithNested(IFLA_BRIDGE_CFM), EncodeAll([sub]))]
      && Records(EncodeAll([sub])) == [Rec(WithNested(attr), EncodeAll(fields))]
      && Records(EncodeAll(fields)) == Flat(fields)
  {
    var sub := Nest(WithNested(attr), fields);
    var cfm := Nest(WithNested(IFLA_BRIDGE_CFM), [sub]);
    var top := BridgeTree(attr, fields);
    NestBytes(WithNested(attr), fields);
    EncodeAllOne(sub);
    NestBytes(WithNested(IFLA_BRIDGE_CFM), [sub]);
    EncodeAllTwo(FlagsAttr(), cfm);
    WalkAll(fields);
    WalkOne(sub);
    WalkTwo(FlagsAttr(), cfm);
    NestBytes(IFLA_AF_SPEC, [FlagsAttr(), cfm]);
    WalkOne(top);
    EncodeAllOne(top);
  }

  lemma WalkOne(a: Attr)
    requires DeclLen(a) < 0x1_0000
    ensures Records(EncodeAll([a])) == [Rec(a.tag, Payload(a))]
  {
    WalkAll([a]);
    assert [a][1..] == [];
  }

  lemma WalkTwo(a: Attr, b: Attr)
    requires DeclLen(a) < 0x1_0000 && DeclLen(b) < 0x1_0000
    ensures Records(EncodeAll([a, b])) == [Rec(a.tag, Payload(a)), Rec(b.tag, Payload(b))]
  {
    WalkAll([a, b]);
    assert [a, b][1..] == [b];
    assert [b][1..] == [];
  }

  /** Writing an attribute's header and payload at the end of `img`, in a
      buffer that is zero after `img`, leaves `img` followed by the
      attribute's encoding, and zeros after that. */
  lemma AppendStep(img: seq<Byte>, buf: array<Byte>, tag: U16, data: seq<Byte>, w: seq<Byte>)
    requires buf.Length == BUF_LEN
    requires w == Header(RTA_HDRLEN + |data|, tag) + data
    requires |img| + Align4(|w|) <= BUF_LEN
    requires forall j | 0 <= j < BUF_LEN ::
      buf[j] == if j < |img| then img[j] else if j < |img| + |w| then w[j - |img|] else 0
    ensures Align4(|w|) == |Encode(Leaf(tag, data))|
    ensures buf[..|img| + Align4(|w|)] == img + Encode(Leaf(tag, data))
    ensures forall j | |img| + Align4(|w|) <= j < BUF_LEN :: buf[j] == 0
  {
    var enc := w + Zeros(Align4(|w|) - |w|);
    assert Encode(Leaf(tag, data)) == enc;
    forall j | 0 <= j < |img| + |enc| ensures buf[j] == (img + enc)[j] {
      if j >= |img| + |w| {
        assert enc[j - |img|] == 0;
      } else if j >= |img| {
        assert enc[j - |img|] == w[j - |img|];
      }
    }
    assert buf[..|img| + |enc|] == img + enc;
  }

  /** Overwriting the two rta_len bytes of the nest at `off` is the patch. */
  lemma PatchStep(before: seq<Byte>, buf: array<Byte>, off: nat, t: nat)
    requires |before| == buf.Length && off + RTA_HDRLEN <= t <= buf.Length
    requires buf[..] == before[off := Le16(t - off)[0]][off + 1 := Le16(t - off)[1]]
    ensures buf[..t] == Patch(before[..t], off)
    ensures forall j | t <= j < buf.Length :: buf[j] == before[j]
  {
    var p := Patch(before[..t], off);
    Le16Read(t - off);
    forall j | 0 <= j < t ensures buf[j] == p[j] {
      assert buf[j] == buf[..][j];
    }
    assert buf[..t] == p;
    forall j | t <= j < buf.Length ensures buf[j] == before[j] {
      assert buf[j] == buf[..][j];
    }
  }

  class Request {
    var nlmsgLen: nat
    var nlmsgType: U16
    var nlmsgFlags: U16
    var ifiFamily: Byte
    var ifiIndex: U32
    const buf: array<Byte>

    /** Offset of NLMSG_TAIL in `buf`. */
    function Tail(): int
      reads this
    {
      nlmsgLen - HEADER_ONLY_LEN
    }

    /** The attribute bytes written so far. */
    ghost var bytes: seq<Byte>

    /** The message length is aligned and within the request, `bytes` is
        what the buffer holds up to the tail, and the buffer is zero past
        the tail (the request starts zero-filled). */
    ghost predicate Valid()
      reads this, buf
    {
      && buf.Length == BUF_LEN
      && HEADER_ONLY_LEN <= nlmsgLen <= REQUEST_LEN
      && nlmsgLen % 4 == 0
      && |bytes| == Tail()
      && buf[..Tail()] == bytes
      && forall j | Tail() <= j < BUF_LEN :: buf[j] == 0
    }

    /** `struct request req = { 0 }`. */
    constructor ()
      ensures fresh(buf) && buf.Length == BUF_LEN
      ensures nlmsgLen == 0 && nlmsgType == 0 && nlmsgFlags == 0 && ifiFamily == 0 && ifiIndex == 0
      ensures forall j | 0 <= j < BUF_LEN :: buf[j] == 0
    {
      nlmsgLen, nlmsgType, nlmsgFlags, ifiFamily, ifiIndex := 0, 0, 0, 0, 0;
      bytes := [];
      buf := new Byte[BUF_LEN](_ => 0);
    }

    /** addattr_l: append one attribute with payload `data` if the message
        stays within maxlen, else leave the request alone and return -1. */
    method AddAttrL(tag: U16, data: seq<Byte>) returns (err: int)
      requires Valid()
      modifies this, buf
      ensures Valid()
      ensures nlmsgType == old(nlmsgType) && nlmsgFlags == old(nlmsgFlags)
      ensures ifiFamily == old(ifiFamily) && ifiIndex == old(ifiIndex)
      ensures err == (if old(nlmsgLen) + Align4(RTA_HDRLEN + |data|) <= REQUEST_LEN then 0 else -1)
      ensures err == 0 ==> nlmsgLen == old(nlmsgLen) + Align4(RTA_HDRLEN + |data|)
      ensures err == 0 ==> bytes == old(bytes) + Encode(Leaf(tag, data))
      ensures err != 0 ==> nlmsgLen == old(nlmsgLen) && bytes == old(bytes) && buf[..] == old(buf[..])
    {
      var len := RTA_HDRLEN + |data|;
      if nlmsgLen + Align4(len) > REQUEST_LEN {
        return -1;
      }
      var tail := Tail();
      ghost var img := buf[..tail];
      var w := Header(len, tag) + data;
      forall j | 0 <= j < |w| {
        buf[tail + j] := w[j];
      }
      assert forall j | 0 <= j < BUF_LEN ::
        buf[j] == if j < tail then img[j] else if j < tail + |w| then w[j - tail] else 0;
      AppendStep(img, buf, tag, data, w);
      AlignedSum(nlmsgLen, Align4(len));
      nlmsgLen := nlmsgLen + Align4(len);
      bytes := img + Encode(Leaf(tag, data));
      return 0;
    }

    /** addattr16 */
    method AddAttr16(tag: U16, v: U16) returns (err: int)
      requires Valid()
      modifies this, buf
      ensures Valid()
      ensures nlmsgType == old(nlmsgType) && nlmsgFlags == old(nlmsgFlags)
      ensures ifiFamily == old(ifiFamily) && ifiIndex == old(ifiIndex)
      ensures err == (if old(nlmsgLen) + 8 <= REQUEST_LEN then 0 else -1)
      ensures err == 0 ==> nlmsgLen == old(nlmsgLen) + 8
      ensures err == 0 ==> bytes == old(bytes) + Encode(Leaf(tag, Le16(v)))
      ensures err != 0 ==> nlmsgLen == old(nlmsgLen) && bytes == old(bytes) && buf[..] == old(buf[..])
    {
      err := AddAttrL(tag, Le16(v));
    }

    /** addattr32 */
    method AddAttr32(tag: U16, v: U32) returns (err: int)
      requires Valid()
      modifies this, buf
      ensures Valid()
      ensures nlmsgType == old(nlmsgType) && nlmsgFlags == old(nlmsgFlags)
      ensures ifiFamily == old(ifiFamily) && ifiIndex == old(ifiIndex)
      ensures err == (if old(nlmsgLen) + 8 <= REQUEST_LEN then 0 else -1)
      ensures err == 0 ==> nlmsgLen == old(nlmsgLen) + 8
      ensures err == 0 ==> bytes == old(bytes) + Encode(Leaf(tag, Le32(v)))
      ensures err != 0 ==> nlmsgLen == old(nlmsgLen) && bytes == old(bytes) && buf[..] == old(buf[..])
    {
      err := AddAttrL(tag, Le32(v));
    }

    /** addattr_nest: append a bare header and return its offset, which is
        where the tail was. */
    method NestStart(tag: U16) returns (nest: nat, err: int)
      requires Valid()
      modifies this, buf
      ensures Valid()
      ensures nlmsgType == old(nlmsgType) && nlmsgFlags == old(nlmsgFlags)
      ensures ifiFamily == old(ifiFamily) && ifiIndex == old(ifiIndex)
      ensures nest == old(Tail())
      ensures err == (if old(nlmsgLen) + RTA_HDRLEN <= REQUEST_LEN then 0 else -1)
      ensures err == 0 ==> nlmsgLen == old(nlmsgLen) + RTA_HDRLEN
      ensures err == 0 ==> bytes == old(bytes) + Header(RTA_HDRLEN, tag)
      ensures err != 0 ==> nlmsgLen == old(nlmsgLen) && bytes == old(bytes) && buf[..] == old(buf[..])
    {
      nest := Tail();
      assert Encode(Leaf(tag, [])) == Header(RTA_HDRLEN, tag) by {
        assert Zeros(0) == [];
      }
      err := AddAttrL(tag, []);
    }

    /** addattr_nest_end: set the rta_len of the nest at `nest` to the
        number of bytes from it to the tail; returns nlmsg_len. */
    method NestEnd(nest: nat) returns (len: nat)
      requires Valid() && nest + RTA_HDRLEN <= Tail()
      modifies this, buf
      ensures Valid()
      ensures nlmsgLen == old(nlmsgLen) && nlmsgType == old(nlmsgType) && nlmsgFlags == old(nlmsgFlags)
      ensures ifiFamily == old(ifiFamily) && ifiIndex == old(ifiIndex)
      ensures len == nlmsgLen
      ensures bytes == Patch(old(bytes), nest)
    {
      ghost var before := buf[..];
      var l := Le16(Tail() - nest);
      buf[nest] := l[0];
      buf[nest + 1] := l[1];
      PatchStep(before, buf, nest, Tail());
      bytes := Patch(bytes, nest);
      len := nlmsgLen;
    }

    /** cfm_nl_bridge_prepare: fill the headers, then open IFLA_AF_SPEC,
        add the IFLA_BRIDGE_FLAGS u16 BRIDGE_FLAGS_SELF, open
        IFLA_BRIDGE_CFM | NLA_F_NESTED and open attr | NLA_F_NESTED. */
    method Prepare(ifindex: U32, cmd: U16, attr: U16) returns (afspec: nat, af: nat, afSub: nat)
      requires buf.Length == BUF_LEN && forall j | 0 <= j < BUF_LEN :: buf[j] == 0
      modifies this, buf
      ensures Valid()
      ensures nlmsgType == cmd && nlmsgFlags == NLM_F_REQUEST
      ensures ifiFamily == AF_BRIDGE && ifiIndex == ifindex
      ensures afspec == 0 && af == 12 && afSub == 16
      ensures bytes == PrepareBytes(attr)
    {
      nlmsgLen := HEADER_ONLY_LEN;
      nlmsgFlags := NLM_F_REQUEST;
      nlmsgType := cmd;
      ifiFamily := AF_BRIDGE;
      ifiIndex := ifindex;
      bytes := [];
      var err: int;
      afspec, err := NestStart(IFLA_AF_SPEC);
      ghost var b1 := bytes;
      err := AddAttr16(IFLA_BRIDGE_FLAGS, BRIDGE_FLAGS_SELF);
      ghost var b2 := bytes;
      assert b2 == b1 + Encode(FlagsAttr());
      af, err := NestStart(WithNested(IFLA_BRIDGE_CFM));
      ghost var b3 := bytes;
      afSub, err := NestStart(WithNested(attr));
    }

    /** cfm_nl_terminate: close the three nests innermost first, then hand
        the message to the transport, whose error `talk` is returned. */
    method Terminate(afspec: nat, af: nat, afSub: nat, talk: int) returns (err: int)
      requires Valid()
      requires afSub + RTA_HDRLEN <= Tail() && af + RTA_HDRLEN <= Tail() && afspec + RTA_HDRLEN <= Tail()
      modifies this, buf
      ensures Valid()
      ensures nlmsgLen == old(nlmsgLen) && nlmsgType == old(nlmsgType) && nlmsgFlags == old(nlmsgFlags)
      ensures ifiFamily == old(ifiFamily) && ifiIndex == old(ifiIndex)
      ensures bytes == Patch(Patch(Patch(old(bytes), afSub), af), afspec)
      ensures err == talk
    {
      var len: nat;
      len := NestEnd(afSub);
      len := NestEnd(af);
      len := NestEnd(afspec);
      err := talk;
      if err != 0 {
        return err;
      }
      return 0;
    }
  }

  /** The fields cfm_offload_create places inside IFLA_BRIDGE_CFM_MEP_CREATE. */
  function CreateFields(instance: U32, domain: U32, direction: U32, vid: U16, ifindex: U32): seq<Attr>
  {
    [Leaf(MEP_CREATE_INSTANCE, Le32(instance)), Leaf(MEP_CREATE_DOMAIN, Le32(domain)),
     Leaf(MEP_CREATE_DIRECTION, Le32(direction)), Leaf(MEP_CREATE_VID, Le16(vid)),
     Leaf(MEP_CREATE_IFINDEX, Le32(ifindex))]
  }

  /** The field cfm_offload_delete places inside IFLA_BRIDGE_CFM_MEP_DELETE. */
  function DeleteFields(instance: U32): seq<Attr>
  {
    [Leaf(MEP_DELETE_INSTANCE, Le32(instance))]
  }

  /** Appending the next field's encoding extends the encoded prefix of
      the fields by one. */
  lemma AppendField(p: seq<Byte>, fs: seq<Attr>, k: nat, before: seq<Byte>, after: seq<Byte>)
    requires k < |fs|
    requires before == p + EncodeAll(fs[..k]) && after == before + Encode(fs[k])
    ensures after == p + EncodeAll(fs[..k + 1])
  {
    assert fs[..k] + [fs[k]] == fs[..k + 1];
    EncodeAllSnoc(fs[..k], fs[k]);
  }

  /** The bytes cfm_offload_create has written before terminating close
      into the create request's tree. */
  lemma CreateBytes(instance: U32, domain: U32, direction: U32, vid: U16, ifindex: U32, q: seq<Byte>)
    requires q == PrepareBytes(IFLA_BRIDGE_CFM_MEP_CREATE)
      + Encode(Leaf(MEP_CREATE_INSTANCE, Le32(instance))) + Encode(Leaf(MEP_CREATE_DOMAIN, Le32(domain)))
      + Encode(Leaf(MEP_CREATE_DIRECTION, Le32(direction))) + Encode(Leaf(MEP_CREATE_VID, Le16(vid)))
      + Encode(Leaf(MEP_CREATE_IFINDEX, Le32(ifindex)))
    ensures 16 + RTA_HDRLEN <= |q|
    ensures Patch(Patch(Patch(q, 16), 12), 0)
      == Encode(BridgeTree(IFLA_BRIDGE_CFM_MEP_CREATE, CreateFields(instance, domain, direction, vid, ifindex)))
  {
    var fs := CreateFields(instance, domain, direction, vid, ifindex);
    var p := PrepareBytes(IFLA_BRIDGE_CFM_MEP_CREATE);
    var q1 := p + Encode(fs[0]);
    var q2 := q1 + Encode(fs[1]);
    var q3 := q2 + Encode(fs[2]);
    var q4 := q3 + Encode(fs[3]);
    assert q == q4 + Encode(fs[4]);
    assert p == p + EncodeAll(fs[..0]);
    AppendField(p, fs, 0, p, q1);
    AppendField(p, fs, 1, q1, q2);
    AppendField(p, fs, 2, q2, q3);
    AppendField(p, fs, 3, q3, q4);
    AppendField(p, fs, 4, q4, q);
    assert fs[..5] == fs;
    EncodeShape(fs[0]);
    EncodeShape(fs[1]);
    EncodeShape(fs[2]);
    EncodeShape(fs[3]);
    EncodeShape(fs[4]);
    TerminateTree(IFLA_BRIDGE_CFM_MEP_CREATE, fs);
  }

  /** cfm_offload_create: an RTM_SETLINK request for the bridge whose
      MEP_CREATE nest holds instance, domain, direction (u32), vid (u16)
      and ifindex (u32), in that order. */
  method OffloadCreate(brIfindex: U32, instance: U32, domain: U32, direction: U32, vid: U16,
                       ifindex: U32, talk: int) returns (err: int, req: Request)
    ensures fresh(req) && fresh(req.buf) && req.Valid()
    ensures req.nlmsgType == RTM_SETLINK && req.nlmsgFlags == NLM_F_REQUEST
    ensures req.ifiFamily == AF_BRIDGE && req.ifiIndex == brIfindex
    ensures req.bytes == Encode(BridgeTree(IFLA_BRIDGE_CFM_MEP_CREATE,
                                           CreateFields(instance, domain, direction, vid, ifindex)))
    ensures err == talk
  {
    req := new Request();
    var afspec, af, afSub := req.Prepare(brIfindex, RTM_SETLINK, IFLA_BRIDGE_CFM_MEP_CREATE);
    var e: int;
    e := req.AddAttr32(MEP_CREATE_INSTANCE, instance);
    e := req.AddAttr32(MEP_CREATE_DOMAIN, domain);
    e := req.AddAttr32(MEP_CREATE_DIRECTION, direction);
    e := req.AddAttr16(MEP_CREATE_VID, vid);
    e := req.AddAttr32(MEP_CREATE_IFINDEX, ifindex);
    CreateBytes(instance, domain, direction, vid, ifindex, req.bytes);
    err := req.Terminate(afspec, af, afSub, talk);
  }

  /** cfm_offload_delete: an RTM_SETLINK request whose MEP_DELETE nest
      holds only the instance (u32). */
  method OffloadDelete(brIfindex: U32, instance: U32, talk: int) returns (err: int, req: Request)
    ensures fresh(req) && fresh(req.buf) && req.Valid()
    ensures req.nlmsgType == RTM_SETLINK && req.nlmsgFlags == NLM_F_REQUEST
    ensures req.ifiFamily == AF_BRIDGE && req.ifiIndex == brIfindex
    ensures req.bytes == Encode(BridgeTree(IFLA_BRIDGE_CFM_MEP_DELETE, DeleteFields(instance)))
    ensures err == talk
  {
    req := new Request();
    var afspec, af, afSub := req.Prepare(brIfindex, RTM_SETLINK, IFLA_BRIDGE_CFM_MEP_DELETE);
    ghost var fs := DeleteFields(instance);
    ghost var p := req.bytes;
    var e: int;
    e := req.AddAttr32(MEP_DELETE_INSTANCE, instance);
    EncodeAllOne(fs[0]);
    assert req.bytes == p + EncodeAll(fs);
    TerminateTree(IFLA_BRIDGE_CFM_MEP_DELETE, fs);
    err := req.Terminate(afspec, af, afSub, talk);
  }
}
