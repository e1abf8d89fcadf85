/**
 * A received rtnetlink link message as the decoders see it, and the shape
 * of one attribute walk's result.
 */
module Message {
  import opened Rtattr
  import opened Abi
  import opened Fields

  /** nlmsg_len, nlmsg_type, ifi_family, and the bytes that follow the
      ifinfomsg header (where IFLA_RTA points). */
  datatype Msg = Msg(nlmsgLen: nat, nlmsgType: U16, ifiFamily: Byte, rest: seq<Byte>)

  /** The transport hands over the whole message: nlmsg_len bytes. */
  predicate Delivered(m: Msg)
  {
    m.nlmsgLen >= HEADER_ONLY_LEN ==> m.nlmsgLen - HEADER_ONLY_LEN <= |m.rest|
  }

  /** The link attributes: nlmsg_len - NLMSG_LENGTH(sizeof(struct ifinfomsg))
      bytes at IFLA_RTA. */
  function LinkAttrs(m: Msg): (r: seq<Byte>)
    requires Delivered(m) && m.nlmsgLen >= HEADER_ONLY_LEN
    ensures |r| == m.nlmsgLen - HEADER_ONLY_LEN && r == m.rest[..|r|]
  {
    m.rest[..m.nlmsgLen - HEADER_ONLY_LEN]
  }

  /** A message whose nlmsg_len covers exactly an encoded run of attributes
      after the ifinfomsg header (whatever bytes trail it): the walk over
      its link attributes meets those attributes, in order, and nothing of
      the trailing bytes. */
  lemma LinkAttrsRecords(m: Msg, attrs: seq<Attr>, tail: seq<Byte>)
    requires AllFit(attrs)
    requires m.rest == EncodeAll(attrs) + tail && m.nlmsgLen == HEADER_ONLY_LEN + |EncodeAll(attrs)|
    ensures Delivered(m) && m.nlmsgLen >= HEADER_ONLY_LEN
    ensures Records(LinkAttrs(m)) == Flat(attrs)
  {
    assert LinkAttrs(m) == EncodeAll(attrs);
    WalkAll(attrs);
  }

  /** How a walk over the CFM block ended: the loop ran out of records, the
      function returned early, or a field read was undefined. */
  datatype Status = Finished | Quit | Crashed

  datatype Walk = Walk(status: Status, out: seq<Line>)

  /** The decoder's outcome after its last walk: a crash stays a crash,
      otherwise the function returns 0. */
  function Finish(w: Walk): Outcome
  {
    if w.status == Crashed then Undefined(w.out) else Returned(0, w.out)
  }
}
