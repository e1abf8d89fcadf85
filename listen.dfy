/**
 * netlink_listen of cfm_server.c: the filters an rtnetlink event passes
 * before its CFM block is read, then two RTA_OK/RTA_NEXT walks over that
 * block, one printing the CC peer events and one the MIP R-APS events, each
 * grouping adjacent events under an "Instance" header.
 *
 * `EventScan` is the reference reading of one walk over the records it
 * visits; `EventLoop` is the loop with its cursor, `rem` and `instance`,
 * proved to compute it.  The two walks share `rem`: the second starts at
 * the head of the block with the `rem` the first left behind
 * (`NetlinkListen`), so on a well-formed block it visits nothing
 * (`StaleRemSkipsMip`).  `NetlinkListenFixed` starts the second walk afresh.
 */
module Listen {
  import opened Rtattr
  import opened Abi
  import opened Fields
  import opened Message

  /** The two kinds of event attribute netlink_listen walks for. */
  datatype EventKind = PeerEvent | MipEvent

  /** The rta_type a walk keeps: the event type with NLA_F_NESTED set, as
      compared without masking. */
  function EventTag(k: EventKind): U16
  {
    match k
    case PeerEvent => WithNested(IFLA_BRIDGE_CFM_CC_PEER_EVENT_INFO)
    case MipEvent => WithNested(IFLA_BRIDGE_CFM_MIP_EVENT_INFO)
  }

  /** The instance sub-attribute of each kind. */
  function EventInstance(k: EventKind): U16
  {
    match k
    case PeerEvent => CC_PEER_EVENT_INSTANCE
    case MipEvent => MIP_EVENT_INSTANCE
  }

  /** info_peer[t] or info_mip[t] after parse_rtattr_flags(...,
      NLA_F_NESTED) over an event record's payload. */
  function EventField(data: seq<Byte>, t: U16): Option<Rec>
  {
    Lookup(Records(data), t, true)
  }

  /** What the loop body makes of an event record of the wanted type: it has
      no instance (`continue`), its instance cannot be read, or it has
      instance `instance` and prints `line` (none when a later field cannot
      be read). */
  datatype Event = Unnumbered | Unreadable | Numbered(instance: U32, line: Option<Line>)

  /** The peer event's line: peer MEP id and CCM defect, both u32. */
  function PeerLine(data: seq<Byte>): (l: Option<Line>)
    ensures l.Some? <==> U32Of(EventField(data, CC_PEER_EVENT_PEER_MEPID)).Some?
                         && U32Of(EventField(data, CC_PEER_EVENT_CCM_DEFECT)).Some?
    ensures l.Some? ==> l.value == PeerStatus(U32Of(EventField(data, CC_PEER_EVENT_PEER_MEPID)).value,
                                              U32Of(EventField(data, CC_PEER_EVENT_CCM_DEFECT)).value)
  {
    var peer := U32Of(EventField(data, CC_PEER_EVENT_PEER_MEPID));
    var ccm := U32Of(EventField(data, CC_PEER_EVENT_CCM_DEFECT));
    if peer.Some? && ccm.Some? then Some(PeerStatus(peer.value, ccm.value)) else None
  }

  /** The MIP event's line: the request/state and sub-code nibbles of the
      u32 request/sub-code field, the status as u32, the node id as text. */
  function RapsLine(data: seq<Byte>): (l: Option<Line>)
    ensures l.Some? <==> U32Of(EventField(data, MIP_EVENT_RAPS_REQUEST_SUBCODE)).Some?
                         && U32Of(EventField(data, MIP_EVENT_RAPS_STATUS)).Some?
                         && MacOf(EventField(data, MIP_EVENT_RAPS_NODE_ID)).Some?
    ensures l.Some? ==> l.value.RapsInfo?
    ensures l.Some? ==> Some(l.value.status) == U32Of(EventField(data, MIP_EVENT_RAPS_STATUS))
                        && Some(l.value.nodeId) == MacOf(EventField(data, MIP_EVENT_RAPS_NODE_ID))
  {
    var code := U32Of(EventField(data, MIP_EVENT_RAPS_REQUEST_SUBCODE));
    var status := U32Of(EventField(data, MIP_EVENT_RAPS_STATUS));
    var node := MacOf(EventField(data, MIP_EVENT_RAPS_NODE_ID));
    if code.Some? && status.Some? && node.Some? then
      var split := RapsSplit(code.value);
      Some(RapsInfo(split.request, split.subCode, status.value, node.value))
    else None
  }

  /** What a MIP event prints: two nibbles that put back together give the
      low octet of the request/sub-code field, its status, and a node id
      that parses back to the node id's six bytes. */
  lemma RapsLineFields(data: seq<Byte>)
    requires RapsLine(data).Some?
    ensures var l := RapsLine(data).value;
      var code := U32Of(EventField(data, MIP_EVENT_RAPS_REQUEST_SUBCODE));
      code.Some? && l.request < 16 && l.subCode < 16 && l.request * 16 + l.subCode == code.value % 0x100
      && Some(l.status) == U32Of(EventField(data, MIP_EVENT_RAPS_STATUS))
      && ParseMac(l.nodeId) == Some(EventField(data, MIP_EVENT_RAPS_NODE_ID).value.data[..6])
  {
    MacOfRoundTrip(EventField(data, MIP_EVENT_RAPS_NODE_ID));
  }

  /** The loop body's reading of an event record's payload. */
  function DecodeEvent(k: EventKind, data: seq<Byte>): (e: Event)
    ensures e.Unnumbered? <==> EventField(data, EventInstance(k)).None?
    ensures e.Numbered? <==> U32Of(EventField(data, EventInstance(k))).Some?
    ensures e.Numbered? ==> Some(e.instance) == U32Of(EventField(data, EventInstance(k)))
    ensures e.Numbered? ==> e.line == (if k == PeerEvent then PeerLine(data) else RapsLine(data))
  {
    var inst := EventField(data, EventInstance(k));
    if inst.None? then Unnumbered
    else
      var x := U32Of(inst);
      if x.None? then Unreadable
      else Numbered(x.value, if k == PeerEvent then PeerLine(data) else RapsLine(data))
  }

  /** The loop body of the walk for kind k, as a value the walk applies. */
  function EventDecoder(k: EventKind): seq<Byte> -> Event
  {
    data => DecodeEvent(k, data)
  }

  /** The state a walk carries from one record to the next: how it stands
      with what it printed, and the last instance it announced. */
  datatype Progress = Progress(walk: Walk, instance: U32)

  /** The loop body on one record, with `cur` the last instance announced: a
      record of another type or without an instance is skipped; otherwise an
      "Instance" header is printed when its instance is not `cur`, and then
      the record's line. */
  function EventVisit(tag: U16, decode: seq<Byte> -> Event, r: Rec, cur: U32, out: seq<Line>): Progress
  {
    if r.tag != tag then Progress(Walk(Finished, out), cur)
    else
      match decode(r.data)
      case Unnumbered => Progress(Walk(Finished, out), cur)
      case Unreadable => Progress(Walk(Crashed, out), cur)
      case Numbered(x, line) =>
        var announced := if x != cur then out + [InstanceHeader(x)] else out;
        if line.None? then Progress(Walk(Crashed, announced), x)
        else Progress(Walk(Finished, announced + [line.value]), x)
  }

  /** The loop body of the walk for records of type `tag`, as a value the
      walk applies. */
  function Visitor(tag: U16, decode: seq<Byte> -> Event): (Rec, U32, seq<Line>) -> Progress
  {
    (r: Rec, cur: U32, out: seq<Line>) => EventVisit(tag, decode, r, cur, out)
  }

  /** Reference reading of one walk over the records it visits: the loop
      body on each in turn, until one does not finish. */
  function EventScan(visit: (Rec, U32, seq<Line>) -> Progress, recs: seq<Rec>, cur: U32, out: seq<Line>): Progress
  {
    if recs == [] then Progress(Walk(Finished, out), cur)
    else
      var v := visit(recs[0], cur, out);
      if v.walk.status != Finished then v else EventScan(visit, recs[1..], v.instance, v.walk.out)
  }

  /** Where the loop stops: what it has printed, and the `rem` it leaves. */
  datatype Halt = Halt(progress: Progress, rem: int)

  /** The same walk read off the bytes, one RTA_OK test and one RTA_NEXT
      step at a time, and the `rem` it stops with. */
  function EventBytes(visit: (Rec, U32, seq<Line>) -> Progress, s: seq<Byte>, i: nat, rem: int, align: nat -> nat,
                      cur: U32, out: seq<Line>): Halt
    requires rem >= 0 ==> i + rem <= |s|
    requires Rounding(align)
    decreases rem + 4
  {
    if !RtaOk(s, i, rem) then Halt(Progress(Walk(Finished, out), cur), rem)
    else
      var len := ReadLe16(s, i);
      var v := visit(Rec(ReadLe16(s, i + 2), s[i + RTA_HDRLEN .. i + len]), cur, out);
      if v.walk.status != Finished then Halt(v, rem)
      else EventBytes(visit, s, i + align(len), rem - align(len), align, v.instance, v.walk.out)
  }

  /** One step of the walk. */
  lemma EventScanStep(visit: (Rec, U32, seq<Line>) -> Progress, r: Rec, rest: seq<Rec>, cur: U32, out: seq<Line>)
    ensures var v := visit(r, cur, out);
      EventScan(visit, [r] + rest, cur, out)
        == if v.walk.status != Finished then v else EventScan(visit, rest, v.instance, v.walk.out)
  {
    assert ([r] + rest)[0] == r && ([r] + rest)[1..] == rest;
  }

  /** One iteration of the loop over the bytes: the walk from the record at
      offset i is the loop body on that record, then the walk from the next
      one. */
  lemma EventAdvance(visit: (Rec, U32, seq<Line>) -> Progress, s: seq<Byte>, i: nat, rem: int, align: nat -> nat,
                     cur: U32, out: seq<Line>)
    requires rem >= 0 ==> i + rem <= |s|
    requires Rounding(align) && RtaOk(s, i, rem)
    ensures var len := ReadLe16(s, i);
      var v := visit(Rec(ReadLe16(s, i + 2), s[i + RTA_HDRLEN .. i + len]), cur, out);
      EventScan(visit, WalkBy(s, i, rem, align), cur, out)
        == if v.walk.status != Finished then v
           else EventScan(visit, WalkBy(s, i + align(len), rem - align(len), align), v.instance, v.walk.out)
  {
    var len := ReadLe16(s, i);
    StepBy(s, i, rem, align);
    EventScanStep(visit, Rec(ReadLe16(s, i + 2), s[i + RTA_HDRLEN .. i + len]),
                  WalkBy(s, i + align(len), rem - align(len), align), cur, out);
  }

  /** Walking the bytes is folding the loop body over the records the walk
      visits. */
  lemma {:induction false} EventBytesWalk(visit: (Rec, U32, seq<Line>) -> Progress, s: seq<Byte>, i: nat, rem: int,
                                          align: nat -> nat, cur: U32, out: seq<Line>)
    requires rem >= 0 ==> i + rem <= |s|
    requires Rounding(align)
    ensures EventBytes(visit, s, i, rem, align, cur, out).progress == EventScan(visit, WalkBy(s, i, rem, align), cur, out)
    decreases rem + 4
  {
    if RtaOk(s, i, rem) {
      var len := ReadLe16(s, i);
      EventAdvance(visit, s, i, rem, align, cur, out);
      var v := visit(Rec(ReadLe16(s, i + 2), s[i + RTA_HDRLEN .. i + len]), cur, out);
      if v.walk.status == Finished {
        EventBytesWalk(visit, s, i + align(len), rem - align(len), align, v.instance, v.walk.out);
      }
    } else {
      EndBy(s, i, rem, align);
    }
  }

  /** A walk that runs out of records leaves the `rem` RTA_NEXT left. */
  lemma {:induction false} EventBytesRem(visit: (Rec, U32, seq<Line>) -> Progress, s: seq<Byte>, i: nat, rem: int,
                                         align: nat -> nat, cur: U32, out: seq<Line>)
    requires rem >= 0 ==> i + rem <= |s|
    requires Rounding(align)
    ensures var h := EventBytes(visit, s, i, rem, align, cur, out);
      h.progress.walk.status == Finished ==> h.rem == RemBy(s, i, rem, align)
    decreases rem + 4
  {
    if RtaOk(s, i, rem) {
      var len := ReadLe16(s, i);
      RemStepBy(s, i, rem, align);
      var v := visit(Rec(ReadLe16(s, i + 2), s[i + RTA_HDRLEN .. i + len]), cur, out);
      if v.walk.status == Finished {
        EventBytesRem(visit, s, i + align(len), rem - align(len), align, v.instance, v.walk.out);
      }
    } else {
      EndBy(s, i, rem, align);
    }
  }

  /** The `instance` a walk starts from. */
  const NO_INSTANCE: U32 := 0xFFFF_FFFF

  /** One walk of netlink_listen: from the head of the block with `rem0`
      bytes said to remain, `instance` reset to 0xFFFFFFFF, RTA_OK to
      continue, RTA_NEXT to step by align(rta_len).  Returns what it printed
      and the `rem` it leaves behind.  netlink_listen passes RTA_ALIGN. */
  method EventLoop(s: seq<Byte>, visit: (Rec, U32, seq<Line>) -> Progress, align: nat -> nat, rem0: int, out0: seq<Line>)
    returns (p: Progress, rem: int)
    requires Rounding(align)
    requires rem0 >= 0 ==> rem0 <= |s|
    ensures Halt(p, rem) == EventBytes(visit, s, 0, rem0, align, NO_INSTANCE, out0)
  {
    var i: nat, left: int := 0, rem0;
    var instance, out := NO_INSTANCE, out0;
    while left >= RTA_HDRLEN && RTA_HDRLEN <= ReadLe16(s, i) <= left
      invariant left >= 0 ==> i + left <= |s|
      invariant EventBytes(visit, s, i, left, align, instance, out)
                == EventBytes(visit, s, 0, rem0, align, NO_INSTANCE, out0)
      decreases left + 4
    {
      var len := ReadLe16(s, i);
      var v := visit(Rec(ReadLe16(s, i + 2), s[i + RTA_HDRLEN .. i + len]), instance, out);
      if v.walk.status != Finished {
        return v, left;
      }
      instance, out := v.instance, v.walk.out;
      i, left := i + align(len), left - align(len);
    }
    return Progress(Walk(Finished, out), instance), left;
  }

  /** The records a walk for `tag` reports: those of that exact type whose
      instance is present. */
  function Reported(tag: U16, decode: seq<Byte> -> Event, recs: seq<Rec>): (m: seq<Rec>)
    ensures |m| <= |recs|
    ensures forall j | 0 <= j < |m| :: m[j].tag == tag && !decode(m[j].data).Unnumbered? && m[j] in recs
  {
    if recs == [] then []
    else if recs[0].tag == tag && !decode(recs[0].data).Unnumbered? then [recs[0]] + Reported(tag, decode, recs[1..])
    else Reported(tag, decode, recs[1..])
  }

  /** Skipping: a walk prints what it would print over the records it
      reports alone; records of another type and events without an instance
      leave no trace, not even on the grouping. */
  lemma {:induction false} ReportedOnly(tag: U16, decode: seq<Byte> -> Event, recs: seq<Rec>, cur: U32, out: seq<Line>)
    ensures EventScan(Visitor(tag, decode), recs, cur, out)
         == EventScan(Visitor(tag, decode), Reported(tag, decode, recs), cur, out)
  {
    if recs != [] {
      var visit := Visitor(tag, decode);
      var m := Reported(tag, decode, recs[1..]);
      var v := visit(recs[0], cur, out);
      if recs[0].tag == tag && !decode(recs[0].data).Unnumbered? {
        assert Reported(tag, decode, recs) == [recs[0]] + m;
        EventScanStep(visit, recs[0], m, cur, out);
        if v.walk.status == Finished {
          ReportedOnly(tag, decode, recs[1..], v.instance, v.walk.out);
        }
      } else {
        assert v == Progress(Walk(Finished, out), cur);
        ReportedOnly(tag, decode, recs[1..], cur, out);
      }
    }
  }

  /** A reported event that prints: its instance and its line. */
  datatype Reading = Reading(instance: U32, line: Line)

  /** Every record reads its instance and all its fields. */
  predicate Readable(decode: seq<Byte> -> Event, m: seq<Rec>)
  {
    forall j | 0 <= j < |m| :: decode(m[j].data).Numbered? && decode(m[j].data).line.Some?
  }

  function Readings(decode: seq<Byte> -> Event, m: seq<Rec>): (rs: seq<Reading>)
    requires Readable(decode, m)
    ensures |rs| == |m|
    ensures forall j | 0 <= j < |m| :: rs[j] == Reading(decode(m[j].data).instance, decode(m[j].data).line.value)
  {
    if m == [] then [] else [Reading(decode(m[0].data).instance, decode(m[0].data).line.value)] + Readings(decode, m[1..])
  }

  /** The header printed before an event of instance x when `cur` is the
      last instance announced. */
  function Announce(cur: U32, x: U32): seq<Line>
  {
    if x != cur then [InstanceHeader(x)] else []
  }

  /** Reference rendering of a run of events: each event's line, preceded by
      a header when its instance differs from the one before it (the first
      is compared with `cur`). */
  function Grouped(cur: U32, rs: seq<Reading>): seq<Line>
    decreases rs
  {
    if rs == [] then [] else Announce(cur, rs[0].instance) + [rs[0].line] + Grouped(rs[0].instance, rs[1..])
  }

  /** A walk over events that all print renders them grouped. */
  lemma {:induction false} ScanGrouped(tag: U16, decode: seq<Byte> -> Event, m: seq<Rec>, cur: U32, out: seq<Line>)
    requires forall j | 0 <= j < |m| :: m[j].tag == tag
    requires Readable(decode, m)
    ensures EventScan(Visitor(tag, decode), m, cur, out).walk == Walk(Finished, out + Grouped(cur, Readings(decode, m)))
  {
    if m != [] {
      var rs := Readings(decode, m);
      var x, l := rs[0].instance, rs[0].line;
      var next := out + Announce(cur, x) + [l];
      assert Visitor(tag, decode)(m[0], cur, out) == Progress(Walk(Finished, next), x);
      assert rs[1..] == Readings(decode, m[1..]);
      ScanGrouped(tag, decode, m[1..], x, next);
      assert out + Grouped(cur, rs) == next + Grouped(x, rs[1..]);
    }
  }

  /** The instances the headers among ls announce, in order. */
  function Headers(ls: seq<Line>): (xs: seq<U32>)
    ensures |xs| <= |ls|
  {
    if ls == [] then [] else (if ls[0].InstanceHeader? then [ls[0].instance] else []) + Headers(ls[1..])
  }

  /** ls without its headers. */
  function Bodies(ls: seq<Line>): (bs: seq<Line>)
    ensures forall j | 0 <= j < |bs| :: !bs[j].InstanceHeader?
  {
    if ls == [] then [] else (if ls[0].InstanceHeader? then [] else [ls[0]]) + Bodies(ls[1..])
  }

  lemma {:induction false} HeadersAppend(a: seq<Line>, b: seq<Line>)
    ensures Headers(a + b) == Headers(a) + Headers(b)
  {
    if a == [] {
      assert a + b == b;
    } else {
      var h := if a[0].InstanceHeader? then [a[0].instance] else [];
      assert (a + b)[0] == a[0] && (a + b)[1..] == a[1..] + b;
      HeadersAppend(a[1..], b);
      assert Headers(a + b) == h + (Headers(a[1..]) + Headers(b));
      assert Headers(a) == h + Headers(a[1..]);
    }
  }

  lemma {:induction false} BodiesAppend(a: seq<Line>, b: seq<Line>)
    ensures Bodies(a + b) == Bodies(a) + Bodies(b)
  {
    if a == [] {
      assert a + b == b;
    } else {
      var h := if a[0].InstanceHeader? then [] else [a[0]];
      assert (a + b)[0] == a[0] && (a + b)[1..] == a[1..] + b;
      BodiesAppend(a[1..], b);
      assert Bodies(a + b) == h + (Bodies(a[1..]) + Bodies(b));
      assert Bodies(a) == h + Bodies(a[1..]);
    }
  }

  /** The instances xs with every run of equal neighbours kept once, and a
      first run equal to `cur` dropped. */
  function Changes(cur: U32, xs: seq<U32>): seq<U32>
    decreases xs
  {
    if xs == [] then []
    else if xs[0] == cur then Changes(cur, xs[1..])
    else [xs[0]] + Changes(xs[0], xs[1..])
  }

  function Instances(rs: seq<Reading>): (xs: seq<U32>)
    ensures |xs| == |rs| && forall j | 0 <= j < |rs| :: xs[j] == rs[j].instance
  {
    if rs == [] then [] else [rs[0].instance] + Instances(rs[1..])
  }

  function LinesOf(rs: seq<Reading>): (ls: seq<Line>)
    ensures |ls| == |rs| && forall j | 0 <= j < |rs| :: ls[j] == rs[j].line
  {
    if rs == [] then [] else [rs[0].line] + LinesOf(rs[1..])
  }

  /** Grouping only adds headers: without them the rendering is the events'
      lines in arrival order, and the headers announce the instances with
      each run of adjacent equal instances collapsed to one. */
  lemma {:induction false} GroupedParts(cur: U32, rs: seq<Reading>)
    requires forall j | 0 <= j < |rs| :: !rs[j].line.InstanceHeader?
    ensures Bodies(Grouped(cur, rs)) == LinesOf(rs)
    ensures Headers(Grouped(cur, rs)) == Changes(cur, Instances(rs))
    decreases rs
  {
    if rs != [] {
      var x, l := rs[0].instance, rs[0].line;
      GroupedParts(x, rs[1..]);
      HeadersAppend(Announce(cur, x) + [l], Grouped(x, rs[1..]));
      HeadersAppend(Announce(cur, x), [l]);
      BodiesAppend(Announce(cur, x) + [l], Grouped(x, rs[1..]));
      BodiesAppend(Announce(cur, x), [l]);
      assert Headers([l]) == [] && Bodies([l]) == [l] by {
        assert [l][1..] == [];
      }
      assert Bodies(Announce(cur, x)) == [] && Headers(Announce(cur, x)) == (if x != cur then [x] else []) by {
        if x != cur {
          assert Announce(cur, x)[1..] == [];
        }
      }
      assert Instances(rs)[1..] == Instances(rs[1..]);
      assert LinesOf(rs) == [l] + LinesOf(rs[1..]);
    }
  }

  /** The announced instances form runs: no two neighbours are equal, the
      first is not `cur`, and each is one of the events' instances. */
  lemma {:induction false} ChangesRuns(cur: U32, xs: seq<U32>)
    ensures var c := Changes(cur, xs);
      (forall j | 0 <= j < |c| - 1 :: c[j] != c[j + 1])
      && (c != [] ==> c[0] != cur)
      && (forall j | 0 <= j < |c| :: c[j] in xs)
    decreases xs
  {
    if xs != [] {
      ChangesRuns(if xs[0] == cur then cur else xs[0], xs[1..]);
      var t := Changes(if xs[0] == cur then cur else xs[0], xs[1..]);
      forall j | 0 <= j < |t| ensures t[j] in xs {
        assert t[j] in xs[1..];
      }
    }
  }

  /** Events of one instance x print one header, or none when x is the
      instance last announced (such as a first instance 0xFFFFFFFF). */
  lemma {:induction false} ChangesOneRun(cur: U32, x: U32, xs: seq<U32>)
    requires forall j | 0 <= j < |xs| :: xs[j] == x
    ensures Changes(cur, xs) == if xs == [] || x == cur then [] else [x]
    decreases xs
  {
    if xs != [] {
      ChangesOneRun(x, x, xs[1..]);
      if x == cur {
        ChangesOneRun(cur, x, xs[1..]);
      }
    }
  }

  /** The loop body of each of netlink_listen's walks. */
  function Walker(k: EventKind): (Rec, U32, seq<Line>) -> Progress
  {
    Visitor(EventTag(k), EventDecoder(k))
  }

  /** tb[t] after parse_rtattr_flags(..., NLA_F_NESTED) over the link
      attributes. */
  function LinkAttr(m: Msg, t: U16): Option<Rec>
    requires Delivered(m) && m.nlmsgLen >= HEADER_ONLY_LEN
  {
    Lookup(Records(LinkAttrs(m)), t, true)
  }

  /** aftb[IFLA_BRIDGE_CFM] after parse_rtattr_flags(..., NLA_F_NESTED) over
      the payload of IFLA_AF_SPEC: the block both walks run over. */
  function EventBlock(m: Msg): (b: Option<seq<Byte>>)
    requires Delivered(m) && m.nlmsgLen >= HEADER_ONLY_LEN
    ensures b.Some? ==> LinkAttr(m, IFLA_AF_SPEC).Some?
    ensures b.Some? ==> var recs := Records(LinkAttr(m, IFLA_AF_SPEC).value.data);
              exists k | 0 <= k < |recs| :: Masked(recs[k].tag, true) == IFLA_BRIDGE_CFM && recs[k].data == b.value
                && forall j | 0 <= j < k :: Masked(recs[j].tag, true) != IFLA_BRIDGE_CFM
    ensures (LinkAttr(m, IFLA_AF_SPEC).Some?
             && exists r | r in Records(LinkAttr(m, IFLA_AF_SPEC).value.data) :: Masked(r.tag, true) == IFLA_BRIDGE_CFM) ==> b.Some?
  {
    var af := LinkAttr(m, IFLA_AF_SPEC);
    if af.None? then None
    else
      var cfm := Lookup(Records(af.value.data), IFLA_BRIDGE_CFM, true);
      if cfm.None? then None
      else
        LookupIsFirst(Records(af.value.data), IFLA_BRIDGE_CFM, true);
        Some(cfm.value.data)
  }

  /** A message the filters let through to the attribute parse: a
      RTM_NEWLINK for AF_BRIDGE at least as long as its headers. */
  predicate Accepted(m: Msg)
  {
    m.nlmsgType == RTM_NEWLINK && m.nlmsgLen >= HEADER_ONLY_LEN && m.ifiFamily == AF_BRIDGE
  }

  const NO_IFNAME: string := "No IFLA_IFNAME"
  const PEER_TITLE: string := "EVENT CFM CC peer status:"
  const MIP_TITLE: string := "EVENT CFM MIP RAPS info:"

  /** The early returns of netlink_listen, in the order it tests them: 0 for
      NLMSG_DONE, -1 for a message shorter than its headers, 0 for another
      family or another message type, -1 (after saying so) without
      IFLA_IFNAME, 0 without IFLA_AF_SPEC or IFLA_BRIDGE_CFM.  None when
      the message reaches the walks. */
  function Screen(m: Msg): (o: Option<Outcome>)
    requires Delivered(m)
    ensures m.nlmsgType == NLMSG_DONE ==> o == Some(Returned(0, []))
    ensures m.nlmsgType != NLMSG_DONE && m.nlmsgLen < HEADER_ONLY_LEN ==> o == Some(Returned(-1, []))
    ensures m.nlmsgType != NLMSG_DONE && m.nlmsgLen >= HEADER_ONLY_LEN && !Accepted(m) ==> o == Some(Returned(0, []))
    ensures Accepted(m) ==> (LinkAttr(m, IFLA_IFNAME).None? <==> o == Some(Returned(-1, [Title(NO_IFNAME)])))
    ensures Accepted(m) && LinkAttr(m, IFLA_IFNAME).Some? && EventBlock(m).None? ==> o == Some(Returned(0, []))
    ensures o.None? <==> Accepted(m) && LinkAttr(m, IFLA_IFNAME).Some? && EventBlock(m).Some?
  {
    if m.nlmsgType == NLMSG_DONE then Some(Returned(0, []))
    else if m.nlmsgLen < HEADER_ONLY_LEN then Some(Returned(-1, []))
    else if m.ifiFamily != AF_BRIDGE || m.nlmsgType != RTM_NEWLINK then Some(Returned(0, []))
    else if LinkAttr(m, IFLA_IFNAME).None? then Some(Returned(-1, [Title(NO_IFNAME)]))
    else if EventBlock(m).None? then Some(Returned(0, []))
    else None
  }

  /** What netlink_listen prints for the block b when its MIP walk visits
      the records `mip`: the peer walk over every record of b, then (unless
      it read a field it could not: an event walk never returns early) the
      MIP walk. */
  function Report(b: seq<Byte>, mip: seq<Rec>): (o: Outcome)
  {
    var peer := EventScan(Walker(PeerEvent), Records(b), NO_INSTANCE, [Title(PEER_TITLE)]);
    if peer.walk.status != Finished then Undefined(peer.walk.out)
    else Finish(EventScan(Walker(MipEvent), mip, NO_INSTANCE, peer.walk.out + [Title(MIP_TITLE)]).walk)
  }

  /** The first walk of netlink_listen: the peer events of the whole
      block, and the `rem` it leaves behind. */
  method PeerWalk(b: seq<Byte>) returns (peer: Progress, rem: int)
    ensures peer == EventScan(Walker(PeerEvent), Records(b), NO_INSTANCE, [Title(PEER_TITLE)])
    ensures peer.walk.status == Finished ==> rem == RemAfter(b, 0, |b|)
    ensures rem <= |b|
  {
    AlignRounding();
    EventBytesWalk(Walker(PeerEvent), b, 0, |b|, Align4, NO_INSTANCE, [Title(PEER_TITLE)]);
    EventBytesRem(Walker(PeerEvent), b, 0, |b|, Align4, NO_INSTANCE, [Title(PEER_TITLE)]);
    peer, rem := EventLoop(b, Walker(PeerEvent), Align4, |b|, [Title(PEER_TITLE)]);
    if peer.walk.status != Finished {
      rem := |b|;
    }
  }

  /** The second walk of netlink_listen: from the head of the block, with
      `rem0` bytes said to remain, after the peer walk printed `out`. */
  method MipWalk(b: seq<Byte>, rem0: int, out: seq<Line>) returns (o: Outcome)
    requires rem0 <= |b|
    ensures o == Finish(EventScan(Walker(MipEvent), WalkFrom(b, 0, rem0), NO_INSTANCE, out + [Title(MIP_TITLE)]).walk)
  {
    AlignRounding();
    EventBytesWalk(Walker(MipEvent), b, 0, rem0, Align4, NO_INSTANCE, out + [Title(MIP_TITLE)]);
    var mip, _ := EventLoop(b, Walker(MipEvent), Align4, rem0, out + [Title(MIP_TITLE)]);
    return Finish(mip.walk);
  }

  /** netlink_listen as written: both walks start at the head of the block,
      but the second inherits the `rem` the first left behind, so it visits
      only the records that fit in that many bytes. */
  method NetlinkListen(m: Msg) returns (o: Outcome)
    requires Delivered(m)
    ensures Screen(m).Some? ==> o == Screen(m).value
    ensures Screen(m).None? ==>
      var b := EventBlock(m).value;
      o == Report(b, WalkFrom(b, 0, RemAfter(b, 0, |b|)))
  {
    var early := Screen(m);
    if early.Some? {
      return early.value;
    }
    var b := EventBlock(m).value;
    var peer, rem := PeerWalk(b);
    if peer.walk.status != Finished {
      return Undefined(peer.walk.out);
    }
    o := MipWalk(b, rem, peer.walk.out);
  }

  /** netlink_listen with `rem` reset to RTA_PAYLOAD(list) before the
      second walk, which then visits every record of the block. */
  method NetlinkListenFixed(m: Msg) returns (o: Outcome)
    requires Delivered(m)
    ensures Screen(m).Some? ==> o == Screen(m).value
    ensures Screen(m).None? ==> var b := EventBlock(m).value; o == Report(b, Records(b))
  {
    var early := Screen(m);
    if early.Some? {
      return early.value;
    }
    var b := EventBlock(m).value;
    var peer, _ := PeerWalk(b);
    if peer.walk.status != Finished {
      return Undefined(peer.walk.out);
    }
    o := MipWalk(b, |b|, peer.walk.out);
  }

  /** As written, on a CFM block that is a well-formed sequence of
      attributes: the peer walk consumes it exactly and leaves rem == 0, so
      the MIP walk visits no record and netlink_listen prints the MIP title
      alone after the peer events. */
  lemma StaleRemSkipsMip(kids: seq<Attr>)
    requires AllFit(kids)
    ensures var b := EncodeAll(kids);
      WalkFrom(b, 0, RemAfter(b, 0, |b|)) == []
    ensures var b := EncodeAll(kids);
      var peer := EventScan(Walker(PeerEvent), Records(b), NO_INSTANCE, [Title(PEER_TITLE)]);
      peer.walk.status == Finished ==>
        Report(b, WalkFrom(b, 0, RemAfter(b, 0, |b|))) == Returned(0, peer.walk.out + [Title(MIP_TITLE)])
  {
    var b := EncodeAll(kids);
    WalkEncodeAll(b, 0, kids);
    WalkEnd(b, 0, 0);
  }

  /** With the reset, the MIP walk visits every attribute of a well-formed
      block, so each MIP event that prints shows up in the output. */
  lemma FixedVisitsMip(kids: seq<Attr>)
    requires AllFit(kids)
    ensures var b := EncodeAll(kids); Report(b, Records(b)) == Report(b, Flat(kids))
  {
    var b := EncodeAll(kids);
    WalkEncodeAll(b, 0, kids);
  }

  /** With the reset, a well-formed block whose MIP events all print gets,
      after the MIP title, every one of those events grouped by instance in
      arrival order (where as written it gets the title alone). */
  lemma FixedPrintsMip(kids: seq<Attr>)
    requires AllFit(kids)
    requires Readable(EventDecoder(MipEvent), Reported(EventTag(MipEvent), EventDecoder(MipEvent), Flat(kids)))
    ensures var b := EncodeAll(kids);
      var peer := EventScan(Walker(PeerEvent), Records(b), NO_INSTANCE, [Title(PEER_TITLE)]);
      var rs := Readings(EventDecoder(MipEvent), Reported(EventTag(MipEvent), EventDecoder(MipEvent), Flat(kids)));
      peer.walk.status == Finished ==>
        Report(b, Records(b)) == Returned(0, peer.walk.out + [Title(MIP_TITLE)] + Grouped(NO_INSTANCE, rs))
  {
    var b := EncodeAll(kids);
    var peer := EventScan(Walker(PeerEvent), Records(b), NO_INSTANCE, [Title(PEER_TITLE)]);
    if peer.walk.status == Finished {
      var tag, decode := EventTag(MipEvent), EventDecoder(MipEvent);
      var out := peer.walk.out + [Title(MIP_TITLE)];
      var m := Reported(tag, decode, Flat(kids));
      FixedVisitsMip(kids);
      ReportedOnly(tag, decode, Flat(kids), NO_INSTANCE, out);
      ScanGrouped(tag, decode, m, NO_INSTANCE, out);
    }
  }
}
