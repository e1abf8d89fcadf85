/**
 * cfm_print_config and cfm_print_status of offload.c: the filters a reply
 * passes before its CFM block is read, and the RTA_OK/RTA_NEXT walks over
 * that block that print one record per matching info attribute.
 *
 * `Scan` is the reference reading of one walk over the records of the
 * block; `WalkInfos` is the loop with its cursor and `rem`, proved to
 * compute it.  `ScanFilter` and `ScanSpec` say what a walk prints: one line
 * per matching record, in order, up to the first record that lacks its
 * instance (the function then returns 0) or whose fields cannot be read.
 */
module Printers {
  import opened Rtattr
  import opened Abi
  import opened Fields
  import opened Message

  /** The three kinds of info attribute the printers walk for. */
  datatype Info = CreateInfo | ConfigInfo | StatusInfo

  /** The rta_type a walk keeps. */
  function Wanted(k: Info): U16
  {
    match k
    case CreateInfo => IFLA_BRIDGE_CFM_CREATE_INFO
    case ConfigInfo => IFLA_BRIDGE_CFM_CONFIG_INFO
    case StatusInfo => IFLA_BRIDGE_CFM_MEP_STATUS_INFO
  }

  /** The instance sub-attribute of each kind. */
  function InstanceTag(k: Info): U16
  {
    match k
    case CreateInfo => MEP_CREATE_INSTANCE
    case ConfigInfo => MEP_CONFIG_INSTANCE
    case StatusInfo => MEP_STATUS_INSTANCE
  }

  /** What the loop body does with a record of the wanted type: print a
      line, return from the function, or read a field it cannot. */
  datatype Step = Emit(line: Line) | Stop | Fault

  /** infotb[t] after parse_rtattr_nested over an info record's payload
      (no flag bits are cleared). */
  function Field(data: seq<Byte>, t: U16): Option<Rec>
  {
    Lookup(Records(data), t, false)
  }

  /** The line a record of kind k prints, read with its instance field. */
  function InfoLine(k: Info, names: U32 -> string, data: seq<Byte>): (l: Option<Line>)
    ensures l.Some? ==> (l.value.MepCreate? <==> k == CreateInfo) && (l.value.MepConfig? <==> k == ConfigInfo)
                        && (l.value.MepStatus? <==> k == StatusInfo)
    ensures l.Some? ==> l.value.MepCreate? || l.value.MepConfig? || l.value.MepStatus?
    ensures l.Some? ==> Some(l.value.instance) == U32Of(Field(data, InstanceTag(k)))
  {
    var inst := U32Of(Field(data, InstanceTag(k)));
    match k
    case CreateInfo => CreateLine(names, data, inst)
    case ConfigInfo => ConfigLine(data, inst)
    case StatusInfo => StatusLine(data, inst)
  }

  /** The body of the loop for a record of the wanted type: without an
      instance the function returns; otherwise every field is read (a
      missing or short one is undefined, the instance included) and one
      record is printed. */
  function Decode(k: Info, names: U32 -> string, data: seq<Byte>): (st: Step)
    ensures st.Stop? <==> Field(data, InstanceTag(k)).None?
    ensures st.Fault? <==> Field(data, InstanceTag(k)).Some? && InfoLine(k, names, data).None?
    ensures st.Emit? ==> Some(st.line) == InfoLine(k, names, data)
    ensures st.Emit? ==> Some(st.line.instance) == U32Of(Field(data, InstanceTag(k)))
    ensures st.Emit? ==> (st.line.MepCreate? <==> k == CreateInfo) && (st.line.MepConfig? <==> k == ConfigInfo)
                         && (st.line.MepStatus? <==> k == StatusInfo)
  {
    if Field(data, InstanceTag(k)).None? then Stop
    else
      var line := InfoLine(k, names, data);
      if line.Some? then Emit(line.value) else Fault
  }

  /** The create record's lines: the instance, domain, direction and vid as
      u32, and the name of the interface whose index is in the last field.
      Each is read without checking that it is there. */
  function CreateLine(names: U32 -> string, data: seq<Byte>, inst: Option<U32>): (l: Option<Line>)
    ensures l.Some? <==> inst.Some? && U32Of(Field(data, MEP_CREATE_DOMAIN)).Some?
                         && U32Of(Field(data, MEP_CREATE_DIRECTION)).Some?
                         && U32Of(Field(data, MEP_CREATE_VID)).Some? && U32Of(Field(data, MEP_CREATE_IFINDEX)).Some?
    ensures l.Some? ==> l.value == MepCreate(inst.value, U32Of(Field(data, MEP_CREATE_DOMAIN)).value,
                                             U32Of(Field(data, MEP_CREATE_DIRECTION)).value,
                                             U32Of(Field(data, MEP_CREATE_VID)).value,
                                             names(U32Of(Field(data, MEP_CREATE_IFINDEX)).value))
  {
    var d, dir := U32Of(Field(data, MEP_CREATE_DOMAIN)), U32Of(Field(data, MEP_CREATE_DIRECTION));
    var vid, ix := U32Of(Field(data, MEP_CREATE_VID)), U32Of(Field(data, MEP_CREATE_IFINDEX));
    if inst.Some? && d.Some? && dir.Some? && vid.Some? && ix.Some? then
      Some(MepCreate(inst.value, d.value, dir.value, vid.value, names(ix.value)))
    else None
  }

  /** The config record's lines: the instance, the unicast MAC as text, the
      MD level and MEP id as u32 and the vid as u16. */
  function ConfigLine(data: seq<Byte>, inst: Option<U32>): (l: Option<Line>)
    ensures l.Some? <==> inst.Some? && MacOf(Field(data, MEP_CONFIG_UNICAST_MAC)).Some?
                         && U32Of(Field(data, MEP_CONFIG_MDLEVEL)).Some? && U32Of(Field(data, MEP_CONFIG_MEPID)).Some?
                         && U16Of(Field(data, MEP_CONFIG_VID)).Some?
    ensures l.Some? ==> l.value == MepConfig(inst.value, MacOf(Field(data, MEP_CONFIG_UNICAST_MAC)).value,
                                             U32Of(Field(data, MEP_CONFIG_MDLEVEL)).value,
                                             U32Of(Field(data, MEP_CONFIG_MEPID)).value,
                                             U16Of(Field(data, MEP_CONFIG_VID)).value)
  {
    var mac := MacOf(Field(data, MEP_CONFIG_UNICAST_MAC));
    var level, id := U32Of(Field(data, MEP_CONFIG_MDLEVEL)), U32Of(Field(data, MEP_CONFIG_MEPID));
    var vid := U16Of(Field(data, MEP_CONFIG_VID));
    if inst.Some? && mac.Some? && level.Some? && id.Some? && vid.Some? then
      Some(MepConfig(inst.value, mac.value, level.value, id.value, vid.value))
    else None
  }

  /** The status record's lines: the instance and the five counters, u32. */
  function StatusLine(data: seq<Byte>, inst: Option<U32>): (l: Option<Line>)
    ensures l.Some? <==> inst.Some? && U32Of(Field(data, MEP_STATUS_OPCODE_UNEXP_SEEN)).Some?
                         && U32Of(Field(data, MEP_STATUS_DMAC_UNEXP_SEEN)).Some?
                         && U32Of(Field(data, MEP_STATUS_TX_LEVEL_LOW_SEEN)).Some?
                         && U32Of(Field(data, MEP_STATUS_VERSION_UNEXP_SEEN)).Some?
                         && U32Of(Field(data, MEP_STATUS_RX_LEVEL_LOW_SEEN)).Some?
    ensures l.Some? ==> l.value == MepStatus(inst.value, U32Of(Field(data, MEP_STATUS_OPCODE_UNEXP_SEEN)).value,
                                             U32Of(Field(data, MEP_STATUS_DMAC_UNEXP_SEEN)).value,
                                             U32Of(Field(data, MEP_STATUS_TX_LEVEL_LOW_SEEN)).value,
                                             U32Of(Field(data, MEP_STATUS_VERSION_UNEXP_SEEN)).value,
                                             U32Of(Field(data, MEP_STATUS_RX_LEVEL_LOW_SEEN)).value)
  {
    var op, dmac := U32Of(Field(data, MEP_STATUS_OPCODE_UNEXP_SEEN)), U32Of(Field(data, MEP_STATUS_DMAC_UNEXP_SEEN));
    var tx, ver := U32Of(Field(data, MEP_STATUS_TX_LEVEL_LOW_SEEN)), U32Of(Field(data, MEP_STATUS_VERSION_UNEXP_SEEN));
    var rx := U32Of(Field(data, MEP_STATUS_RX_LEVEL_LOW_SEEN));
    if inst.Some? && op.Some? && dmac.Some? && tx.Some? && ver.Some? && rx.Some? then
      Some(MepStatus(inst.value, op.value, dmac.value, tx.value, ver.value, rx.value))
    else None
  }

  /** A create-info record as the bridge reports it: five u32 fields. */
  function CreateInfoFields(instance: U32, domain: U32, direction: U32, vid: U32, ifindex: U32): seq<Attr>
  {
    [Leaf(MEP_CREATE_INSTANCE, Le32(instance)), Leaf(MEP_CREATE_DOMAIN, Le32(domain)),
     Leaf(MEP_CREATE_DIRECTION, Le32(direction)), Leaf(MEP_CREATE_VID, Le32(vid)),
     Leaf(MEP_CREATE_IFINDEX, Le32(ifindex))]
  }

  /** Round trip: a create-info record prints exactly the values it holds. */
  lemma CreateInfoRoundTrip(names: U32 -> string, instance: U32, domain: U32, direction: U32, vid: U32, ifindex: U32)
    ensures Decode(CreateInfo, names, EncodeAll(CreateInfoFields(instance, domain, direction, vid, ifindex)))
         == Emit(MepCreate(instance, domain, direction, vid, names(ifindex)))
  {
    var kids := CreateInfoFields(instance, domain, direction, vid, ifindex);
    CreateReadsFirst(kids, instance, domain, direction, vid, ifindex);
    CreateReadsLast(kids, instance, domain, direction, vid, ifindex);
    CreateDecodes(names, EncodeAll(kids), instance, domain, direction, vid, ifindex);
  }

  lemma CreateReadsFirst(kids: seq<Attr>, instance: U32, domain: U32, direction: U32, vid: U32, ifindex: U32)
    requires kids == CreateInfoFields(instance, domain, direction, vid, ifindex)
    ensures U32Of(Field(EncodeAll(kids), MEP_CREATE_INSTANCE)) == Some(instance)
    ensures U32Of(Field(EncodeAll(kids), MEP_CREATE_DOMAIN)) == Some(domain)
  {
    assert AllFit(kids);
    U32Encoded(kids, 0, false, instance);
    U32Encoded(kids, 1, false, domain);
  }

  lemma CreateReadsLast(kids: seq<Attr>, instance: U32, domain: U32, direction: U32, vid: U32, ifindex: U32)
    requires kids == CreateInfoFields(instance, domain, direction, vid, ifindex)
    ensures U32Of(Field(EncodeAll(kids), MEP_CREATE_DIRECTION)) == Some(direction)
    ensures U32Of(Field(EncodeAll(kids), MEP_CREATE_VID)) == Some(vid)
    ensures U32Of(Field(EncodeAll(kids), MEP_CREATE_IFINDEX)) == Some(ifindex)
  {
    assert AllFit(kids);
    U32Encoded(kids, 2, false, direction);
    U32Encoded(kids, 3, false, vid);
    U32Encoded(kids, 4, false, ifindex);
  }

  lemma CreateDecodes(names: U32 -> string, data: seq<Byte>, instance: U32, domain: U32, direction: U32, vid: U32, ifindex: U32)
    requires U32Of(Field(data, MEP_CREATE_INSTANCE)) == Some(instance)
    requires U32Of(Field(data, MEP_CREATE_DOMAIN)) == Some(domain)
    requires U32Of(Field(data, MEP_CREATE_DIRECTION)) == Some(direction)
    requires U32Of(Field(data, MEP_CREATE_VID)) == Some(vid)
    requires U32Of(Field(data, MEP_CREATE_IFINDEX)) == Some(ifindex)
    ensures Decode(CreateInfo, names, data) == Emit(MepCreate(instance, domain, direction, vid, names(ifindex)))
  {
  }

  /** A config-info record: the instance, the six-octet unicast MAC, the MD
      level and MEP id (u32) and the vid (u16). */
  function ConfigInfoFields(instance: U32, mac: seq<Byte>, level: U32, mepId: U32, vid: U16): seq<Attr>
  {
    [Leaf(MEP_CONFIG_INSTANCE, Le32(instance)), Leaf(MEP_CONFIG_UNICAST_MAC, mac),
     Leaf(MEP_CONFIG_MDLEVEL, Le32(level)), Leaf(MEP_CONFIG_MEPID, Le32(mepId)),
     Leaf(MEP_CONFIG_VID, Le16(vid))]
  }

  /** Round trip: a config-info record prints its values, the MAC as text. */
  lemma ConfigInfoRoundTrip(names: U32 -> string, instance: U32, mac: seq<Byte>, level: U32, mepId: U32, vid: U16)
    requires |mac| == 6
    ensures Decode(ConfigInfo, names, EncodeAll(ConfigInfoFields(instance, mac, level, mepId, vid)))
         == Emit(MepConfig(instance, MacText(mac), level, mepId, vid))
  {
    var kids := ConfigInfoFields(instance, mac, level, mepId, vid);
    ConfigReadsFirst(kids, instance, mac, level, mepId, vid);
    ConfigReadsLast(kids, instance, mac, level, mepId, vid);
    ConfigDecodes(names, EncodeAll(kids), instance, mac, level, mepId, vid);
  }

  lemma ConfigReadsFirst(kids: seq<Attr>, instance: U32, mac: seq<Byte>, level: U32, mepId: U32, vid: U16)
    requires |mac| == 6 && kids == ConfigInfoFields(instance, mac, level, mepId, vid)
    ensures U32Of(Field(EncodeAll(kids), MEP_CONFIG_INSTANCE)) == Some(instance)
    ensures MacOf(Field(EncodeAll(kids), MEP_CONFIG_UNICAST_MAC)) == Some(MacText(mac))
  {
    assert AllFit(kids);
    U32Encoded(kids, 0, false, instance);
    MacEncoded(kids, 1, false, mac);
  }

  lemma ConfigReadsLast(kids: seq<Attr>, instance: U32, mac: seq<Byte>, level: U32, mepId: U32, vid: U16)
    requires |mac| == 6 && kids == ConfigInfoFields(instance, mac, level, mepId, vid)
    ensures U32Of(Field(EncodeAll(kids), MEP_CONFIG_MDLEVEL)) == Some(level)
    ensures U32Of(Field(EncodeAll(kids), MEP_CONFIG_MEPID)) == Some(mepId)
    ensures U16Of(Field(EncodeAll(kids), MEP_CONFIG_VID)) == Some(vid)
  {
    assert AllFit(kids);
    U32Encoded(kids, 2, false, level);
    U32Encoded(kids, 3, false, mepId);
    U16Encoded(kids, 4, false, vid);
  }

  lemma ConfigDecodes(names: U32 -> string, data: seq<Byte>, instance: U32, mac: seq<Byte>, level: U32, mepId: U32, vid: U16)
    requires |mac| == 6
    requires U32Of(Field(data, MEP_CONFIG_INSTANCE)) == Some(instance)
    requires MacOf(Field(data, MEP_CONFIG_UNICAST_MAC)) == Some(MacText(mac))
    requires U32Of(Field(data, MEP_CONFIG_MDLEVEL)) == Some(level)
    requires U32Of(Field(data, MEP_CONFIG_MEPID)) == Some(mepId)
    requires U16Of(Field(data, MEP_CONFIG_VID)) == Some(vid)
    ensures Decode(ConfigInfo, names, data) == Emit(MepConfig(instance, MacText(mac), level, mepId, vid))
  {
  }

  /** A status-info record: the instance and the five counters, u32. */
  function StatusInfoFields(instance: U32, opcode: U32, dmac: U32, txLow: U32, version: U32, rxLow: U32): seq<Attr>
  {
    [Leaf(MEP_STATUS_INSTANCE, Le32(instance)), Leaf(MEP_STATUS_OPCODE_UNEXP_SEEN, Le32(opcode)),
     Leaf(MEP_STATUS_DMAC_UNEXP_SEEN, Le32(dmac)), Leaf(MEP_STATUS_TX_LEVEL_LOW_SEEN, Le32(txLow)),
     Leaf(MEP_STATUS_VERSION_UNEXP_SEEN, Le32(version)), Leaf(MEP_STATUS_RX_LEVEL_LOW_SEEN, Le32(rxLow))]
  }

  /** Round trip: a status-info record prints exactly its counters. */
  lemma StatusInfoRoundTrip(names: U32 -> string, instance: U32, opcode: U32, dmac: U32, txLow: U32, version: U32, rxLow: U32)
    ensures Decode(StatusInfo, names, EncodeAll(StatusInfoFields(instance, opcode, dmac, txLow, version, rxLow)))
         == Emit(MepStatus(instance, opcode, dmac, txLow, version, rxLow))
  {
    var kids := StatusInfoFields(instance, opcode, dmac, txLow, version, rxLow);
    StatusReadsFirst(kids, instance, opcode, dmac, txLow, version, rxLow);
    StatusReadsLast(kids, instance, opcode, dmac, txLow, version, rxLow);
    StatusDecodes(names, EncodeAll(kids), instance, opcode, dmac, txLow, version, rxLow);
  }

  lemma StatusReadsFirst(kids: seq<Attr>, instance: U32, opcode: U32, dmac: U32, txLow: U32, version: U32, rxLow: U32)
    requires kids == StatusInfoFields(instance, opcode, dmac, txLow, version, rxLow)
    ensures U32Of(Field(EncodeAll(kids), MEP_STATUS_INSTANCE)) == Some(instance)
    ensures U32Of(Field(EncodeAll(kids), MEP_STATUS_OPCODE_UNEXP_SEEN)) == Some(opcode)
    ensures U32Of(Field(EncodeAll(kids), MEP_STATUS_DMAC_UNEXP_SEEN)) == Some(dmac)
  {
    assert AllFit(kids);
    U32Encoded(kids, 0, false, instance);
    U32Encoded(kids, 1, false, opcode);
    U32Encoded(kids, 2, false, dmac);
  }

  lemma StatusReadsLast(kids: seq<Attr>, instance: U32, opcode: U32, dmac: U32, txLow: U32, version: U32, rxLow: U32)
    requires kids == StatusInfoFields(instance, opcode, dmac, txLow, version, rxLow)
    ensures U32Of(Field(EncodeAll(kids), MEP_STATUS_TX_LEVEL_LOW_SEEN)) == Some(txLow)
    ensures U32Of(Field(EncodeAll(kids), MEP_STATUS_VERSION_UNEXP_SEEN)) == Some(version)
    ensures U32Of(Field(EncodeAll(kids), MEP_STATUS_RX_LEVEL_LOW_SEEN)) == Some(rxLow)
  {
    assert AllFit(kids);
    U32Encoded(kids, 3, false, txLow);
    U32Encoded(kids, 4, false, version);
    U32Encoded(kids, 5, false, rxLow);
  }

  lemma StatusDecodes(names: U32 -> string, data: seq<Byte>, instance: U32, opcode: U32, dmac: U32, txLow: U32, version: U32, rxLow: U32)
    requires U32Of(Field(data, MEP_STATUS_INSTANCE)) == Some(instance)
    requires U32Of(Field(data, MEP_STATUS_OPCODE_UNEXP_SEEN)) == Some(opcode)
    requires U32Of(Field(data, MEP_STATUS_DMAC_UNEXP_SEEN)) == Some(dmac)
    requires U32Of(Field(data, MEP_STATUS_TX_LEVEL_LOW_SEEN)) == Some(txLow)
    requires U32Of(Field(data, MEP_STATUS_VERSION_UNEXP_SEEN)) == Some(version)
    requires U32Of(Field(data, MEP_STATUS_RX_LEVEL_LOW_SEEN)) == Some(rxLow)
    ensures Decode(StatusInfo, names, data) == Emit(MepStatus(instance, opcode, dmac, txLow, version, rxLow))
  {
  }

  /** The presence defect: a create-info record that holds its instance but
      not its other fields makes the loop read through a missing attribute. */
  lemma CreateInstanceOnlyFaults(names: U32 -> string, instance: U32)
    ensures Decode(CreateInfo, names, EncodeAll([Leaf(MEP_CREATE_INSTANCE, Le32(instance))])).Fault?
  {
    var kids := [Leaf(MEP_CREATE_INSTANCE, Le32(instance))];
    assert AllFit(kids);
    U32Encoded(kids, 0, false, instance);
    WalkAll(kids);
    FlatAt(kids, 0);
    assert Field(EncodeAll(kids), MEP_CREATE_DOMAIN).None?;
  }

  /** The loop body of the walk for kind k, as a value the walk applies. */
  function Decoder(k: Info, names: U32 -> string): seq<Byte> -> Step
  {
    data => Decode(k, names, data)
  }

  /** The loop body on one record, after the lines printed so far: a
      record of another type is skipped (`continue`); otherwise its line
      is printed, or the function returns, or a read is undefined.  A
      Finished result goes on to the next record. */
  function Visit(wanted: U16, decode: seq<Byte> -> Step, r: Rec, out: seq<Line>): Walk
  {
    if r.tag != wanted then Walk(Finished, out)
    else
      match decode(r.data)
      case Emit(line) => Walk(Finished, out + [line])
      case Stop => Walk(Quit, out)
      case Fault => Walk(Crashed, out)
  }

  /** Reference reading of one walk over the records, printing after `out`. */
  function Scan(wanted: U16, decode: seq<Byte> -> Step, recs: seq<Rec>, out: seq<Line>): Walk
  {
    if recs == [] then Walk(Finished, out)
    else
      var v := Visit(wanted, decode, recs[0], out);
      if v.status != Finished then v else Scan(wanted, decode, recs[1..], v.out)
  }

  /** One step of the walk. */
  lemma ScanStep(wanted: U16, decode: seq<Byte> -> Step, r: Rec, rest: seq<Rec>, out: seq<Line>)
    ensures var v := Visit(wanted, decode, r, out);
      Scan(wanted, decode, [r] + rest, out) == if v.status != Finished then v else Scan(wanted, decode, rest, v.out)
  {
    assert ([r] + rest)[0] == r && ([r] + rest)[1..] == rest;
  }

  /** One iteration of the loop over the bytes: the walk from the record
      at offset i is the loop body on that record, then the walk from the
      next one. */
  lemma ScanAdvance(wanted: U16, decode: seq<Byte> -> Step, s: seq<Byte>, i: nat, rem: int, align: nat -> nat, out: seq<Line>)
    requires rem >= 0 ==> i + rem <= |s|
    requires Rounding(align) && RtaOk(s, i, rem)
    ensures var len := ReadLe16(s, i);
      var v := Visit(wanted, decode, Rec(ReadLe16(s, i + 2), s[i + RTA_HDRLEN .. i + len]), out);
      Scan(wanted, decode, WalkBy(s, i, rem, align), out)
        == if v.status != Finished then v else Scan(wanted, decode, WalkBy(s, i + align(len), rem - align(len), align), v.out)
  {
    var len := ReadLe16(s, i);
    StepBy(s, i, rem, align);
    ScanStep(wanted, decode, Rec(ReadLe16(s, i + 2), s[i + RTA_HDRLEN .. i + len]), WalkBy(s, i + align(len), rem - align(len), align), out);
  }

  /** The records of the wanted type, in order. */
  function Matching(wanted: U16, recs: seq<Rec>): (m: seq<Rec>)
    ensures |m| <= |recs|
    ensures forall j | 0 <= j < |m| :: m[j].tag == wanted && m[j] in recs
  {
    if recs == [] then []
    else if recs[0].tag == wanted then [recs[0]] + Matching(wanted, recs[1..])
    else Matching(wanted, recs[1..])
  }

  /** Skipping: a walk prints what it would print over the matching records
      alone. */
  lemma {:induction false} ScanFilter(wanted: U16, decode: seq<Byte> -> Step, recs: seq<Rec>, out: seq<Line>)
    ensures Scan(wanted, decode, recs, out) == Scan(wanted, decode, Matching(wanted, recs), out)
  {
    if recs != [] {
      var m := Matching(wanted, recs[1..]);
      if recs[0].tag == wanted {
        assert Matching(wanted, recs) == [recs[0]] + m;
        assert ([recs[0]] + m)[1..] == m;
        match decode(recs[0].data)
        case Emit(line) => ScanFilter(wanted, decode, recs[1..], out + [line]);
        case Stop =>
        case Fault =>
      } else {
        ScanFilter(wanted, decode, recs[1..], out);
      }
    }
  }

  /** How many leading records print a line. */
  function Printed(decode: seq<Byte> -> Step, m: seq<Rec>): (e: nat)
    ensures e <= |m|
    ensures forall j | 0 <= j < e :: decode(m[j].data).Emit?
    ensures e < |m| ==> !decode(m[e].data).Emit?
  {
    if m == [] || !decode(m[0].data).Emit? then 0
    else 1 + Printed(decode, m[1..])
  }

  /** The lines printed for records that all decode. */
  function Lines(decode: seq<Byte> -> Step, m: seq<Rec>): (ls: seq<Line>)
    requires forall j | 0 <= j < |m| :: decode(m[j].data).Emit?
    ensures |ls| == |m|
    ensures forall j | 0 <= j < |m| :: ls[j] == decode(m[j].data).line
  {
    if m == [] then [] else [decode(m[0].data).line] + Lines(decode, m[1..])
  }

  /** How a walk over matching records ends, given how many print. */
  function Halt(decode: seq<Byte> -> Step, m: seq<Rec>, e: nat): Status
    requires e <= |m|
  {
    if e == |m| then Finished
    else if decode(m[e].data).Stop? then Quit
    else Crashed
  }

  /** A record that prints adds its line in front of what the rest print. */
  lemma PrintedStep(decode: seq<Byte> -> Step, m: seq<Rec>)
    requires m != [] && decode(m[0].data).Emit?
    ensures Printed(decode, m) == 1 + Printed(decode, m[1..])
    ensures Lines(decode, m[..Printed(decode, m)])
            == [decode(m[0].data).line] + Lines(decode, m[1..][..Printed(decode, m[1..])])
    ensures Halt(decode, m, Printed(decode, m)) == Halt(decode, m[1..], Printed(decode, m[1..]))
  {
    var e := Printed(decode, m);
    assert m[..e][1..] == m[1..][..e - 1];
  }

  /** What a walk over matching records prints: the line of each record
      up to the first that returns from the function or has a field that
      cannot be read, or all of them. */
  lemma {:induction false} ScanSpec(wanted: U16, decode: seq<Byte> -> Step, m: seq<Rec>, out: seq<Line>)
    requires forall j | 0 <= j < |m| :: m[j].tag == wanted
    ensures var e := Printed(decode, m);
      Scan(wanted, decode, m, out) == Walk(Halt(decode, m, e), out + Lines(decode, m[..e]))
  {
    if m == [] {
      assert m[..0] == [];
    } else if decode(m[0].data).Emit? {
      var line := decode(m[0].data).line;
      ScanSpec(wanted, decode, m[1..], out + [line]);
      PrintedStep(decode, m);
      assert out + [line] + Lines(decode, m[1..][..Printed(decode, m[1..])])
          == out + ([line] + Lines(decode, m[1..][..Printed(decode, m[1..])]));
    } else {
      assert m[..0] == [];
    }
  }

  /** The same walk read directly off the bytes, one RTA_OK test and one
      RTA_NEXT step at a time, as the loop performs it. */
  function ScanBytes(wanted: U16, decode: seq<Byte> -> Step, s: seq<Byte>, i: nat, rem: int, align: nat -> nat, out: seq<Line>): Walk
    requires rem >= 0 ==> i + rem <= |s|
    requires Rounding(align)
    decreases rem + 4
  {
    if !RtaOk(s, i, rem) then Walk(Finished, out)
    else
      var len := ReadLe16(s, i);
      var v := Visit(wanted, decode, Rec(ReadLe16(s, i + 2), s[i + RTA_HDRLEN .. i + len]), out);
      if v.status != Finished then v
      else ScanBytes(wanted, decode, s, i + align(len), rem - align(len), align, v.out)
  }

  /** Walking the bytes is folding the loop body over the records the
      walk visits. */
  lemma {:induction false} ScanBytesWalk(wanted: U16, decode: seq<Byte> -> Step, s: seq<Byte>, i: nat, rem: int, align: nat -> nat, out: seq<Line>)
    requires rem >= 0 ==> i + rem <= |s|
    requires Rounding(align)
    ensures ScanBytes(wanted, decode, s, i, rem, align, out) == Scan(wanted, decode, WalkBy(s, i, rem, align), out)
    decreases rem + 4
  {
    if RtaOk(s, i, rem) {
      var len := ReadLe16(s, i);
      ScanAdvance(wanted, decode, s, i, rem, align, out);
      var v := Visit(wanted, decode, Rec(ReadLe16(s, i + 2), s[i + RTA_HDRLEN .. i + len]), out);
      if v.status == Finished {
        ScanBytesWalk(wanted, decode, s, i + align(len), rem - align(len), align, v.out);
      }
    } else {
      EndBy(s, i, rem, align);
    }
  }

  /** The walk of cfm_print_config/cfm_print_status over a CFM block: a
      cursor and a decreasing `rem`, RTA_OK to continue, RTA_NEXT to step
      by align(rta_len), the loop body on each record.  The printers pass
      RTA_ALIGN. */
  method WalkInfos(s: seq<Byte>, wanted: U16, decode: seq<Byte> -> Step, align: nat -> nat, out0: seq<Line>)
    returns (w: Walk)
    requires Rounding(align)
    ensures w == ScanBytes(wanted, decode, s, 0, |s|, align, out0)
  {
    var i: nat, rem: int := 0, |s|;
    var out := out0;
    while rem >= RTA_HDRLEN && RTA_HDRLEN <= ReadLe16(s, i) <= rem
      invariant rem >= 0 ==> i + rem <= |s|
      invariant ScanBytes(wanted, decode, s, i, rem, align, out) == ScanBytes(wanted, decode, s, 0, |s|, align, out0)
      decreases rem + 4
    {
      var len := ReadLe16(s, i);
      var v := Visit(wanted, decode, Rec(ReadLe16(s, i + 2), s[i + RTA_HDRLEN .. i + len]), out);
      if v.status != Finished {
        return v;
      }
      out := v.out;
      i, rem := i + align(len), rem - align(len);
    }
    return Walk(Finished, out);
  }

  /** tb[IFLA_AF_SPEC] after parse_rtattr_flags(..., NLA_F_NESTED) over the
      link attributes. */
  function AfSpec(m: Msg): (r: Option<Rec>)
    requires Delivered(m) && m.nlmsgLen >= HEADER_ONLY_LEN
  {
    Lookup(Records(LinkAttrs(m)), IFLA_AF_SPEC, true)
  }

  /** The CFM block a reply's walks run over, if it passes the filters: long
      enough, AF_BRIDGE, with IFLA_AF_SPEC, whose payload (parsed without
      clearing flags) holds IFLA_BRIDGE_CFM. */
  function CfmBlock(m: Msg): (b: Option<seq<Byte>>)
    requires Delivered(m)
    ensures b.Some? ==> m.nlmsgLen >= HEADER_ONLY_LEN && m.ifiFamily == AF_BRIDGE && AfSpec(m).Some?
    ensures b.Some? ==> var recs := Records(AfSpec(m).value.data);
              exists k | 0 <= k < |recs| :: recs[k] == Rec(IFLA_BRIDGE_CFM, b.value)
                && forall j | 0 <= j < k :: recs[j].tag != IFLA_BRIDGE_CFM
    ensures (m.nlmsgLen >= HEADER_ONLY_LEN && m.ifiFamily == AF_BRIDGE && AfSpec(m).Some?
             && exists r | r in Records(AfSpec(m).value.data) :: r.tag == IFLA_BRIDGE_CFM) ==> b.Some?
  {
    if m.nlmsgLen < HEADER_ONLY_LEN || m.ifiFamily != AF_BRIDGE then None
    else
      var af := AfSpec(m);
      if af.None? then None
      else
        var cfm := Lookup(Records(af.value.data), IFLA_BRIDGE_CFM, false);
        if cfm.None? then None
        else
          LookupIsFirst(Records(af.value.data), IFLA_BRIDGE_CFM, false);
          Some(cfm.value.data)
  }

  const CREATE_TITLE: string := "CFM MEP create:"
  const CONFIG_TITLE: string := "CFM MEP config:"
  const STATUS_TITLE: string := "CFM MEP status:"

  /** cfm_print_config: -1 for a message shorter than its headers, 0 with
      nothing printed when a filter fails; otherwise the create walk over
      the whole block, then (unless it ended the function) the config walk
      over the whole block again. */
  method PrintConfig(m: Msg, names: U32 -> string) returns (o: Outcome)
    requires Delivered(m)
    ensures m.nlmsgLen < HEADER_ONLY_LEN ==> o == Returned(-1, [])
    ensures m.nlmsgLen >= HEADER_ONLY_LEN && CfmBlock(m).None? ==> o == Returned(0, [])
    ensures CfmBlock(m).Some? ==>
      var b := CfmBlock(m).value;
      var w1 := Scan(Wanted(CreateInfo), Decoder(CreateInfo, names), Records(b), [Title(CREATE_TITLE)]);
      if w1.status == Finished then
        o == Finish(Scan(Wanted(ConfigInfo), Decoder(ConfigInfo, names), Records(b), w1.out + [Title(CONFIG_TITLE)]))
      else
        o == Finish(w1)
  {
    if m.nlmsgLen < HEADER_ONLY_LEN {
      return Returned(-1, []);
    }
    var block := CfmBlock(m);
    if block.None? {
      return Returned(0, []);
    }
    AlignRounding();
    ScanBytesWalk(Wanted(CreateInfo), Decoder(CreateInfo, names), block.value, 0, |block.value|, Align4, [Title(CREATE_TITLE)]);
    var w := WalkInfos(block.value, Wanted(CreateInfo), Decoder(CreateInfo, names), Align4, [Title(CREATE_TITLE)]);
    if w.status != Finished {
      return Finish(w);
    }
    ScanBytesWalk(Wanted(ConfigInfo), Decoder(ConfigInfo, names), block.value, 0, |block.value|, Align4, w.out + [Title(CONFIG_TITLE)]);
    w := WalkInfos(block.value, Wanted(ConfigInfo), Decoder(ConfigInfo, names), Align4, w.out + [Title(CONFIG_TITLE)]);
    return Finish(w);
  }

  /** cfm_print_status: the same filters, then the status walk. */
  method PrintStatus(m: Msg, names: U32 -> string) returns (o: Outcome)
    requires Delivered(m)
    ensures m.nlmsgLen < HEADER_ONLY_LEN ==> o == Returned(-1, [])
    ensures m.nlmsgLen >= HEADER_ONLY_LEN && CfmBlock(m).None? ==> o == Returned(0, [])
    ensures CfmBlock(m).Some? ==>
      o == Finish(Scan(Wanted(StatusInfo), Decoder(StatusInfo, names), Records(CfmBlock(m).value), [Title(STATUS_TITLE)]))
  {
    if m.nlmsgLen < HEADER_ONLY_LEN {
      return Returned(-1, []);
    }
    var block := CfmBlock(m);
    if block.None? {
      return Returned(0, []);
    }
    AlignRounding();
    ScanBytesWalk(Wanted(StatusInfo), Decoder(StatusInfo, names), block.value, 0, |block.value|, Align4, [Title(STATUS_TITLE)]);
    var w := WalkInfos(block.value, Wanted(StatusInfo), Decoder(StatusInfo, names), Align4, [Title(STATUS_TITLE)]);
    return Finish(w);
  }
}
