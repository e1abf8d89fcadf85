# CFM rtnetlink core

The CFM tool configures Connectivity Fault Management (IEEE 802.1ag) maintenance
end points (MEPs) in the Linux bridge driver, and reads their state back, over
rtnetlink. This project models the part of the tool that works on rtnetlink
attributes (rtattr type-length-value records):

- The request builder of `offload.c`. `cfm_nl_bridge_prepare` fills the netlink
  and ifinfomsg headers. It opens the `IFLA_AF_SPEC` nest, adds the
  `BRIDGE_FLAGS_SELF` flag, and opens the `IFLA_BRIDGE_CFM` and per-operation
  nests. `cfm_offload_create` and `cfm_offload_delete` append their u32/u16
  fields. `cfm_nl_terminate` closes the three nests innermost first and hands
  the message to the transport.
- The reply decoders `cfm_print_config` and `cfm_print_status` of `offload.c`.
  Each applies a chain of early returns, then walks the CFM block with
  `RTA_OK`/`RTA_NEXT` and prints one record per matching info attribute.
- The event decoder `netlink_listen` of `cfm_server.c`. It has its own filters,
  then a CC peer-event walk that groups records under "Instance" headers, then
  a MIP R-APS walk. That walk splits the request/sub-code octet into its two
  nibbles (ITU-T G.8032, clause 10.3).
- `rta_getattr_mac`, present in both files: six payload octets printed as
  `XX-XX-XX-XX-XX-XX` in uppercase hexadecimal.

The wire format follows the Linux rtnetlink attribute layout. Each attribute
has a 16-bit length that counts its 4-byte header, a 16-bit type in which
`NLA_F_NESTED` (0x8000) is a flag, and a payload padded to a multiple of 4
bytes. The netlink message header is the one of RFC 3549, section 2.3.2.

Modules:

- `Rtattr` (`rtattr.dfy`) covers the byte layout.
  - `Attr` trees are encoded by `Encode`.
  - The `RTA_OK`/`RTA_NEXT` walk is given as a function of the cursor and of
    `rem`. It is generic in the rounding function, so the proofs about the
    walk do not unfold `Align4`.
  - `Lookup` models the `tb[]` table that `parse_rtattr_*` fills.
  - The main lemma is the round trip "walking an encoding gives back its
    records and leaves `rem` at 0".
- `Abi` (`abi.dfy`) holds the constants.
- `Fields` (`fields.dfy`) covers the typed reads `rta_getattr_u16/u32/mac`,
  the printed records (`Line`) and the R-APS nibble split.
- `Message` (`message.dfy`) covers a received message and how a walk ends.
- `Request` (`request.dfy`) is the builder.
  - The request is a class over a fixed 1024-byte buffer, with `nlmsgLen` and
    the header fields as mutable fields.
  - A ghost sequence `bytes` mirrors the attribute area.
  - Each libnetlink helper the builder calls gets a method contract over those
    bytes: append an encoded attribute, or patch a nest's length.
  - The lemmas show that prepare, the fields and terminate produce exactly the
    encoding of the bridge attribute tree, and that the tree walks back to
    what was put in.
- `Printers` (`printers.dfy`) models `cfm_print_config` and
  `cfm_print_status`. The walk loop (`WalkInfos`) is proved to compute the
  reference fold `Scan`, and lemmas characterise what `Scan` prints.
- `Listen` (`listen.dfy`) models `netlink_listen`.
  - The walk loop (`EventLoop`) keeps `rem` as a mutable variable and hands
    it back.
  - `NetlinkListen` feeds the peer walk's final `rem` into the MIP walk, as
    the code does.
  - The lemmas characterise the instance grouping and the R-APS split, and
    state what the unreset `rem` does to the MIP walk (see Findings).

Printed output is a sequence of `Line` records, one per `printf` group. A
decoder ends in an `Outcome`:

- `Returned(code, out)` for a `return`;
- `Undefined(out)` when the code reads a field that is missing or shorter than
  its type. In C this is a NULL dereference or an over-read.

## Model

| member | source | states |
|---|---|---|
| Rtattr.Align4 | offload.c:120 | The `RTA_NEXT` rounding gives the least multiple of 4 that is at least the declared length. |
| Rtattr.Le16Read | offload.c:48 | A u16 stored in host (little-endian) order reads back as the value modulo 2^16. |
| Rtattr.Le32Read | offload.c:235-236 | A u32 stored in host order reads back as the value modulo 2^32. |
| Rtattr.EncodeShape | offload.c:235-244 | An encoded attribute is its aligned length long. It starts with its declared length and its type, then holds its payload. |
| Rtattr.EncodeHeader | offload.c:235-244 | The header of an encoded attribute reads back as its declared length and its type. |
| Rtattr.EncodeAllLength | offload.c:235-244 | A run of attributes is as long as the sum of their aligned lengths, a multiple of 4. |
| Rtattr.NestLength | offload.c:61-63 | A closed nest's length field is 4 plus the sum of its children's aligned lengths, and so is its size. |
| Rtattr.EncodeAllSnoc | offload.c:235-244 | Appending one attribute appends its encoding to the run. |
| Rtattr.Masked | cfm_server.c:94 | With `NLA_F_NESTED` stripping, the type is below the flag. A type without the flag is unchanged, and a type with it loses exactly `NLA_F_NESTED`. Without stripping, the type is unchanged. |
| Rtattr.WithNested | offload.c:50-53 | `t \| NLA_F_NESTED` carries the flag and strips back to what `t` strips to. |
| Rtattr.Lookup | cfm_server.c:94 | A table entry is present iff some record's (masked) type is `t`. The entry is one of the records, of that type. |
| Rtattr.LookupIsFirst | cfm_server.c:94 | The entry found is the first record whose masked type is `t`: every record before it has another type. |
| Rtattr.LookupFirst | cfm_server.c:94 | Conversely, the first record whose masked type is `t` is the entry found. |
| Rtattr.WalkEnd | cfm_server.c:132 | When `RTA_OK` fails at the cursor, the walk visits nothing and leaves `rem` as it is. |
| Rtattr.WalkEncodeAll | offload.c:120 | Walking an encoded run of attributes with `RTA_OK`/`RTA_NEXT` gives back their records in order and leaves `rem` at 0. |
| Rtattr.WalkEncoded | cfm_server.c:113 | The walk over an encoded run inside a larger buffer visits exactly its records. |
| Rtattr.RemEncoded | cfm_server.c:113 | After walking an encoded run, `rem` is 0. |
| Rtattr.WalkAll | offload.c:120 | Walking the encoding of a run of attributes gives back their records. |
| Rtattr.FlatAt | offload.c:120 | The j-th record of an encoded run is the j-th attribute's type and payload. |
| Rtattr.LookupEncoded | offload.c:124 | Parsing an encoded run files each attribute under its (masked) type, with its payload, unless an earlier attribute has the same masked type. |
| Fields.U32Of | offload.c:128 | `rta_getattr_u32` is defined iff the attribute is present with at least 4 payload bytes. |
| Fields.U16Of | offload.c:152 | `rta_getattr_u16` is defined iff the attribute is present with at least 2 payload bytes. |
| Fields.U32OfBytes | offload.c:128 | The u32 read is the value whose host-order bytes lead the payload. |
| Fields.U32OfLe32 | offload.c:235-236 | A payload written by `addattr32` reads back as the value written. |
| Fields.U16OfBytes | offload.c:152 | The u16 read is the value whose host-order bytes lead the payload. |
| Fields.U16OfLe16 | offload.c:241-242 | A payload written by `addattr16` reads back as the value written. |
| Fields.U32Encoded | offload.c:128 | An attribute written with a u32 payload, and found by the parse, reads back as that u32. |
| Fields.U16Encoded | offload.c:152 | The same for a u16 payload. |
| Fields.MacEncoded | offload.c:149 | An attribute holding six octets, and found by the parse, prints as the MAC text of those octets. |
| Fields.HexDigit | offload.c:80 | A `%X` digit is an uppercase hexadecimal character. |
| Fields.HexPairRoundTrip | offload.c:80 | A `%02X` pair parses back to its octet. |
| Fields.GroupsShape | offload.c:80 | The printed groups are 3n-1 characters: uppercase hex digits, with `-` at every third position. |
| Fields.GroupsRoundTrip | offload.c:80 | Parsing the printed groups gives back the octets. |
| Fields.MacText | offload.c:74-83 | The MAC text is 17 characters. |
| Fields.MacRoundTrip | offload.c:74-83 | The MAC text parses back to the first six payload octets. |
| Fields.MacOf | cfm_server.c:55-64 | `rta_getattr_mac` is defined iff the attribute is present with at least 6 payload bytes, and then gives 17 characters. |
| Fields.MacOfRoundTrip | cfm_server.c:55-64 | The node-id text parses back to the attribute's first six octets. |
| Fields.RapsSplit | cfm_server.c:144-145 | Request and sub-code are both below 16, and `request*16 + sub_code` is the low octet of the field. |
| Message.LinkAttrsRecords | cfm_server.c:82-94 | When `nlmsg_len` covers exactly an encoded run after the ifinfomsg header, the message is delivered, and walking its link attributes gives back that run's records in order, whatever bytes trail them. |
| Request.Patch | offload.c:61-63 | Closing a nest writes `tail - offset` into its length field and changes no other byte. |
| Request.CloseNest | offload.c:61-63 | Closing a nest opened before a run of children gives the encoding of the nest over those children. |
| Request.NestBytes | offload.c:47-53 | A nest is encoded as its length (4 plus its children's bytes), its type, then its children. |
| Request.FlagsAttrReadsSelf | offload.c:48 | The flags attribute reads back, under `IFLA_BRIDGE_FLAGS`, as the u16 `BRIDGE_FLAGS_SELF`. |
| Request.PrepareBytes | offload.c:47-53 | Prepare lays down 20 attribute bytes: the AF_SPEC header, the flags attribute, and the CFM and operation headers. |
| Request.TerminateTree | offload.c:56-63 | After prepare and the fields, the three nest ends, innermost first, give exactly the encoding of the bridge tree: AF_SPEC around the flags and CFM, CFM around the operation, the operation around the fields. |
| Request.CloseSub | offload.c:61 | The first nest end closes the operation nest around the fields. |
| Request.CloseCfm | offload.c:62 | The second nest end closes the CFM nest around the operation nest, with length 8 plus the fields. |
| Request.CloseAfSpec | offload.c:63 | The third nest end closes AF_SPEC around the flags and the CFM nest. |
| Request.BridgeTreeWalk | offload.c:36-63 | Each level of the built tree walks back to what was put in it: AF_SPEC alone; then the SELF flag and the CFM nest; then the operation nest; then the fields in order. |
| Request.CreateBytes | offload.c:232-246 | Prepare, the five create fields in order and the three nest ends give the encoding of the MEP_CREATE tree. |
| Request.Request.constructor | offload.c:230 | A new request is all zeros. |
| Request.Request.AddAttrL | offload.c:235-244 | If the attribute fits in the request, it is appended (aligned) and `nlmsg_len` grows by its aligned size. Otherwise -1 is returned and nothing changes. The header fields are kept. |
| Request.Request.AddAttr16 | offload.c:48 | As above for a u16 payload: 8 bytes appended. |
| Request.Request.AddAttr32 | offload.c:235-240 | As above for a u32 payload: 8 bytes appended. |
| Request.Request.NestStart | offload.c:47 | A nest header of length 4 is appended, and its offset (the old tail) is returned. |
| Request.Request.NestEnd | offload.c:61-63 | The nest's length becomes `tail - offset`. No other byte and no header field changes. |
| Request.Request.Prepare | offload.c:36-54 | Sets type = cmd, flags = `NLM_F_REQUEST`, family = `AF_BRIDGE`, index = ifindex. Returns the nest offsets 0, 12 and 16. The bytes are AF_SPEC open, the SELF flag, CFM open and operation open, in that order. |
| Request.Request.Terminate | offload.c:56-72 | Closes the operation, CFM and AF_SPEC nests in that order. Returns the transport's error unchanged. |
| Request.OffloadCreate | offload.c:227-247 | The request is `RTM_SETLINK` to the bridge, and its attributes are exactly the encoding of AF_SPEC{flags, CFM{MEP_CREATE{instance, domain, direction, vid u16, ifindex}}}. The transport's result is returned. |
| Request.OffloadDelete | offload.c:249-261 | The same for AF_SPEC{flags, CFM{MEP_DELETE{instance}}}. |
| Printers.InfoLine | offload.c:128-133 | The line of a record of kind k is of that kind, and it carries the value of the instance field. |
| Printers.Decode | offload.c:124-133 | A wanted record returns from the function iff it has no instance. It is undefined iff it has an instance but some field of its kind cannot be read. Otherwise it prints its kind's line, which carries that instance. |
| Printers.CreateLine | offload.c:128-132 | The create line exists iff the instance, domain, direction, vid and ifindex all read as u32. It holds exactly those values, with the ifindex passed through the name lookup. |
| Printers.ConfigLine | offload.c:148-152 | The config line exists iff the instance, md level and MEP id read as u32, the MAC as text and the vid as u16. It holds exactly those values. |
| Printers.StatusLine | offload.c:200-205 | The status line exists iff the instance and the five counters all read as u32. It holds exactly those values. |
| Printers.CreateDecodes | offload.c:124-133 | When the five create fields read as given values, the record prints exactly those values. |
| Printers.ConfigDecodes | offload.c:144-153 | The same for the five config fields. |
| Printers.StatusDecodes | offload.c:196-205 | The same for the six status fields. |
| Printers.CreateInfoRoundTrip | offload.c:124-133 | A create-info record encoded from five u32 values prints exactly those values, with the ifindex passed through the name lookup. |
| Printers.ConfigInfoRoundTrip | offload.c:144-153 | A config-info record encoded from an instance, a six-octet MAC, level, MEP id and a u16 vid prints those values, with the MAC as its text. |
| Printers.StatusInfoRoundTrip | offload.c:196-205 | A status-info record encoded from the instance and five counters prints exactly those values. |
| Printers.CreateInstanceOnlyFaults | offload.c:125-129 | A create-info record holding only its instance passes the presence check, then reads a missing field: the outcome is undefined. |
| Printers.Matching | offload.c:121-122 | The records a walk keeps all have the wanted type and come from the block. |
| Printers.ScanFilter | offload.c:121-122 | Records of other types leave the walk's result unchanged (`continue`). |
| Printers.Printed | offload.c:125-126 | The records printed are the longest prefix whose lines can all be produced. |
| Printers.Lines | offload.c:128-133 | One line per printed record, in order. |
| Printers.ScanSpec | offload.c:120-134 | A walk over wanted records prints the lines of the longest printable prefix. It then stops as the next record dictates: return 0, undefined read, or end of block. |
| Printers.ScanBytesWalk | offload.c:120 | The byte-level `RTA_OK`/`RTA_NEXT` walk equals the fold over the records the walk visits. |
| Printers.WalkInfos | offload.c:120-134 | The loop with its cursor and decreasing `rem` computes the byte-level walk. |
| Printers.CfmBlock | offload.c:98-114 | The CFM block exists iff the message is long enough, the family is `AF_BRIDGE`, and AF_SPEC is present and holds an `IFLA_BRIDGE_CFM` record. The block is the payload of the first such record. |
| Printers.PrintConfig | offload.c:85-157 | Returns -1 with nothing printed if too short, 0 with nothing printed if a filter fails. Otherwise prints the create walk over the whole block and then, unless that walk ended the function, the config walk over the whole block again. |
| Printers.PrintStatus | offload.c:159-210 | The same filters, then the status walk over the block. |
| Listen.PeerLine | cfm_server.c:125-126 | The peer line exists iff peer MEP id and CCM defect can both be read, and it holds those two values. |
| Listen.RapsLine | cfm_server.c:144-150 | The R-APS line exists iff the request/sub-code and status read as u32 and the node id reads as a MAC. Its status and node id are those values. |
| Listen.RapsLineFields | cfm_server.c:144-150 | The R-APS line's nibbles recombine to the low octet of the request/sub-code field. Its status is the status field, and its node id parses back to the node-id octets. |
| Listen.DecodeEvent | cfm_server.c:117-126 | An event with no instance is skipped, one whose instance cannot be read is undefined, and otherwise it carries that instance and its kind's line. |
| Listen.EventBytesWalk | cfm_server.c:113 | The byte-level walk's result is the fold over the records `RTA_OK`/`RTA_NEXT` visits. |
| Listen.EventBytesRem | cfm_server.c:113 | When the walk runs to the end, its final `rem` is the one `RTA_NEXT` leaves. |
| Listen.EventLoop | cfm_server.c:113-128 | The loop with its cursor, `rem` and grouping variable computes the byte-level walk, starting from instance 0xFFFFFFFF. It returns the final `rem`. |
| Listen.Reported | cfm_server.c:114-119 | The records a walk reports have the event type and an instance, and come from the block. |
| Listen.ReportedOnly | cfm_server.c:114-119 | Records of other types, and events without an instance, leave the walk's result unchanged. |
| Listen.Readings | cfm_server.c:121-126 | One (instance, line) reading per reported record, in order. |
| Listen.ScanGrouped | cfm_server.c:113-128 | A walk over readable events prints them in arrival order, each preceded by an "Instance" header when its instance differs from the previous one. |
| Listen.GroupedParts | cfm_server.c:121-127 | Without the headers, the output is the events' lines in order. The headers alone are the instance changes in the sequence of instances, starting from the sentinel. |
| Listen.ChangesRuns | cfm_server.c:121-124 | Adjacent headers differ, the first differs from the starting instance, and each names an instance that occurs. |
| Listen.ChangesOneRun | cfm_server.c:112 | A run of one instance gets a single header, or none when it equals the previous instance (so a first instance of 0xFFFFFFFF gets none). |
| Listen.EventBlock | cfm_server.c:101-106 | The CFM block exists iff AF_SPEC is present and holds a record whose type strips to `IFLA_BRIDGE_CFM`. The block is the payload of the first such record. |
| Listen.Screen | cfm_server.c:79-106 | Returns 0 for `NLMSG_DONE`, -1 if too short, 0 for another family or type, -1 with "No IFLA_IFNAME" if the name is missing, and 0 without AF_SPEC or CFM. Otherwise the walks run. |
| Listen.PeerWalk | cfm_server.c:108-128 | The peer walk prints its title and the grouped peer events, and hands back the `rem` `RTA_NEXT` left. |
| Listen.MipWalk | cfm_server.c:130-152 | The MIP walk prints its title and the grouped R-APS events of the records reached from the `rem` it is given. |
| Listen.NetlinkListen | cfm_server.c:66-155 | As written: the filters, the peer walk, then the MIP walk started with the `rem` the peer walk left. |
| Listen.StaleRemSkipsMip | cfm_server.c:131-132 | For any well-formed block, the stale `rem` makes the MIP walk visit nothing, and the output ends with the MIP title. |
| Listen.NetlinkListenFixed | cfm_server.c:66-155 | With `rem` reset before the MIP walk, both walks cover the whole block. |
| Listen.FixedVisitsMip | cfm_server.c:131-132 | With the reset, the MIP walk visits exactly the block's records. |
| Listen.FixedPrintsMip | cfm_server.c:130-152 | With the reset, after a peer walk that ends normally, a well-formed block whose MIP events all print yields the MIP title followed by every MIP event, grouped by instance in arrival order. |

## Left out

- Sockets, the libev watcher, signal handling and `main` (`main.c`, the rest of `cfm_server.c`) are I/O plumbing.
- `cfm_offload_init`/`uninit` and the dump requests (`rtnl_linkdump_req_filter`, `rtnl_dump_filter`) are also I/O plumbing. The printers are modelled as callbacks on one message.
- `rtnl_talk` is a parameter `talk`: the error code the transport returns.
- `if_indextoname` is a function parameter `names` of the printers.
- The libnetlink helpers are not part of this model. `addattr_l`, `addattr16/32`, `addattr_nest` and `addattr_nest_end` are given contracts over the bytes. `parse_rtattr_flags` and `parse_rtattr_nested` are the pure `Lookup` over the walked records: the first record of each type wins, and `NLA_F_NESTED` is stripped only by the `_flags` form.
- `fprintf(stderr, ...)` and the `printf` in `cfm_nl_terminate` go to diagnostics and are not part of the printed `Line`s.
- The stray `printf("1")` at offload.c:194 and the DMAC counter printed as "Opcode unexp seen" at offload.c:202 are cosmetic. A status line carries the instance and the five counters, without labels.
- Printers.Decode: a record whose fields are not all readable is undefined as a whole. The lines printed before the first unreadable field of that record are not modelled.
- Listen.DecodeEvent: the same holds for an event. The "Instance" header printed before an unreadable field is kept, but the peer-MEP or R-APS lines are not split.
- The u16/u32 reads assume a little-endian host.
- The values of the CFM attribute enumerations are placeholders, because the driver's CFM netlink header is not part of this model. The netlink, link and bridge constants are Linux's own.
- `offload.h`, the unused `mrp_rings` list and the domain, direction and interval enumerations of `include/uapi/linux/cfm_bridge.h` carry no behaviour.
- The walk lemmas are stated for any rounding that never shrinks a length (`Rounding`). The printers and the listener instantiate them with `Align4`.
- The request header fields that prepare leaves at zero (`nlmsg_seq`, `nlmsg_pid`, `ifi_type`, `ifi_flags`, `ifi_change`, offload.c:40-44) are not fields of the model's request.
- The create-info reply's vid is read as a u32 (offload.c:131), while the create request sends it as a u16 (offload.c:241). The reply's layout is the bridge driver's, which is not part of this model, so `CreateInfoFields` takes the u32 reading the printer makes.

## Findings

| source | as written | input that shows it | evidently intended | confidence | as-written member | corrected member |
|---|---|---|---|---|---|---|
| cfm_server.c:131-132 | The MIP loop starts from `rem` as the peer loop left it. After a well-formed block that is 0, so `RTA_OK` fails at once. | Any CFM block of well-formed attributes, e.g. one `IFLA_BRIDGE_CFM_MIP_EVENT_INFO` nest holding instance, request/sub-code, status and node id: only "EVENT CFM MIP RAPS info:" is printed for it. | `rem = RTA_PAYLOAD(list)` before the second loop, as `cfm_print_config` does at offload.c:137, so that the MIP events are printed. | not executed | Listen.StaleRemSkipsMip | Listen.FixedPrintsMip |
