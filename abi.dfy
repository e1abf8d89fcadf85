/**
 * Numeric constants of the rtnetlink bridge interface.
 *
 * The netlink, link and bridge constants are those of the Linux UAPI
 * headers (<linux/netlink.h>, <linux/rtnetlink.h>, <linux/if_link.h>,
 * <linux/if_bridge.h>).  The CFM attribute enumerations come from the
 * bridge driver's CFM netlink header, which is not part of this model:
 * their values below are placeholders.  No proof depends on them beyond
 * their being distinct where they share a tag space and below NLA_F_NESTED.
 */
module Abi {
  import opened Rtattr

  // struct nlmsghdr and struct ifinfomsg
  const NLMSG_HDRLEN: nat := 16
  const IFINFOMSG_LEN: nat := 16
  /** NLMSG_LENGTH(sizeof(struct ifinfomsg)): the header-only message length. */
  const HEADER_ONLY_LEN: nat := 32
  /** Offset of ifi_family in a message. */
  const IFI_FAMILY_OFFSET: nat := 16

  const NLM_F_REQUEST: U16 := 1
  const NLMSG_DONE: U16 := 3
  const RTM_NEWLINK: U16 := 16
  const RTM_SETLINK: U16 := 19
  /** AF_BRIDGE, also spelt PF_BRIDGE. */
  const AF_BRIDGE: Byte := 7

  // link attributes (IFLA_*)
  const IFLA_IFNAME: U16 := 3
  const IFLA_AF_SPEC: U16 := 26

  // bridge attributes inside IFLA_AF_SPEC (IFLA_BRIDGE_*)
  const IFLA_BRIDGE_FLAGS: U16 := 0
  const IFLA_BRIDGE_CFM: U16 := 5
  const BRIDGE_FLAGS_SELF: U16 := 2

  // attributes inside IFLA_BRIDGE_CFM
  const IFLA_BRIDGE_CFM_MEP_CREATE: U16 := 1
  const IFLA_BRIDGE_CFM_MEP_DELETE: U16 := 2
  const IFLA_BRIDGE_CFM_CREATE_INFO: U16 := 9
  const IFLA_BRIDGE_CFM_CONFIG_INFO: U16 := 10
  const IFLA_BRIDGE_CFM_MEP_STATUS_INFO: U16 := 15
  const IFLA_BRIDGE_CFM_CC_PEER_EVENT_INFO: U16 := 17
  const IFLA_BRIDGE_CFM_MIP_EVENT_INFO: U16 := 18

  // inside IFLA_BRIDGE_CFM_MEP_CREATE and IFLA_BRIDGE_CFM_CREATE_INFO
  const MEP_CREATE_INSTANCE: U16 := 1
  const MEP_CREATE_DOMAIN: U16 := 2
  const MEP_CREATE_DIRECTION: U16 := 3
  const MEP_CREATE_VID: U16 := 4
  const MEP_CREATE_IFINDEX: U16 := 5

  // inside IFLA_BRIDGE_CFM_MEP_DELETE
  const MEP_DELETE_INSTANCE: U16 := 1

  // inside IFLA_BRIDGE_CFM_CONFIG_INFO
  const MEP_CONFIG_INSTANCE: U16 := 1
  const MEP_CONFIG_UNICAST_MAC: U16 := 2
  const MEP_CONFIG_MDLEVEL: U16 := 3
  const MEP_CONFIG_MEPID: U16 := 4
  const MEP_CONFIG_VID: U16 := 5

  // inside IFLA_BRIDGE_CFM_MEP_STATUS_INFO
  const MEP_STATUS_INSTANCE: U16 := 1
  const MEP_STATUS_OPCODE_UNEXP_SEEN: U16 := 2
  const MEP_STATUS_DMAC_UNEXP_SEEN: U16 := 3
  const MEP_STATUS_TX_LEVEL_LOW_SEEN: U16 := 4
  const MEP_STATUS_VERSION_UNEXP_SEEN: U16 := 5
  const MEP_STATUS_RX_LEVEL_LOW_SEEN: U16 := 6

  // inside IFLA_BRIDGE_CFM_CC_PEER_EVENT_INFO
  const CC_PEER_EVENT_INSTANCE: U16 := 1
  const CC_PEER_EVENT_PEER_MEPID: U16 := 2
  const CC_PEER_EVENT_CCM_DEFECT: U16 := 3

  // inside IFLA_BRIDGE_CFM_MIP_EVENT_INFO
  const MIP_EVENT_INSTANCE: U16 := 1
  const MIP_EVENT_RAPS_REQUEST_SUBCODE: U16 := 2
  const MIP_EVENT_RAPS_STATUS: U16 := 3
  const MIP_EVENT_RAPS_NODE_ID: U16 := 4
}
