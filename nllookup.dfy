/** The code-to-name lookups of the netlink debugging helpers (nlutils.c).
    Each is a `switch` returning a fixed name per listed code and "unknown"
    otherwise. The kernel's numeric values of the codes come from the Linux
    headers, which are not part of this model, so each lookup takes the codes
    of its case labels as a parameter, in case-label order; the address family
    lookups use the Linux address family numbers. */
module NlLookup {
  import opened Types

  /** The name returned for a value none of the case labels match. */
  const UNKNOWN: string := "unknown"

  /** Case labels of one switch: C refuses two labels with the same value. */
  predicate Distinct(codes: seq<nat>) {
    forall i, j :: 0 <= i < j < |codes| ==> codes[i] != codes[j]
  }

  /** A switch over the codes, returning the name beside the first matching
      label and "unknown" when none matches. */
  function Lookup(codes: seq<nat>, names: seq<string>, c: nat): (r: string)
    requires |codes| == |names|
    ensures c !in codes ==> r == UNKNOWN
    ensures c in codes ==> r in names
    ensures forall k :: 0 <= k < |codes| && codes[k] == c && c !in codes[..k] ==> r == names[k]
    ensures UNKNOWN !in names ==> (r == UNKNOWN <==> c !in codes)
  {
    if |codes| == 0 then UNKNOWN
    else if codes[0] == c then names[0]
    else
      assert forall k :: 1 <= k < |codes| ==> codes[1..][..k - 1] == codes[..k][1..];
      Lookup(codes[1..], names[1..], c)
  }

  /** With distinct labels, a listed code maps to its own name, and "unknown"
      comes back exactly for the values no label lists when no name is "unknown". */
  lemma LookupSwitch(codes: seq<nat>, names: seq<string>, c: nat)
    requires |codes| == |names| && Distinct(codes)
    ensures forall k :: 0 <= k < |codes| && codes[k] == c ==> Lookup(codes, names, c) == names[k]
    ensures UNKNOWN !in names ==> (Lookup(codes, names, c) == UNKNOWN <==> c !in codes)
  {
    forall k | 0 <= k < |codes| && codes[k] == c
      ensures c !in codes[..k]
    {
      assert forall j :: 0 <= j < k ==> codes[..k][j] == codes[j];
    }
  }

  const NLMSG_TYPES: seq<string> :=
    ["NLMSG_NOOP", "NLMSG_ERROR", "NLMSG_DONE", "NLMSG_OVERRUN", "RTM_NEWLINK", "RTM_DELLINK",
     "RTM_GETLINK", "RTM_SETLINK", "RTM_NEWADDR", "RTM_DELADDR", "RTM_GETADDR", "RTM_NEWROUTE",
     "RTM_DELROUTE", "RTM_GETROUTE"]

  /** `nlmsg_type2str`: the netlink control and rtnetlink message types. */
  function NlmsgType2Str(codes: seq<nat>, msgType: nat): (r: string)
    requires |codes| == |NLMSG_TYPES| && Distinct(codes)
    ensures forall k :: 0 <= k < |codes| && codes[k] == msgType ==> r == NLMSG_TYPES[k]
    ensures r == UNKNOWN <==> msgType !in codes
  {
    assert forall k :: 0 <= k < |NLMSG_TYPES| ==> NLMSG_TYPES[k][0] != UNKNOWN[0];
    LookupSwitch(codes, NLMSG_TYPES, msgType);
    Lookup(codes, NLMSG_TYPES, msgType)
  }

  const RT_TABLES: seq<string> :=
    ["RT_TABLE_UNSPEC", "RT_TABLE_COMPAT", "RT_TABLE_DEFAULT", "RT_TABLE_MAIN", "RT_TABLE_LOCAL"]

  /** `rtm_table2str`: the reserved routing table ids. */
  function RtmTable2Str(codes: seq<nat>, table: nat): (r: string)
    requires |codes| == |RT_TABLES| && Distinct(codes)
    ensures forall k :: 0 <= k < |codes| && codes[k] == table ==> r == RT_TABLES[k]
    ensures r == UNKNOWN <==> table !in codes
  {
    assert forall k :: 0 <= k < |RT_TABLES| ==> RT_TABLES[k][0] != UNKNOWN[0];
    LookupSwitch(codes, RT_TABLES, table);
    Lookup(codes, RT_TABLES, table)
  }

  const RT_PROTOCOLS: seq<string> :=
    ["RTPROT_UNSPEC", "RTPROT_REDIRECT", "RTPROT_KERNEL", "RTPROT_BOOT", "RTPROT_STATIC",
     "RTPROT_GATED", "RTPROT_RA", "RTPROT_MRT", "RTPROT_ZEBRA", "RTPROT_BIRD",
     "RTPROT_DNROUTED", "RTPROT_XORP", "RTPROT_NTK", "RTPROT_DHCP", "RTPROT_MROUTED",
     "RTPROT_BABEL"]

  /** `rtm_protocol2str`: the route origin protocols. */
  function RtmProtocol2Str(codes: seq<nat>, protocol: nat): (r: string)
    requires |codes| == |RT_PROTOCOLS| && Distinct(codes)
    ensures forall k :: 0 <= k < |codes| && codes[k] == protocol ==> r == RT_PROTOCOLS[k]
    ensures r == UNKNOWN <==> protocol !in codes
  {
    assert forall k :: 0 <= k < |RT_PROTOCOLS| ==> RT_PROTOCOLS[k][0] != UNKNOWN[0];
    LookupSwitch(codes, RT_PROTOCOLS, protocol);
    Lookup(codes, RT_PROTOCOLS, protocol)
  }

  const RT_SCOPES: seq<string> :=
    ["RT_SCOPE_UNIVERSE", "RT_SCOPE_SITE", "RT_SCOPE_LINK", "RT_SCOPE_HOST", "RT_SCOPE_NOWHERE"]

  /** `rtm_scope2str`: the route and address scopes. */
  function RtmScope2Str(codes: seq<nat>, scope: nat): (r: string)
    requires |codes| == |RT_SCOPES| && Distinct(codes)
    ensures forall k :: 0 <= k < |codes| && codes[k] == scope ==> r == RT_SCOPES[k]
    ensures r == UNKNOWN <==> scope !in codes
  {
    assert forall k :: 0 <= k < |RT_SCOPES| ==> RT_SCOPES[k][0] != UNKNOWN[0];
    LookupSwitch(codes, RT_SCOPES, scope);
    Lookup(codes, RT_SCOPES, scope)
  }

  const RT_TYPES: seq<string> :=
    ["RTN_UNSPEC", "RTN_UNICAST", "RTN_LOCAL", "RTN_BROADCAST", "RTN_ANYCAST", "RTN_MULTICAST",
     "RTN_BLACKHOLE", "RTN_UNREACHABLE", "RTN_PROHIBIT", "RTN_THROW", "RTN_NAT", "RTN_XRESOLVE"]

  /** `rtm_type2str`: the route types. */
  function RtmType2Str(codes: seq<nat>, rtmType: nat): (r: string)
    requires |codes| == |RT_TYPES| && Distinct(codes)
    ensures forall k :: 0 <= k < |codes| && codes[k] == rtmType ==> r == RT_TYPES[k]
    ensures r == UNKNOWN <==> rtmType !in codes
  {
    assert forall k :: 0 <= k < |RT_TYPES| ==> RT_TYPES[k][0] != UNKNOWN[0];
    LookupSwitch(codes, RT_TYPES, rtmType);
    Lookup(codes, RT_TYPES, rtmType)
  }

  const RTA_TYPES: seq<string> :=
    ["RTA_UNSPEC", "RTA_DST", "RTA_SRC", "RTA_IIF", "RTA_OIF", "RTA_GATEWAY", "RTA_PRIORITY",
     "RTA_PREFSRC", "RTA_METRICS", "RTA_MULTIPATH", "RTA_PROTOINFO", "RTA_FLOW",
     "RTA_CACHEINFO", "RTA_SESSION", "RTA_MP_ALGO", "RTA_TABLE", "RTA_MARK", "RTA_MFC_STATS",
     "RTA_VIA", "RTA_NEWDST", "RTA_PREF", "RTA_ENCAP_TYPE", "RTA_ENCAP", "RTA_EXPIRES",
     "RTA_PAD", "RTA_UID"]

  /** `rtm_rta_type2str`: the route attribute types. */
  function RtmRtaType2Str(codes: seq<nat>, rtaType: nat): (r: string)
    requires |codes| == |RTA_TYPES| && Distinct(codes)
    ensures forall k :: 0 <= k < |codes| && codes[k] == rtaType ==> r == RTA_TYPES[k]
    ensures r == UNKNOWN <==> rtaType !in codes
  {
    assert forall k :: 0 <= k < |RTA_TYPES| ==> RTA_TYPES[k][0] != UNKNOWN[0];
    LookupSwitch(codes, RTA_TYPES, rtaType);
    Lookup(codes, RTA_TYPES, rtaType)
  }

  const ROUTER_PREFS: seq<string> :=
    ["ICMPV6_ROUTER_PREF_LOW", "ICMPV6_ROUTER_PREF_MEDIUM", "ICMPV6_ROUTER_PREF_HIGH",
     "ICMPV6_ROUTER_PREF_INVALID"]

  /** `rta_pref2str`: the IPv6 router preferences. */
  function RtaPref2Str(codes: seq<nat>, pref: nat): (r: string)
    requires |codes| == |ROUTER_PREFS| && Distinct(codes)
    ensures forall k :: 0 <= k < |codes| && codes[k] == pref ==> r == ROUTER_PREFS[k]
    ensures r == UNKNOWN <==> pref !in codes
  {
    assert forall k :: 0 <= k < |ROUTER_PREFS| ==> ROUTER_PREFS[k][0] != UNKNOWN[0];
    LookupSwitch(codes, ROUTER_PREFS, pref);
    Lookup(codes, ROUTER_PREFS, pref)
  }

  const IFLA_TYPES: seq<string> :=
    ["IFLA_UNSPEC", "IFLA_ADDRESS", "IFLA_BROADCAST", "IFLA_IFNAME", "IFLA_MTU", "IFLA_LINK",
     "IFLA_QDISC", "IFLA_STATS", "IFLA_COST", "IFLA_PRIORITY", "IFLA_MASTER", "IFLA_WIRELESS",
     "IFLA_PROTINFO", "IFLA_TXQLEN", "IFLA_MAP", "IFLA_WEIGHT", "IFLA_OPERSTATE",
     "IFLA_LINKMODE", "IFLA_LINKINFO", "IFLA_NET_NS_PID", "IFLA_IFALIAS", "IFLA_NUM_VF",
     "IFLA_VFINFO_LIST", "IFLA_STATS64", "IFLA_VF_PORTS", "IFLA_PORT_SELF", "IFLA_AF_SPEC",
     "IFLA_GROUP", "IFLA_NET_NS_FD", "IFLA_EXT_MASK", "IFLA_PROMISCUITY", "IFLA_NUM_TX_QUEUES",
     "IFLA_NUM_RX_QUEUES", "IFLA_CARRIER", "IFLA_PHYS_PORT_ID", "IFLA_CARRIER_CHANGES",
     "IFLA_PHYS_SWITCH_ID", "IFLA_LINK_NETNSID", "IFLA_PHYS_PORT_NAME", "IFLA_PROTO_DOWN",
     "IFLA_GSO_MAX_SEGS", "IFLA_GSO_MAX_SIZE", "IFLA_PAD", "IFLA_XDP"]

  /** `ifla_rta_type2str`: the link attribute types. */
  function IflaRtaType2Str(codes: seq<nat>, rtaType: nat): (r: string)
    requires |codes| == |IFLA_TYPES| && Distinct(codes)
    ensures forall k :: 0 <= k < |codes| && codes[k] == rtaType ==> r == IFLA_TYPES[k]
    ensures r == UNKNOWN <==> rtaType !in codes
  {
    assert forall k :: 0 <= k < |IFLA_TYPES| ==> IFLA_TYPES[k][0] != UNKNOWN[0];
    LookupSwitch(codes, IFLA_TYPES, rtaType);
    Lookup(codes, IFLA_TYPES, rtaType)
  }

  const IFA_TYPES: seq<string> :=
    ["IFA_UNSPEC", "IFA_ADDRESS", "IFA_LOCAL", "IFA_LABEL", "IFA_BROADCAST", "IFA_ANYCAST",
     "IFA_CACHEINFO", "IFA_MULTICAST", "IFA_FLAGS"]

  /** `ifa_rta_type2str`: the address attribute types. */
  function IfaRtaType2Str(codes: seq<nat>, rtaType: nat): (r: string)
    requires |codes| == |IFA_TYPES| && Distinct(codes)
    ensures forall k :: 0 <= k < |codes| && codes[k] == rtaType ==> r == IFA_TYPES[k]
    ensures r == UNKNOWN <==> rtaType !in codes
  {
    assert forall k :: 0 <= k < |IFA_TYPES| ==> IFA_TYPES[k][0] != UNKNOWN[0];
    LookupSwitch(codes, IFA_TYPES, rtaType);
    Lookup(codes, IFA_TYPES, rtaType)
  }

  const NL_FAMILIES: seq<string> := ["AF_NETLINK"]

  /** `nl_family2str`: the netlink socket family. */
  function NlFamily2Str(family: nat): (r: string)
    ensures forall k :: 0 <= k < |[AF_NETLINK]| && [AF_NETLINK][k] == family ==> r == NL_FAMILIES[k]
    ensures r == UNKNOWN <==> family !in [AF_NETLINK]
  {
    assert forall k :: 0 <= k < |NL_FAMILIES| ==> NL_FAMILIES[k][0] != UNKNOWN[0];
    LookupSwitch([AF_NETLINK], NL_FAMILIES, family);
    Lookup([AF_NETLINK], NL_FAMILIES, family)
  }

  const RTM_FAMILIES: seq<string> := ["AF_INET", "AF_INET6"]

  /** `rtm_family2str`: the route message families. */
  function RtmFamily2Str(family: nat): (r: string)
    ensures forall k :: 0 <= k < |[AF_INET, AF_INET6]| && [AF_INET, AF_INET6][k] == family ==> r == RTM_FAMILIES[k]
    ensures r == UNKNOWN <==> family !in [AF_INET, AF_INET6]
  {
    assert forall k :: 0 <= k < |RTM_FAMILIES| ==> RTM_FAMILIES[k][0] != UNKNOWN[0];
    LookupSwitch([AF_INET, AF_INET6], RTM_FAMILIES, family);
    Lookup([AF_INET, AF_INET6], RTM_FAMILIES, family)
  }

  const IFI_FAMILIES: seq<string> := ["AF_UNSPEC"]

  /** `ifi_family2str`: the link message family. */
  function IfiFamily2Str(family: nat): (r: string)
    ensures forall k :: 0 <= k < |[AF_UNSPEC]| && [AF_UNSPEC][k] == family ==> r == IFI_FAMILIES[k]
    ensures r == UNKNOWN <==> family !in [AF_UNSPEC]
  {
    assert forall k :: 0 <= k < |IFI_FAMILIES| ==> IFI_FAMILIES[k][0] != UNKNOWN[0];
    LookupSwitch([AF_UNSPEC], IFI_FAMILIES, family);
    Lookup([AF_UNSPEC], IFI_FAMILIES, family)
  }

  const IFA_FAMILIES: seq<string> := ["AF_INET", "AF_INET6"]

  /** `ifa_family2str`: the address message families. */
  function IfaFamily2Str(family: nat): (r: string)
    ensures forall k :: 0 <= k < |[AF_INET, AF_INET6]| && [AF_INET, AF_INET6][k] == family ==> r == IFA_FAMILIES[k]
    ensures r == UNKNOWN <==> family !in [AF_INET, AF_INET6]
  {
    assert forall k :: 0 <= k < |IFA_FAMILIES| ==> IFA_FAMILIES[k][0] != UNKNOWN[0];
    LookupSwitch([AF_INET, AF_INET6], IFA_FAMILIES, family);
    Lookup([AF_INET, AF_INET6], IFA_FAMILIES, family)
  }
}
