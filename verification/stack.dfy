/** The parts of the TCP/IP stack that the MIB-II objects read: network
    interfaces, protocol control blocks, the statistics block and the
    conversions between IPv4 addresses and object identifiers.

    These live outside the MIB-II object file. They appear here as plain
    values handed to the entries that read them; the lookups that produce them
    (`snmp_ifindextonetif`, `etharp_find_addr`, `STATS_GET`) are not part of
    this model. */
module Stack {
  import opened MibTypes

  /** The `mib2_counters` block of a `struct netif`. */
  datatype IfCounters = IfCounters(
    inOctets: u32, inUcastPkts: u32, inNUcastPkts: u32, inDiscards: u32,
    inErrors: u32, inUnknownProtos: u32, outOctets: u32, outUcastPkts: u32,
    outNUcastPkts: u32, outDiscards: u32, outErrors: u32)

  /** The fields of a `struct netif` that the interfaces and ip groups read. */
  datatype Netif = Netif(
    name: seq<u8>, hwaddr: seq<u8>, hwaddrLen: u8, mtu: u16, linkType: u8,
    linkSpeed: u32, up: bool, linkUp: bool, ts: u32, counters: IfCounters,
    ip: Ip4, netmask: Ip4, gw: Ip4)

  /** `ip_addr_t`: an IPv4 or an IPv6 address; equality is `ip_addr_cmp`. */
  datatype IpAddr = V4(v4: Ip4) | V6(v6: seq<u32>)

  /** The binding of a `struct udp_pcb`. */
  datatype UdpPcb = UdpPcb(localIp: IpAddr, localPort: u16)

  datatype TcpState =
    | Closed | Listen | SynSent | SynRcvd | Established | FinWait1 | FinWait2
    | CloseWait | Closing | LastAck | TimeWait

  /** A `struct tcp_pcb` on the active list, reduced to its state. */
  datatype TcpPcb = TcpPcb(state: TcpState)

  /** An entry `etharp_find_addr` returns: hardware and protocol address. */
  datatype ArpEntry = ArpEntry(ethAddr: seq<u8>, ipAddr: Ip4)

  /** The `mib2` counters of the lwIP statistics block read by `STATS_GET`. */
  datatype Stat =
    // ip group
    | IpInReceives | IpInHdrErrors | IpInAddrErrors | IpForwDatagrams
    | IpInUnknownProtos | IpInDiscards | IpInDelivers | IpOutRequests
    | IpOutDiscards | IpOutNoRoutes | IpReasmReqds | IpReasmOks | IpReasmFails
    | IpFragOks | IpFragFails | IpFragCreates | IpRoutingDiscards
    // icmp group
    | IcmpInMsgs | IcmpInErrors | IcmpInDestUnreachs | IcmpInTimeExcds
    | IcmpInParmProbs | IcmpInSrcQuenchs | IcmpInRedirects | IcmpInEchos
    | IcmpInEchoReps | IcmpInTimestamps | IcmpInTimestampReps | IcmpInAddrMasks
    | IcmpInAddrMaskReps | IcmpOutMsgs | IcmpOutErrors | IcmpOutDestUnreachs
    | IcmpOutTimeExcds | IcmpOutParmProbs | IcmpOutSrcQuenchs | IcmpOutRedirects
    | IcmpOutEchos | IcmpOutEchoReps | IcmpOutTimestamps | IcmpOutTimestampReps
    | IcmpOutAddrMasks | IcmpOutAddrMaskReps
    // tcp group
    | TcpActiveOpens | TcpPassiveOpens | TcpAttemptFails | TcpEstabResets
    | TcpInSegs | TcpOutSegs | TcpRetransSegs | TcpInErrs | TcpOutRsts
    // udp group
    | UdpInDatagrams | UdpNoPorts | UdpInErrors | UdpOutDatagrams

  /** A snapshot of the statistics block. */
  type Stats = Stat -> u32

  /** Stand-in for `snmp_netiftoifindex`: the interface at position `k` of
      `netif_list` has ifIndex `k + 1`, the position counted in a `u16_t`. */
  function IfIndexOf(k: nat): (ifIndex: s32)
    ensures k < 0xffff ==> ifIndex == k + 1
    ensures 1 <= ifIndex <= 0x1_0000
  {
    ToU16(k) + 1
  }

  /** `ip4_addr_netcmp`: `x` and `y` are on the same network under `mask`. */
  predicate NetCmp(x: Ip4, y: Ip4, mask: Ip4)
  {
    x.Network(mask) == y.Network(mask)
  }

  /** Stand-in for `snmp_iptooid`: the four octets as sub-identifiers. */
  function IpToOid(ip: Ip4): (ids: seq<s32>)
    ensures |ids| == 4
    ensures ids[0] == ip.a && ids[1] == ip.b && ids[2] == ip.c && ids[3] == ip.d
  {
    [ip.a, ip.b, ip.c, ip.d]
  }

  /** Stand-in for `snmp_oidtoip`: the low octet of four sub-identifiers. */
  function OidToIp(ids: seq<s32>): (ip: Ip4)
    requires |ids| >= 4
    ensures forall k :: 0 <= k < 4 ==> 0 <= ids[k] < 0x100 ==> IpToOid(ip)[k] == ids[k]
  {
    Ip4(ToU8(ids[0]), ToU8(ids[1]), ToU8(ids[2]), ToU8(ids[3]))
  }

  /** Reading back the sub-identifiers written for an address gives the address. */
  lemma OidToIpOfIpToOid(ip: Ip4)
    ensures OidToIp(IpToOid(ip)) == ip
  {
  }
}
