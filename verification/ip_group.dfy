/** The MIB-II address translation and ip groups of RFC 1213: the ip
    scalars and the atTable, ipAddrTable, ipRouteTable and ipNetToMediaTable
    rows.

    Table rows are looked up in the stack's own structures: the ARP cache
    (`etharp_find_addr`, outside this model, so its answer is a parameter) and
    the list of network interfaces, which the entries here search with the
    loops of the source. */
module IpGroup {
  import opened MibTypes
  import opened Stack

  /** `IP_DEFAULT_TTL`. */
  const DefaultTtl: s32 := 255

  /** ipForwarding when `IP_FORWARD` is off: not-forwarding (2). */
  const Forwarding: s32 := 2

  /** ipRouteInfo: `zeroDotZero`, the object identifier 0.0. */
  const IpRouteInfo: SnmpObjId := SnmpObjId(2, [0, 0])

  /** The address 0.0.0.0. */
  const AnyAddr: Ip4 := Ip4(0, 0, 0, 0)

  // ---------------------------------------------------------------- ip scalars

  /** The statistics counter behind each Counter object of the ip group. */
  function IpStat(id: u8): Option<Stat>
  {
    match id
    case 3 => Some(IpInReceives)
    case 4 => Some(IpInHdrErrors)
    case 5 => Some(IpInAddrErrors)
    case 6 => Some(IpForwDatagrams)
    case 7 => Some(IpInUnknownProtos)
    case 8 => Some(IpInDiscards)
    case 9 => Some(IpInDelivers)
    case 10 => Some(IpOutRequests)
    case 11 => Some(IpOutDiscards)
    case 12 => Some(IpOutNoRoutes)
    case 14 => Some(IpReasmReqds)
    case 15 => Some(IpReasmOks)
    case 16 => Some(IpReasmFails)
    case 17 => Some(IpFragOks)
    case 18 => Some(IpFragFails)
    case 19 => Some(IpFragCreates)
    case 23 => Some(IpRoutingDiscards)
    case _ => None
  }

  /** The ip object that reads a statistics counter, the inverse of `IpStat`. */
  function IpStatId(s: Stat): u8
  {
    match s
    case IpInReceives => 3
    case IpInHdrErrors => 4
    case IpInAddrErrors => 5
    case IpForwDatagrams => 6
    case IpInUnknownProtos => 7
    case IpInDiscards => 8
    case IpInDelivers => 9
    case IpOutRequests => 10
    case IpOutDiscards => 11
    case IpOutNoRoutes => 12
    case IpReasmReqds => 14
    case IpReasmOks => 15
    case IpReasmFails => 16
    case IpFragOks => 17
    case IpFragFails => 18
    case IpFragCreates => 19
    case IpRoutingDiscards => 23
    case _ => 0
  }

  /** Every ip counter object reads a counter of its own: no two objects read
      the same statistic. */
  lemma IpStatDistinct(id: u8)
    requires IpStat(id).Some?
    ensures IpStatId(IpStat(id).value) == id
  {
  }

  /** `ip_get_object_def`: ipForwarding (1) and ipDefaultTTL (2) are
      read-write INTEGERs, ipReasmTimeout (13) a read-only INTEGER, the
      statistics read-only Counters; every other id, and the ids 20, 21 and
      22 of the three tables, give no object. */
  function IpGetObjectDef(identLen: u8, ident: seq<s32>): (od: ObjDef)
    requires |ident| == identLen as int + 1
    ensures od.Object? <==> identLen == 1 && 1 <= Id(ident) <= 23 && Id(ident) !in {20, 21, 22}
    ensures od.Object? ==> od.instance == Scalar && od.idInst == ident
    ensures od.Object? ==> (od.access == ReadWrite <==> Id(ident) in {1, 2})
    ensures od.Object? && Id(ident) in {1, 2, 13} ==> od.asnType == Integer && od.vLen == 4
    ensures od.Object? && IpStat(Id(ident)).Some? ==> od.asnType == Counter && od.vLen == 4
  {
    if ToU8(identLen + 1) == 2 then
      var id := Id(ident);
      if id == 1 || id == 2 then Object(Scalar, ReadWrite, Integer, 4, ident)
      else if IpStat(id).Some? then Object(Scalar, ReadOnly, Counter, 4, ident)
      else if id == 13 then Object(Scalar, ReadOnly, Integer, 4, ident)
      else NoObject
    else NoObject
  }

  /** `ip_get_value`: the hard-wired ipForwarding, ipDefaultTTL and
      ipReasmTimeout (0 without IP reassembly), and the statistics. */
  function IpGetValue(ident: seq<s32>, stats: Stats): (v: Value)
    requires |ident| >= 1
    ensures Id(ident) == 1 ==> v == Int(Forwarding)
    ensures Id(ident) == 2 ==> v == Int(DefaultTtl)
    ensures Id(ident) == 13 ==> v == Int(0)
    ensures IpStat(Id(ident)).Some? ==> v == Word(stats(IpStat(Id(ident)).value))
    ensures !(1 <= Id(ident) <= 23) || Id(ident) in {20, 21, 22} ==> v == Unwritten
  {
    var id := Id(ident);
    if id == 1 then Int(Forwarding)
    else if id == 2 then Int(DefaultTtl)
    else if id == 13 then Int(0)
    else match IpStat(id)
      case Some(s) => Word(stats(s))
      case None => Unwritten
  }

  /** `ip_set_test`: ipForwarding and ipDefaultTTL accept a write only of the
      value they already have; nothing else is writable. */
  function IpSetTest(ident: seq<s32>, value: s32): (ok: bool)
    requires |ident| >= 1
    ensures ok <==> (Id(ident) == 1 && value == Forwarding) || (Id(ident) == 2 && value == DefaultTtl)
  {
    var id := Id(ident);
    if id == 1 then value == 2
    else if id == 2 then value == 255
    else false
  }

  /** A write is accepted exactly when it would not change what a read
      returns. */
  lemma IpSetTestAcceptsCurrent(ident: seq<s32>, value: s32, stats: Stats)
    requires |ident| == 2
    ensures IpSetTest(ident, value) <==>
      IpGetObjectDef(1, ident).Object? && IpGetObjectDef(1, ident).access == ReadWrite &&
      IpGetValue(ident, stats) == Int(value)
  {
  }

  /** Every ip scalar writes a value of the type and length its object
      definition announces. */
  lemma IpGetValueConforms(ident: seq<s32>, stats: Stats)
    requires |ident| == 2
    ensures var od := IpGetObjectDef(1, ident);
      od.Object? ==> Conforms(od.asnType, od.vLen, IpGetValue(ident, stats))
  {
  }

  // -------------------------------------------------- atTable, ipNetToMediaTable

  /** `atentry_get_object_def`: `atEntry.<id>.<ifIndex>.<a>.<b>.<c>.<d>`
      with `id` atIfIndex (1), atPhysAddress (2, six bytes) or atNetAddress
      (3); all three are declared read-write. */
  function AtEntryGetObjectDef(identLen: u8, ident: seq<s32>): (od: ObjDef)
    requires |ident| == identLen as int + 5
    ensures od.Object? <==> identLen == 1 && 1 <= ident[0] <= 3
    ensures od.Object? ==> od.instance == Tab && od.access == ReadWrite && od.idInst == ident
    ensures od.Object? && ident[0] == 1 ==> od.asnType == Integer && od.vLen == 4
    ensures od.Object? && ident[0] == 2 ==> od.asnType == OctetString && od.vLen == 6
    ensures od.Object? && ident[0] == 3 ==> od.asnType == IpAddress && od.vLen == 4
  {
    if ToU8(identLen + 5) == 6 then
      if ident[0] == 1 then Object(Tab, ReadWrite, Integer, 4, ident)
      else if ident[0] == 2 then Object(Tab, ReadWrite, OctetString, 6, ident)
      else if ident[0] == 3 then Object(Tab, ReadWrite, IpAddress, 4, ident)
      else NoObject
    else NoObject
  }

  /** The ARP cache entry for the row's interface and address: an Ethernet
      address of six bytes. */
  predicate ArpValid(arp: Option<ArpEntry>)
  {
    arp.Some? ==> |arp.value.ethAddr| == 6
  }

  /** `atentry_get_value`: nothing when the ARP cache has no entry for the
      row, otherwise the row's ifIndex, the cached hardware address or the
      cached protocol address. */
  function AtEntryGetValue(ident: seq<s32>, arp: Option<ArpEntry>): (v: Value)
    requires |ident| >= 2
    ensures arp.None? || !(1 <= Id(ident) <= 3) ==> v == Unwritten
    ensures arp.Some? && Id(ident) == 1 ==> v == Int(ident[1])
    ensures arp.Some? && Id(ident) == 2 ==> v == Octets(arp.value.ethAddr)
    ensures arp.Some? && Id(ident) == 3 ==> v == Addr(arp.value.ipAddr)
  {
    match arp
    case None => Unwritten
    case Some(e) =>
      var id := Id(ident);
      if id == 1 then Int(ident[1])
      else if id == 2 then Octets(e.ethAddr)
      else if id == 3 then Addr(e.ipAddr)
      else Unwritten
  }

  /** Every atEntry object of a row the ARP cache knows writes a value of the
      type and length its object definition announces. */
  lemma AtEntryGetValueConforms(ident: seq<s32>, arp: Option<ArpEntry>)
    requires |ident| == 6 && arp.Some? && ArpValid(arp)
    ensures var od := AtEntryGetObjectDef(1, ident);
      od.Object? ==> Conforms(od.asnType, od.vLen, AtEntryGetValue(ident, arp))
  {
  }

  /** `ip_ntomentry_get_object_def`: `ipNetToMediaEntry.<id>.<ifIndex>.<a>.<b>.<c>.<d>`
      with `id` 1..4, all declared read-write. */
  function IpNtomEntryGetObjectDef(identLen: u8, ident: seq<s32>): (od: ObjDef)
    requires |ident| == identLen as int + 5
    ensures od.Object? <==> identLen == 1 && 1 <= Id(ident) <= 4
    ensures od.Object? ==> od.instance == Tab && od.access == ReadWrite && od.idInst == ident
    ensures od.Object? && Id(ident) in {1, 4} ==> od.asnType == Integer && od.vLen == 4
    ensures od.Object? && Id(ident) == 2 ==> od.asnType == OctetString && od.vLen == 6
    ensures od.Object? && Id(ident) == 3 ==> od.asnType == IpAddress && od.vLen == 4
  {
    if ToU8(identLen + 5) == 6 then
      var id := Id(ident);
      if id == 1 || id == 4 then Object(Tab, ReadWrite, Integer, 4, ident)
      else if id == 2 then Object(Tab, ReadWrite, OctetString, 6, ident)
      else if id == 3 then Object(Tab, ReadWrite, IpAddress, 4, ident)
      else NoObject
    else NoObject
  }

  /** `ip_ntomentry_get_value`: as the atTable, plus ipNetToMediaType, always
      dynamic (3). */
  function IpNtomEntryGetValue(ident: seq<s32>, arp: Option<ArpEntry>): (v: Value)
    requires |ident| >= 2
    ensures arp.None? || !(1 <= Id(ident) <= 4) ==> v == Unwritten
    ensures arp.Some? && Id(ident) <= 3 ==> v == AtEntryGetValue(ident, arp)
    ensures arp.Some? && Id(ident) == 4 ==> v == Int(3)
  {
    match arp
    case None => Unwritten
    case Some(e) =>
      var id := Id(ident);
      if id == 1 then Int(ident[1])
      else if id == 2 then Octets(e.ethAddr)
      else if id == 3 then Addr(e.ipAddr)
      else if id == 4 then Int(3)
      else Unwritten
  }

  /** Every ipNetToMediaEntry object of a row the ARP cache knows writes a
      value of the type and length its object definition announces. */
  lemma IpNtomEntryGetValueConforms(ident: seq<s32>, arp: Option<ArpEntry>)
    requires |ident| == 6 && arp.Some? && ArpValid(arp)
    ensures var od := IpNtomEntryGetObjectDef(1, ident);
      od.Object? ==> Conforms(od.asnType, od.vLen, IpNtomEntryGetValue(ident, arp))
  {
  }

  // ------------------------------------------------------------- ipAddrTable

  /** `ip_addrentry_get_object_def`: `ipAddrEntry.<id>.<a>.<b>.<c>.<d>` with
      `id` 1..5, all read-only; the address and the netmask are IpAddresses. */
  function IpAddrEntryGetObjectDef(identLen: u8, ident: seq<s32>): (od: ObjDef)
    requires |ident| == identLen as int + 4
    ensures od.Object? <==> identLen == 1 && 1 <= Id(ident) <= 5
    ensures od.Object? ==> od.instance == Tab && od.access == ReadOnly && od.idInst == ident
    ensures od.Object? && Id(ident) in {1, 3} ==> od.asnType == IpAddress && od.vLen == 4
    ensures od.Object? && Id(ident) in {2, 4, 5} ==> od.asnType == Integer && od.vLen == 4
  {
    if ToU8(identLen + 4) == 5 then
      var id := Id(ident);
      if id == 1 || id == 3 then Object(Tab, ReadOnly, IpAddress, 4, ident)
      else if id == 2 || id == 4 || id == 5 then Object(Tab, ReadOnly, Integer, 4, ident)
      else NoObject
    else NoObject
  }

  /** The position of the first interface of `netif_list` with address `ip`. */
  function FirstWithAddr(netifs: seq<Netif>, ip: Ip4): (k: Option<nat>)
    ensures k.Some? ==> k.value < |netifs| && netifs[k.value].ip == ip
    ensures k.Some? ==> forall j :: 0 <= j < k.value ==> netifs[j].ip != ip
    ensures k.None? ==> forall j :: 0 <= j < |netifs| ==> netifs[j].ip != ip
  {
    if |netifs| == 0 then None
    else if netifs[0].ip == ip then Some(0)
    else match FirstWithAddr(netifs[1..], ip)
      case None => None
      case Some(k) => Some(k + 1)
  }

  /** The ipAddrEntry objects of the interface found at position `ifidx`:
      address, ifIndex, netmask, broadcast bit (1) and the largest datagram
      it reassembles (0 without IP reassembly). */
  function AddrEntryValue(id: u8, netif: Netif, ifidx: u16): (v: Value)
    ensures v.Unwritten? <==> !(1 <= id <= 5)
    ensures id == 1 ==> v == Addr(netif.ip)
    ensures id == 2 ==> v == Int(ifidx as int + 1)
    ensures id == 3 ==> v == Addr(netif.netmask)
    ensures id == 4 ==> v == Int(1)
    ensures id == 5 ==> v == Int(0)
  {
    if id == 1 then Addr(netif.ip)
    else if id == 2 then Int(ifidx + 1)
    else if id == 3 then Addr(netif.netmask)
    else if id == 4 then Int(1)
    else if id == 5 then Int(0)
    else Unwritten
  }

  /** `ip_addrentry_get_value`: walks `netif_list` for the first interface
      holding the row's address, counting positions in a `u16_t`; writes
      nothing when none does. */
  method IpAddrEntryGetValue(ident: seq<s32>, netifs: seq<Netif>) returns (v: Value)
    requires |ident| == 5
    ensures match FirstWithAddr(netifs, OidToIp(ident[1..]))
      case None => v == Unwritten
      case Some(k) => v == AddrEntryValue(Id(ident), netifs[k], ToU16(k))
  {
    var ip := OidToIp(ident[1..]);
    var i := 0;
    var ifidx: u16 := 0;
    while i < |netifs| && netifs[i].ip != ip
      invariant 0 <= i <= |netifs|
      invariant ifidx == ToU16(i)
      invariant forall j :: 0 <= j < i ==> netifs[j].ip != ip
    {
      i := i + 1;
      ifidx := ToU16(ifidx + 1);
    }
    if i < |netifs| {
      v := AddrEntryValue(Id(ident), netifs[i], ifidx);
    } else {
      v := Unwritten;
    }
  }

  /** The row `mib2_add_ip4` indexes for an interface reads back that
      interface's address and netmask, provided no earlier interface holds
      the same address. */
  lemma AddrEntryReadsBack(netifs: seq<Netif>, k: nat)
    requires k < |netifs|
    requires forall j :: 0 <= j < k ==> netifs[j].ip != netifs[k].ip
    ensures FirstWithAddr(netifs, OidToIp(IpToOid(netifs[k].ip))) == Some(k)
    ensures AddrEntryValue(1, netifs[k], ToU16(k)) == Addr(netifs[k].ip)
    ensures AddrEntryValue(3, netifs[k], ToU16(k)) == Addr(netifs[k].netmask)
    ensures k < 0xffff ==> AddrEntryValue(2, netifs[k], ToU16(k)) == Int(IfIndexOf(k))
  {
    OidToIpOfIpToOid(netifs[k].ip);
  }

  /** Every ipAddrEntry object writes a value of the type and length its
      object definition announces. */
  lemma AddrEntryValueConforms(ident: seq<s32>, netif: Netif, ifidx: u16)
    requires |ident| == 5
    ensures var od := IpAddrEntryGetObjectDef(1, ident);
      od.Object? ==> Conforms(od.asnType, od.vLen, AddrEntryValue(Id(ident), netif, ifidx))
  {
  }

  // ------------------------------------------------------------ ipRouteTable

  /** `ip_rteentry_get_object_def`: `ipRouteEntry.<id>.<a>.<b>.<c>.<d>` with
      `id` 1..13; all but ipRouteProto (9) and ipRouteInfo (13) are declared
      read-write. */
  function IpRteEntryGetObjectDef(identLen: u8, ident: seq<s32>): (od: ObjDef)
    requires |ident| == identLen as int + 4
    ensures od.Object? <==> identLen == 1 && 1 <= Id(ident) <= 13
    ensures od.Object? ==> od.instance == Tab && od.idInst == ident
    ensures od.Object? ==> (od.access == ReadWrite <==> Id(ident) !in {9, 13})
    ensures od.Object? && Id(ident) in {1, 7, 11} ==> od.asnType == IpAddress && od.vLen == 4
    ensures od.Object? && Id(ident) in {2, 3, 4, 5, 6, 8, 9, 10, 12} ==> od.asnType == Integer && od.vLen == 4
    ensures od.Object? && Id(ident) == 13 ==> od.asnType == ObjectId && od.vLen == 4 * IpRouteInfo.len
  {
    if ToU8(identLen + 4) == 5 then
      var id := Id(ident);
      if id == 1 || id == 7 || id == 11 then Object(Tab, ReadWrite, IpAddress, 4, ident)
      else if id in {2, 3, 4, 5, 6, 8, 10, 12} then Object(Tab, ReadWrite, Integer, 4, ident)
      else if id == 9 then Object(Tab, ReadOnly, Integer, 4, ident)
      else if id == 13 then Object(Tab, ReadOnly, ObjectId, IpRouteInfo.len * 4, ident)
      else NoObject
    else NoObject
  }

  /** For each interface of the list, whether `dest` lies on its network
      (`ip4_addr_netcmp` against its address and netmask). */
  function OnNet(netifs: seq<Netif>, dest: Ip4): (on: seq<bool>)
    ensures |on| == |netifs|
    ensures forall j :: 0 <= j < |netifs| ==> (on[j] <==> NetCmp(dest, netifs[j].ip, netifs[j].netmask))
  {
    seq(|netifs|, j requires 0 <= j < |netifs| => NetCmp(dest, netifs[j].ip, netifs[j].netmask))
  }

  /** The position of the first interface from position `from` on that is
      on the destination's network, given the flags of `OnNet`. */
  function FirstOnNet(on: seq<bool>, from: nat): (k: Option<nat>)
    requires from <= |on|
    ensures k.Some? ==> from <= k.value < |on| && on[k.value]
    ensures k.Some? ==> forall j :: from <= j < k.value ==> !on[j]
    ensures k.None? ==> forall j :: from <= j < |on| ==> !on[j]
    decreases |on| - from
  {
    if from == |on| then None
    else if on[from] then Some(from)
    else FirstOnNet(on, from + 1)
  }

  /** The first position from `from` on whose interface is on the
      destination's network, or the end of the list when none is, is what
      `FirstOnNet` answers. */
  lemma {:induction false} FirstOnNetIsFirst(on: seq<bool>, from: nat, i: nat)
    requires from <= i <= |on|
    requires forall j :: from <= j < i ==> !on[j]
    requires i < |on| ==> on[i]
    ensures FirstOnNet(on, from) == if i < |on| then Some(i) else None
    decreases i - from
  {
    if from < i {
      FirstOnNetIsFirst(on, from + 1, i);
    }
  }

  /** The interface that carries the route to `dest`: the default interface
      for the default route 0.0.0.0, otherwise the first interface on the
      destination's network. */
  function RouteNetif(netifs: seq<Netif>, dflt: Option<nat>, dest: Ip4): (r: Option<nat>)
    ensures dest.IsAny() ==> r == dflt
    ensures !dest.IsAny() && r.Some? ==>
      r.value < |netifs| && NetCmp(dest, netifs[r.value].ip, netifs[r.value].netmask)
    ensures !dest.IsAny() && r.Some? ==>
      forall j :: 0 <= j < r.value ==> !NetCmp(dest, netifs[j].ip, netifs[j].netmask)
    ensures !dest.IsAny() && r.None? ==>
      forall j :: 0 <= j < |netifs| ==> !NetCmp(dest, netifs[j].ip, netifs[j].netmask)
  {
    if dest.IsAny() then dflt else FirstOnNet(OnNet(netifs, dest), 0)
  }

  /** The ipRouteEntry objects of the route to `dest` over `netif`, the
      interface at position `k`. The default route is indirect through the
      gateway with metric 1; a network route is direct with metric 0. */
  function RouteValue(id: u8, dest: Ip4, netif: Netif, k: nat, len: u16): (v: Value)
    requires id == 13 ==> len as int / 4 <= |IpRouteInfo.id|
    ensures v.Unwritten? <==> !(1 <= id <= 13)
    ensures id == 1 ==> v == Addr(if dest.IsAny() then AnyAddr else netif.ip.Network(netif.netmask))
    ensures id == 2 ==> v == Int(IfIndexOf(k))
    ensures id == 3 ==> (v == Int(1) <==> dest.IsAny()) && (v == Int(0) <==> !dest.IsAny())
    ensures id in {4, 5, 6, 12} ==> v == Int(-1)
    ensures id == 7 ==> v == Addr(if dest.IsAny() then netif.gw else netif.ip)
    ensures id == 8 ==> (v == Int(4) <==> dest.IsAny()) && (v == Int(3) <==> !dest.IsAny())
    ensures id == 9 ==> v == Int(2)
    ensures id == 10 ==> v == Int(0)
    ensures id == 11 ==> v == Addr(if dest.IsAny() then AnyAddr else netif.netmask)
    ensures id == 13 ==> v == Oid(IpRouteInfo.id[..len / 4])
  {
    var dflt := dest.IsAny();
    if id == 1 then Addr(if dflt then AnyAddr else netif.ip.Network(netif.netmask))
    else if id == 2 then Int(IfIndexOf(k))
    else if id == 3 then Int(if dflt then 1 else 0)
    else if id in {4, 5, 6, 12} then Int(-1)
    else if id == 7 then Addr(if dflt then netif.gw else netif.ip)
    else if id == 8 then Int(if dflt then 4 else 3)
    else if id == 9 then Int(2)
    else if id == 10 then Int(0)
    else if id == 11 then Addr(if dflt then AnyAddr else netif.netmask)
    else if id == 13 then Oid(IpRouteInfo.id[..len / 4])
    else Unwritten
  }

  /** `ip_rteentry_get_value`: picks the interface of the route (the default
      interface, or the first one of `netif_list` on the destination's
      network) and writes nothing when there is none. */
  method IpRteEntryGetValue(ident: seq<s32>, len: u16, netifs: seq<Netif>, dflt: Option<nat>)
      returns (v: Value)
    requires |ident| == 5
    requires dflt.Some? ==> dflt.value < |netifs|
    requires Id(ident) == 13 ==> len as int / 4 <= |IpRouteInfo.id|
    ensures match RouteNetif(netifs, dflt, OidToIp(ident[1..]))
      case None => v == Unwritten
      case Some(k) => v == RouteValue(Id(ident), OidToIp(ident[1..]), netifs[k], k, len)
  {
    var dest := OidToIp(ident[1..]);
    var found: Option<nat>;
    if dest.IsAny() {
      found := dflt;
    } else {
      ghost var on := OnNet(netifs, dest);
      var i := 0;
      while i < |netifs| && !NetCmp(dest, netifs[i].ip, netifs[i].netmask)
        invariant 0 <= i <= |netifs|
        invariant forall j :: 0 <= j < i ==> !on[j]
      {
        i := i + 1;
      }
      found := if i < |netifs| then Some(i) else None;
      FirstOnNetIsFirst(on, 0, i);
    }
    match found {
      case None => v := Unwritten;
      case Some(k) => v := RouteValue(Id(ident), dest, netifs[k], k, len);
    }
  }

  /** Masking twice with the same octet is masking once. */
  lemma {:induction false} AndU8Idempotent(x: u8, m: u8)
    ensures AndU8(AndU8(x, m), m) == AndU8(x, m)
    decreases x
  {
    if x != 0 && m != 0 {
      AndU8Idempotent(x / 2, m / 2);
      var r := AndU8(x, m);
      assert r / 2 == AndU8(x / 2, m / 2);
      assert r % 2 == (if x % 2 == 1 && m % 2 == 1 then 1 else 0);
    }
  }

  /** The network address of a network address is itself. */
  lemma NetworkIdempotent(ip: Ip4, mask: Ip4)
    ensures ip.Network(mask).Network(mask) == ip.Network(mask)
  {
    AndU8Idempotent(ip.a, mask.a);
    AndU8Idempotent(ip.b, mask.b);
    AndU8Idempotent(ip.c, mask.c);
    AndU8Idempotent(ip.d, mask.d);
  }

  /** The network route `mib2_add_route_ip4` indexes for an interface reads
      back as a direct route to that interface's network, through its own
      address and with its netmask, provided no earlier interface is on the
      same network. */
  lemma RouteReadsBack(netifs: seq<Netif>, dflt: Option<nat>, k: nat)
    requires k < |netifs|
    requires !netifs[k].ip.Network(netifs[k].netmask).IsAny()
    requires forall j :: 0 <= j < k ==>
      !NetCmp(netifs[k].ip.Network(netifs[k].netmask), netifs[j].ip, netifs[j].netmask)
    ensures var dest := OidToIp(IpToOid(netifs[k].ip.Network(netifs[k].netmask)));
      RouteNetif(netifs, dflt, dest) == Some(k) &&
      RouteValue(1, dest, netifs[k], k, 0) == Addr(dest) &&
      RouteValue(7, dest, netifs[k], k, 0) == Addr(netifs[k].ip) &&
      RouteValue(8, dest, netifs[k], k, 0) == Int(3) &&
      RouteValue(11, dest, netifs[k], k, 0) == Addr(netifs[k].netmask)
  {
    var n := netifs[k];
    var dest := n.ip.Network(n.netmask);
    OidToIpOfIpToOid(dest);
    NetworkIdempotent(n.ip, n.netmask);
    assert NetCmp(dest, n.ip, n.netmask);
    FirstOnNetIsFirst(OnNet(netifs, dest), 0, k);
  }

  /** The default route reads back as an indirect route through the default
      interface's gateway, with destination and mask 0.0.0.0. */
  lemma DefaultRouteReadsBack(netifs: seq<Netif>, d: nat)
    requires d < |netifs|
    ensures var dest := OidToIp(IpToOid(AnyAddr));
      RouteNetif(netifs, Some(d), dest) == Some(d) &&
      RouteValue(1, dest, netifs[d], d, 0) == Addr(AnyAddr) &&
      RouteValue(7, dest, netifs[d], d, 0) == Addr(netifs[d].gw) &&
      RouteValue(8, dest, netifs[d], d, 0) == Int(4) &&
      RouteValue(11, dest, netifs[d], d, 0) == Addr(AnyAddr)
  {
    OidToIpOfIpToOid(AnyAddr);
  }

  /** Every ipRouteEntry object writes a value of the type and length its
      object definition announces. */
  lemma RouteValueConforms(ident: seq<s32>, dest: Ip4, netif: Netif, k: nat)
    requires |ident| == 5
    ensures var od := IpRteEntryGetObjectDef(1, ident);
      od.Object? ==> Conforms(od.asnType, od.vLen, RouteValue(Id(ident), dest, netif, k, od.vLen))
  {
  }
}
