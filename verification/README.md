# lwIP MIB-II objects in Dafny

This project models the MIB-II object layer of lwIP's SNMP agent, in
`src/core/snmp/mib2.c`. That layer implements the RFC 1213 groups system,
interfaces, at, ip, icmp, tcp, udp and snmp. The model covers three parts:

- **The static registration tree.** Array nodes hold ascending
  sub-identifiers and hand scalars to each group's `*_get_object_def` /
  `*_get_value` / `*_set_test` / `*_set_value` handlers (`MibTree`).
- **The object handlers of every group.** They decode the instance
  identifier, announce type, access and length, and fill in a value
  (`SystemGroup`, `InterfacesGroup`, `IpGroup`, `TransportGroups`,
  `SnmpGroup`).
- **The dynamic index trees behind the tables.** The stack keeps them up to
  date through `mib2_netif_added/removed`, `mib2_add/remove_arp_entry`,
  `mib2_add/remove_ip4`, `mib2_add/remove_route_ip4` and
  `mib2_udp_bind/unbind`. Each table's `maxlength` flag turns GetNext
  traversal on and off (`IndexTree`, `MibIndexes`).

State the source updates in place is kept in classes:

- `SystemMib`: the system string buffers, the pointers to the application's
  length bytes (each an array of one byte), and the buffer sizes.
- `SnmpMib`: the snmp group counters and the `snmpenableauthentraps` pointer.
- `IndexTables`: the index trees and the `maxlength` of each table.

The handlers are pure functions of the state they read. The loops of the
source are methods proved equal to the functions that specify them:

- the index-tree walks;
- tcpCurrEstab's PCB count;
- the binding count of `mib2_udp_unbind`;
- the interface and PCB searches of the table entries.

C arithmetic is written out:

- the `(u8_t)` cast of the first sub-identifier (`MibTypes.Id`);
- `u8_t`/`u16_t` truncation;
- 32-bit counter wrap-around.

The compile-time configuration the model fixes:

- TCP enabled;
- no private MIB;
- `SNMP_SAFE_REQUESTS` off;
- IP forwarding and reassembly off;
- `IP_DEFAULT_TTL` 255;
- `MEMP_NUM_TCP_PCB` 5;
- ARP enabled.

An index tree is the value `map<Path, set<s32>>`. Each key is the path of a
list root node, and its value is the set of sub-identifiers in that node's
sorted list. `Wf` says that every complete path reaches a row and that no
list is left empty below the root. `Present` says which rows the tree
holds.

The table updates are proved in these terms:

- an insertion adds exactly its row;
- a removal drops exactly its row;
- both keep the tree well formed;
- a table with rows has traversal enabled.

## Model

| member | source | states |
|---|---|---|
| MibTypes.ToU8 | src/core/snmp/mib2.c:1727 | the `(u8_t)` cast: identity on 0..255, otherwise congruent modulo 256 |
| MibTypes.ToU16 | src/core/snmp/mib2.c:3524 | the `(u16_t)` cast: identity on 0..65535, otherwise congruent modulo 65536 |
| MibTypes.AddU32 | src/core/snmp/mib2.c:1518-1521 | a `u32_t` increment: exact below 2^32, wraps by 2^32 above |
| MibTypes.Id | src/core/snmp/mib2.c:1800 | the object id is the first sub-identifier when that fits in a byte |
| MibTypes.AndU8 | src/core/snmp/mib2.c:1237 | bytewise AND used by `ip4_addr_get_network`: no larger than either operand, low bit is the AND of the low bits, idempotent |
| MibTypes.Ip4.Network | src/core/snmp/mib2.c:1237 | the network of an address under a mask: masking an address by itself keeps it, a 0.0.0.0 mask gives 0.0.0.0 |
| Stack.IfIndexOf | src/core/snmp/mib2.c:966 | the ifIndex of the interface at position k is k+1 (counted in a u16) and always in 1..65536 |
| Stack.IpToOid | src/core/snmp/mib2.c:967 | `snmp_iptooid`: the four octets of the address, in order |
| Stack.OidToIp | src/core/snmp/mib2.c:2342 | `snmp_oidtoip`: octets that fit in a byte come back as the same sub-identifiers |
| Stack.OidToIpOfIpToOid | src/core/snmp/mib2.c:2693 | decoding the OID of an address gives the address back |
| SystemGroup.SystemMib.constructor | src/core/snmp/mib2.c:776-808 | default sysDescr "lwIP" (length 4), empty sysContact and sysLocation, sysName "FQDN-unk", default sysObjectID; each length in a byte of its own |
| SystemGroup.SystemMib.GetObjectDef | src/core/snmp/mib2.c:1714-1784 | objects 1..7 exist only with one instance sub-identifier; strings are octet strings of their current length, writable exactly for contact, name and location; OID, TimeTicks and Integer lengths |
| SystemGroup.SystemMib.GetValue | src/core/snmp/mib2.c:1795-1831 | each object reads its registered buffer, the sysObjectID, the uptime or sysServices; unknown ids write nothing |
| SystemGroup.SystemMib.SetTest | src/core/snmp/mib2.c:1834-1867 | a write is accepted iff the object is contact, name or location and the value fits below its buffer size |
| SystemGroup.SystemMib.SetValue | src/core/snmp/mib2.c:1870-1895 | for contact, name or location the value is copied into that object's buffer, the bytes after it stay, and its length is written through the length pointer; every other length and every buffer not shared with it is unchanged; any other id changes nothing |
| SystemGroup.SystemMib.SetSysDescr | src/core/snmp/mib2.c:853-860 | a non-null string replaces sysDescr and the pointer to its length byte; null changes nothing; all else unchanged |
| SystemGroup.SystemMib.SetSysObjId | src/core/snmp/mib2.c:872-875 | replaces sysObjectID only |
| SystemGroup.SystemMib.SetSysContact | src/core/snmp/mib2.c:886-894 | a non-null buffer replaces sysContact, the pointer to its length byte and its size; null changes nothing; all else unchanged |
| SystemGroup.SystemMib.SetSysName | src/core/snmp/mib2.c:905-913 | the same for sysName |
| SystemGroup.SystemMib.SetSysLocation | src/core/snmp/mib2.c:924-932 | the same for sysLocation |
| SystemGroup.CopyInto | src/core/snmp/mib2.c:1880 | the `MEMCPY` of a new string: the buffer starts with the string, and the bytes after it stay |
| SystemGroup.GetReadsRegistered | src/core/snmp/mib2.c:1795-1831 | a defined string object reads back exactly its registered buffer's first `len` bytes, sysObjectID its registered identifier |
| SystemGroup.GetValueConforms | src/core/snmp/mib2.c:1795-1831 | every defined system object writes a value of the type and length its definition announces |
| SystemGroup.SetThenGet | src/core/snmp/mib2.c:1870-1895 | a write the test accepts reads back as the written string, with a definition of that length and read-write access, and the application's own length byte holds the new length |
| InterfacesGroup.InterfacesGetObjectDef | src/core/snmp/mib2.c:1905-1925 | any single sub-identifier defines the read-only Integer scalar ifNumber |
| InterfacesGroup.InterfacesGetValue | src/core/snmp/mib2.c:1936-1944 | ifNumber reads the number of ifIndex values in the interface list, modulo 2^16 as the list's u16 count holds it; other ids write nothing |
| InterfacesGroup.IfEntryGetObjectDef | src/core/snmp/mib2.c:1954-2051 | columns 1..22 exist; only ifAdminStatus is writable; per-column types and lengths (descr 2, physical address the hardware address length, specific the OID length) |
| InterfacesGroup.LinkStatus | src/core/snmp/mib2.c:2102-2120 | the link state: 1 iff interface and link up, 2 iff interface down, 7 otherwise; read as ifAdminStatus by the code, as ifOperStatus by the corrected read |
| InterfacesGroup.IfEntryGetValue | src/core/snmp/mib2.c:2062-2220 | ifIndex echoes the instance; ifDescr the first `len` name bytes, ifType, ifMtu and ifSpeed the interface's link type, MTU and speed, ifPhysAddress the first `len` hardware-address bytes, ifLastChange the interface's timestamp, ifOutQLen 0, ifSpecific 0.0; status columns as coded; every counter reads its own counter except ifInErrors, which reads ifInUnknownProtos |
| InterfacesGroup.AdminStatus | src/core/snmp/mib2.c:2122-2134 | the administrative state: always up (1) or down (2), up iff the interface is up; read as ifOperStatus by the code, as ifAdminStatus by the corrected read |
| InterfacesGroup.IfEntryGetValueIntended | src/core/snmp/mib2.c:2062-2220 | the corrected read: every counter reads its own counter, status columns use the intended functions, all other columns agree with the code |
| InterfacesGroup.IfEntrySetTest | src/core/snmp/mib2.c:2224-2244 | accepted iff the column is ifAdminStatus and the value is up (1) or down (2) |
| InterfacesGroup.IfEntrySetValue | src/core/snmp/mib2.c:2247-2271 | up (1) brings the interface up, down (2) brings it down, anything else changes nothing |
| InterfacesGroup.IfEntryGetValueConforms | src/core/snmp/mib2.c:2062-2220 | every defined column writes a value of its announced type and length, as coded and as corrected |
| InterfacesGroup.AdminStatusSetThenGet | src/core/snmp/mib2.c:2224-2271 | an accepted ifAdminStatus write reads back as written (corrected read) |
| InterfacesGroup.InErrorsFallThrough | src/core/snmp/mib2.c:2170-2175 | as coded, ifInErrors differs from the interface's in-errors counter and equals ifInUnknownProtos |
| InterfacesGroup.AdminStatusOutOfRange | src/core/snmp/mib2.c:2102-2120 | as coded, with the link down an accepted write of up (1) reads back as 7 |
| IpGroup.IpStatDistinct | src/core/snmp/mib2.c:2445-2589 | each ip counter object reads a different statistic (the id-to-counter map is injective) |
| IpGroup.IpGetObjectDef | src/core/snmp/mib2.c:2379-2442 | scalars 1..23 except the three tables exist; forwarding and default TTL are writable; types and lengths per object |
| IpGroup.IpGetValue | src/core/snmp/mib2.c:2445-2589 | ipForwarding 2, ipDefaultTTL 255, ipReasmTimeout 0, each counter its statistic, nothing for other ids |
| IpGroup.IpSetTest | src/core/snmp/mib2.c:2602-2636 | a write is accepted iff it sets ipForwarding or ipDefaultTTL to its current value |
| IpGroup.IpSetTestAcceptsCurrent | src/core/snmp/mib2.c:2602-2636 | a write is accepted iff it equals what a read of that object returns |
| IpGroup.IpGetValueConforms | src/core/snmp/mib2.c:2445-2589 | every defined ip scalar writes a value of its announced type and length |
| IpGroup.AtEntryGetObjectDef | src/core/snmp/mib2.c:2282-2324 | atEntry columns 1..3: ifIndex Integer, physical address 6 octets, network address IpAddress |
| IpGroup.AtEntryGetValue | src/core/snmp/mib2.c:2327-2376 | with an ARP entry: the instance ifIndex, the Ethernet address, the IP address; no entry writes nothing |
| IpGroup.AtEntryGetValueConforms | src/core/snmp/mib2.c:2327-2376 | every defined atEntry column writes a value of its announced type and length |
| IpGroup.IpNtomEntryGetObjectDef | src/core/snmp/mib2.c:2983-3030 | ipNetToMediaEntry columns 1..4 with their types and lengths |
| IpGroup.IpNtomEntryGetValue | src/core/snmp/mib2.c:3033-3089 | columns 1..3 read as in atEntry, the type column is dynamic (3); no ARP entry writes nothing |
| IpGroup.IpNtomEntryGetValueConforms | src/core/snmp/mib2.c:3033-3089 | every defined column writes a value of its announced type and length |
| IpGroup.IpAddrEntryGetObjectDef | src/core/snmp/mib2.c:2639-2682 | ipAddrEntry columns 1..5, read-only, IpAddress or Integer |
| IpGroup.FirstWithAddr | src/core/snmp/mib2.c:2694-2699 | the first interface in the list with the given address, or none when no interface has it |
| IpGroup.IpAddrEntryGetValue | src/core/snmp/mib2.c:2685-2756 | the row of the first interface holding the instance's address; nothing when none does |
| IpGroup.AddrEntryReadsBack | src/core/snmp/mib2.c:2685-2756 | the row indexed by an interface's address shows that address, its netmask and its ifIndex |
| IpGroup.AddrEntryValue | src/core/snmp/mib2.c:2701-2755 | the ipAddrEntry columns of the interface found: its address, its position plus one, its netmask, broadcast bit 1 and reassembly size 0; ids outside 1..5 write nothing |
| IpGroup.AddrEntryValueConforms | src/core/snmp/mib2.c:2685-2756 | every defined column writes a value of its announced type and length |
| IpGroup.IpRteEntryGetObjectDef | src/core/snmp/mib2.c:2764-2826 | ipRouteEntry columns 1..13; all but ipRouteProto and ipRouteInfo writable; types and lengths |
| IpGroup.OnNet | src/core/snmp/mib2.c:2847-2852 | one flag per interface, set exactly when the destination lies on that interface's network (`ip4_addr_netcmp`) |
| IpGroup.FirstOnNet | src/core/snmp/mib2.c:2847-2852 | the first interface from a position whose on-network flag is set, or none when no later flag is set |
| IpGroup.FirstOnNetIsFirst | src/core/snmp/mib2.c:2847-2852 | a position preceded only by interfaces off the network, and on it itself, is what the search returns |
| IpGroup.IpRteEntryGetValue | src/core/snmp/mib2.c:2829-2980 | 0.0.0.0 reads the default interface's route, any other destination the first interface on its network, nothing when none matches |
| IpGroup.NetworkIdempotent | src/core/snmp/mib2.c:2872 | masking a network address again leaves it unchanged |
| IpGroup.RouteReadsBack | src/core/snmp/mib2.c:2829-2980 | the route indexed by an interface's network reads back as direct (3), through that interface's address, with its netmask |
| IpGroup.DefaultRouteReadsBack | src/core/snmp/mib2.c:2829-2980 | the default route reads back as indirect (4) through the default interface's gateway, destination and mask 0.0.0.0 |
| IpGroup.RouteNetif | src/core/snmp/mib2.c:2838-2853 | 0.0.0.0 is carried by the default interface; any other destination by the first interface whose network holds it, and by none when no interface's network does |
| IpGroup.RouteValue | src/core/snmp/mib2.c:2854-2979 | the ipRouteEntry columns: destination and mask 0.0.0.0 and next hop the gateway for the default route, the interface's network, netmask and address otherwise; metric1 1 and type indirect (4) exactly for the default route, 0 and direct (3) otherwise; unused metrics -1, proto local (2), age 0, ipRouteInfo the first len/4 components of the null OID 0.0; ids outside 1..13 write nothing |
| IpGroup.RouteValueConforms | src/core/snmp/mib2.c:2829-2980 | every defined ipRouteEntry column writes a value of its announced type and length |
| TransportGroups.IcmpStatDistinct | src/core/snmp/mib2.c:3116-3208 | icmp ids 1..26 each read a statistic, a different one per id |
| TransportGroups.IcmpGetObjectDef | src/core/snmp/mib2.c:3092-3113 | ids 1..26 are read-only Counter scalars of length 4 |
| TransportGroups.IcmpGetValue | src/core/snmp/mib2.c:3116-3208 | each icmp object reads its statistic; other ids write nothing |
| TransportGroups.IcmpGetValueConforms | src/core/snmp/mib2.c:3116-3208 | every defined icmp object writes a Counter |
| TransportGroups.TcpStatDistinct | src/core/snmp/mib2.c:3274-3348 | each tcp counter object reads a different statistic |
| TransportGroups.TcpGetObjectDef | src/core/snmp/mib2.c:3213-3271 | ids 1..15 except tcpConnTable exist; RTO and connection limits are Integers, tcpCurrEstab a Gauge, the rest Counters |
| TransportGroups.CountEstab | src/core/snmp/mib2.c:3313-3327 | the number of active PCBs in ESTABLISHED or CLOSE_WAIT, at most the number of PCBs |
| TransportGroups.CountEstabAppend | src/core/snmp/mib2.c:3313-3327 | the count over two lists of PCBs is the sum of their counts |
| TransportGroups.CountEstabNone | src/core/snmp/mib2.c:3313-3327 | the count is 0 iff no PCB is current, and the list length iff every PCB is |
| TransportGroups.CurrEstab | src/core/snmp/mib2.c:3313-3327 | the loop's `u16_t` counter equals the count truncated to 16 bits, the exact count below 65536 PCBs |
| TransportGroups.TcpScalarValue | src/core/snmp/mib2.c:3274-3348 | tcpRtoAlgorithm reads vanj (4), tcpRtoMin 1000, tcpRtoMax 60000, tcpMaxConn the PCB limit; each tcp counter reads its statistic; other ids write nothing |
| TransportGroups.TcpGetValue | src/core/snmp/mib2.c:3274-3348 | tcpCurrEstab reads the truncated count of current connections; every other id reads its scalar |
| TransportGroups.CurrEstabBounded | src/core/snmp/mib2.c:3313-3327 | with no more PCBs than the PCB limit, tcpCurrEstab is the exact count and within the limit |
| TransportGroups.TcpGetValueConforms | src/core/snmp/mib2.c:3274-3348 | every defined tcp object writes a value of its announced type and length |
| TransportGroups.UdpGetObjectDef | src/core/snmp/mib2.c:3421-3442 | ids 1..5 are read-only Counter scalars (5, the table's id, included) |
| TransportGroups.UdpGetValue | src/core/snmp/mib2.c:3445-3471 | ids 1..4 read their statistics; other ids write nothing |
| TransportGroups.UdpStatDistinct | src/core/snmp/mib2.c:3445-3471 | distinct udp ids read distinct statistics |
| TransportGroups.UdpGetValueConforms | src/core/snmp/mib2.c:3426-3427 | ids 1..4 write Counters; id 5 is defined yet writes nothing |
| TransportGroups.UdpEntryGetObjectDef | src/core/snmp/mib2.c:3474-3510 | udpEntry columns 1 (IpAddress) and 2 (Integer), read-only, length 4 |
| TransportGroups.FirstBound | src/core/snmp/mib2.c:3526-3532 | the first UDP PCB bound to the given address and port, or none |
| TransportGroups.UdpEntryGetValue | src/core/snmp/mib2.c:3513-3557 | the row of the first PCB with the instance's binding; nothing when none has it |
| TransportGroups.FirstBoundIsFirst | src/core/snmp/mib2.c:3526-3532 | a position preceded only by other bindings, and bound itself, is what the search returns |
| TransportGroups.UdpEntryReadsBack | src/core/snmp/mib2.c:3513-3557 | the row indexed by a PCB's IPv4 binding shows that address and port |
| TransportGroups.UdpEntryValueConforms | src/core/snmp/mib2.c:3513-3557 | every defined udpEntry column writes a value of its announced type and length |
| SnmpGroup.CounterId | src/core/snmp/mib2.c:3628-3726 | every counter has an id in 1..29, never 7 or 23 |
| SnmpGroup.CounterIdRoundTrip | src/core/snmp/mib2.c:3628-3726 | the object of a counter's id is that counter |
| SnmpGroup.CounterOfRoundTrip | src/core/snmp/mib2.c:3628-3726 | the id of the counter an id reads is that id |
| SnmpGroup.SnmpGetObjectDef | src/core/snmp/mib2.c:3560-3625 | ids 1..30 except 7 and 23 exist; snmpEnableAuthenTraps is the one writable Integer, the rest read-only Counters |
| SnmpGroup.ReadSnmp | src/core/snmp/mib2.c:3628-3726 | each counter id reads its counter, 30 reads the trap switch, undefined ids write nothing |
| SnmpGroup.SnmpSetTest | src/core/snmp/mib2.c:3736-3756 | accepted iff the object is snmpEnableAuthenTraps and the value is enabled (1) or disabled (2) |
| SnmpGroup.SnmpGetValueConforms | src/core/snmp/mib2.c:3628-3726 | every defined snmp object writes a value of its announced type and length |
| SnmpGroup.SnmpSetThenGet | src/core/snmp/mib2.c:3736-3772 | an accepted write of the trap switch reads back as written |
| SnmpGroup.IncChangesOnlyOwn | src/core/snmp/mib2.c:1518-1651 | an increment of one counter changes no other object's value |
| SnmpGroup.SnmpMib.constructor | src/core/snmp/mib2.c:818-844 | every counter starts at 0 and snmpEnableAuthenTraps at disabled (2) |
| SnmpGroup.SnmpMib.Inc | src/core/snmp/mib2.c:1518-1651 | `mib2_inc_snmp*`: that counter goes up by one with 32-bit wrap; no other counter and not the trap switch change |
| SnmpGroup.SnmpMib.Add | src/core/snmp/mib2.c:1573-1581 | `mib2_add_snmpintotal{req,set}vars`: that counter goes up by the u8 amount with wrap; nothing else changes |
| SnmpGroup.SnmpMib.GetValue | src/core/snmp/mib2.c:3628-3726 | reads the object the id names from the current counters and trap switch |
| SnmpGroup.SnmpMib.SetValue | src/core/snmp/mib2.c:3759-3772 | a write of snmpEnableAuthenTraps stores its low byte in the switch; any other id leaves it |
| SnmpGroup.SnmpMib.SetEnableAuthenTraps | src/core/snmp/mib2.c:1658-1664 | a non-null pointer becomes the trap switch; null leaves it; the counters are unchanged |
| SnmpGroup.SnmpMib.GetEnableAuthenTraps | src/core/snmp/mib2.c:1666-1669 | the value is what an SNMP read of snmpEnableAuthenTraps returns |
| SnmpGroup.GetSnmpGrpId | src/core/snmp/mib2.c:1653-1656 | the snmp group's identifier is 1.3.6.1.2.1.11 |
| SnmpGroup.SetThenGet | src/core/snmp/mib2.c:3736-3772 | after an accepted write, both the SNMP read and `snmp_get_snmpenableauthentraps` return the written value |
| MibTree.NoLeafsGetObjectDef | src/core/snmp/mib2.c:1672-1677 | an inner node defines no object |
| MibTree.NoLeafsSetTest | src/core/snmp/mib2.c:1688-1695 | an inner node refuses every write |
| MibTree.OneTo | src/core/snmp/mib2.c:596-620 | the column ids of a table entry are 1..n |
| MibTree.OneToAscending | src/core/snmp/mib2.c:596-620 | those ids are strictly ascending |
| MibTree.AscendingPairwise | src/core/snmp/mib2.c:5-6 | in an ascending array every earlier id is smaller than every later one |
| MibTree.TableNodeWellFormed | src/core/snmp/mib2.c:580-623 | every table's entry and column nodes have ascending ids of matching count |
| MibTree.IpWellFormed | src/core/snmp/mib2.c:358-522 | the ip subtree, its three tables included, is well formed |
| MibTree.TcpWellFormed | src/core/snmp/mib2.c:247-320 | the tcp subtree is well formed |
| MibTree.UdpWellFormed | src/core/snmp/mib2.c:179-245 | the udp subtree is well formed |
| MibTree.ScalarGroupsWellFormed | src/core/snmp/mib2.c:669-688 | the system, icmp and snmp subtrees are well formed |
| MibTree.InterfacesAtWellFormed | src/core/snmp/mib2.c:524-660 | the interfaces and at subtrees are well formed |
| MibTree.TreeWellFormed | src/core/snmp/mib2.c:694-771 | the whole tree from internet down has ascending sub-identifiers and as many children as ids |
| MibTree.NextChild | src/core/snmp/mib2.c:5-6 | the position GetNext moves to: every id before it is not larger, the id at it is larger |
| MibTree.NextChildIsSuccessor | src/core/snmp/mib2.c:5-6 | in an ascending array that position holds the least larger id, so no child is skipped |
| MibTree.IpRouting | src/core/snmp/mib2.c:497-522 | the ip node routes exactly the ids `ip_get_object_def` defines to the ip scalar handler |
| MibTree.TcpRouting | src/core/snmp/mib2.c:298-320 | the same for tcp |
| MibTree.IcmpRouting | src/core/snmp/mib2.c:330-356 | the same for icmp |
| MibTree.UdpRouting | src/core/snmp/mib2.c:226-245 | the udp node routes the defined ids except 5, which goes to the udpTable |
| MibTree.SnmpRouting | src/core/snmp/mib2.c:142-162 | the same for snmp |
| MibTree.SnmpIdsSkip | src/core/snmp/mib2.c:142-145 | `snmp_ids` holds 28 ids: 1 to 30 skipping 7 and 23 |
| IndexTree.InsertFrom | src/core/snmp/mib2.c:1112-1147 | the insertion walk only adds: every list root and list value already there stays |
| IndexTree.InsertIndex | src/core/snmp/mib2.c:1112-1147 | the insertion loop computes the walk, including the allocation failures it meets |
| IndexTree.DeleteMarks | src/core/snmp/mib2.c:1194-1208 | deleting marked nodes keeps the table root and never adds to its list (that removal drops exactly the row is IndexTree.RemoveSound and IndexTree.RemoveDropsRow) |
| IndexTree.RemoveFrom | src/core/snmp/mib2.c:1156-1211 | removal keeps the table root and never adds to its list (its full meaning, well-formedness kept and exactly the row dropped, is IndexTree.RemoveSound and IndexTree.RemoveDropsRow) |
| IndexTree.MarkFrom | src/core/snmp/mib2.c:1166-1190 | the marking loop marks at most one node per remaining index level, and every node it marks exists and may go (`snmp_mib_node_find` answers 1: no other row hangs below it); the same loop appears at 1044-1075 and 1466-1491 |
| IndexTree.RemoveIndex | src/core/snmp/mib2.c:1156-1211 | the find-and-mark loop and the delete loop compute the removal |
| IndexTree.DeleteMarked | src/core/snmp/mib2.c:1195-1208 | the delete loop, walking the marks from the deepest back to the root, deletes exactly the marked nodes |
| IndexTree.InsertSound | src/core/snmp/mib2.c:1102-1150 | inserting with memory available keeps the tree well formed and adds exactly the row |
| IndexTree.RemoveSound | src/core/snmp/mib2.c:1156-1211 | removal keeps the tree well formed and drops exactly the row |
| IndexTree.NoRowsIffEmptyRoot | src/core/snmp/mib2.c:1209-1210 | in a well-formed tree the root's list is empty iff the table has no rows |
| IndexTree.InsertExisting | src/core/snmp/mib2.c:1117 | inserting a row already there changes nothing and allocates nothing |
| IndexTree.RemoveAbsent | src/core/snmp/mib2.c:1172 | removing a row not there changes nothing |
| IndexTree.InsertThenRemove | src/core/snmp/mib2.c:1102-1211 | inserting then removing a row leaves exactly the other rows |
| IndexTree.InsertAddsRow | src/core/snmp/mib2.c:1102-1150 | insertion yields a well-formed tree whose rows are the old ones plus the index |
| IndexTree.RemoveDropsRow | src/core/snmp/mib2.c:1156-1211 | removal yields a well-formed tree whose rows are the old ones minus the index |
| IndexTree.InsertAfterFailedNode | src/core/snmp/mib2.c:1117-1145 | when a list node cannot be allocated the walk goes on at the same root: adding 2.1.7 beside 1.5.9 then puts 7 under 1, and the tree is no longer complete |
| IndexTree.RowOneFiveNineWf | src/core/snmp/mib2.c:1102-1150 | the one-row tree 1.5.9 is well formed and holds that row |
| MibIndexes.ArpIndex | src/core/snmp/mib2.c:966-967 | the atTable index is the ifIndex followed by the four address octets |
| MibIndexes.UdpIndex | src/core/snmp/mib2.c:1393-1394 | the udpTable index is the four address octets followed by the port |
| MibIndexes.RouteDest | src/core/snmp/mib2.c:1225-1242 | the default route's destination is 0.0.0.0, and only it; a network route's is the interface's network, and there is none when that network is 0.0.0.0 (the same choice `mib2_remove_route_ip4` makes at 1302-1320) |
| MibIndexes.Bindings | src/core/snmp/mib2.c:1453-1465 | the number of PCBs with the same local address and port: at most the list length, 0 iff none |
| MibIndexes.CountBindings | src/core/snmp/mib2.c:1453-1465 | the `u8_t` loop counter is that number modulo 256 |
| MibIndexes.BindingsWrap | src/core/snmp/mib2.c:1453-1466 | 257 PCBs sharing one binding count as 1, so the unbind removes a row that other PCBs still use |
| MibIndexes.AddRow | src/core/snmp/mib2.c:1112-1149 | an insertion walk that enables traversal and, with memory available, adds exactly the row |
| MibIndexes.DropRow | src/core/snmp/mib2.c:1158-1210 | a removal that disables traversal exactly when the table is left empty, and drops exactly the row |
| MibIndexes.IndexTables.constructor | src/core/snmp/mib2.c:524-580 | every table starts empty with traversal disabled |
| MibIndexes.IndexTables.NetifAdded | src/core/snmp/mib2.c:934-943 | the next ifIndex joins the interface list (unless its node cannot be allocated); traversal is enabled |
| MibIndexes.IndexTables.NetifRemoved | src/core/snmp/mib2.c:945-952 | the last ifIndex leaves the list; traversal is disabled iff the list is left empty |
| MibIndexes.IfNumberAfterAdded | src/core/snmp/mib2.c:934-943 | an interface added with memory for its node raises ifNumber by one, modulo 2^16 |
| MibIndexes.IfNumberAfterRemoved | src/core/snmp/mib2.c:945-952 | a removed interface lowers ifNumber by one |
| MibIndexes.IndexTables.AddArpEntry | src/core/snmp/mib2.c:958-1024 | both ARP trees get the ifIndex.address row, the second walk using the allocations the first left; both traversals enabled |
| MibIndexes.IndexTables.RemoveArpEntry | src/core/snmp/mib2.c:1030-1096 | the row leaves both ARP trees; each traversal is disabled iff its tree is left empty |
| MibIndexes.IndexTables.AddAtRow | src/core/snmp/mib2.c:969-1021 | the ARP tree gets the insertion walk of the row, with the allocations it meets, and its traversal is enabled; with memory available the row is added |
| MibIndexes.IndexTables.AddNtomRow | src/core/snmp/mib2.c:969-1022 | the same for the ipNetToMedia tree |
| MibIndexes.IndexTables.DropAtRow | src/core/snmp/mib2.c:1039-1094 | the row leaves the ARP tree; its traversal is disabled iff the tree is left empty |
| MibIndexes.IndexTables.DropNtomRow | src/core/snmp/mib2.c:1039-1095 | the same for the ipNetToMedia tree |
| MibIndexes.IndexTables.AddIp4 | src/core/snmp/mib2.c:1102-1150 | the interface's address row joins the ipAddrTable; traversal enabled |
| MibIndexes.IndexTables.RemoveIp4 | src/core/snmp/mib2.c:1156-1211 | the address row leaves the ipAddrTable; traversal disabled iff empty |
| MibIndexes.IndexTables.AddRoute | src/core/snmp/mib2.c:1223-1290 | the route's destination joins the ipRouteTable, nothing when the network is 0.0.0.0; traversal enabled either way |
| MibIndexes.IndexTables.RemoveRoute | src/core/snmp/mib2.c:1300-1374 | the destination leaves the ipRouteTable; traversal disabled iff empty, checked even when nothing was removed |
| MibIndexes.IndexTables.UdpBind | src/core/snmp/mib2.c:1381-1431 | an IPv4 binding joins the udpTable and enables traversal; an IPv6 binding changes nothing |
| MibIndexes.IndexTables.UdpUnbind | src/core/snmp/mib2.c:1437-1515 | an IPv4 binding leaves the udpTable only when the u8 count of PCBs sharing it is 1; traversal disabled iff empty; IPv6 changes nothing |
| MibIndexes.TraversalOnWithRows | src/core/snmp/mib2.c:1149 | in every table whose tree holds any non-empty path, well formed or not, GetNext traversal is enabled |

## Left out

- `src/apps/snmp/snmp_threadsync.c` and `src/main.c` are not part of this model. The first marshals handler calls to another thread. The second sets the stack up.
- The list primitives live outside the MIB-II object file: `snmp_mib_node_insert`, `snmp_mib_node_find`, `snmp_mib_node_delete` and `snmp_mib_lrn_alloc/free`.
  - A sorted list is modelled as its set of sub-identifiers.
  - A list's `count` is the set's size, unbounded rather than a `u16_t`; ifNumber, which reads the interface list's count, truncates it to 16 bits.
  - A list node's `nptr` is present exactly when the path below it is a key.
- Memory allocation is an input sequence of outcomes, not the heap allocator.
- Aliasing between list nodes is not modelled, because the trees are values.
- The stack's lookups are inputs rather than calls:
  - `snmp_ifindextonetif`, `snmp_netiftoifindex`, `etharp_find_addr`, `netif_list`;
  - the active TCP and UDP PCB lists;
  - `STATS_GET` reads.
- The interface list is a set of ifIndex values, and an interface is identified by its position in `netif_list`.
- sysUpTime is a parameter, because `snmp_get_sysuptime` reads a clock.
- `LWIP_ASSERT`, `LWIP_DEBUGF` and the SNMP_MIB_DEBUG output are left out. Each `void *value` buffer and `MEMCPY` is a typed `Value`.
- The handler-pointer assignments on the list root nodes the walks allocate are left out. The registration tree routes each table's handlers statically.
- The tcpConnTable is left out. Its handlers are compiled out in the source, and its subtree is kept only as a node.
- Other compile-time configurations are left out: `SNMP_PRIVATE_MIB`, `SNMP_SAFE_REQUESTS`, `IP_FORWARD`, IP reassembly, the `LWIP_TCP=0` and `LWIP_ARP=0` builds, and IPv6 in the address and route tables.
- `snmp_get_sysobjid_ptr` and the pointer getters for the system strings are left out. They return the fields `SystemMib` exposes.
- `noleafs_get_value` and `noleafs_set_value` are left out because they do nothing.
- SystemGroup.SystemMib.SetSysContact: requires the new length byte to belong to sysContact alone: no other string's length byte and no string buffer. The source stores any pointer. With a shared length byte, a write to one string would also change the other string's length, and a later get could read past that string's buffer; the model does not capture that case.
- SystemGroup.SystemMib.SetSysName: the same requirement on sysName's length byte.
- SystemGroup.SystemMib.SetSysLocation: the same requirement on sysLocation's length byte.
- SystemGroup.SystemMib.SetSysDescr: the same requirement on sysDescr's length byte.
- InterfacesGroup.IfEntrySetValue: changes only the interface's `up` flag. `netif_set_up` and `netif_set_down` are not part of this model, so any other effect they have on the interface (such as refreshing the timestamp ifLastChange reads) is not captured.
- MibIndexes.IndexTables.NetifRemoved: requires a non-empty interface list, because the source dereferences the list's tail without a check.
- MibIndexes.IndexTables.AddArpEntry: states the added row only when memory is available and the tree was well formed. After an allocation failure it gives the resulting tree, not a row-level meaning.

## Findings

| source | as written | input that shows it | evidently intended | confidence | as-written member | corrected member |
|---|---|---|---|---|---|---|
| src/core/snmp/mib2.c:2170-2175 | case 14 (ifInErrors) has no `break` and falls through to case 15, so ifInErrors reads ifInUnknownProtos | any interface whose in-errors and unknown-protocols counters differ, e.g. 3 and 0: ifInErrors reads 0 | ifInErrors reads the in-errors counter | high, not executed | InterfacesGroup.InErrorsFallThrough | InterfacesGroup.IfEntryGetValueIntended |
| src/core/snmp/mib2.c:2102-2134 | ifAdminStatus reports the link state (1, or 7 when the link is down) and ifOperStatus the administrative state | an interface that is up with its link down: `ifentry_set_test` accepts ifAdminStatus 1, and the read then returns 7, outside RFC 1213's up(1)/down(2)/testing(3) | ifAdminStatus is the desired state set by writes (up iff the interface is up); ifOperStatus carries the link state | medium, not executed | InterfacesGroup.AdminStatusOutOfRange | InterfacesGroup.AdminStatusSetThenGet |
