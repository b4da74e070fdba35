/** The MIB-II interfaces group of RFC 1213: ifNumber and the
    ifTable, one row per network interface, indexed by ifIndex.

    The row's interface is what `snmp_ifindextonetif` finds for the index; that
    lookup is outside this model, so the interface is a parameter. */
module InterfacesGroup {
  import opened MibTypes
  import opened Stack

  /** ifSpecific: `zeroDotZero`, the object identifier 0.0. */
  const IfSpecific: SnmpObjId := SnmpObjId(2, [0, 0])

  /** A `struct netif` as drivers fill it: a two-character name and a
      hardware address of at most `NETIF_MAX_HWADDR_LEN` (6) bytes. */
  predicate NetifValid(n: Netif)
  {
    |n.name| == 2 && |n.hwaddr| == 6 && n.hwaddrLen <= 6
  }

  /** `interfaces_get_object_def`: ifNumber.0 is a read-only INTEGER; any
      identifier of the right depth is accepted whatever its object id. */
  function InterfacesGetObjectDef(identLen: u8, ident: seq<s32>): (od: ObjDef)
    requires |ident| == identLen as int + 1
    ensures od.Object? <==> identLen == 1
    ensures od.Object? ==> od == Object(Scalar, ReadOnly, Integer, 4, ident)
  {
    if ToU8(identLen + 1) == 2 then Object(Scalar, ReadOnly, Integer, 4, ident) else NoObject
  }

  /** `interfaces_get_value`: ifNumber is the number of ifIndex values in the
      interface list, as the list's 16-bit node count holds it; other ids
      write nothing. */
  function InterfacesGetValue(ident: seq<s32>, ifList: set<int>): (v: Value)
    requires |ident| >= 1
    ensures ident[0] == 1 && |ifList| < 0x1_0000 ==> v == Int(|ifList|)
    ensures ident[0] == 1 ==> v.Int? && (v.i - |ifList|) % 0x1_0000 == 0
    ensures ident[0] != 1 ==> v == Unwritten
  {
    if ident[0] == 1 then Int(ToU16(|ifList|)) else Unwritten
  }

  /** ifEntry objects with an INTEGER value: ifIndex, ifType, ifMtu,
      ifAdminStatus and ifOperStatus. */
  predicate IfInteger(id: u8) { id == 1 || id == 3 || id == 4 || id == 7 || id == 8 }

  /** ifEntry objects with a Counter value: ifInOctets .. ifOutErrors. */
  predicate IfCounter(id: u8) { 10 <= id <= 20 }

  /** `ifentry_get_object_def`: an object exactly for `ifEntry.<id>.<ifIndex>`
      with `id` in 1..22; only ifAdminStatus (7) is writable. */
  function IfEntryGetObjectDef(identLen: u8, ident: seq<s32>, netif: Netif): (od: ObjDef)
    requires |ident| == identLen as int + 1
    ensures od.Object? <==> identLen == 1 && 1 <= Id(ident) <= 22
    ensures od.Object? ==> od.instance == Tab && od.idInst == ident
    ensures od.Object? ==> (od.access == ReadWrite <==> Id(ident) == 7)
    ensures od.Object? && IfInteger(Id(ident)) ==> od.asnType == Integer && od.vLen == 4
    ensures od.Object? && IfCounter(Id(ident)) ==> od.asnType == Counter && od.vLen == 4
    ensures od.Object? && (Id(ident) == 5 || Id(ident) == 21) ==> od.asnType == Gauge && od.vLen == 4
    ensures od.Object? && Id(ident) == 2 ==> od.asnType == OctetString && od.vLen == 2
    ensures od.Object? && Id(ident) == 6 ==> od.asnType == OctetString && od.vLen == netif.hwaddrLen
    ensures od.Object? && Id(ident) == 9 ==> od.asnType == TimeTicks && od.vLen == 4
    ensures od.Object? && Id(ident) == 22 ==> od.asnType == ObjectId && od.vLen == 4 * IfSpecific.len
  {
    if ToU8(identLen + 1) == 2 then
      var id := Id(ident);
      if IfInteger(id) then
        Object(Tab, if id == 7 then ReadWrite else ReadOnly, Integer, 4, ident)
      else if id == 2 then Object(Tab, ReadOnly, OctetString, 2, ident)
      else if id == 5 || id == 21 then Object(Tab, ReadOnly, Gauge, 4, ident)
      else if id == 6 then Object(Tab, ReadOnly, OctetString, netif.hwaddrLen, ident)
      else if id == 9 then Object(Tab, ReadOnly, TimeTicks, 4, ident)
      else if IfCounter(id) then Object(Tab, ReadOnly, Counter, 4, ident)
      else if id == 22 then Object(Tab, ReadOnly, ObjectId, IfSpecific.len * 4, ident)
      else NoObject
    else NoObject
  }

  /** The interface counter RFC 1213 names by ifEntry object id 10..20. */
  function CounterFor(id: u8, c: IfCounters): u32
    requires IfCounter(id)
  {
    match id
    case 10 => c.inOctets
    case 11 => c.inUcastPkts
    case 12 => c.inNUcastPkts
    case 13 => c.inDiscards
    case 14 => c.inErrors
    case 15 => c.inUnknownProtos
    case 16 => c.outOctets
    case 17 => c.outUcastPkts
    case 18 => c.outNUcastPkts
    case 19 => c.outDiscards
    case 20 => c.outErrors
  }

  /** The interface's link state: up (1) when the interface and its link are
      up, down (2) when the interface is down, and 7 when only the link is
      down (`lowerLayerDown` in RFC 2863). The code reports it as
      ifAdminStatus; it is what ifOperStatus is meant to carry. */
  function LinkStatus(netif: Netif): (s: s32)
    ensures s == 1 <==> netif.up && netif.linkUp
    ensures s == 2 <==> !netif.up
    ensures netif.up && !netif.linkUp ==> s == 7
  {
    if netif.up then (if netif.linkUp then 1 else 7) else 2
  }

  /** The interface's administrative state, up (1) or down (2): what
      ifAdminStatus means in RFC 1213. The code reports it as ifOperStatus. */
  function AdminStatus(netif: Netif): (s: s32)
    ensures s == 1 || s == 2
    ensures s == 1 <==> netif.up
  {
    if netif.up then 1 else 2
  }

  /** `ifentry_get_value` as written. The case for ifInErrors (14) has no
      `break` and falls through into ifInUnknownProtos (15), so it leaves the
      unknown-protocols counter in the value. */
  function IfEntryGetValue(ident: seq<s32>, len: u16, netif: Netif): (v: Value)
    requires |ident| >= 2 && NetifValid(netif)
    requires Id(ident) == 2 ==> len as int <= |netif.name|
    requires Id(ident) == 6 ==> len as int <= |netif.hwaddr|
    requires Id(ident) == 22 ==> len as int / 4 <= |IfSpecific.id|
    ensures Id(ident) == 1 ==> v == Int(ident[1])
    ensures Id(ident) == 2 ==> v == Octets(netif.name[..len])
    ensures Id(ident) == 3 ==> v == Int(netif.linkType)
    ensures Id(ident) == 4 ==> v == Int(netif.mtu)
    ensures Id(ident) == 5 ==> v == Word(netif.linkSpeed)
    ensures Id(ident) == 6 ==> v == Octets(netif.hwaddr[..len])
    ensures Id(ident) == 7 ==> v == Int(LinkStatus(netif))
    ensures Id(ident) == 8 ==> v == Int(AdminStatus(netif))
    ensures IfCounter(Id(ident)) && Id(ident) != 14 ==> v == Word(CounterFor(Id(ident), netif.counters))
    ensures Id(ident) == 14 ==> v == Word(netif.counters.inUnknownProtos)
    ensures Id(ident) == 9 ==> v == Word(netif.ts)
    ensures Id(ident) == 21 ==> v == Word(0)
    ensures Id(ident) == 22 ==> v == Oid(IfSpecific.id[..len / 4])
    ensures !(1 <= Id(ident) <= 22) ==> v == Unwritten
  {
    var id := Id(ident);
    var c := netif.counters;
    if id == 1 then Int(ident[1])
    else if id == 2 then Octets(netif.name[..len])
    else if id == 3 then Int(netif.linkType)
    else if id == 4 then Int(netif.mtu)
    else if id == 5 then Word(netif.linkSpeed)
    else if id == 6 then Octets(netif.hwaddr[..len])
    else if id == 7 then Int(LinkStatus(netif))
    else if id == 8 then Int(AdminStatus(netif))
    else if id == 9 then Word(netif.ts)
    else if id == 10 then Word(c.inOctets)
    else if id == 11 then Word(c.inUcastPkts)
    else if id == 12 then Word(c.inNUcastPkts)
    else if id == 13 then Word(c.inDiscards)
    else if id == 14 || id == 15 then Word(c.inUnknownProtos)
    else if id == 16 then Word(c.outOctets)
    else if id == 17 then Word(c.outUcastPkts)
    else if id == 18 then Word(c.outNUcastPkts)
    else if id == 19 then Word(c.outDiscards)
    else if id == 20 then Word(c.outErrors)
    else if id == 21 then Word(0)
    else if id == 22 then Oid(IfSpecific.id[..len / 4])
    else Unwritten
  }

  /** `ifentry_get_value` with its two defects corrected: every counter object
      reads its own counter, and the administrative and operational status
      are not swapped. */
  function IfEntryGetValueIntended(ident: seq<s32>, len: u16, netif: Netif): (v: Value)
    requires |ident| >= 2 && NetifValid(netif)
    requires Id(ident) == 2 ==> len as int <= |netif.name|
    requires Id(ident) == 6 ==> len as int <= |netif.hwaddr|
    requires Id(ident) == 22 ==> len as int / 4 <= |IfSpecific.id|
    ensures IfCounter(Id(ident)) ==> v == Word(CounterFor(Id(ident), netif.counters))
    ensures Id(ident) == 7 ==> v == Int(AdminStatus(netif))
    ensures Id(ident) == 8 ==> v == Int(LinkStatus(netif))
    ensures Id(ident) !in {7, 8, 14} ==> v == IfEntryGetValue(ident, len, netif)
  {
    var id := Id(ident);
    if id == 7 then Int(AdminStatus(netif))
    else if id == 8 then Int(LinkStatus(netif))
    else if id == 14 then Word(netif.counters.inErrors)
    else IfEntryGetValue(ident, len, netif)
  }

  /** `ifentry_set_test`: only ifAdminStatus accepts a write, and only the
      values up (1) and down (2). */
  function IfEntrySetTest(ident: seq<s32>, value: s32): (ok: bool)
    requires |ident| >= 1
    ensures ok <==> Id(ident) == 7 && (value == 1 || value == 2)
  {
    Id(ident) == 7 && (value == 1 || value == 2)
  }

  /** `ifentry_set_value`: writing ifAdminStatus brings the interface up (1)
      or down (2). The model changes only the `up` flag; what the stack's
      `netif_set_up`/`netif_set_down` do besides is outside it. */
  function IfEntrySetValue(ident: seq<s32>, netif: Netif, value: s32): (n: Netif)
    requires |ident| >= 1
    ensures Id(ident) == 7 && value == 1 ==> n == netif.(up := true)
    ensures Id(ident) == 7 && value == 2 ==> n == netif.(up := false)
    ensures !(Id(ident) == 7 && (value == 1 || value == 2)) ==> n == netif
  {
    if Id(ident) == 7 then
      if value == 1 then netif.(up := true)
      else if value == 2 then netif.(up := false)
      else netif
    else netif
  }

  /** Every ifEntry object writes a value of the type and length its object
      definition announces, as written and as corrected. */
  lemma IfEntryGetValueConforms(ident: seq<s32>, netif: Netif)
    requires |ident| == 2 && NetifValid(netif)
    ensures var od := IfEntryGetObjectDef(1, ident, netif);
      od.Object? ==>
        Conforms(od.asnType, od.vLen, IfEntryGetValue(ident, od.vLen, netif)) &&
        Conforms(od.asnType, od.vLen, IfEntryGetValueIntended(ident, od.vLen, netif))
  {
  }

  /** A write of ifAdminStatus that the test accepts is what the corrected
      read returns afterwards. */
  lemma AdminStatusSetThenGet(ident: seq<s32>, netif: Netif, value: s32)
    requires |ident| == 2 && NetifValid(netif)
    requires IfEntrySetTest(ident, value)
    ensures IfEntryGetValueIntended(ident, 4, IfEntrySetValue(ident, netif, value)) == Int(value)
  {
  }

  /** As written, ifInErrors reads the unknown-protocols counter: on an
      interface whose counters differ there, the value is not ifInErrors. */
  lemma InErrorsFallThrough(ident: seq<s32>, netif: Netif)
    requires |ident| == 2 && Id(ident) == 14 && NetifValid(netif)
    requires netif.counters.inErrors != netif.counters.inUnknownProtos
    ensures IfEntryGetValue(ident, 4, netif) != Word(CounterFor(14, netif.counters))
    ensures IfEntryGetValue(ident, 4, netif) == IfEntryGetValue([15, ident[1]], 4, netif)
  {
  }

  /** As written, an interface that is up with its link down reports
      ifAdminStatus 7, a value outside RFC 1213's up (1), down (2),
      testing (3); and a successful write of up (1) then reads back 7. */
  lemma AdminStatusOutOfRange(ident: seq<s32>, netif: Netif)
    requires |ident| == 2 && Id(ident) == 7 && NetifValid(netif)
    requires !netif.linkUp
    ensures IfEntrySetTest(ident, 1)
    ensures IfEntryGetValue(ident, 4, IfEntrySetValue(ident, netif, 1)) == Int(7)
  {
  }
}
