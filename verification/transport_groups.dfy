/** The MIB-II icmp, tcp and udp groups of RFC 1213: statistics counters,
    the tcp constants, the count of established connections and the
    udpTable rows. */
module TransportGroups {
  import opened MibTypes
  import opened Stack

  /** `MEMP_NUM_TCP_PCB`, reported as tcpMaxConn. */
  const MaxTcpPcbs: s32 := 5

  // ---------------------------------------------------------------- icmp

  /** The statistics counter behind icmp object `id`, 1..26 in the order of
      RFC 1213. */
  function IcmpStat(id: u8): Option<Stat>
  {
    match id
    case 1 => Some(IcmpInMsgs)
    case 2 => Some(IcmpInErrors)
    case 3 => Some(IcmpInDestUnreachs)
    case 4 => Some(IcmpInTimeExcds)
    case 5 => Some(IcmpInParmProbs)
    case 6 => Some(IcmpInSrcQuenchs)
    case 7 => Some(IcmpInRedirects)
    case 8 => Some(IcmpInEchos)
    case 9 => Some(IcmpInEchoReps)
    case 10 => Some(IcmpInTimestamps)
    case 11 => Some(IcmpInTimestampReps)
    case 12 => Some(IcmpInAddrMasks)
    case 13 => Some(IcmpInAddrMaskReps)
    case 14 => Some(IcmpOutMsgs)
    case 15 => Some(IcmpOutErrors)
    case 16 => Some(IcmpOutDestUnreachs)
    case 17 => Some(IcmpOutTimeExcds)
    case 18 => Some(IcmpOutParmProbs)
    case 19 => Some(IcmpOutSrcQuenchs)
    case 20 => Some(IcmpOutRedirects)
    case 21 => Some(IcmpOutEchos)
    case 22 => Some(IcmpOutEchoReps)
    case 23 => Some(IcmpOutTimestamps)
    case 24 => Some(IcmpOutTimestampReps)
    case 25 => Some(IcmpOutAddrMasks)
    case 26 => Some(IcmpOutAddrMaskReps)
    case _ => None
  }

  /** The icmp object that reads a statistics counter, the inverse of
      `IcmpStat`. */
  function IcmpStatId(s: Stat): u8
  {
    match s
    case IcmpInMsgs => 1
    case IcmpInErrors => 2
    case IcmpInDestUnreachs => 3
    case IcmpInTimeExcds => 4
    case IcmpInParmProbs => 5
    case IcmpInSrcQuenchs => 6
    case IcmpInRedirects => 7
    case IcmpInEchos => 8
    case IcmpInEchoReps => 9
    case IcmpInTimestamps => 10
    case IcmpInTimestampReps => 11
    case IcmpInAddrMasks => 12
    case IcmpInAddrMaskReps => 13
    case IcmpOutMsgs => 14
    case IcmpOutErrors => 15
    case IcmpOutDestUnreachs => 16
    case IcmpOutTimeExcds => 17
    case IcmpOutParmProbs => 18
    case IcmpOutSrcQuenchs => 19
    case IcmpOutRedirects => 20
    case IcmpOutEchos => 21
    case IcmpOutEchoReps => 22
    case IcmpOutTimestamps => 23
    case IcmpOutTimestampReps => 24
    case IcmpOutAddrMasks => 25
    case IcmpOutAddrMaskReps => 26
    case _ => 0
  }

  /** Each of the 26 icmp objects reads a counter, and a counter of its own. */
  lemma IcmpStatDistinct(id: u8)
    requires 1 <= id <= 26
    ensures IcmpStat(id).Some? && IcmpStatId(IcmpStat(id).value) == id
  {
  }

  /** `icmp_get_object_def`: the 26 read-only Counters. */
  function IcmpGetObjectDef(identLen: u8, ident: seq<s32>): (od: ObjDef)
    requires |ident| == identLen as int + 1
    ensures od.Object? <==> identLen == 1 && 0 < ident[0] < 27
    ensures od.Object? ==> od == Object(Scalar, ReadOnly, Counter, 4, ident)
  {
    if ToU8(identLen + 1) == 2 && 0 < ident[0] < 27 then Object(Scalar, ReadOnly, Counter, 4, ident)
    else NoObject
  }

  /** `icmp_get_value`: the statistic the object names; nothing for another id. */
  function IcmpGetValue(ident: seq<s32>, stats: Stats): (v: Value)
    requires |ident| >= 1
    ensures IcmpStat(Id(ident)).Some? ==> v == Word(stats(IcmpStat(Id(ident)).value))
    ensures !(1 <= Id(ident) <= 26) ==> v == Unwritten
  {
    match IcmpStat(Id(ident))
    case Some(s) => Word(stats(s))
    case None => Unwritten
  }

  /** Every icmp object writes a Counter. */
  lemma IcmpGetValueConforms(ident: seq<s32>, stats: Stats)
    requires |ident| == 2
    ensures var od := IcmpGetObjectDef(1, ident);
      od.Object? ==> Conforms(od.asnType, od.vLen, IcmpGetValue(ident, stats))
  {
  }

  // ----------------------------------------------------------------- tcp

  /** The statistics counter behind each Counter object of the tcp group. */
  function TcpStat(id: u8): Option<Stat>
  {
    match id
    case 5 => Some(TcpActiveOpens)
    case 6 => Some(TcpPassiveOpens)
    case 7 => Some(TcpAttemptFails)
    case 8 => Some(TcpEstabResets)
    case 10 => Some(TcpInSegs)
    case 11 => Some(TcpOutSegs)
    case 12 => Some(TcpRetransSegs)
    case 14 => Some(TcpInErrs)
    case 15 => Some(TcpOutRsts)
    case _ => None
  }

  /** The tcp object that reads a statistics counter, the inverse of `TcpStat`. */
  function TcpStatId(s: Stat): u8
  {
    match s
    case TcpActiveOpens => 5
    case TcpPassiveOpens => 6
    case TcpAttemptFails => 7
    case TcpEstabResets => 8
    case TcpInSegs => 10
    case TcpOutSegs => 11
    case TcpRetransSegs => 12
    case TcpInErrs => 14
    case TcpOutRsts => 15
    case _ => 0
  }

  /** Every tcp counter object reads a counter of its own. */
  lemma TcpStatDistinct(id: u8)
    requires TcpStat(id).Some?
    ensures TcpStatId(TcpStat(id).value) == id
  {
  }

  /** `tcp_get_object_def`: four read-only INTEGER constants (1..4), the
      Counters, and tcpCurrEstab (9), a Gauge the source marks as a table
      object; nothing for tcpConnTable (13) or another id. */
  function TcpGetObjectDef(identLen: u8, ident: seq<s32>): (od: ObjDef)
    requires |ident| == identLen as int + 1
    ensures od.Object? <==> identLen == 1 && 1 <= Id(ident) <= 15 && Id(ident) != 13
    ensures od.Object? ==> od.access == ReadOnly && od.vLen == 4 && od.idInst == ident
    ensures od.Object? && Id(ident) <= 4 ==> od.instance == Scalar && od.asnType == Integer
    ensures od.Object? && TcpStat(Id(ident)).Some? ==> od.instance == Scalar && od.asnType == Counter
    ensures od.Object? && Id(ident) == 9 ==> od.instance == Tab && od.asnType == Gauge
  {
    if ToU8(identLen + 1) == 2 then
      var id := Id(ident);
      if 1 <= id <= 4 then Object(Scalar, ReadOnly, Integer, 4, ident)
      else if TcpStat(id).Some? then Object(Scalar, ReadOnly, Counter, 4, ident)
      else if id == 9 then Object(Tab, ReadOnly, Gauge, 4, ident)
      else NoObject
    else NoObject
  }

  /** A connection RFC 1213 counts in tcpCurrEstab. */
  predicate Current(pcb: TcpPcb)
  {
    pcb.state == Established || pcb.state == CloseWait
  }

  /** The number of connections in ESTABLISHED or CLOSE-WAIT. */
  function CountEstab(pcbs: seq<TcpPcb>): (n: nat)
    ensures n <= |pcbs|
  {
    if |pcbs| == 0 then 0
    else CountEstab(pcbs[..|pcbs| - 1]) + (if Current(pcbs[|pcbs| - 1]) then 1 else 0)
  }

  /** Counting distributes over concatenation, so the count does not depend
      on how the list of active connections is split. */
  lemma {:induction false} CountEstabAppend(a: seq<TcpPcb>, b: seq<TcpPcb>)
    ensures CountEstab(a + b) == CountEstab(a) + CountEstab(b)
    decreases |b|
  {
    if |b| > 0 {
      assert (a + b)[..|a + b| - 1] == a + b[..|b| - 1];
      CountEstabAppend(a, b[..|b| - 1]);
    } else {
      assert a + b == a;
    }
  }

  /** Connections in any other state do not count; each current one does. */
  lemma {:induction false} CountEstabNone(pcbs: seq<TcpPcb>)
    ensures CountEstab(pcbs) == 0 <==> forall i :: 0 <= i < |pcbs| ==> !Current(pcbs[i])
    ensures CountEstab(pcbs) == |pcbs| <==> forall i :: 0 <= i < |pcbs| ==> Current(pcbs[i])
  {
    if |pcbs| > 0 {
      var init := pcbs[..|pcbs| - 1];
      CountEstabNone(init);
      assert forall i :: 0 <= i < |init| ==> init[i] == pcbs[i];
    }
  }

  /** The tcpCurrEstab loop of `tcp_get_value`: walks `tcp_active_pcbs`
      counting the current connections in a `u16_t`. */
  method CurrEstab(pcbs: seq<TcpPcb>) returns (n: u16)
    ensures n == ToU16(CountEstab(pcbs))
    ensures |pcbs| < 0x1_0000 ==> n == CountEstab(pcbs)
  {
    n := 0;
    var i := 0;
    while i < |pcbs|
      invariant 0 <= i <= |pcbs|
      invariant n == ToU16(CountEstab(pcbs[..i]))
    {
      assert pcbs[..i + 1][..i] == pcbs[..i];
      if Current(pcbs[i]) {
        n := ToU16(n + 1);
      }
      i := i + 1;
    }
    assert pcbs[..i] == pcbs;
  }

  /** tcpRtoAlgorithm: vanj (4), Van Jacobson's algorithm. */
  const RtoAlgorithm: s32 := 4

  /** tcpRtoMin and tcpRtoMax in milliseconds, the fixed values the agent
      reports rather than the stack's computed ones. */
  const RtoMin: s32 := 1000
  const RtoMax: s32 := 60000

  /** The values of `tcp_get_value` other than tcpCurrEstab: the Van
      Jacobson retransmission algorithm (4), the guessed bounds 1000 and
      60000, tcpMaxConn and the statistics. */
  function TcpScalarValue(id: u8, stats: Stats): (v: Value)
    ensures TcpStat(id).Some? ==> v == Word(stats(TcpStat(id).value))
    ensures id == 1 ==> v == Int(RtoAlgorithm)
    ensures id == 2 ==> v == Int(RtoMin)
    ensures id == 3 ==> v == Int(RtoMax)
    ensures id == 4 ==> v == Int(MaxTcpPcbs)
    ensures id == 9 || id == 13 || id == 0 || id > 15 ==> v == Unwritten
  {
    if id == 1 then Int(RtoAlgorithm)
    else if id == 2 then Int(RtoMin)
    else if id == 3 then Int(RtoMax)
    else if id == 4 then Int(MaxTcpPcbs)
    else match TcpStat(id)
      case Some(s) => Word(stats(s))
      case None => Unwritten
  }

  /** `tcp_get_value`. */
  method TcpGetValue(ident: seq<s32>, stats: Stats, pcbs: seq<TcpPcb>) returns (v: Value)
    requires |ident| >= 1
    ensures Id(ident) == 9 ==> v == Word(ToU16(CountEstab(pcbs)))
    ensures Id(ident) != 9 ==> v == TcpScalarValue(Id(ident), stats)
  {
    var id := Id(ident);
    if id == 9 {
      var n := CurrEstab(pcbs);
      v := Word(n);
    } else {
      v := TcpScalarValue(id, stats);
    }
  }

  /** With no more active connections than tcpMaxConn, tcpCurrEstab is
      exact and never exceeds tcpMaxConn. */
  lemma CurrEstabBounded(pcbs: seq<TcpPcb>)
    requires |pcbs| <= MaxTcpPcbs as int
    ensures ToU16(CountEstab(pcbs)) == CountEstab(pcbs) <= MaxTcpPcbs as int
  {
  }

  /** Every tcp object writes a value of the type and length its object
      definition announces. */
  lemma TcpGetValueConforms(ident: seq<s32>, stats: Stats, pcbs: seq<TcpPcb>)
    requires |ident| == 2
    ensures var od := TcpGetObjectDef(1, ident);
      od.Object? ==>
        Conforms(od.asnType, od.vLen,
          if Id(ident) == 9 then Word(ToU16(CountEstab(pcbs))) else TcpScalarValue(Id(ident), stats))
  {
  }

  // ----------------------------------------------------------------- udp

  /** The statistics counter behind udp object `id`. */
  function UdpStat(id: u8): Option<Stat>
  {
    match id
    case 1 => Some(UdpInDatagrams)
    case 2 => Some(UdpNoPorts)
    case 3 => Some(UdpInErrors)
    case 4 => Some(UdpOutDatagrams)
    case _ => None
  }

  /** `udp_get_object_def`: read-only Counters for the ids 1..5. The range
      takes in 5, udpTable, which the registration tree routes to the table
      and never here. */
  function UdpGetObjectDef(identLen: u8, ident: seq<s32>): (od: ObjDef)
    requires |ident| == identLen as int + 1
    ensures od.Object? <==> identLen == 1 && 0 < ident[0] < 6
    ensures od.Object? ==> od == Object(Scalar, ReadOnly, Counter, 4, ident)
  {
    if ToU8(identLen + 1) == 2 && 0 < ident[0] < 6 then Object(Scalar, ReadOnly, Counter, 4, ident)
    else NoObject
  }

  /** `udp_get_value`: the four udp statistics. */
  function UdpGetValue(ident: seq<s32>, stats: Stats): (v: Value)
    requires |ident| >= 1
    ensures UdpStat(Id(ident)).Some? ==> v == Word(stats(UdpStat(Id(ident)).value))
    ensures !(1 <= Id(ident) <= 4) ==> v == Unwritten
  {
    match UdpStat(Id(ident))
    case Some(s) => Word(stats(s))
    case None => Unwritten
  }

  /** The four udp counters are distinct statistics. */
  lemma UdpStatDistinct(i: u8, j: u8)
    requires UdpStat(i).Some? && UdpStat(j).Some? && i != j
    ensures UdpStat(i).value != UdpStat(j).value
  {
  }

  /** Every udp scalar the registration tree can reach (1..4) writes a
      Counter; the id 5 that `udp_get_object_def` also accepts writes
      nothing. */
  lemma UdpGetValueConforms(ident: seq<s32>, stats: Stats)
    requires |ident| == 2
    ensures var od := UdpGetObjectDef(1, ident);
      od.Object? && ident[0] != 5 ==> Conforms(od.asnType, od.vLen, UdpGetValue(ident, stats))
    ensures ident[0] == 5 ==> UdpGetObjectDef(1, ident).Object? && UdpGetValue(ident, stats) == Unwritten
  {
  }

  /** `udpentry_get_object_def`: `udpEntry.<id>.<a>.<b>.<c>.<d>.<port>` with
      udpLocalAddress (1) and udpLocalPort (2), both read-only. */
  function UdpEntryGetObjectDef(identLen: u8, ident: seq<s32>): (od: ObjDef)
    requires |ident| == identLen as int + 5
    ensures od.Object? <==> identLen == 1 && 1 <= ident[0] <= 2
    ensures od.Object? ==> od.instance == Tab && od.access == ReadOnly && od.vLen == 4 && od.idInst == ident
    ensures od.Object? ==> od.asnType == (if ident[0] == 1 then IpAddress else Integer)
  {
    if ToU8(identLen + 5) == 6 then
      if ident[0] == 1 then Object(Tab, ReadOnly, IpAddress, 4, ident)
      else if ident[0] == 2 then Object(Tab, ReadOnly, Integer, 4, ident)
      else NoObject
    else NoObject
  }

  /** A pcb bound to IPv4 address `ip` and port `port`. */
  predicate BoundTo(pcb: UdpPcb, ip: Ip4, port: u16)
  {
    pcb.localIp == V4(ip) && pcb.localPort == port
  }

  /** The position of the first pcb of `udp_pcbs` bound to `ip`:`port`. */
  function FirstBound(pcbs: seq<UdpPcb>, ip: Ip4, port: u16): (k: Option<nat>)
    ensures k.Some? ==> k.value < |pcbs| && BoundTo(pcbs[k.value], ip, port)
    ensures k.Some? ==> forall j :: 0 <= j < k.value ==> !BoundTo(pcbs[j], ip, port)
    ensures k.None? ==> forall j :: 0 <= j < |pcbs| ==> !BoundTo(pcbs[j], ip, port)
  {
    if |pcbs| == 0 then None
    else if BoundTo(pcbs[0], ip, port) then Some(0)
    else match FirstBound(pcbs[1..], ip, port)
      case None => None
      case Some(k) => Some(k + 1)
  }

  /** The row's address and port: four octets and a sixteen-bit port taken
      from the index. */
  function UdpIndexAddr(ident: seq<s32>): Ip4
    requires |ident| == 6
  {
    OidToIp(ident[1..5])
  }

  /** `udpentry_get_value`: walks `udp_pcbs` for the first pcb bound to the
      row's address and port; writes its address (1) or port (2), or nothing
      when there is no such pcb. */
  method UdpEntryGetValue(ident: seq<s32>, pcbs: seq<UdpPcb>) returns (v: Value)
    requires |ident| == 6
    ensures match FirstBound(pcbs, UdpIndexAddr(ident), ToU16(ident[5]))
      case None => v == Unwritten
      case Some(k) =>
        v == (if Id(ident) == 1 then Addr(UdpIndexAddr(ident))
              else if Id(ident) == 2 then Int(ToU16(ident[5]))
              else Unwritten) &&
        (Id(ident) == 1 ==> v == Addr(pcbs[k].localIp.v4)) &&
        (Id(ident) == 2 ==> v == Int(pcbs[k].localPort))
  {
    var ip := OidToIp(ident[1..5]);
    var port := ToU16(ident[5]);
    var i := 0;
    while i < |pcbs| && !BoundTo(pcbs[i], ip, port)
      invariant 0 <= i <= |pcbs|
      invariant forall j :: 0 <= j < i ==> !BoundTo(pcbs[j], ip, port)
    {
      i := i + 1;
    }
    FirstBoundIsFirst(pcbs, ip, port, i);
    if i < |pcbs| {
      var id := Id(ident);
      if id == 1 {
        v := Addr(pcbs[i].localIp.v4);
      } else if id == 2 {
        v := Int(pcbs[i].localPort);
      } else {
        v := Unwritten;
      }
    } else {
      v := Unwritten;
    }
  }

  /** The first position whose pcb is bound to `ip`:`port`, or the end of
      the list when none is, is what `FirstBound` answers. */
  lemma FirstBoundIsFirst(pcbs: seq<UdpPcb>, ip: Ip4, port: u16, i: nat)
    requires i <= |pcbs|
    requires forall j :: 0 <= j < i ==> !BoundTo(pcbs[j], ip, port)
    requires i < |pcbs| ==> BoundTo(pcbs[i], ip, port)
    ensures FirstBound(pcbs, ip, port) == if i < |pcbs| then Some(i) else None
  {
  }

  /** The row `mib2_udp_bind` indexes for a pcb bound to an IPv4 address
      finds a pcb, and reads back that address and port. */
  lemma UdpEntryReadsBack(pcbs: seq<UdpPcb>, k: nat)
    requires k < |pcbs| && pcbs[k].localIp.V4?
    ensures var ident := [1] + IpToOid(pcbs[k].localIp.v4) + [pcbs[k].localPort];
      |ident| == 6 &&
      UdpIndexAddr(ident) == pcbs[k].localIp.v4 && ToU16(ident[5]) == pcbs[k].localPort &&
      FirstBound(pcbs, UdpIndexAddr(ident), ToU16(ident[5])).Some?
  {
    var ip := pcbs[k].localIp.v4;
    var ident := [1] + IpToOid(ip) + [pcbs[k].localPort];
    assert ident[1..5] == IpToOid(ip);
    OidToIpOfIpToOid(ip);
    assert BoundTo(pcbs[k], ip, pcbs[k].localPort);
  }

  /** Both udpEntry objects of a row with a bound pcb write a value of the
      type and length the object definition announces. */
  lemma UdpEntryValueConforms(ident: seq<s32>)
    requires |ident| == 6
    ensures var od := UdpEntryGetObjectDef(1, ident);
      od.Object? ==>
        Conforms(od.asnType, od.vLen,
          if Id(ident) == 1 then Addr(UdpIndexAddr(ident))
          else if Id(ident) == 2 then Int(ToU16(ident[5])) else Unwritten)
  {
  }
}
