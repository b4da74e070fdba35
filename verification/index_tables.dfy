/** The index trees of the MIB-II tables as the stack keeps them up to date:
    the interface list of the ifTable, the atTable and ipNetToMediaTable
    trees fed by ARP, the ipAddrTable and ipRouteTable trees fed by
    interface configuration, and the udpTable tree fed by UDP binds. Each
    table's `maxlength` turns get-next traversal of the table on (1) and off
    (0). */
module MibIndexes {
  import opened MibTypes
  import opened Stack
  import opened IndexTree
  import InterfacesGroup

  /** Index components of the atTable and ipNetToMediaTable:
      ifIndex.a.b.c.d */
  const ArpDepth := 5
  /** Index components of the ipAddrTable and ipRouteTable: a.b.c.d */
  const AddrDepth := 4
  /** Index components of the udpTable: a.b.c.d.port */
  const UdpDepth := 5

  /** The index `mib2_add_arp_entry` and `mib2_remove_arp_entry` build. */
  function ArpIndex(ifIndex: s32, ip: Ip4): (idx: Path)
    ensures |idx| == ArpDepth && idx[0] == ifIndex && idx[1..] == IpToOid(ip)
  {
    [ifIndex] + IpToOid(ip)
  }

  /** The index `mib2_udp_bind` and `mib2_udp_unbind` build. */
  function UdpIndex(ip: Ip4, port: u16): (idx: Path)
    ensures |idx| == UdpDepth && idx[..4] == IpToOid(ip) && idx[4] == port as int
  {
    IpToOid(ip) + [port as s32]
  }

  /** The destination `mib2_add_route_ip4` and `mib2_remove_route_ip4` act
      on: 0.0.0.0 for the default route, otherwise the interface's network,
      none when that network is 0.0.0.0. */
  function RouteDest(dflt: u8, ni: Option<Netif>): (d: Option<Ip4>)
    requires dflt != 0 || ni.Some?
    ensures dflt != 0 ==> d.Some? && d.value.IsAny()
    ensures d.Some? ==> (d.value.IsAny() <==> dflt != 0)
    ensures dflt == 0 && d.Some? ==> d.value == ni.value.ip.Network(ni.value.netmask)
    ensures dflt == 0 ==> (d.None? <==> ni.value.ip.Network(ni.value.netmask).IsAny())
  {
    if dflt != 0 then Some(Ip4(0, 0, 0, 0))
    else
      var dst := ni.value.ip.Network(ni.value.netmask);
      if dst.IsAny() then None else Some(dst)
  }

  /** A PCB bound to the same local address (IPv4 or IPv6, as `ip_addr_cmp`
      compares them) and port as `pcb`. */
  predicate SameBinding(q: UdpPcb, pcb: UdpPcb)
  {
    q.localIp == pcb.localIp && q.localPort == pcb.localPort
  }

  /** The number of PCBs on the list bound as `pcb` is. */
  function Bindings(pcbs: seq<UdpPcb>, pcb: UdpPcb): (n: nat)
    ensures n <= |pcbs|
    ensures n == 0 <==> forall i :: 0 <= i < |pcbs| ==> !SameBinding(pcbs[i], pcb)
  {
    if |pcbs| == 0 then 0
    else Bindings(pcbs[..|pcbs| - 1], pcb) + (if SameBinding(pcbs[|pcbs| - 1], pcb) then 1 else 0)
  }

  /** A `u8_t` counter stepped by one stays the count taken modulo 256. */
  lemma ToU8Succ(n: int)
    ensures ToU8(ToU8(n) + 1) == ToU8(n + 1)
  {
    var q := n / 0x100;
    assert n == q * 0x100 + ToU8(n);
  }

  /** The counting loop of `mib2_udp_unbind`, in its `u8_t` counter. */
  method CountBindings(pcbs: seq<UdpPcb>, pcb: UdpPcb) returns (bindings: u8)
    ensures bindings == ToU8(Bindings(pcbs, pcb))
  {
    bindings := 0;
    var i := 0;
    while i < |pcbs|
      invariant 0 <= i <= |pcbs|
      invariant bindings == ToU8(Bindings(pcbs[..i], pcb))
    {
      assert pcbs[..i + 1][..i] == pcbs[..i];
      if SameBinding(pcbs[i], pcb) {
        ToU8Succ(Bindings(pcbs[..i], pcb));
        bindings := ToU8(bindings as int + 1);
      }
      i := i + 1;
    }
    assert pcbs[..i] == pcbs;
  }

  /** The counter wraps: 257 PCBs sharing one binding count as one, so
      unbinding one of them removes the udpTable row the others still
      need. */
  lemma BindingsWrap(pcb: UdpPcb)
    ensures Bindings(seq(257, i => pcb), pcb) == 257
    ensures ToU8(Bindings(seq(257, i => pcb), pcb)) == 1
  {
    var s := seq(257, i => pcb);
    forall n | 0 <= n <= 257 ensures Bindings(s[..n], pcb) == n {
      BindingsOfSame(s, pcb, n);
    }
    assert s[..257] == s;
  }

  lemma {:induction false} BindingsOfSame(s: seq<UdpPcb>, pcb: UdpPcb, n: nat)
    requires n <= |s| && forall i :: 0 <= i < |s| ==> s[i] == pcb
    ensures Bindings(s[..n], pcb) == n
  {
    if n > 0 {
      assert s[..n][..n - 1] == s[..n - 1];
      BindingsOfSame(s, pcb, n - 1);
    }
  }

  /** A table's traversal is on or off, and on whenever its list root has
      a node. */
  ghost predicate TraversalKept(t: Tree, maxlength: u16)
  {
    [] in t && maxlength <= 1 && (t[[]] != {} ==> maxlength == 1)
  }

  /** The insertion step every `mib2_add_*` function shares: the index goes
      into the tree with the allocations `fails` allows, and the table's
      traversal is on. */
  method AddRow(t: Tree, idx: Path, fails: seq<bool>) returns (r: Tree, rest: seq<bool>)
    requires [] in t
    ensures Walk(r, rest) == InsertFrom(t, [], idx, 0, fails)
    ensures TraversalKept(r, 1)
    ensures fails == [] ==> rest == []
    ensures |idx| > 0 && fails == [] && Wf(t, |idx|) ==> RowAdded(t, r, idx)
  {
    InsertMeaning(t, idx, fails);
    r, rest := InsertIndex(t, idx, fails);
  }

  /** The removal step every `mib2_remove_*` function shares: the index
      leaves the tree, and the table's traversal goes off when the list root
      is left empty. */
  method DropRow(t: Tree, maxlength: u16, idx: Path) returns (r: Tree, m: u16)
    requires TraversalKept(t, maxlength)
    ensures r == RemoveFrom(t, idx)
    ensures m == if r[[]] == {} then 0 else maxlength
    ensures TraversalKept(r, m)
    ensures |idx| > 0 && Wf(t, |idx|) ==> RowDropped(t, r, idx)
  {
    RemoveMeaning(t, idx);
    r := RemoveIndex(t, idx);
    m := maxlength;
    if |r[[]]| == 0 {
      m := 0;
    }
  }

  class IndexTables {
    /** The ifIndex values in the interface list. */
    var ifList: set<int>
    var arpTree: Tree
    var ntomTree: Tree
    var addrTree: Tree
    var rteTree: Tree
    var udpTree: Tree
    /** The `maxlength` of iftable, at, ipntomtable, ipaddrtable,
        iprtetable and udptable. */
    var ifMax: u16
    var atMax: u16
    var ntomMax: u16
    var addrMax: u16
    var rteMax: u16
    var udpMax: u16

    /** The interface list numbers its interfaces from 1, and traversal of
        the ifTable is on while the list has a node. */
    ghost predicate IfValid()
      reads this`ifList, this`ifMax
    {
      && (forall i :: i in ifList <==> 1 <= i <= |ifList|)
      && ifMax <= 1 && (ifList != {} ==> ifMax == 1)
    }

    ghost predicate ArpValid()
      reads this`arpTree, this`atMax, this`ntomTree, this`ntomMax
    {
      TraversalKept(arpTree, atMax) && TraversalKept(ntomTree, ntomMax)
    }

    ghost predicate AddrValid()
      reads this`addrTree, this`addrMax
    {
      TraversalKept(addrTree, addrMax)
    }

    ghost predicate RteValid()
      reads this`rteTree, this`rteMax
    {
      TraversalKept(rteTree, rteMax)
    }

    ghost predicate UdpValid()
      reads this`udpTree, this`udpMax
    {
      TraversalKept(udpTree, udpMax)
    }

    ghost predicate Valid()
      reads this
    {
      IfValid() && ArpValid() && AddrValid() && RteValid() && UdpValid()
    }

    /** The tables at start-up: empty, with traversal off. */
    constructor ()
      ensures Valid()
      ensures ifList == {}
      ensures arpTree == EmptyTree && ntomTree == EmptyTree && addrTree == EmptyTree
      ensures rteTree == EmptyTree && udpTree == EmptyTree
      ensures ifMax == 0 && atMax == 0 && ntomMax == 0 && addrMax == 0 && rteMax == 0 && udpMax == 0
    {
      ifList := {};
      arpTree, ntomTree, addrTree, rteTree, udpTree := EmptyTree, EmptyTree, EmptyTree, EmptyTree, EmptyTree;
      ifMax, atMax, ntomMax, addrMax, rteMax, udpMax := 0, 0, 0, 0, 0, 0;
    }

    /** `mib2_netif_added`: the next ifIndex joins the interface list unless
        its list node cannot be allocated; traversal goes on regardless. */
    method NetifAdded(allocFails: bool)
      requires Valid()
      modifies this`ifList, this`ifMax
      ensures Valid()
      ensures ifList == if allocFails then old(ifList) else old(ifList) + {|old(ifList)| + 1}
      ensures ifMax == 1
    {
      if !allocFails {
        ifList := ifList + {|ifList| + 1};
      }
      ifMax := 1;
    }

    /** `mib2_netif_removed`: the last node of the interface list, the
        highest ifIndex, goes; traversal goes off when the list empties. */
    method NetifRemoved()
      requires Valid() && ifList != {}
      modifies this`ifList, this`ifMax
      ensures Valid()
      ensures ifList == old(ifList) - {|old(ifList)|}
      ensures |ifList| == |old(ifList)| - 1
      ensures ifMax == if ifList == {} then 0 else old(ifMax)
    {
      var tail := |ifList|;
      assert tail in ifList;
      ifList := ifList - {tail};
      if |ifList| == 0 {
        ifMax := 0;
      }
    }

    /** `mib2_add_arp_entry`: the index ifIndex.a.b.c.d goes into the atTable
        tree, then into the ipNetToMediaTable tree with the allocations that
        remain; traversal of both goes on. */
    method AddArpEntry(k: nat, ip: Ip4, fails: seq<bool>)
      requires Valid()
      modifies this`arpTree, this`ntomTree, this`atMax, this`ntomMax
      ensures Valid()
      ensures var idx := ArpIndex(IfIndexOf(k), ip);
        var w := InsertFrom(old(arpTree), [], idx, 0, fails);
        arpTree == w.tree && ntomTree == InsertFrom(old(ntomTree), [], idx, 0, w.fails).tree
      ensures atMax == 1 && ntomMax == 1
      ensures fails == [] && Wf(old(arpTree), ArpDepth) ==>
        RowAdded(old(arpTree), arpTree, ArpIndex(IfIndexOf(k), ip))
      ensures fails == [] && Wf(old(ntomTree), ArpDepth) ==>
        RowAdded(old(ntomTree), ntomTree, ArpIndex(IfIndexOf(k), ip))
    {
      var idx := ArpIndex(IfIndexOf(k), ip);
      var rest := AddAtRow(idx, fails);
      AddNtomRow(idx, rest);
    }

    /** The atTable half of `mib2_add_arp_entry`; `rest` holds the
        allocation outcomes its walk did not use. */
    method AddAtRow(idx: Path, fails: seq<bool>) returns (rest: seq<bool>)
      requires Valid()
      modifies this`arpTree, this`atMax
      ensures Valid()
      ensures Walk(arpTree, rest) == InsertFrom(old(arpTree), [], idx, 0, fails)
      ensures atMax == 1
      ensures fails == [] ==> rest == []
      ensures |idx| > 0 && fails == [] && Wf(old(arpTree), |idx|) ==> RowAdded(old(arpTree), arpTree, idx)
    {
      var at;
      at, rest := AddRow(arpTree, idx, fails);
      arpTree, atMax := at, 1;
    }

    /** The ipNetToMediaTable half of `mib2_add_arp_entry`. */
    method AddNtomRow(idx: Path, fails: seq<bool>)
      requires Valid()
      modifies this`ntomTree, this`ntomMax
      ensures Valid()
      ensures ntomTree == InsertFrom(old(ntomTree), [], idx, 0, fails).tree
      ensures ntomMax == 1
      ensures |idx| > 0 && fails == [] && Wf(old(ntomTree), |idx|) ==> RowAdded(old(ntomTree), ntomTree, idx)
    {
      var ntom, _ := AddRow(ntomTree, idx, fails);
      ntomTree, ntomMax := ntom, 1;
    }

    /** `mib2_remove_arp_entry`: the index leaves both trees; traversal of
        a table goes off when its list root empties. */
    method RemoveArpEntry(k: nat, ip: Ip4)
      requires Valid()
      modifies this`arpTree, this`ntomTree, this`atMax, this`ntomMax
      ensures Valid()
      ensures arpTree == RemoveFrom(old(arpTree), ArpIndex(IfIndexOf(k), ip))
      ensures ntomTree == RemoveFrom(old(ntomTree), ArpIndex(IfIndexOf(k), ip))
      ensures atMax == if arpTree[[]] == {} then 0 else old(atMax)
      ensures ntomMax == if ntomTree[[]] == {} then 0 else old(ntomMax)
      ensures Wf(old(arpTree), ArpDepth) ==>
        RowDropped(old(arpTree), arpTree, ArpIndex(IfIndexOf(k), ip))
      ensures Wf(old(ntomTree), ArpDepth) ==>
        RowDropped(old(ntomTree), ntomTree, ArpIndex(IfIndexOf(k), ip))
    {
      var idx := ArpIndex(IfIndexOf(k), ip);
      DropAtRow(idx);
      DropNtomRow(idx);
    }

    /** The atTable half of `mib2_remove_arp_entry`. */
    method DropAtRow(idx: Path)
      requires Valid()
      modifies this`arpTree, this`atMax
      ensures Valid()
      ensures arpTree == RemoveFrom(old(arpTree), idx)
      ensures atMax == if arpTree[[]] == {} then 0 else old(atMax)
      ensures |idx| > 0 && Wf(old(arpTree), |idx|) ==> RowDropped(old(arpTree), arpTree, idx)
    {
      var at, am := DropRow(arpTree, atMax, idx);
      arpTree, atMax := at, am;
    }

    /** The ipNetToMediaTable half of `mib2_remove_arp_entry`. */
    method DropNtomRow(idx: Path)
      requires Valid()
      modifies this`ntomTree, this`ntomMax
      ensures Valid()
      ensures ntomTree == RemoveFrom(old(ntomTree), idx)
      ensures ntomMax == if ntomTree[[]] == {} then 0 else old(ntomMax)
      ensures |idx| > 0 && Wf(old(ntomTree), |idx|) ==> RowDropped(old(ntomTree), ntomTree, idx)
    {
      var ntom, nm := DropRow(ntomTree, ntomMax, idx);
      ntomTree, ntomMax := ntom, nm;
    }

    /** `mib2_add_ip4`: the interface's address goes into the ipAddrTable
        tree; traversal goes on. */
    method AddIp4(ni: Netif, fails: seq<bool>)
      requires Valid()
      modifies this`addrTree, this`addrMax
      ensures Valid()
      ensures addrTree == InsertFrom(old(addrTree), [], IpToOid(ni.ip), 0, fails).tree
      ensures addrMax == 1
      ensures fails == [] && Wf(old(addrTree), AddrDepth) ==>
        RowAdded(old(addrTree), addrTree, IpToOid(ni.ip))
    {
      var t, _ := AddRow(addrTree, IpToOid(ni.ip), fails);
      addrTree, addrMax := t, 1;
    }

    /** `mib2_remove_ip4`: the interface's address leaves the ipAddrTable
        tree; traversal goes off when it empties. */
    method RemoveIp4(ni: Netif)
      requires Valid()
      modifies this`addrTree, this`addrMax
      ensures Valid()
      ensures addrTree == RemoveFrom(old(addrTree), IpToOid(ni.ip))
      ensures addrMax == if addrTree[[]] == {} then 0 else old(addrMax)
      ensures Wf(old(addrTree), AddrDepth) ==>
        RowDropped(old(addrTree), addrTree, IpToOid(ni.ip))
    {
      addrTree, addrMax := DropRow(addrTree, addrMax, IpToOid(ni.ip));
    }

    /** `mib2_add_route_ip4`: the route's destination goes into the
        ipRouteTable tree (none for a network route to 0.0.0.0); traversal
        goes on either way. */
    method AddRoute(dflt: u8, ni: Option<Netif>, fails: seq<bool>)
      requires Valid() && (dflt != 0 || ni.Some?)
      modifies this`rteTree, this`rteMax
      ensures Valid()
      ensures rteTree == match RouteDest(dflt, ni)
        case Some(dst) => InsertFrom(old(rteTree), [], IpToOid(dst), 0, fails).tree
        case None => old(rteTree)
      ensures rteMax == 1
      ensures fails == [] && Wf(old(rteTree), AddrDepth) && RouteDest(dflt, ni).Some? ==>
        RowAdded(old(rteTree), rteTree, IpToOid(RouteDest(dflt, ni).value))
    {
      var dst := RouteDest(dflt, ni);
      if dst.Some? {
        var t, _ := AddRow(rteTree, IpToOid(dst.value), fails);
        rteTree := t;
      }
      rteMax := 1;
    }

    /** `mib2_remove_route_ip4`: the route's destination leaves the
        ipRouteTable tree; traversal goes off when it empties. */
    method RemoveRoute(dflt: u8, ni: Option<Netif>)
      requires Valid() && (dflt != 0 || ni.Some?)
      modifies this`rteTree, this`rteMax
      ensures Valid()
      ensures rteTree == match RouteDest(dflt, ni)
        case Some(dst) => RemoveFrom(old(rteTree), IpToOid(dst))
        case None => old(rteTree)
      ensures rteMax == if rteTree[[]] == {} then 0 else old(rteMax)
      ensures Wf(old(rteTree), AddrDepth) && RouteDest(dflt, ni).Some? ==>
        RowDropped(old(rteTree), rteTree, IpToOid(RouteDest(dflt, ni).value))
    {
      var dst := RouteDest(dflt, ni);
      if dst.Some? {
        rteTree, rteMax := DropRow(rteTree, rteMax, IpToOid(dst.value));
      } else if |rteTree[[]]| == 0 {
        rteMax := 0;
      }
    }

    /** `mib2_udp_bind`: an IPv4 binding's address and port go into the
        udpTable tree and traversal goes on; an IPv6 binding changes
        nothing. */
    method UdpBind(pcb: UdpPcb, fails: seq<bool>)
      requires Valid()
      modifies this`udpTree, this`udpMax
      ensures Valid()
      ensures pcb.localIp.V6? ==> udpTree == old(udpTree) && udpMax == old(udpMax)
      ensures pcb.localIp.V4? ==>
        udpTree == InsertFrom(old(udpTree), [], UdpIndex(pcb.localIp.v4, pcb.localPort), 0, fails).tree &&
        udpMax == 1
      ensures pcb.localIp.V4? && fails == [] && Wf(old(udpTree), UdpDepth) ==>
        RowAdded(old(udpTree), udpTree, UdpIndex(pcb.localIp.v4, pcb.localPort))
    {
      if pcb.localIp.V6? {
        return;
      }
      var idx := UdpIndex(pcb.localIp.v4, pcb.localPort);
      var t, _ := AddRow(udpTree, idx, fails);
      udpTree, udpMax := t, 1;
    }

    /** `mib2_udp_unbind`: for an IPv4 binding, the row leaves the udpTable
        tree when the PCB list holds exactly one PCB so bound (as the `u8_t`
        count sees it); traversal goes off when the tree empties. An IPv6
        binding changes nothing. */
    method UdpUnbind(pcb: UdpPcb, pcbs: seq<UdpPcb>)
      requires Valid()
      modifies this`udpTree, this`udpMax
      ensures Valid()
      ensures pcb.localIp.V6? ==> udpTree == old(udpTree) && udpMax == old(udpMax)
      ensures pcb.localIp.V4? ==>
        udpTree == (if ToU8(Bindings(pcbs, pcb)) == 1
                    then RemoveFrom(old(udpTree), UdpIndex(pcb.localIp.v4, pcb.localPort))
                    else old(udpTree)) &&
        udpMax == if udpTree[[]] == {} then 0 else old(udpMax)
      ensures pcb.localIp.V4? && ToU8(Bindings(pcbs, pcb)) == 1 && Wf(old(udpTree), UdpDepth) ==>
        RowDropped(old(udpTree), udpTree, UdpIndex(pcb.localIp.v4, pcb.localPort))
    {
      if pcb.localIp.V6? {
        return;
      }
      var idx := UdpIndex(pcb.localIp.v4, pcb.localPort);
      var bindings := CountBindings(pcbs, pcb);
      if bindings == 1 {
        udpTree, udpMax := DropRow(udpTree, udpMax, idx);
      } else if |udpTree[[]]| == 0 {
        udpMax := 0;
      }
    }
  }

  /** A tree holding any non-empty path has a non-empty root list. */
  lemma PresentRootFilled(t: Tree, x: Path)
    requires x != [] && Present(t, x)
    ensures [] in t && t[[]] != {}
  {
    assert x[..0] == [] && x[0] in t[x[..0]];
  }

  /** Traversal is on for every table that has a row, in any tree. */
  lemma TraversalOnWithRows(m: IndexTables, x: Path)
    requires m.Valid()
    ensures x != [] && Present(m.arpTree, x) ==> m.atMax == 1
    ensures x != [] && Present(m.ntomTree, x) ==> m.ntomMax == 1
    ensures x != [] && Present(m.addrTree, x) ==> m.addrMax == 1
    ensures x != [] && Present(m.rteTree, x) ==> m.rteMax == 1
    ensures x != [] && Present(m.udpTree, x) ==> m.udpMax == 1
  {
    if x != [] {
      if Present(m.arpTree, x) { PresentRootFilled(m.arpTree, x); }
      if Present(m.ntomTree, x) { PresentRootFilled(m.ntomTree, x); }
      if Present(m.addrTree, x) { PresentRootFilled(m.addrTree, x); }
      if Present(m.rteTree, x) { PresentRootFilled(m.rteTree, x); }
      if Present(m.udpTree, x) { PresentRootFilled(m.udpTree, x); }
    }
  }

  /** ifNumber follows the interface list: an interface added with memory
      for its list node raises it by one, in the 16-bit width of the list's
      count. */
  method IfNumberAfterAdded(t: IndexTables)
    requires t.Valid()
    modifies t`ifList, t`ifMax
    ensures t.Valid()
    ensures old(InterfacesGroup.InterfacesGetValue([1], t.ifList)) == Int(ToU16(|old(t.ifList)|))
    ensures InterfacesGroup.InterfacesGetValue([1], t.ifList) == Int(ToU16(|old(t.ifList)| + 1))
  {
    ghost var l := t.ifList;
    t.NetifAdded(false);
    assert |l| + 1 !in l;
  }

  /** A removed interface lowers ifNumber by one. */
  method IfNumberAfterRemoved(t: IndexTables)
    requires t.Valid() && t.ifList != {}
    modifies t`ifList, t`ifMax
    ensures t.Valid()
    ensures old(InterfacesGroup.InterfacesGetValue([1], t.ifList)) == Int(ToU16(|old(t.ifList)|))
    ensures InterfacesGroup.InterfacesGetValue([1], t.ifList) == Int(ToU16(|old(t.ifList)| - 1))
  {
    t.NetifRemoved();
  }
}
