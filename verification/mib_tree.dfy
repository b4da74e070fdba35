/** The static MIB-II registration tree: iso.org.dod.internet (1.3.6.1) down
    to the objects of every group.

    Each array node holds a count and two parallel arrays, the sub-identifiers
    of its children and the children themselves. Scalar nodes hand a whole
    group to its `*_get_object_def`/`*_get_value` pair; list root nodes are
    the roots of the dynamic index trees the table maintenance builds; RAM
    array nodes sit above each table and expose it only while the table's
    `maxlength` is 1 (that flag lives with the index trees). The sub-
    identifiers of every array must be strictly ascending: the GetNext walk
    takes the first child with a larger sub-identifier as the next one. */
module MibTree {
  import opened MibTypes
  import IpGroup
  import TransportGroups
  import SnmpGroup

  /** The object group a scalar node dispatches to. */
  datatype Group = SystemScalar | InterfacesScalar | IpScalar | IcmpScalar | TcpScalar | UdpScalar | SnmpScalar

  /** The dynamic tables, each with its list root node. */
  datatype Table = IfList | ArpTree | IpAddrTree | IpRteTree | IpNtomTree | TcpConnTree | UdpTree

  datatype MibNode =
    | ScalarNode(group: Group)
    | ArrayNode(count: nat, ids: seq<s32>, nodes: seq<MibNode>)
    | RamArrayNode(table: Table, ids: seq<s32>, nodes: seq<MibNode>)
    | ListRootNode(root: Table)

  /** `noleafs_get_object_def`: an inner node defines no object. */
  function NoLeafsGetObjectDef(identLen: u8, ident: seq<s32>): (od: ObjDef)
    ensures !od.Object?
  {
    NoObject
  }

  /** `noleafs_set_test`: an inner node refuses every write. */
  function NoLeafsSetTest(ident: seq<s32>, value: s32): (ok: bool)
    ensures !ok
  {
    false
  }

  // --------------------------------------------------------------- the tree

  /** `n` copies of a node. */
  function Copies(n: nat, node: MibNode): (s: seq<MibNode>)
    ensures |s| == n && forall i :: 0 <= i < n ==> s[i] == node
  {
    seq(n, i => node)
  }

  /** The sub-identifiers 1..n. */
  function OneTo(n: nat): (ids: seq<s32>)
    requires n < 0x8000_0000
    ensures |ids| == n && forall i :: 0 <= i < n ==> ids[i] == i + 1
  {
    seq(n, i requires 0 <= i < n => (i + 1) as s32)
  }

  /** A table: the RAM array node, its single entry node and the entry's
      columns `1..columns`, each leading to the table's list root. */
  function TableNode(t: Table, columns: nat): MibNode
    requires columns < 0x8000_0000
  {
    RamArrayNode(t, [1], [ArrayNode(columns, OneTo(columns), Copies(columns, ListRootNode(t)))])
  }

  /** system, .1.3.6.1.2.1.1 */
  const SysTem: MibNode := ArrayNode(7, OneTo(7), Copies(7, ScalarNode(SystemScalar)))

  /** interfaces, .1.3.6.1.2.1.2: ifNumber and ifTable. */
  const Interfaces: MibNode := ArrayNode(2, [1, 2], [ScalarNode(InterfacesScalar), TableNode(IfList, 22)])

  /** at, .1.3.6.1.2.1.3: the RAM array node `at` over atTable and atEntry. */
  const At: MibNode :=
    RamArrayNode(ArpTree, [1], [ArrayNode(1, [1], [ArrayNode(3, OneTo(3), Copies(3, ListRootNode(ArpTree)))])])

  /** ip, .1.3.6.1.2.1.4: scalars with ipAddrTable (20), ipRouteTable (21)
      and ipNetToMediaTable (22). */
  const Ip: MibNode :=
    ArrayNode(23, OneTo(23),
      Copies(19, ScalarNode(IpScalar)) +
      [TableNode(IpAddrTree, 5), TableNode(IpRteTree, 13), TableNode(IpNtomTree, 4), ScalarNode(IpScalar)])

  /** icmp, .1.3.6.1.2.1.5 */
  const Icmp: MibNode := ArrayNode(26, OneTo(26), Copies(26, ScalarNode(IcmpScalar)))

  /** tcp, .1.3.6.1.2.1.6: scalars with tcpConnTable (13). */
  const Tcp: MibNode :=
    ArrayNode(15, OneTo(15),
      Copies(12, ScalarNode(TcpScalar)) + [TableNode(TcpConnTree, 5)] + Copies(2, ScalarNode(TcpScalar)))

  /** udp, .1.3.6.1.2.1.7: scalars with udpTable (5). */
  const Udp: MibNode := ArrayNode(5, OneTo(5), Copies(4, ScalarNode(UdpScalar)) + [TableNode(UdpTree, 2)])

  /** `snmp_ids`: 1..30 without the unused 7 and 23. */
  const SnmpIds: seq<s32> :=
    [1, 2, 3, 4, 5, 6, 8, 9, 10, 11, 12, 13, 14, 15, 16, 17, 18, 19, 20, 21, 22, 24, 25, 26, 27, 28, 29, 30]

  /** snmp, .1.3.6.1.2.1.11 */
  const Snmp: MibNode := ArrayNode(28, SnmpIds, Copies(28, ScalarNode(SnmpScalar)))

  /** mib-2, .1.3.6.1.2.1, with `MIB2_GROUPS` = 8 groups when TCP is built. */
  const Mib2: MibNode :=
    ArrayNode(8, [1, 2, 3, 4, 5, 6, 7, 11], [SysTem, Interfaces, At, Ip, Icmp, Tcp, Udp, Snmp])

  /** internet, .1.3.6.1, without a private MIB: only mgmt (2), whose one
      child is mib-2 (1). */
  const Internet: MibNode := ArrayNode(1, [2], [ArrayNode(1, [1], [Mib2])])

  // --------------------------------------------------------------- ordering

  /** Each sub-identifier is larger than the one before it. */
  predicate Ascending(ids: seq<s32>)
  {
    forall i :: 0 < i < |ids| ==> ids[i - 1] < ids[i]
  }

  /** Ascending neighbours make the whole array strictly ordered. */
  lemma {:induction false} AscendingPairwise(ids: seq<s32>, i: nat, j: nat)
    requires Ascending(ids) && i < j < |ids|
    ensures ids[i] < ids[j]
    decreases j - i
  {
    if i + 1 < j {
      AscendingPairwise(ids, i + 1, j);
    }
  }

  /** The node is laid out as the GetNext walk needs: every array node's
      count equals the length of both of its arrays and its sub-identifiers
      ascend; a RAM array node has room for its one child; and so on down
      the tree. */
  predicate WellFormed(n: MibNode)
  {
    match n
    case ArrayNode(count, ids, nodes) =>
      count == |ids| == |nodes| && Ascending(ids) &&
      forall i :: 0 <= i < |nodes| ==> WellFormed(nodes[i])
    case RamArrayNode(_, ids, nodes) =>
      |ids| == |nodes| == 1 && WellFormed(nodes[0])
    case _ => true
  }

  lemma OneToAscending(n: nat)
    requires n < 0x8000_0000
    ensures Ascending(OneTo(n))
  {
  }

  lemma TableNodeWellFormed(t: Table, columns: nat)
    requires columns < 0x8000_0000
    ensures WellFormed(TableNode(t, columns))
  {
    var entry := ArrayNode(columns, OneTo(columns), Copies(columns, ListRootNode(t)));
    assert WellFormed(entry);
  }

  lemma IpWellFormed()
    ensures WellFormed(Ip)
  {
    var tables := [TableNode(IpAddrTree, 5), TableNode(IpRteTree, 13), TableNode(IpNtomTree, 4), ScalarNode(IpScalar)];
    TableNodeWellFormed(IpAddrTree, 5);
    TableNodeWellFormed(IpRteTree, 13);
    TableNodeWellFormed(IpNtomTree, 4);
    var nodes := Copies(19, ScalarNode(IpScalar)) + tables;
    forall i | 0 <= i < |nodes| ensures WellFormed(nodes[i]) {
      if i >= 19 { assert nodes[i] == tables[i - 19]; }
    }
  }

  lemma TcpWellFormed()
    ensures WellFormed(Tcp)
  {
    TableNodeWellFormed(TcpConnTree, 5);
    var nodes := Copies(12, ScalarNode(TcpScalar)) + [TableNode(TcpConnTree, 5)] + Copies(2, ScalarNode(TcpScalar));
    forall i | 0 <= i < |nodes| ensures WellFormed(nodes[i]) {
      if i == 12 { assert nodes[i] == TableNode(TcpConnTree, 5); }
    }
  }

  lemma UdpWellFormed()
    ensures WellFormed(Udp)
  {
    TableNodeWellFormed(UdpTree, 2);
    var nodes := Copies(4, ScalarNode(UdpScalar)) + [TableNode(UdpTree, 2)];
    forall i | 0 <= i < |nodes| ensures WellFormed(nodes[i]) {
      if i == 4 { assert nodes[i] == TableNode(UdpTree, 2); }
    }
  }

  lemma ScalarGroupsWellFormed()
    ensures WellFormed(SysTem) && WellFormed(Icmp) && WellFormed(Snmp)
  {
  }

  lemma InterfacesAtWellFormed()
    ensures WellFormed(Interfaces) && WellFormed(At)
  {
    TableNodeWellFormed(IfList, 22);
    assert WellFormed(ArrayNode(3, OneTo(3), Copies(3, ListRootNode(ArpTree))));
  }

  /** The registration tree is well formed: every `*_ids` array is strictly
      ascending and every count matches its arrays. */
  lemma {:induction false} TreeWellFormed()
    ensures WellFormed(Internet)
  {
    ScalarGroupsWellFormed();
    InterfacesAtWellFormed();
    IpWellFormed();
    TcpWellFormed();
    UdpWellFormed();
    var groups := [SysTem, Interfaces, At, Ip, Icmp, Tcp, Udp, Snmp];
    assert forall i :: 0 <= i < |groups| ==> WellFormed(groups[i]);
    assert WellFormed(Mib2);
    assert WellFormed(ArrayNode(1, [1], [Mib2]));
  }

  /** The position of the first child whose sub-identifier is larger than
      `id`: the child GetNext moves on to. */
  function NextChild(ids: seq<s32>, id: int): (k: nat)
    ensures k <= |ids|
    ensures k < |ids| ==> ids[k] > id
    ensures forall i :: 0 <= i < k ==> ids[i] <= id
  {
    if |ids| == 0 then 0
    else if ids[0] > id then 0
    else NextChild(ids[1..], id) + 1
  }

  /** In an ascending array the first larger sub-identifier is the least
      larger one, so GetNext visits the children in lexicographic order and
      skips none. */
  lemma NextChildIsSuccessor(ids: seq<s32>, id: int)
    requires Ascending(ids)
    ensures var k := NextChild(ids, id);
      forall i :: 0 <= i < |ids| && ids[i] > id ==> k < |ids| && ids[k] <= ids[i]
  {
    var k := NextChild(ids, id);
    forall i | 0 <= i < |ids| && ids[i] > id
      ensures k < |ids| && ids[k] <= ids[i]
    {
      if k < i {
        AscendingPairwise(ids, k, i);
      }
    }
  }

  // ------------------------------------------------ routing to the scalars

  /** The sub-identifiers under `n` whose child is the scalar node of `g`. */
  predicate RoutesTo(n: MibNode, g: Group, id: s32)
  {
    (n.ArrayNode? || n.RamArrayNode?) &&
    exists i :: 0 <= i < |n.ids| && i < |n.nodes| && n.ids[i] == id && n.nodes[i] == ScalarNode(g)
  }

  /** The tree hands the ip group's scalar handler exactly the objects
      `ip_get_object_def` defines; the three table ids go to the tables. */
  lemma IpRouting(id: s32)
    requires 0 <= id < 0x100
    ensures RoutesTo(Ip, IpScalar, id) <==> IpGroup.IpGetObjectDef(1, [id, 0]).Object?
  {
    var nodes := Ip.nodes;
    if 1 <= id <= 23 && id !in {20, 21, 22} {
      assert Ip.ids[id - 1] == id && nodes[id - 1] == ScalarNode(IpScalar);
    }
    if RoutesTo(Ip, IpScalar, id) {
      var i :| 0 <= i < 23 && Ip.ids[i] == id && nodes[i] == ScalarNode(IpScalar);
      assert i !in {19, 20, 21};
    }
  }

  /** The tree hands the tcp group's scalar handler exactly the objects
      `tcp_get_object_def` defines; tcpConnTable (13) goes to the table. */
  lemma TcpRouting(id: s32)
    requires 0 <= id < 0x100
    ensures RoutesTo(Tcp, TcpScalar, id) <==> TransportGroups.TcpGetObjectDef(1, [id, 0]).Object?
  {
    var nodes := Tcp.nodes;
    if 1 <= id <= 15 && id != 13 {
      assert Tcp.ids[id - 1] == id && nodes[id - 1] == ScalarNode(TcpScalar);
    }
    if RoutesTo(Tcp, TcpScalar, id) {
      var i :| 0 <= i < 15 && Tcp.ids[i] == id && nodes[i] == ScalarNode(TcpScalar);
      assert i != 12;
    }
  }

  /** The tree hands the icmp group's scalar handler exactly the objects
      `icmp_get_object_def` defines. */
  lemma IcmpRouting(id: s32)
    requires 0 <= id < 0x100
    ensures RoutesTo(Icmp, IcmpScalar, id) <==> TransportGroups.IcmpGetObjectDef(1, [id, 0]).Object?
  {
    if 1 <= id <= 26 {
      assert Icmp.ids[id - 1] == id && Icmp.nodes[id - 1] == ScalarNode(IcmpScalar);
    }
  }

  /** The tree hands the udp group's scalar handler the objects 1..4;
      `udp_get_object_def` also defines 5, udpTable, which the tree sends to
      the table instead. */
  lemma UdpRouting(id: s32)
    requires 0 <= id < 0x100
    ensures RoutesTo(Udp, UdpScalar, id) <==> TransportGroups.UdpGetObjectDef(1, [id, 0]).Object? && id != 5
  {
    var nodes := Udp.nodes;
    if 1 <= id <= 4 {
      assert Udp.ids[id - 1] == id && nodes[id - 1] == ScalarNode(UdpScalar);
    }
    if RoutesTo(Udp, UdpScalar, id) {
      var i :| 0 <= i < 5 && Udp.ids[i] == id && nodes[i] == ScalarNode(UdpScalar);
      assert i != 4;
    }
  }

  /** The tree hands the snmp group's scalar handler exactly the objects
      `snmp_get_object_def` defines: `snmp_ids` and the handler agree. */
  lemma SnmpRouting(id: s32)
    requires 0 <= id < 0x100
    ensures RoutesTo(Snmp, SnmpScalar, id) <==> SnmpGroup.SnmpGetObjectDef(1, [id, 0]).Object?
  {
    SnmpIdsSkip();
    if SnmpGroup.SnmpObject(id) {
      var i := if id < 7 then id - 1 else if id < 23 then id - 2 else id - 3;
      assert SnmpIds[i] == id && Snmp.nodes[i] == ScalarNode(SnmpScalar);
    }
    if RoutesTo(Snmp, SnmpScalar, id) {
      var i :| 0 <= i < 28 && SnmpIds[i] == id;
    }
  }

  /** `snmp_ids` counts up from 1, skipping 7 and 23. */
  lemma SnmpIdsSkip()
    ensures |SnmpIds| == 28
    ensures forall i :: 0 <= i < 28 ==>
      SnmpIds[i] == (if i < 6 then i + 1 else if i < 21 then i + 2 else i + 3)
  {
  }
}
