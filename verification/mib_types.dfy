/** Machine integers, object definitions and typed values shared by every
    MIB-II group.

    The C code keeps its results in an `obj_def` record and writes values
    through untyped pointers into varbind space; here an object definition is
    a datatype (`NoObject` is the `MIB_OBJECT_NONE` answer) and a value is a
    tagged datatype, one alternative per representation the groups write. */
module MibTypes {

  type u8 = x: int | 0 <= x < 0x100
  type u16 = x: int | 0 <= x < 0x1_0000
  type u32 = x: int | 0 <= x < 0x1_0000_0000
  type s32 = x: int | -0x8000_0000 <= x < 0x8000_0000

  datatype Option<T> = None | Some(value: T)

  /** The C conversion `(u8_t)x`: keep the low eight bits (two's complement). */
  function ToU8(x: int): (r: u8)
    ensures 0 <= x < 0x100 ==> r == x
    ensures (r - x) % 0x100 == 0
  {
    x % 0x100
  }

  /** The C conversion `(u16_t)x`. */
  function ToU16(x: int): (r: u16)
    ensures 0 <= x < 0x1_0000 ==> r == x
    ensures (r - x) % 0x1_0000 == 0
  {
    x % 0x1_0000
  }

  /** Unsigned 32-bit addition, wrapping as `u32_t` arithmetic does. */
  function AddU32(a: u32, b: nat): (r: u32)
    ensures a + b < 0x1_0000_0000 ==> r == a + b
    ensures a + b >= 0x1_0000_0000 && b < 0x1_0000_0000 ==> r == a + b - 0x1_0000_0000
  {
    (a + b) % 0x1_0000_0000
  }

  /** `MIB_OBJECT_SCALAR` and `MIB_OBJECT_TAB`. */
  datatype Instance = Scalar | Tab

  /** `MIB_OBJECT_READ_ONLY` and `MIB_OBJECT_READ_WRITE`. */
  datatype Access = ReadOnly | ReadWrite

  /** The ASN.1 types this MIB uses: the universal INTEGER, OCTET STRING and
      OBJECT IDENTIFIER and the application types of RFC 1155, section 3.2.3. */
  datatype AsnType = Integer | OctetString | ObjectId | IpAddress | Counter | Gauge | TimeTicks

  /** What a `*_get_object_def` leaves in `od`. `idInst` is the identifier the
      entry points `id_inst_ptr` at (object name followed by the index), so
      `|idInst|` is `id_inst_len`. */
  datatype ObjDef =
    | NoObject
    | Object(instance: Instance, access: Access, asnType: AsnType, vLen: u16, idInst: seq<s32>)

  /** The object id an entry dispatches on: `(u8_t)ident[0]`, the first
      sub-identifier of the object name. */
  function Id(ident: seq<s32>): (id: u8)
    requires |ident| >= 1
    ensures 0 <= ident[0] < 0x100 ==> id == ident[0]
  {
    ToU8(ident[0])
  }

  /** Bitwise and of two octets. */
  function AndU8(x: u8, y: u8): (r: u8)
    ensures r <= x && r <= y
    ensures r % 2 == (if x % 2 == 1 && y % 2 == 1 then 1 else 0)
    ensures x == y ==> r == x
    decreases x
  {
    if x == 0 || y == 0 then 0
    else 2 * AndU8(x / 2, y / 2) + (if x % 2 == 1 && y % 2 == 1 then 1 else 0)
  }

  /** An IPv4 address a.b.c.d as its four octets. */
  datatype Ip4 = Ip4(a: u8, b: u8, c: u8, d: u8)
  {
    /** `IP4_ADDR_ANY`, the address 0.0.0.0. */
    predicate IsAny() { this == Ip4(0, 0, 0, 0) }

    /** `ip4_addr_get_network`: the address masked by `mask`. */
    function Network(mask: Ip4): (r: Ip4)
      ensures mask == this ==> r == this
      ensures mask.IsAny() ==> r.IsAny()
    {
      Ip4(AndU8(a, mask.a), AndU8(b, mask.b), AndU8(c, mask.c), AndU8(d, mask.d))
    }
  }

  /** A value a `*_get_value` writes into varbind space. `Unwritten` is the
      answer of the branches that leave the space untouched. */
  datatype Value =
    | Int(i: s32)
    | Word(w: u32)
    | Octets(bytes: seq<u8>)
    | Oid(ids: seq<s32>)
    | Addr(a: Ip4)
    | Unwritten

  /** `v` is a value of ASN.1 type `t` that fills exactly the `vLen` bytes an
      object definition announced (INTEGER, Counter, Gauge, TimeTicks and
      IpAddress take four bytes, a sub-identifier takes four bytes). */
  predicate Conforms(t: AsnType, vLen: u16, v: Value)
  {
    match t
    case Integer => v.Int? && vLen == 4
    case OctetString => v.Octets? && |v.bytes| == vLen as int
    case ObjectId => v.Oid? && 4 * |v.ids| == vLen as int
    case IpAddress => v.Addr? && vLen == 4
    case Counter => v.Word? && vLen == 4
    case Gauge => v.Word? && vLen == 4
    case TimeTicks => v.Word? && vLen == 4
  }

  /** `struct snmp_obj_id`: a length and the sub-identifiers. */
  datatype SnmpObjId = SnmpObjId(len: u8, id: seq<s32>)
  {
    ghost predicate Valid() { len as int <= |id| }
  }
}
