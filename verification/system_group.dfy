/** The MIB-II system group of RFC 1213: sysDescr, sysObjectID,
    sysUpTime, sysContact, sysName, sysLocation and sysServices.

    The strings live in buffers the application registers with the
    `snmp_set_sys*` setters, each with a byte of the application's that holds
    its length and, for the three writable ones, the buffer's size. The
    module keeps a pointer to each buffer and each length byte and, when a
    manager sets an object, overwrites the buffer and the length byte in
    place. Buffers and length bytes are arrays here (a length byte an array
    of one), and the pointers are fields of `SystemMib`. */
module SystemGroup {
  import opened MibTypes

  /** `SNMP_ENTERPRISE_ID`: the enterprise number IANA assigned to lwIP. */
  const EnterpriseId: s32 := 26381

  /** `sysobjid_default`: iso.org.dod.internet.private.enterprises.26381. */
  const DefaultSysObjId: SnmpObjId := SnmpObjId(7, [1, 3, 6, 1, 4, 1, EnterpriseId])

  /** `SNMP_SYSSERVICES` with `IP_FORWARD` off: (1 << 6) | (1 << 3), that is
      the application and end-to-end layers. */
  const SysServices: s32 := 72

  /** The writable objects: sysContact (4), sysName (5) and sysLocation (6). */
  predicate Writable(id: u8)
  {
    id == 4 || id == 5 || id == 6
  }

  class SystemMib {
    /** sysDescr: the string (`sysdescr_ptr`) and the application's byte
        holding its length (`sysdescr_len_ptr`). */
    var descr: array<u8>
    var descrLen: array<u8>
    /** sysObjectID (`*sysobjid_ptr`). */
    var objId: SnmpObjId
    /** sysContact: buffer, length byte and buffer size. */
    var contact: array<u8>
    var contactLen: array<u8>
    var contactSize: u8
    /** sysName: buffer, length byte and buffer size. */
    var name: array<u8>
    var nameLen: array<u8>
    var nameSize: u8
    /** sysLocation: buffer, length byte and buffer size. */
    var location: array<u8>
    var locationLen: array<u8>
    var locationSize: u8

    /** Each string has a length byte of its own, shared with no other string
        and lying in no string buffer. The buffers themselves may be shared. */
    ghost predicate SeparateLengths()
      reads this
    {
      descrLen != contactLen && descrLen != nameLen && descrLen != locationLen &&
      contactLen != nameLen && contactLen != locationLen && nameLen != locationLen &&
      {descrLen, contactLen, nameLen, locationLen} !! {descr, contact, name, location}
    }

    /** Each length pointer points at one byte. */
    ghost predicate LengthBytes()
      reads this
    {
      descrLen.Length == 1 && contactLen.Length == 1 && nameLen.Length == 1 && locationLen.Length == 1
    }

    /** Each length byte is one byte, each registered string fits its buffer
        and each size is within its buffer, as the setters' callers promise. */
    ghost predicate Valid()
      reads this, descrLen, contactLen, nameLen, locationLen
    {
      LengthBytes() && SeparateLengths() &&
      descrLen[0] as int <= descr.Length &&
      contactLen[0] < contactSize && contactSize as int <= contact.Length &&
      nameLen[0] < nameSize && nameSize as int <= name.Length &&
      locationLen[0] < locationSize && locationSize as int <= location.Length &&
      objId.Valid()
    }

    /** The static defaults: sysDescr "lwIP", sysContact "" in a one-byte
        buffer, sysName "FQDN-unk" in a nine-byte buffer, sysLocation "" in a
        one-byte buffer, sysObjectID the lwIP enterprise id; each length in a
        byte of its own. */
    constructor ()
      ensures Valid()
      ensures descr[..] == ['l' as u8, 'w' as u8, 'I' as u8, 'P' as u8] && descrLen[0] == 4
      ensures contactLen[0] == 0 && contactSize == 1
      ensures name[..nameLen[0]] == ['F' as u8, 'Q' as u8, 'D' as u8, 'N' as u8, '-' as u8, 'u' as u8, 'n' as u8, 'k' as u8]
      ensures nameSize == 9
      ensures locationLen[0] == 0 && locationSize == 1
      ensures objId == DefaultSysObjId
      ensures fresh(descr) && fresh(contact) && fresh(name) && fresh(location)
      ensures fresh(descrLen) && fresh(contactLen) && fresh(nameLen) && fresh(locationLen)
    {
      descr := new u8[4] ['l' as u8, 'w' as u8, 'I' as u8, 'P' as u8];
      descrLen := new u8[1] [4];
      objId := DefaultSysObjId;
      contact := new u8[1] [0];
      contactLen := new u8[1] [0];
      contactSize := 1;
      name := new u8[9] ['F' as u8, 'Q' as u8, 'D' as u8, 'N' as u8, '-' as u8, 'u' as u8, 'n' as u8, 'k' as u8, 0];
      nameLen := new u8[1] [8];
      nameSize := 9;
      location := new u8[1] [0];
      locationLen := new u8[1] [0];
      locationSize := 1;
    }

    /** The registered size of the buffer behind a writable object; 0 for
        every other object. */
    function SizeOf(id: u8): (size: u8)
      reads this
      ensures !Writable(id) ==> size == 0
    {
      if id == 4 then contactSize else if id == 5 then nameSize else if id == 6 then locationSize else 0
    }

    /** The length byte behind object `id` (1, 4, 5 or 6). */
    function LenCell(id: u8): array<u8>
      reads this
    {
      if id == 4 then contactLen else if id == 5 then nameLen else if id == 6 then locationLen else descrLen
    }

    /** The current length of the string behind object `id` (1, 4, 5 or 6). */
    function LenOf(id: u8): u8
      reads this, descrLen, contactLen, nameLen, locationLen
      requires LengthBytes()
    {
      if id == 1 || Writable(id) then LenCell(id)[0] else 0
    }

    /** The buffer behind object `id` (1, 4, 5 or 6). */
    function BufferOf(id: u8): array<u8>
      reads this
    {
      if id == 4 then contact else if id == 5 then name else if id == 6 then location else descr
    }

    /** `system_get_object_def`: an object exactly for `system.<id>.0` with
        `id` in 1..7; sysContact, sysName and sysLocation are writable; the
        string objects report their current length, sysObjectID four bytes
        per sub-identifier. */
    function GetObjectDef(identLen: u8, ident: seq<s32>): (od: ObjDef)
      reads this, descrLen, contactLen, nameLen, locationLen
      requires LengthBytes()
      requires |ident| == identLen as int + 1
      ensures od.Object? <==> identLen == 1 && 1 <= Id(ident) <= 7
      ensures od.Object? ==> od.instance == Scalar && od.idInst == ident
      ensures od.Object? ==> (od.access == ReadWrite <==> Writable(Id(ident)))
      ensures od.Object? && (Id(ident) == 1 || Writable(Id(ident))) ==>
                od.asnType == OctetString && od.vLen == LenOf(Id(ident))
      ensures od.Object? && Id(ident) == 2 ==> od.asnType == ObjectId && od.vLen == 4 * objId.len
      ensures od.Object? && Id(ident) == 3 ==> od.asnType == TimeTicks && od.vLen == 4
      ensures od.Object? && Id(ident) == 7 ==> od.asnType == Integer && od.vLen == 4
    {
      if ToU8(identLen + 1) == 2 then
        var id := Id(ident);
        if id == 1 then Object(Scalar, ReadOnly, OctetString, descrLen[0], ident)
        else if id == 2 then Object(Scalar, ReadOnly, ObjectId, objId.len * 4, ident)
        else if id == 3 then Object(Scalar, ReadOnly, TimeTicks, 4, ident)
        else if id == 4 then Object(Scalar, ReadWrite, OctetString, contactLen[0], ident)
        else if id == 5 then Object(Scalar, ReadWrite, OctetString, nameLen[0], ident)
        else if id == 6 then Object(Scalar, ReadWrite, OctetString, locationLen[0], ident)
        else if id == 7 then Object(Scalar, ReadOnly, Integer, 4, ident)
        else NoObject
      else NoObject
    }

    /** `system_get_value`: copies `len` bytes of the string objects,
        `len / 4` sub-identifiers of sysObjectID, the uptime the caller reads
        from the clock, or sysServices; other ids write nothing. */
    function GetValue(ident: seq<s32>, len: u16, sysUpTime: u32): (v: Value)
      reads this, descr, contact, name, location
      requires |ident| >= 1
      requires Id(ident) == 1 || Writable(Id(ident)) ==> len as int <= BufferOf(Id(ident)).Length
      requires Id(ident) == 2 ==> len as int / 4 <= |objId.id|
      ensures Id(ident) == 1 || Writable(Id(ident)) ==> v == Octets(BufferOf(Id(ident))[..len])
      ensures Id(ident) == 2 ==> v == Oid(objId.id[..len / 4])
      ensures Id(ident) == 3 ==> v == Word(sysUpTime)
      ensures Id(ident) == 7 ==> v == Int(SysServices)
      ensures !(1 <= Id(ident) <= 7) ==> v == Unwritten
    {
      var id := Id(ident);
      if id == 1 then Octets(descr[..len])
      else if id == 2 then Oid(objId.id[..len / 4])
      else if id == 3 then Word(sysUpTime)
      else if id == 4 then Octets(contact[..len])
      else if id == 5 then Octets(name[..len])
      else if id == 6 then Octets(location[..len])
      else if id == 7 then Int(SysServices)
      else Unwritten
    }

    /** `system_set_test`: a write is accepted exactly for the writable
        objects, and only when the new string leaves room for the terminating
        zero in the registered buffer. */
    function SetTest(ident: seq<s32>, len: u16): (ok: bool)
      reads this
      requires |ident| >= 1
      ensures ok <==> Writable(Id(ident)) && len < SizeOf(Id(ident))
    {
      var id := Id(ident);
      if id == 4 then len < contactSize
      else if id == 5 then len < nameSize
      else if id == 6 then len < locationSize
      else false
    }

    /** `system_set_value`: copies the new string into the object's buffer
        and writes its length into the object's length byte; the stored
        string is then exactly `value`, the bytes after it stay. Other ids
        change nothing. */
    method SetValue(ident: seq<s32>, value: seq<u8>)
      requires Valid()
      requires |ident| >= 1 && |value| <= 0xff
      requires Writable(Id(ident)) ==> |value| < SizeOf(Id(ident)) as int
      modifies if Writable(Id(ident)) then {BufferOf(Id(ident)), LenCell(Id(ident))} else {}
      ensures Valid()
      ensures Writable(Id(ident)) ==> LenOf(Id(ident)) as int == |value|
      ensures Writable(Id(ident)) ==> BufferOf(Id(ident))[..|value|] == value
      ensures Writable(Id(ident)) ==> BufferOf(Id(ident))[|value|..] == old(BufferOf(Id(ident))[|value|..])
      ensures forall id: u8 :: id != Id(ident) ==> LenOf(id) == old(LenOf(id))
      ensures forall id: u8 :: BufferOf(id) != BufferOf(Id(ident)) ==> BufferOf(id)[..] == old(BufferOf(id)[..])
      ensures !Writable(Id(ident)) ==>
        forall id: u8 :: LenOf(id) == old(LenOf(id)) && BufferOf(id)[..] == old(BufferOf(id)[..])
    {
      var id := Id(ident);
      if id == 4 {
        CopyInto(contact, value);
        contactLen[0] := |value| as u8;
      } else if id == 5 {
        CopyInto(name, value);
        nameLen[0] := |value| as u8;
      } else if id == 6 {
        CopyInto(location, value);
        locationLen[0] := |value| as u8;
      }
    }

    /** `snmp_set_sysdescr`: registers a new sysDescr string and the
        application's byte holding its length, when given a string. */
    method SetSysDescr(str: array?<u8>, len: array?<u8>)
      requires Valid()
      requires str != null ==> len != null && len.Length == 1 && len[0] as int <= str.Length
      requires str != null ==> len != contactLen && len != nameLen && len != locationLen
      requires str != null ==> {len} !! {str, contact, name, location} && {str} !! {contactLen, nameLen, locationLen}
      modifies this
      ensures Valid()
      ensures str != null ==> descr == str && descrLen == len
      ensures str == null ==> descr == old(descr) && descrLen == old(descrLen)
      ensures objId == old(objId)
      ensures contact == old(contact) && contactLen == old(contactLen) && contactSize == old(contactSize)
      ensures name == old(name) && nameLen == old(nameLen) && nameSize == old(nameSize)
      ensures location == old(location) && locationLen == old(locationLen) && locationSize == old(locationSize)
    {
      if str != null {
        descr, descrLen := str, len;
      }
    }

    /** `snmp_set_sysobjid`: registers a new sysObjectID. */
    method SetSysObjId(oid: SnmpObjId)
      requires Valid() && oid.Valid()
      modifies this
      ensures Valid()
      ensures objId == oid
      ensures descr == old(descr) && descrLen == old(descrLen)
      ensures contact == old(contact) && contactLen == old(contactLen) && contactSize == old(contactSize)
      ensures name == old(name) && nameLen == old(nameLen) && nameSize == old(nameSize)
      ensures location == old(location) && locationLen == old(locationLen) && locationSize == old(locationSize)
    {
      objId := oid;
    }

    /** `snmp_set_syscontact`: registers a new sysContact buffer, the
        application's byte holding its string length, and the buffer's size
        (terminator included), when given a buffer. */
    method SetSysContact(buf: array?<u8>, len: array?<u8>, size: u8)
      requires Valid()
      requires buf != null ==> len != null && len.Length == 1 && len[0] < size && size as int <= buf.Length
      requires buf != null ==> len != descrLen && len != nameLen && len != locationLen
      requires buf != null ==> {len} !! {buf, descr, name, location} && {buf} !! {descrLen, nameLen, locationLen}
      modifies this
      ensures Valid()
      ensures buf != null ==> contact == buf && contactLen == len && contactSize == size
      ensures buf == null ==> contact == old(contact) && contactLen == old(contactLen) && contactSize == old(contactSize)
      ensures descr == old(descr) && descrLen == old(descrLen) && objId == old(objId)
      ensures name == old(name) && nameLen == old(nameLen) && nameSize == old(nameSize)
      ensures location == old(location) && locationLen == old(locationLen) && locationSize == old(locationSize)
    {
      if buf != null {
        contact, contactLen, contactSize := buf, len, size;
      }
    }

    /** `snmp_set_sysname`: as `SetSysContact`, for sysName. */
    method SetSysName(buf: array?<u8>, len: array?<u8>, size: u8)
      requires Valid()
      requires buf != null ==> len != null && len.Length == 1 && len[0] < size && size as int <= buf.Length
      requires buf != null ==> len != descrLen && len != contactLen && len != locationLen
      requires buf != null ==> {len} !! {buf, descr, contact, location} && {buf} !! {descrLen, contactLen, locationLen}
      modifies this
      ensures Valid()
      ensures buf != null ==> name == buf && nameLen == len && nameSize == size
      ensures buf == null ==> name == old(name) && nameLen == old(nameLen) && nameSize == old(nameSize)
      ensures descr == old(descr) && descrLen == old(descrLen) && objId == old(objId)
      ensures contact == old(contact) && contactLen == old(contactLen) && contactSize == old(contactSize)
      ensures location == old(location) && locationLen == old(locationLen) && locationSize == old(locationSize)
    {
      if buf != null {
        name, nameLen, nameSize := buf, len, size;
      }
    }

    /** `snmp_set_syslocation`: as `SetSysContact`, for sysLocation. */
    method SetSysLocation(buf: array?<u8>, len: array?<u8>, size: u8)
      requires Valid()
      requires buf != null ==> len != null && len.Length == 1 && len[0] < size && size as int <= buf.Length
      requires buf != null ==> len != descrLen && len != contactLen && len != nameLen
      requires buf != null ==> {len} !! {buf, descr, contact, name} && {buf} !! {descrLen, contactLen, nameLen}
      modifies this
      ensures Valid()
      ensures buf != null ==> location == buf && locationLen == len && locationSize == size
      ensures buf == null ==> location == old(location) && locationLen == old(locationLen) && locationSize == old(locationSize)
      ensures descr == old(descr) && descrLen == old(descrLen) && objId == old(objId)
      ensures contact == old(contact) && contactLen == old(contactLen) && contactSize == old(contactSize)
      ensures name == old(name) && nameLen == old(nameLen) && nameSize == old(nameSize)
    {
      if buf != null {
        location, locationLen, locationSize := buf, len, size;
      }
    }

  }

  /** `MEMCPY` of a new string into the front of a buffer: the string's
      bytes replace the buffer's first ones and the rest stay. */
  method CopyInto(buf: array<u8>, value: seq<u8>)
    requires |value| <= buf.Length
    modifies buf
    ensures buf[..|value|] == value
    ensures buf[|value|..] == old(buf[|value|..])
  {
    var i := 0;
    while i < |value|
      invariant 0 <= i <= |value|
      invariant buf[..i] == value[..i]
      invariant buf[i..] == old(buf[i..])
    {
      buf[i] := value[i];
      i := i + 1;
    }
  }

  /** A get that uses the value length its object definition reports reads
      back exactly the registered string: for the string objects the first
      `len` bytes of the buffer, for sysObjectID its `len` sub-identifiers. */
  lemma GetReadsRegistered(m: SystemMib, ident: seq<s32>, sysUpTime: u32)
    requires m.Valid()
    requires |ident| == 2 && (Id(ident) == 1 || Id(ident) == 2 || Writable(Id(ident)))
    ensures m.GetObjectDef(1, ident).Object?
    ensures Id(ident) != 2 ==>
      m.GetValue(ident, m.GetObjectDef(1, ident).vLen, sysUpTime)
        == Octets(m.BufferOf(Id(ident))[..m.LenOf(Id(ident))])
    ensures Id(ident) == 2 ==>
      m.GetValue(ident, m.GetObjectDef(1, ident).vLen, sysUpTime) == Oid(m.objId.id[..m.objId.len])
  {
    var od := m.GetObjectDef(1, ident);
    if Id(ident) == 2 {
      assert od.vLen / 4 == m.objId.len as int;
    }
  }

  /** Every system object writes a value of the type and length its object
      definition announces. */
  lemma GetValueConforms(m: SystemMib, ident: seq<s32>, sysUpTime: u32)
    requires m.Valid() && |ident| == 2
    ensures var od := m.GetObjectDef(1, ident);
      od.Object? ==> Conforms(od.asnType, od.vLen, m.GetValue(ident, od.vLen, sysUpTime))
  {
  }

  /** Whatever a manager writes through a successful set is what the next get
      of the same object returns, and the object definition reports its
      length. */
  method SetThenGet(m: SystemMib, ident: seq<s32>, value: seq<u8>, sysUpTime: u32)
      returns (od: ObjDef, v: Value)
    requires m.Valid()
    requires |ident| == 2 && |value| <= 0xff
    requires m.SetTest(ident, |value|)
    modifies m.BufferOf(Id(ident)), m.LenCell(Id(ident))
    ensures od.Object? && od.vLen as int == |value| && od.access == ReadWrite
    ensures v == Octets(value)
    ensures m.LenCell(Id(ident))[0] as int == |value|
  {
    m.SetValue(ident, value);
    od := m.GetObjectDef(1, ident);
    v := m.GetValue(ident, od.vLen, sysUpTime);
  }
}
