/** The MIB-II snmp group of RFC 1213: the agent's own message
    counters and snmpEnableAuthenTraps.

    The counters are module-level `u32_t` variables that the agent bumps
    through `mib2_inc_*` and `mib2_add_*`; snmpEnableAuthenTraps is a byte
    the application may register with `snmp_set_snmpenableauthentraps`, and a
    manager's write lands in that registered byte. */
module SnmpGroup {
  import opened MibTypes

  /** The counters of the snmp group, in the order of RFC 1213. */
  datatype SnmpCounter =
    | InPkts | OutPkts | InBadVersions | InBadCommunityNames
    | InBadCommunityUses | InAsnParseErrs | InTooBigs | InNoSuchNames
    | InBadValues | InReadOnlys | InGenErrs | InTotalReqVars | InTotalSetVars
    | InGetRequests | InGetNexts | InSetRequests | InGetResponses | InTraps
    | OutTooBigs | OutNoSuchNames | OutBadValues | OutGenErrs
    | OutGetRequests | OutGetNexts | OutSetRequests | OutGetResponses | OutTraps

  /** The object id of each counter; 7 and 23 are unused in RFC 1213. */
  function CounterId(c: SnmpCounter): (id: u8)
    ensures 1 <= id <= 29 && id != 7 && id != 23
  {
    match c
    case InPkts => 1
    case OutPkts => 2
    case InBadVersions => 3
    case InBadCommunityNames => 4
    case InBadCommunityUses => 5
    case InAsnParseErrs => 6
    case InTooBigs => 8
    case InNoSuchNames => 9
    case InBadValues => 10
    case InReadOnlys => 11
    case InGenErrs => 12
    case InTotalReqVars => 13
    case InTotalSetVars => 14
    case InGetRequests => 15
    case InGetNexts => 16
    case InSetRequests => 17
    case InGetResponses => 18
    case InTraps => 19
    case OutTooBigs => 20
    case OutNoSuchNames => 21
    case OutBadValues => 22
    case OutGenErrs => 24
    case OutGetRequests => 25
    case OutGetNexts => 26
    case OutSetRequests => 27
    case OutGetResponses => 28
    case OutTraps => 29
  }

  /** The counter object `id` reads, if it reads one. */
  function CounterOf(id: u8): Option<SnmpCounter>
  {
    match id
    case 1 => Some(InPkts)
    case 2 => Some(OutPkts)
    case 3 => Some(InBadVersions)
    case 4 => Some(InBadCommunityNames)
    case 5 => Some(InBadCommunityUses)
    case 6 => Some(InAsnParseErrs)
    case 8 => Some(InTooBigs)
    case 9 => Some(InNoSuchNames)
    case 10 => Some(InBadValues)
    case 11 => Some(InReadOnlys)
    case 12 => Some(InGenErrs)
    case 13 => Some(InTotalReqVars)
    case 14 => Some(InTotalSetVars)
    case 15 => Some(InGetRequests)
    case 16 => Some(InGetNexts)
    case 17 => Some(InSetRequests)
    case 18 => Some(InGetResponses)
    case 19 => Some(InTraps)
    case 20 => Some(OutTooBigs)
    case 21 => Some(OutNoSuchNames)
    case 22 => Some(OutBadValues)
    case 24 => Some(OutGenErrs)
    case 25 => Some(OutGetRequests)
    case 26 => Some(OutGetNexts)
    case 27 => Some(OutSetRequests)
    case 28 => Some(OutGetResponses)
    case 29 => Some(OutTraps)
    case _ => None
  }

  /** Every counter has an object, and the object reads that counter: the
      id table and the counters are in one-to-one correspondence. */
  lemma CounterIdRoundTrip(c: SnmpCounter)
    ensures CounterOf(CounterId(c)) == Some(c)
  {
  }

  /** An object that reads a counter carries that counter's id. */
  lemma CounterOfRoundTrip(id: u8)
    requires CounterOf(id).Some?
    ensures CounterId(CounterOf(id).value) == id
  {
  }

  /** The object ids of the group, `snmp_ids`. */
  predicate SnmpObject(id: u8)
  {
    1 <= id <= 30 && id != 7 && id != 23
  }

  /** snmpEnableAuthenTraps: enabled (1) or disabled (2). */
  const AuthenTrapsId: u8 := 30

  /** `snmpgrp_id`: iso.org.dod.internet.mgmt.mib-2.snmp, the enterprise of
      the generic traps the agent sends. */
  const SnmpGrpId: SnmpObjId := SnmpObjId(7, [1, 3, 6, 1, 2, 1, 11])

  /** `snmp_get_object_def`: the counters are read-only Counters,
      snmpEnableAuthenTraps a read-write INTEGER, anything else no object. */
  function SnmpGetObjectDef(identLen: u8, ident: seq<s32>): (od: ObjDef)
    requires |ident| == identLen as int + 1
    ensures od.Object? <==> identLen == 1 && SnmpObject(Id(ident))
    ensures od.Object? ==> od.instance == Scalar && od.vLen == 4 && od.idInst == ident
    ensures od.Object? ==> (od.access == ReadWrite <==> Id(ident) == AuthenTrapsId)
    ensures od.Object? ==> od.asnType == (if Id(ident) == AuthenTrapsId then Integer else Counter)
  {
    if ToU8(identLen + 1) == 2 then
      var id := Id(ident);
      if CounterOf(id).Some? then Object(Scalar, ReadOnly, Counter, 4, ident)
      else if id == AuthenTrapsId then Object(Scalar, ReadWrite, Integer, 4, ident)
      else NoObject
    else NoObject
  }

  /** What `snmp_get_value` writes, given the counters and the registered
      snmpEnableAuthenTraps byte. */
  function ReadSnmp(id: u8, counters: SnmpCounter -> u32, authenTraps: u8): (v: Value)
    ensures CounterOf(id).Some? ==> v == Word(counters(CounterOf(id).value))
    ensures id == AuthenTrapsId ==> v == Int(authenTraps)
    ensures !SnmpObject(id) ==> v == Unwritten
  {
    match CounterOf(id)
    case Some(c) => Word(counters(c))
    case None => if id == AuthenTrapsId then Int(authenTraps) else Unwritten
  }

  /** `snmp_set_test`: only snmpEnableAuthenTraps, and only with enabled (1)
      or disabled (2). */
  function SnmpSetTest(ident: seq<s32>, value: s32): (ok: bool)
    requires |ident| >= 1
    ensures ok <==> Id(ident) == AuthenTrapsId && (value == 1 || value == 2)
  {
    Id(ident) == 30 && (value == 1 || value == 2)
  }

  /** The object definition announces the type and length of every value
      the group writes. */
  lemma SnmpGetValueConforms(ident: seq<s32>, counters: SnmpCounter -> u32, authenTraps: u8)
    requires |ident| == 2
    ensures var od := SnmpGetObjectDef(1, ident);
      od.Object? ==> Conforms(od.asnType, od.vLen, ReadSnmp(Id(ident), counters, authenTraps))
  {
  }

  /** A write `snmp_set_test` accepts is read back: the byte `snmp_set_value`
      stores is the value written. */
  lemma SnmpSetThenGet(ident: seq<s32>, value: s32, counters: SnmpCounter -> u32)
    requires |ident| >= 1 && SnmpSetTest(ident, value)
    ensures ReadSnmp(Id(ident), counters, ToU8(value)) == Int(value)
  {
  }

  /** Incrementing one counter changes what its own object reads, by one
      modulo 2^32, and what no other object reads. */
  lemma IncChangesOnlyOwn(counters: SnmpCounter -> u32, c: SnmpCounter, n: u8, id: u8, authenTraps: u8)
    ensures var after := (d: SnmpCounter) => if d == c then AddU32(counters(c), n) else counters(d);
      ReadSnmp(id, after, authenTraps) ==
        if id == CounterId(c) then Word(AddU32(counters(c), n)) else ReadSnmp(id, counters, authenTraps)
  {
    var after := (d: SnmpCounter) => if d == c then AddU32(counters(c), n) else counters(d);
    CounterIdRoundTrip(c);
    match CounterOf(id)
    case Some(d) =>
      CounterOfRoundTrip(id);
      assert ReadSnmp(id, after, authenTraps) == Word(after(d));
    case None =>
  }

  class SnmpMib {
    /** The 27 `snmp*` counters. */
    var counters: SnmpCounter -> u32
    /** The byte `snmpenableauthentraps_ptr` points at. */
    var authenTraps: array<u8>

    ghost predicate Valid()
      reads this
    {
      authenTraps.Length >= 1
    }

    /** All counters 0; snmpEnableAuthenTraps in the module's own byte,
        disabled (2). */
    constructor ()
      ensures Valid() && fresh(authenTraps)
      ensures forall c :: counters(c) == 0
      ensures authenTraps[0] == 2
    {
      counters := (c: SnmpCounter) => 0;
      authenTraps := new u8[1] [2];
    }

    /** `mib2_inc_snmp*`: adds one to counter `c`, wrapping at 2^32. */
    method Inc(c: SnmpCounter)
      modifies this
      ensures counters(c) == AddU32(old(counters(c)), 1)
      ensures forall d :: d != c ==> counters(d) == old(counters(d))
      ensures authenTraps == old(authenTraps)
    {
      var before := counters;
      counters := (d: SnmpCounter) => if d == c then AddU32(before(c), 1) else before(d);
    }

    /** `mib2_add_snmpintotalreqvars` and `mib2_add_snmpintotalsetvars`: adds
        a byte-sized count, wrapping at 2^32. */
    method Add(c: SnmpCounter, value: u8)
      requires c == InTotalReqVars || c == InTotalSetVars
      modifies this
      ensures counters(c) == AddU32(old(counters(c)), value)
      ensures forall d :: d != c ==> counters(d) == old(counters(d))
      ensures authenTraps == old(authenTraps)
    {
      var before := counters;
      counters := (d: SnmpCounter) => if d == c then AddU32(before(c), value) else before(d);
    }

    /** `snmp_get_value`. */
    function GetValue(ident: seq<s32>): (v: Value)
      requires Valid() && |ident| >= 1
      reads this, authenTraps
      ensures v == ReadSnmp(Id(ident), counters, authenTraps[0])
    {
      ReadSnmp(Id(ident), counters, authenTraps[0])
    }

    /** `snmp_set_value`: a write to snmpEnableAuthenTraps stores its low
        byte in the registered byte; other ids change nothing. */
    method SetValue(ident: seq<s32>, value: s32)
      requires Valid() && |ident| >= 1
      modifies authenTraps
      ensures Id(ident) == AuthenTrapsId ==> authenTraps[0] == ToU8(value)
      ensures Id(ident) != AuthenTrapsId ==> authenTraps[0] == old(authenTraps[0])
      ensures authenTraps[1..] == old(authenTraps[1..])
    {
      if Id(ident) == 30 {
        authenTraps[0] := ToU8(value);
      }
    }

    /** `snmp_set_snmpenableauthentraps`: registers the byte that holds
        snmpEnableAuthenTraps; a null pointer changes nothing. */
    method SetEnableAuthenTraps(value: array?<u8>)
      requires value != null ==> value.Length >= 1
      requires Valid()
      modifies this
      ensures Valid()
      ensures authenTraps == (if value == null then old(authenTraps) else value)
      ensures counters == old(counters)
    {
      if value != null {
        authenTraps := value;
      }
    }

    /** `mib2_get_snmpenableauthentraps`. */
    function GetEnableAuthenTraps(): (b: u8)
      requires Valid()
      reads this, authenTraps
      ensures GetValue([AuthenTrapsId as s32]) == Int(b)
    {
      authenTraps[0]
    }
  }

  /** `mib2_get_snmpgrpid_ptr`. */
  function GetSnmpGrpId(): (oid: SnmpObjId)
    ensures |oid.id| == oid.len as int == 7 && oid.id[..6] == [1, 3, 6, 1, 2, 1] && oid.id[6] == 11
  {
    SnmpGrpId
  }

  /** An accepted write through the agent: `snmp_set_test` passes, then
      `snmp_set_value` stores the value, and both `snmp_get_value` and
      `mib2_get_snmpenableauthentraps` read it back. */
  method SetThenGet(m: SnmpMib, ident: seq<s32>, value: s32)
    requires m.Valid() && |ident| >= 1 && SnmpSetTest(ident, value)
    modifies m.authenTraps
    ensures m.GetValue(ident) == Int(value)
    ensures m.GetEnableAuthenTraps() as int == value
  {
    m.SetValue(ident, value);
    SnmpSetThenGet(ident, value, m.counters);
  }
}
