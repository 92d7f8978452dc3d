/** Field tables of the modelled types: for each struct the entries of its
    `jsonFieldsNameOf...` array, in order, with kind and required bit. */
module Kinds {
  import opened Options
  import opened Schema

  type int16 = x: int | -0x8000 <= x < 0x8000
  type int32 = x: int | -0x8000_0000 <= x < 0x8000_0000
  type int64 = x: int | -0x8000_0000_0000_0000 <= x < 0x8000_0000_0000_0000
  type uint16 = x: int | 0 <= x < 0x1_0000

  type Uuid = s: string | CanonicalUuid(s) ghost witness ZERO_UUID

  const INT16 := KInt(-0x8000, 0x7FFF)
  const INT32 := KInt(-0x8000_0000, 0x7FFF_FFFF)
  const INT64 := KInt(-0x8000_0000_0000_0000, 0x7FFF_FFFF_FFFF_FFFF)
  const UINT16 := KInt(0, 0xFFFF)

  function Req(name: string, kind: Kind): Field { Field(name, kind, true, None) }
  function Opt(name: string, kind: Kind): Field { Field(name, kind, false, None) }

  function HealthCheckField(i: nat): Field {
    if i == 0 then Req("path", KStr)
    else if i == 1 then Field("intervalSeconds", INT32, true, Some(VInt(30)))
    else Field("timeoutSeconds", INT32, true, Some(VInt(5)))
  }

  function HealthCheckFieldsTable(): (t: seq<Field>)
    ensures |t| == 3 && forall i: nat | i < 3 :: t[i] == HealthCheckField(i)
  {
    seq(3, i requires 0 <= i => HealthCheckField(i))
  }

  const HEALTH_CHECK_FIELDS: seq<Field> := HealthCheckFieldsTable()

  function ExposedPortField(i: nat): Field {
    if i == 0 then Req("targetPort", UINT16)
    else if i == 1 then Req("loadBalancerPort", KNil(UINT16))
    else if i == 2 then Req("useLetsEncrypt", KBool)
    else if i == 3 then Opt("host", KArr(KStr))
    else Req("healthCheck", KNil(KObj(HEALTH_CHECK_FIELDS)))
  }

  function ExposedPortFieldsTable(): (t: seq<Field>)
    ensures |t| == 5 && forall i: nat | i < 5 :: t[i] == ExposedPortField(i)
  {
    seq(5, i requires 0 <= i => ExposedPortField(i))
  }

  const EXPOSED_PORT_FIELDS: seq<Field> := ExposedPortFieldsTable()

  function CreateEnvField(i: nat): Field {
    if i == 0 then Req("key", KStr)
    else if i == 1 then Opt("value", KOpt(KStr))
    else Req("secret", KBool)
  }

  function CreateEnvFieldsTable(): (t: seq<Field>)
    ensures |t| == 3 && forall i: nat | i < 3 :: t[i] == CreateEnvField(i)
  {
    seq(3, i requires 0 <= i => CreateEnvField(i))
  }

  const CREATE_ENV_FIELDS: seq<Field> := CreateEnvFieldsTable()

  function ReadEnvField(i: nat): Field {
    if i == 0 then Req("key", KStr)
    else if i == 1 then Req("value", KNil(KStr))
    else Req("secret", KBool)
  }

  function ReadEnvFieldsTable(): (t: seq<Field>)
    ensures |t| == 3 && forall i: nat | i < 3 :: t[i] == ReadEnvField(i)
  {
    seq(3, i requires 0 <= i => ReadEnvField(i))
  }

  const READ_ENV_FIELDS: seq<Field> := ReadEnvFieldsTable()

  function CreateVersionField(i: nat): Field {
    if i == 0 then Req("cpu", INT64)
    else if i == 1 then Req("memory", INT64)
    else if i == 2 then Req("scalingMode", KStr)
    else if i == 3 then Opt("fixedScale", KOpt(INT32))
    else if i == 4 then Opt("minScale", KOpt(INT32))
    else if i == 5 then Opt("maxScale", KOpt(INT32))
    else if i == 6 then Opt("scaleInThreshold", KOpt(INT32))
    else if i == 7 then Opt("scaleOutThreshold", KOpt(INT32))
    else if i == 8 then Req("image", KStr)
    else if i == 9 then Opt("cmd", KArr(KStr))
    else if i == 10 then Req("registryUsername", KNil(KStr))
    else if i == 11 then Req("registryPassword", KNil(KStr))
    else if i == 12 then Req("registryPasswordAction", KStr)
    else if i == 13 then Req("exposedPorts", KArr(KObj(EXPOSED_PORT_FIELDS)))
    else Req("env", KArr(KObj(CREATE_ENV_FIELDS)))
  }

  function CreateVersionFieldsTable(): (t: seq<Field>)
    ensures |t| == 15 && forall i: nat | i < 15 :: t[i] == CreateVersionField(i)
  {
    seq(15, i requires 0 <= i => CreateVersionField(i))
  }

  const CREATE_VERSION_FIELDS: seq<Field> := CreateVersionFieldsTable()

  function ReadVersionField(i: nat): Field {
    if i == 0 then Req("version", INT32)
    else if i == 1 then Req("cpu", INT64)
    else if i == 2 then Req("memory", INT64)
    else if i == 3 then Req("scalingMode", KStr)
    else if i == 4 then Opt("fixedScale", KOpt(INT32))
    else if i == 5 then Opt("minScale", KOpt(INT32))
    else if i == 6 then Opt("maxScale", KOpt(INT32))
    else if i == 7 then Opt("scaleInThreshold", KOpt(INT32))
    else if i == 8 then Opt("scaleOutThreshold", KOpt(INT32))
    else if i == 9 then Req("image", KStr)
    else if i == 10 then Opt("cmd", KArr(KStr))
    else if i == 11 then Req("registryUsername", KNil(KStr))
    else if i == 12 then Req("registryPassword", KNil(KStr))
    else if i == 13 then Req("activeNodeCount", INT64)
    else if i == 14 then Req("created", INT64)
    else if i == 15 then Req("exposedPorts", KArr(KObj(EXPOSED_PORT_FIELDS)))
    else Req("env", KArr(KObj(READ_ENV_FIELDS)))
  }

  function ReadVersionFieldsTable(): (t: seq<Field>)
    ensures |t| == 17 && forall i: nat | i < 17 :: t[i] == ReadVersionField(i)
  {
    seq(17, i requires 0 <= i => ReadVersionField(i))
  }

  const READ_VERSION_FIELDS: seq<Field> := ReadVersionFieldsTable()

  function IpRangeField(i: nat): Field {
    if i == 0 then Req("start", KStr)
    else Req("end", KStr)
  }

  function IpRangeFieldsTable(): (t: seq<Field>)
    ensures |t| == 2 && forall i: nat | i < 2 :: t[i] == IpRangeField(i)
  {
    seq(2, i requires 0 <= i => IpRangeField(i))
  }

  const IP_RANGE_FIELDS: seq<Field> := IpRangeFieldsTable()

  function NodeInterfaceField(i: nat): Field {
    if i == 0 then Req("interfaceIndex", INT16)
    else if i == 1 then Req("upstream", KStr)
    else if i == 2 then Opt("ipPool", KArr(KObj(IP_RANGE_FIELDS)))
    else if i == 3 then Opt("netmaskLen", KOpt(INT16))
    else if i == 4 then Opt("defaultGateway", KOpt(KStr))
    else if i == 5 then Opt("packetFilterID", KOpt(KStr))
    else Req("connectsToLB", KBool)
  }

  function NodeInterfaceFieldsTable(): (t: seq<Field>)
    ensures |t| == 7 && forall i: nat | i < 7 :: t[i] == NodeInterfaceField(i)
  {
    seq(7, i requires 0 <= i => NodeInterfaceField(i))
  }

  const NODE_INTERFACE_FIELDS: seq<Field> := NodeInterfaceFieldsTable()

  function AsgDetailField(i: nat): Field {
    if i == 0 then Req("autoScalingGroupID", KUuid)
    else if i == 1 then Req("name", KStr)
    else if i == 2 then Req("zone", KStr)
    else if i == 3 then Opt("nameServers", KArr(KStr))
    else if i == 4 then Req("workerServiceClassPath", KStr)
    else if i == 5 then Req("minNodes", INT32)
    else if i == 6 then Req("maxNodes", INT32)
    else if i == 7 then Req("workerNodeCount", INT32)
    else if i == 8 then Req("deleting", KBool)
    else Req("interfaces", KArr(KObj(NODE_INTERFACE_FIELDS)))
  }

  function AsgDetailFieldsTable(): (t: seq<Field>)
    ensures |t| == 10 && forall i: nat | i < 10 :: t[i] == AsgDetailField(i)
  {
    seq(10, i requires 0 <= i => AsgDetailField(i))
  }

  const ASG_DETAIL_FIELDS: seq<Field> := AsgDetailFieldsTable()

  function GetAsgField(i: nat): Field {
    Req("autoScalingGroup", KObj(ASG_DETAIL_FIELDS))
  }

  function GetAsgFieldsTable(): (t: seq<Field>)
    ensures |t| == 1 && forall i: nat | i < 1 :: t[i] == GetAsgField(i)
  {
    seq(1, i requires 0 <= i => GetAsgField(i))
  }

  const GET_ASG_FIELDS: seq<Field> := GetAsgFieldsTable()

  // The tables are well formed: names distinct, optional fields `Opt*` or slices, presets
  // only on required scalars.

  lemma HealthCheckTable()
    ensures WellFormed(KObj(HEALTH_CHECK_FIELDS))
  {
    assert Fits(INT32, VInt(30)) && Fits(INT32, VInt(5));
  }

  lemma ExposedPortTable()
    ensures WellFormed(KObj(EXPOSED_PORT_FIELDS))
  {
    HealthCheckTable();
    assert DistinctNames(EXPOSED_PORT_FIELDS);
  }

  lemma CreateVersionApart(lo: nat, hi: nat)
    requires (lo, hi) in {(0, 2), (2, 4), (4, 8), (8, 15)}
    ensures forall i, j: nat :: lo <= i < hi && i < j < 15 ==> CreateVersionField(i).name != CreateVersionField(j).name
  {
  }

  lemma CreateVersionNames()
    ensures DistinctNames(CREATE_VERSION_FIELDS)
  {
    CreateVersionApart(0, 2);
    CreateVersionApart(2, 4);
    CreateVersionApart(4, 8);
    CreateVersionApart(8, 15);
  }

  lemma ReadVersionApart(lo: nat, hi: nat)
    requires (lo, hi) in {(0, 2), (2, 4), (4, 8), (8, 17)}
    ensures forall i, j: nat :: lo <= i < hi && i < j < 17 ==> ReadVersionField(i).name != ReadVersionField(j).name
  {
  }

  lemma ReadVersionNames()
    ensures DistinctNames(READ_VERSION_FIELDS)
  {
    ReadVersionApart(0, 2);
    ReadVersionApart(2, 4);
    ReadVersionApart(4, 8);
    ReadVersionApart(8, 17);
  }

  lemma CreateEnvTable()
    ensures WellFormed(KObj(CREATE_ENV_FIELDS))
  {
  }

  lemma CreateVersionRow(i: nat)
    requires i < 15
    ensures WellFormed(CreateVersionField(i).kind) && CreateVersionField(i).preset.None?
    ensures var k := CreateVersionField(i).kind; if CreateVersionField(i).required then !k.KOpt? else k.KOpt? || k.KArr?
  {
    ExposedPortTable();
    CreateEnvTable();
  }

  lemma CreateVersionTable()
    ensures WellFormed(KObj(CREATE_VERSION_FIELDS))
  {
    CreateVersionNames();
    forall i: nat | i < 15
      ensures CREATE_VERSION_FIELDS[i] == CreateVersionField(i)
      ensures WellFormed(CREATE_VERSION_FIELDS[i].kind) && CREATE_VERSION_FIELDS[i].preset.None?
    {
      CreateVersionRow(i);
    }
  }

  lemma ReadEnvTable()
    ensures WellFormed(KObj(READ_ENV_FIELDS))
  {
  }

  lemma ReadVersionRow(i: nat)
    requires i < 17
    ensures WellFormed(ReadVersionField(i).kind) && ReadVersionField(i).preset.None?
    ensures var k := ReadVersionField(i).kind; if ReadVersionField(i).required then !k.KOpt? else k.KOpt? || k.KArr?
  {
    ExposedPortTable();
    ReadEnvTable();
  }

  lemma ReadVersionTable()
    ensures WellFormed(KObj(READ_VERSION_FIELDS))
  {
    ReadVersionNames();
    forall i: nat | i < 17
      ensures READ_VERSION_FIELDS[i] == ReadVersionField(i)
      ensures WellFormed(READ_VERSION_FIELDS[i].kind) && READ_VERSION_FIELDS[i].preset.None?
    {
      ReadVersionRow(i);
    }
  }

  lemma IpRangeTable()
    ensures WellFormed(KObj(IP_RANGE_FIELDS))
  {
  }

  lemma NodeInterfaceTable()
    ensures WellFormed(KObj(NODE_INTERFACE_FIELDS))
  {
    IpRangeTable();
    assert DistinctNames(NODE_INTERFACE_FIELDS);
  }

  lemma AsgDetailApart(lo: nat, hi: nat)
    requires (lo, hi) in {(0, 2), (2, 5), (5, 10)}
    ensures forall i, j: nat :: lo <= i < hi && i < j < 10 ==> AsgDetailField(i).name != AsgDetailField(j).name
  {
  }

  lemma AsgDetailNames()
    ensures DistinctNames(ASG_DETAIL_FIELDS)
  {
    AsgDetailApart(0, 2);
    AsgDetailApart(2, 5);
    AsgDetailApart(5, 10);
  }

  lemma AsgDetailTable()
    ensures WellFormed(KObj(ASG_DETAIL_FIELDS))
  {
    NodeInterfaceTable();
    AsgDetailNames();
  }

  lemma GetAsgTable()
    ensures WellFormed(KObj(GET_ASG_FIELDS))
  {
    AsgDetailTable();
  }
}
