/** What comes back of the version detail and of the auto scaling group response. */
module Responses {
  import opened Schema
  import opened Kinds
  import opened Wrappers
  import opened ReadVersions
  import opened AutoScaling
  import opened RoundTrips
  import opened Payloads

  // ---------- ReadEnvironmentVariable ----------

  function NormVariable(s: ReadEnvironmentVariable): ReadEnvironmentVariable {
    s.(value := NormNil(s.value, ""))
  }

  lemma VariableNorm(s: ReadEnvironmentVariable)
    ensures Fits(KObj(READ_ENV_FIELDS), ReadEnvironmentVariableVal(s))
    ensures Norm(KObj(READ_ENV_FIELDS),
        ReadEnvironmentVariableVal(s)) == ReadEnvironmentVariableVal(NormVariable(s))
  {
    ReadEnvironmentVariableFits(s);
    NormScalar(KStr, VStr(s.key));
    NormScalar(KStr, VStr(s.value.value));
    NormScalar(KBool, VBool(s.secret));
    var v, n := ReadEnvironmentVariableVal(s), NormVariable(s);
    forall i: nat | i < 3 ensures Norm(KObj(READ_ENV_FIELDS), v).vals[i] == ReadEnvironmentVariableAt(n, i) {
      NormSlot(READ_ENV_FIELDS, v, i);
      assert v.vals[i] == ReadEnvironmentVariableAt(s, i);
    }
    NormSlot(READ_ENV_FIELDS, v, 0);
    assert Norm(KObj(READ_ENV_FIELDS), v).vals == ReadEnvironmentVariableVal(n).vals;
  }

  lemma SameVariableSlot(s: ReadEnvironmentVariable, t: ReadEnvironmentVariable, i: nat)
    requires i < 3 && ReadEnvironmentVariableVal(s) == ReadEnvironmentVariableVal(t)
    ensures ReadEnvironmentVariableAt(s, i) == ReadEnvironmentVariableAt(t, i)
  {
    assert ReadEnvironmentVariableVal(s).vals[i] == ReadEnvironmentVariableAt(s, i);
    assert ReadEnvironmentVariableVal(t).vals[i] == ReadEnvironmentVariableAt(t, i);
  }

  lemma SameVariables(s: ReadEnvironmentVariable, t: ReadEnvironmentVariable)
    requires ReadEnvironmentVariableVal(s) == ReadEnvironmentVariableVal(t)
    ensures s == t
  {
    SameVariableSlot(s, t, 0);
    SameVariableSlot(s, t, 1);
    SameVariableSlot(s, t, 2);
  }

  function NormVariables(s: Slice<ReadEnvironmentVariable>): Slice<ReadEnvironmentVariable> {
    SliceOf(seq(|Items(s)|, i requires 0 <= i < |Items(s)| => NormVariable(Items(s)[i])))
  }

  lemma VariablesNorm(s: Slice<ReadEnvironmentVariable>)
    ensures Fits(KArr(KObj(READ_ENV_FIELDS)), ReadEnvironmentVariablesVal(s))
    ensures Norm(KArr(KObj(READ_ENV_FIELDS)),
        ReadEnvironmentVariablesVal(s)) == ReadEnvironmentVariablesVal(NormVariables(s))
  {
    ReadEnvironmentVariablesFits(s);
    forall i | 0 <= i < |Items(s)|
      ensures Fits(KObj(READ_ENV_FIELDS), ReadEnvironmentVariableVal(Items(s)[i]))
      ensures Norm(KObj(READ_ENV_FIELDS),
          ReadEnvironmentVariableVal(Items(s)[i])) == ReadEnvironmentVariableVal(NormVariable(Items(s)[i]))
    {
      VariableNorm(Items(s)[i]);
    }
    assert Norm(KArr(KObj(READ_ENV_FIELDS)),
        ReadEnvironmentVariablesVal(s)).elems == ReadEnvironmentVariablesVal(NormVariables(s)).elems;
  }

  lemma SameVariableSlices(s: Slice<ReadEnvironmentVariable>, t: Slice<ReadEnvironmentVariable>)
    requires ReadEnvironmentVariablesVal(s) == ReadEnvironmentVariablesVal(t)
    ensures s == t
  {
    if s.SliceOf? {
      forall i | 0 <= i < |s.elems| ensures s.elems[i] == t.elems[i] {
        assert ReadEnvironmentVariablesVal(s).elems[i] == ReadEnvironmentVariablesVal(t).elems[i];
        SameVariables(s.elems[i], t.elems[i]);
      }
      assert s.elems == t.elems;
    }
  }

  // ---------- ReadApplicationVersionDetail ----------

  function NormDetail(s: ReadApplicationVersionDetail): ReadApplicationVersionDetail {
    s.(fixedScale := NormOpt(s.fixedScale, 0), minScale := NormOpt(s.minScale, 0),
       maxScale := NormOpt(s.maxScale, 0), scaleInThreshold := NormOpt(s.scaleInThreshold, 0),
       scaleOutThreshold := NormOpt(s.scaleOutThreshold, 0),
       registryUsername := NormNil(s.registryUsername, ""),
       registryPassword := NormNil(s.registryPassword, ""), exposedPorts := NormPorts(s.exposedPorts),
       env := NormVariables(s.env))
  }

  lemma DetailSlotsFrom0(s: ReadApplicationVersionDetail, i: nat)
    requires 0 <= i < 6
    ensures Fits(READ_VERSION_FIELDS[i].kind, ReadApplicationVersionDetailAt(s, i))
    ensures Present(READ_VERSION_FIELDS[i], ReadApplicationVersionDetailAt(s, i)) ==>
              Norm(READ_VERSION_FIELDS[i].kind, ReadApplicationVersionDetailAt(s,
                  i)) == ReadApplicationVersionDetailAt(NormDetail(s), i)
    ensures !Present(READ_VERSION_FIELDS[i], ReadApplicationVersionDetailAt(s,
        i)) ==> Zero(READ_VERSION_FIELDS[i].kind) == ReadApplicationVersionDetailAt(NormDetail(s), i)
  {
    NormScalar(INT32, VInt(s.version));
    NormScalar(INT64, VInt(s.cpu));
    NormScalar(INT64, VInt(s.memory));
    NormScalar(KStr, VStr(s.scalingMode));
    NormScalar(INT32, VInt(s.fixedScale.value));
    NormScalar(INT32, VInt(s.minScale.value));
  }

  lemma DetailSlotsFrom6(s: ReadApplicationVersionDetail, i: nat)
    requires 6 <= i < 12
    ensures Fits(READ_VERSION_FIELDS[i].kind, ReadApplicationVersionDetailAt(s, i))
    ensures Present(READ_VERSION_FIELDS[i], ReadApplicationVersionDetailAt(s, i)) ==>
              Norm(READ_VERSION_FIELDS[i].kind, ReadApplicationVersionDetailAt(s,
                  i)) == ReadApplicationVersionDetailAt(NormDetail(s), i)
    ensures !Present(READ_VERSION_FIELDS[i], ReadApplicationVersionDetailAt(s,
        i)) ==> Zero(READ_VERSION_FIELDS[i].kind) == ReadApplicationVersionDetailAt(NormDetail(s), i)
  {
    NormScalar(INT32, VInt(s.maxScale.value));
    NormScalar(INT32, VInt(s.scaleInThreshold.value));
    NormScalar(INT32, VInt(s.scaleOutThreshold.value));
    NormScalar(KStr, VStr(s.image));
    StringsNorm(s.cmd);
    NormScalar(KStr, VStr(s.registryUsername.value));
  }

  lemma DetailSlotsFrom12(s: ReadApplicationVersionDetail, i: nat)
    requires 12 <= i < 17
    ensures Fits(READ_VERSION_FIELDS[i].kind, ReadApplicationVersionDetailAt(s, i))
    ensures Present(READ_VERSION_FIELDS[i], ReadApplicationVersionDetailAt(s, i)) ==>
              Norm(READ_VERSION_FIELDS[i].kind, ReadApplicationVersionDetailAt(s,
                  i)) == ReadApplicationVersionDetailAt(NormDetail(s), i)
    ensures !Present(READ_VERSION_FIELDS[i], ReadApplicationVersionDetailAt(s,
        i)) ==> Zero(READ_VERSION_FIELDS[i].kind) == ReadApplicationVersionDetailAt(NormDetail(s), i)
  {
    NormScalar(KStr, VStr(s.registryPassword.value));
    NormScalar(INT64, VInt(s.activeNodeCount));
    NormScalar(INT64, VInt(s.created));
    PortsNorm(s.exposedPorts);
    VariablesNorm(s.env);
  }

  lemma DetailNorm(s: ReadApplicationVersionDetail)
    ensures Fits(KObj(READ_VERSION_FIELDS), ReadApplicationVersionDetailVal(s))
    ensures Norm(KObj(READ_VERSION_FIELDS),
        ReadApplicationVersionDetailVal(s)) == ReadApplicationVersionDetailVal(NormDetail(s))
  {
    ReadApplicationVersionDetailFits(s);
    var v, n := ReadApplicationVersionDetailVal(s), NormDetail(s);
    forall i: nat | i < 17 ensures Norm(KObj(READ_VERSION_FIELDS),
        v).vals[i] == ReadApplicationVersionDetailAt(n, i) {
      NormSlot(READ_VERSION_FIELDS, v, i);
      assert v.vals[i] == ReadApplicationVersionDetailAt(s, i);
      if i < 6 {
        DetailSlotsFrom0(s, i);
      } else if i < 12 {
        DetailSlotsFrom6(s, i);
      } else {
        DetailSlotsFrom12(s, i);
      }
    }
    NormSlot(READ_VERSION_FIELDS, v, 0);
    assert Norm(KObj(READ_VERSION_FIELDS), v).vals == ReadApplicationVersionDetailVal(n).vals;
  }

  lemma SameDetailSlot(s: ReadApplicationVersionDetail, t: ReadApplicationVersionDetail, i: nat)
    requires i < 17 && ReadApplicationVersionDetailVal(s) == ReadApplicationVersionDetailVal(t)
    ensures ReadApplicationVersionDetailAt(s, i) == ReadApplicationVersionDetailAt(t, i)
  {
    assert ReadApplicationVersionDetailVal(s).vals[i] == ReadApplicationVersionDetailAt(s, i);
    assert ReadApplicationVersionDetailVal(t).vals[i] == ReadApplicationVersionDetailAt(t, i);
  }

  lemma SameDetails(s: ReadApplicationVersionDetail, t: ReadApplicationVersionDetail)
    requires ReadApplicationVersionDetailVal(s) == ReadApplicationVersionDetailVal(t)
    ensures s == t
  {
    SameDetailSlot(s, t, 0);
    SameDetailSlot(s, t, 1);
    SameDetailSlot(s, t, 2);
    SameDetailSlot(s, t, 3);
    SameDetailSlot(s, t, 4);
    SameDetailSlot(s, t, 5);
    SameDetailSlot(s, t, 6);
    SameDetailSlot(s, t, 7);
    SameDetailSlot(s, t, 8);
    SameDetailSlot(s, t, 9);
    SameDetailSlot(s, t, 10);
    SameDetailSlot(s, t, 11);
    SameDetailSlot(s, t, 12);
    SameDetailSlot(s, t, 13);
    SameDetailSlot(s, t, 14);
    SameDetailSlot(s, t, 15);
    SameDetailSlot(s, t, 16);
    SameStrings(s.cmd, t.cmd);
    SamePortSlices(s.exposedPorts, t.exposedPorts);
    SameVariableSlices(s.env, t.env);
  }

  // ---------- IpRange ----------

  lemma RangeNorm(s: IpRange)
    ensures Fits(KObj(IP_RANGE_FIELDS), IpRangeVal(s))
    ensures Norm(KObj(IP_RANGE_FIELDS), IpRangeVal(s)) == IpRangeVal(s)
  {
    IpRangeFits(s);
    NormScalar(KStr, VStr(s.start));
    NormScalar(KStr, VStr(s.end));
    var v := IpRangeVal(s);
    forall i: nat | i < 2 ensures Norm(KObj(IP_RANGE_FIELDS), v).vals[i] == IpRangeAt(s, i) {
      NormSlot(IP_RANGE_FIELDS, v, i);
      assert v.vals[i] == IpRangeAt(s, i);
    }
    NormSlot(IP_RANGE_FIELDS, v, 0);
    assert Norm(KObj(IP_RANGE_FIELDS), v).vals == IpRangeVal(s).vals;
  }

  lemma SameRangeSlot(s: IpRange, t: IpRange, i: nat)
    requires i < 2 && IpRangeVal(s) == IpRangeVal(t)
    ensures IpRangeAt(s, i) == IpRangeAt(t, i)
  {
    assert IpRangeVal(s).vals[i] == IpRangeAt(s, i);
    assert IpRangeVal(t).vals[i] == IpRangeAt(t, i);
  }

  lemma SameRanges(s: IpRange, t: IpRange)
    requires IpRangeVal(s) == IpRangeVal(t)
    ensures s == t
  {
    SameRangeSlot(s, t, 0);
    SameRangeSlot(s, t, 1);
  }

  lemma RangesNorm(s: Slice<IpRange>)
    ensures Fits(KArr(KObj(IP_RANGE_FIELDS)), IpRangesVal(s))
    ensures s.SliceOf? ==> Norm(KArr(KObj(IP_RANGE_FIELDS)), IpRangesVal(s)) == IpRangesVal(s)
  {
    IpRangesFits(s);
    forall i | 0 <= i < |Items(s)|
      ensures Fits(KObj(IP_RANGE_FIELDS), IpRangeVal(Items(s)[i]))
      ensures Norm(KObj(IP_RANGE_FIELDS), IpRangeVal(Items(s)[i])) == IpRangeVal(Items(s)[i])
    {
      RangeNorm(Items(s)[i]);
    }
    if s.SliceOf? {
      assert Items(s) == s.elems && Elems(IpRangesVal(s)) == IpRangesVal(s).elems;
      assert forall i :: 0 <= i < |s.elems| ==> IpRangesVal(s).elems[i] == IpRangeVal(Items(s)[i]);
      assert Norm(KArr(KObj(IP_RANGE_FIELDS)), IpRangesVal(s)).elems == IpRangesVal(s).elems;
    }
  }

  lemma SameRangeSlices(s: Slice<IpRange>, t: Slice<IpRange>)
    requires IpRangesVal(s) == IpRangesVal(t)
    ensures s == t
  {
    if s.SliceOf? {
      forall i | 0 <= i < |s.elems| ensures s.elems[i] == t.elems[i] {
        assert IpRangesVal(s).elems[i] == IpRangesVal(t).elems[i];
        SameRanges(s.elems[i], t.elems[i]);
      }
      assert s.elems == t.elems;
    }
  }

  // ---------- AutoScalingGroupNodeInterface ----------

  function NormInterface(s: AutoScalingGroupNodeInterface): AutoScalingGroupNodeInterface {
    s.(netmaskLen := NormOpt(s.netmaskLen, 0), defaultGateway := NormOpt(s.defaultGateway, ""),
       packetFilterID := NormOpt(s.packetFilterID, ""))
  }

  lemma InterfaceSlotsFrom0(s: AutoScalingGroupNodeInterface, i: nat)
    requires 0 <= i < 4
    ensures Fits(NODE_INTERFACE_FIELDS[i].kind, AutoScalingGroupNodeInterfaceAt(s, i))
    ensures Present(NODE_INTERFACE_FIELDS[i], AutoScalingGroupNodeInterfaceAt(s, i)) ==>
              Norm(NODE_INTERFACE_FIELDS[i].kind, AutoScalingGroupNodeInterfaceAt(s,
                  i)) == AutoScalingGroupNodeInterfaceAt(NormInterface(s), i)
    ensures !Present(NODE_INTERFACE_FIELDS[i], AutoScalingGroupNodeInterfaceAt(s,
        i)) ==> Zero(NODE_INTERFACE_FIELDS[i].kind) == AutoScalingGroupNodeInterfaceAt(NormInterface(s), i)
  {
    NormScalar(INT16, VInt(s.interfaceIndex));
    NormScalar(KStr, VStr(s.upstream));
    RangesNorm(s.ipPool);
    NormScalar(INT16, VInt(s.netmaskLen.value));
  }

  lemma InterfaceSlotsFrom4(s: AutoScalingGroupNodeInterface, i: nat)
    requires 4 <= i < 7
    ensures Fits(NODE_INTERFACE_FIELDS[i].kind, AutoScalingGroupNodeInterfaceAt(s, i))
    ensures Present(NODE_INTERFACE_FIELDS[i], AutoScalingGroupNodeInterfaceAt(s, i)) ==>
              Norm(NODE_INTERFACE_FIELDS[i].kind, AutoScalingGroupNodeInterfaceAt(s,
                  i)) == AutoScalingGroupNodeInterfaceAt(NormInterface(s), i)
    ensures !Present(NODE_INTERFACE_FIELDS[i], AutoScalingGroupNodeInterfaceAt(s,
        i)) ==> Zero(NODE_INTERFACE_FIELDS[i].kind) == AutoScalingGroupNodeInterfaceAt(NormInterface(s), i)
  {
    NormScalar(KStr, VStr(s.defaultGateway.value));
    NormScalar(KStr, VStr(s.packetFilterID.value));
    NormScalar(KBool, VBool(s.connectsToLB));
  }

  lemma InterfaceNorm(s: AutoScalingGroupNodeInterface)
    ensures Fits(KObj(NODE_INTERFACE_FIELDS), AutoScalingGroupNodeInterfaceVal(s))
    ensures Norm(KObj(NODE_INTERFACE_FIELDS),
        AutoScalingGroupNodeInterfaceVal(s)) == AutoScalingGroupNodeInterfaceVal(NormInterface(s))
  {
    AutoScalingGroupNodeInterfaceFits(s);
    var v, n := AutoScalingGroupNodeInterfaceVal(s), NormInterface(s);
    forall i: nat | i < 7 ensures Norm(KObj(NODE_INTERFACE_FIELDS),
        v).vals[i] == AutoScalingGroupNodeInterfaceAt(n, i) {
      NormSlot(NODE_INTERFACE_FIELDS, v, i);
      assert v.vals[i] == AutoScalingGroupNodeInterfaceAt(s, i);
      if i < 4 {
        InterfaceSlotsFrom0(s, i);
      } else {
        InterfaceSlotsFrom4(s, i);
      }
    }
    NormSlot(NODE_INTERFACE_FIELDS, v, 0);
    assert Norm(KObj(NODE_INTERFACE_FIELDS), v).vals == AutoScalingGroupNodeInterfaceVal(n).vals;
  }

  lemma SameInterfaceSlot(s: AutoScalingGroupNodeInterface, t: AutoScalingGroupNodeInterface, i: nat)
    requires i < 7 && AutoScalingGroupNodeInterfaceVal(s) == AutoScalingGroupNodeInterfaceVal(t)
    ensures AutoScalingGroupNodeInterfaceAt(s, i) == AutoScalingGroupNodeInterfaceAt(t, i)
  {
    assert AutoScalingGroupNodeInterfaceVal(s).vals[i] == AutoScalingGroupNodeInterfaceAt(s, i);
    assert AutoScalingGroupNodeInterfaceVal(t).vals[i] == AutoScalingGroupNodeInterfaceAt(t, i);
  }

  lemma SameInterfaces(s: AutoScalingGroupNodeInterface, t: AutoScalingGroupNodeInterface)
    requires AutoScalingGroupNodeInterfaceVal(s) == AutoScalingGroupNodeInterfaceVal(t)
    ensures s == t
  {
    SameInterfaceSlot(s, t, 0);
    SameInterfaceSlot(s, t, 1);
    SameInterfaceSlot(s, t, 2);
    SameInterfaceSlot(s, t, 3);
    SameInterfaceSlot(s, t, 4);
    SameInterfaceSlot(s, t, 5);
    SameInterfaceSlot(s, t, 6);
    SameRangeSlices(s.ipPool, t.ipPool);
  }

  function NormInterfaces(s: Slice<AutoScalingGroupNodeInterface>): Slice<AutoScalingGroupNodeInterface> {
    SliceOf(seq(|Items(s)|, i requires 0 <= i < |Items(s)| => NormInterface(Items(s)[i])))
  }

  lemma InterfacesNorm(s: Slice<AutoScalingGroupNodeInterface>)
    ensures Fits(KArr(KObj(NODE_INTERFACE_FIELDS)), AutoScalingGroupNodeInterfacesVal(s))
    ensures Norm(KArr(KObj(NODE_INTERFACE_FIELDS)),
        AutoScalingGroupNodeInterfacesVal(s)) == AutoScalingGroupNodeInterfacesVal(NormInterfaces(s))
  {
    AutoScalingGroupNodeInterfacesFits(s);
    forall i | 0 <= i < |Items(s)|
      ensures Fits(KObj(NODE_INTERFACE_FIELDS), AutoScalingGroupNodeInterfaceVal(Items(s)[i]))
      ensures Norm(KObj(NODE_INTERFACE_FIELDS),
          AutoScalingGroupNodeInterfaceVal(Items(s)[i])) == AutoScalingGroupNodeInterfaceVal(NormInterface(Items(s)[i]))
    {
      InterfaceNorm(Items(s)[i]);
    }
    assert Norm(KArr(KObj(NODE_INTERFACE_FIELDS)),
        AutoScalingGroupNodeInterfacesVal(s)).elems == AutoScalingGroupNodeInterfacesVal(NormInterfaces(s)).elems;
  }

  lemma SameInterfaceSlices(s: Slice<AutoScalingGroupNodeInterface>, t: Slice<AutoScalingGroupNodeInterface>)
    requires AutoScalingGroupNodeInterfacesVal(s) == AutoScalingGroupNodeInterfacesVal(t)
    ensures s == t
  {
    if s.SliceOf? {
      forall i | 0 <= i < |s.elems| ensures s.elems[i] == t.elems[i] {
        assert AutoScalingGroupNodeInterfacesVal(s).elems[i] == AutoScalingGroupNodeInterfacesVal(t).elems[i];
        SameInterfaces(s.elems[i], t.elems[i]);
      }
      assert s.elems == t.elems;
    }
  }

  // ---------- ReadAutoScalingGroupDetail ----------

  function NormGroup(s: ReadAutoScalingGroupDetail): ReadAutoScalingGroupDetail {
    s.(interfaces := NormInterfaces(s.interfaces))
  }

  lemma GroupSlotsFrom0(s: ReadAutoScalingGroupDetail, i: nat)
    requires 0 <= i < 5
    ensures Fits(ASG_DETAIL_FIELDS[i].kind, ReadAutoScalingGroupDetailAt(s, i))
    ensures Present(ASG_DETAIL_FIELDS[i], ReadAutoScalingGroupDetailAt(s, i)) ==>
              Norm(ASG_DETAIL_FIELDS[i].kind, ReadAutoScalingGroupDetailAt(s,
                  i)) == ReadAutoScalingGroupDetailAt(NormGroup(s), i)
    ensures !Present(ASG_DETAIL_FIELDS[i], ReadAutoScalingGroupDetailAt(s,
        i)) ==> Zero(ASG_DETAIL_FIELDS[i].kind) == ReadAutoScalingGroupDetailAt(NormGroup(s), i)
  {
    NormScalar(KUuid, VStr(s.autoScalingGroupID));
    NormScalar(KStr, VStr(s.name));
    NormScalar(KStr, VStr(s.zone));
    StringsNorm(s.nameServers);
    NormScalar(KStr, VStr(s.workerServiceClassPath));
  }

  lemma GroupSlotsFrom5(s: ReadAutoScalingGroupDetail, i: nat)
    requires 5 <= i < 10
    ensures Fits(ASG_DETAIL_FIELDS[i].kind, ReadAutoScalingGroupDetailAt(s, i))
    ensures Present(ASG_DETAIL_FIELDS[i], ReadAutoScalingGroupDetailAt(s, i)) ==>
              Norm(ASG_DETAIL_FIELDS[i].kind, ReadAutoScalingGroupDetailAt(s,
                  i)) == ReadAutoScalingGroupDetailAt(NormGroup(s), i)
    ensures !Present(ASG_DETAIL_FIELDS[i], ReadAutoScalingGroupDetailAt(s,
        i)) ==> Zero(ASG_DETAIL_FIELDS[i].kind) == ReadAutoScalingGroupDetailAt(NormGroup(s), i)
  {
    NormScalar(INT32, VInt(s.minNodes));
    NormScalar(INT32, VInt(s.maxNodes));
    NormScalar(INT32, VInt(s.workerNodeCount));
    NormScalar(KBool, VBool(s.deleting));
    InterfacesNorm(s.interfaces);
  }

  lemma GroupNorm(s: ReadAutoScalingGroupDetail)
    ensures Fits(KObj(ASG_DETAIL_FIELDS), ReadAutoScalingGroupDetailVal(s))
    ensures Norm(KObj(ASG_DETAIL_FIELDS),
        ReadAutoScalingGroupDetailVal(s)) == ReadAutoScalingGroupDetailVal(NormGroup(s))
  {
    ReadAutoScalingGroupDetailFits(s);
    var v, n := ReadAutoScalingGroupDetailVal(s), NormGroup(s);
    forall i: nat | i < 10 ensures Norm(KObj(ASG_DETAIL_FIELDS), v).vals[i] == ReadAutoScalingGroupDetailAt(n,
        i) {
      NormSlot(ASG_DETAIL_FIELDS, v, i);
      assert v.vals[i] == ReadAutoScalingGroupDetailAt(s, i);
      if i < 5 {
        GroupSlotsFrom0(s, i);
      } else {
        GroupSlotsFrom5(s, i);
      }
    }
    NormSlot(ASG_DETAIL_FIELDS, v, 0);
    assert Norm(KObj(ASG_DETAIL_FIELDS), v).vals == ReadAutoScalingGroupDetailVal(n).vals;
  }

  lemma SameGroupSlot(s: ReadAutoScalingGroupDetail, t: ReadAutoScalingGroupDetail, i: nat)
    requires i < 10 && ReadAutoScalingGroupDetailVal(s) == ReadAutoScalingGroupDetailVal(t)
    ensures ReadAutoScalingGroupDetailAt(s, i) == ReadAutoScalingGroupDetailAt(t, i)
  {
    assert ReadAutoScalingGroupDetailVal(s).vals[i] == ReadAutoScalingGroupDetailAt(s, i);
    assert ReadAutoScalingGroupDetailVal(t).vals[i] == ReadAutoScalingGroupDetailAt(t, i);
  }

  lemma SameGroups(s: ReadAutoScalingGroupDetail, t: ReadAutoScalingGroupDetail)
    requires ReadAutoScalingGroupDetailVal(s) == ReadAutoScalingGroupDetailVal(t)
    ensures s == t
  {
    SameGroupSlot(s, t, 0);
    SameGroupSlot(s, t, 1);
    SameGroupSlot(s, t, 2);
    SameGroupSlot(s, t, 3);
    SameGroupSlot(s, t, 4);
    SameGroupSlot(s, t, 5);
    SameGroupSlot(s, t, 6);
    SameGroupSlot(s, t, 7);
    SameGroupSlot(s, t, 8);
    SameGroupSlot(s, t, 9);
    SameStrings(s.nameServers, t.nameServers);
    SameInterfaceSlices(s.interfaces, t.interfaces);
  }

  // ---------- GetAutoScalingGroupResponse ----------

  function NormResponse(s: GetAutoScalingGroupResponse): GetAutoScalingGroupResponse {
    s.(autoScalingGroup := NormGroup(s.autoScalingGroup))
  }

  lemma ResponseNorm(s: GetAutoScalingGroupResponse)
    ensures Fits(KObj(GET_ASG_FIELDS), GetAutoScalingGroupResponseVal(s))
    ensures Norm(KObj(GET_ASG_FIELDS),
        GetAutoScalingGroupResponseVal(s)) == GetAutoScalingGroupResponseVal(NormResponse(s))
  {
    GetAutoScalingGroupResponseFits(s);
    GroupNorm(s.autoScalingGroup);
    var v, n := GetAutoScalingGroupResponseVal(s), NormResponse(s);
    forall i: nat | i < 1 ensures Norm(KObj(GET_ASG_FIELDS), v).vals[i] == GetAutoScalingGroupResponseAt(n, i) {
      NormSlot(GET_ASG_FIELDS, v, i);
      assert v.vals[i] == GetAutoScalingGroupResponseAt(s, i);
    }
    NormSlot(GET_ASG_FIELDS, v, 0);
    assert Norm(KObj(GET_ASG_FIELDS), v).vals == GetAutoScalingGroupResponseVal(n).vals;
  }

  lemma SameResponseSlot(s: GetAutoScalingGroupResponse, t: GetAutoScalingGroupResponse, i: nat)
    requires i < 1 && GetAutoScalingGroupResponseVal(s) == GetAutoScalingGroupResponseVal(t)
    ensures GetAutoScalingGroupResponseAt(s, i) == GetAutoScalingGroupResponseAt(t, i)
  {
    assert GetAutoScalingGroupResponseVal(s).vals[i] == GetAutoScalingGroupResponseAt(s, i);
    assert GetAutoScalingGroupResponseVal(t).vals[i] == GetAutoScalingGroupResponseAt(t, i);
  }

  lemma SameResponses(s: GetAutoScalingGroupResponse, t: GetAutoScalingGroupResponse)
    requires GetAutoScalingGroupResponseVal(s) == GetAutoScalingGroupResponseVal(t)
    ensures s == t
  {
    SameResponseSlot(s, t, 0);
    SameGroups(s.autoScalingGroup, t.autoScalingGroup);
  }
}
