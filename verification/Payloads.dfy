/** The laws at work on the concrete types. */
module Payloads {
  import opened Json
  import opened Options
  import opened Schema
  import opened Kinds
  import opened Wrappers
  import opened HealthChecks
  import opened Versions
  import opened AutoScaling
  import opened Laws
  import opened RoundTrips
  import opened Members

  // ---------- what comes back of a CreateApplicationVersion ----------

  function NormOpt<T>(o: OptOf<T>, zero: T): OptOf<T> { if o.isSet then o else OptOf(zero, false) }

  function NormNil<T>(o: NilOf<T>, zero: T): NilOf<T> { if o.isNull then NilOf(zero, true) else o }

  function NormPort(s: ExposedPort): ExposedPort {
    s.(loadBalancerPort := NormNil(s.loadBalancerPort, 0), healthCheck := NormNil(s.healthCheck, ZERO_HEALTH_CHECK))
  }

  function NormEnv(s: CreateEnvironmentVariable): CreateEnvironmentVariable {
    s.(value := NormOpt(s.value, ""))
  }

  function NormPorts(s: Slice<ExposedPort>): Slice<ExposedPort> {
    SliceOf(seq(|Items(s)|, i requires 0 <= i < |Items(s)| => NormPort(Items(s)[i])))
  }

  function NormEnvs(s: Slice<CreateEnvironmentVariable>): Slice<CreateEnvironmentVariable> {
    SliceOf(seq(|Items(s)|, i requires 0 <= i < |Items(s)| => NormEnv(Items(s)[i])))
  }

  /** A nil `exposedPorts` or `env` comes back empty, a nil `cmd` or `host` stays nil, and
      what unset and null wrappers hide comes back zero. */
  function NormVersion(s: CreateApplicationVersion): CreateApplicationVersion {
    s.(fixedScale := NormOpt(s.fixedScale, 0), minScale := NormOpt(s.minScale, 0), maxScale := NormOpt(s.maxScale, 0),
       scaleInThreshold := NormOpt(s.scaleInThreshold, 0), scaleOutThreshold := NormOpt(s.scaleOutThreshold, 0),
       registryUsername := NormNil(s.registryUsername, ""), registryPassword := NormNil(s.registryPassword, ""),
       exposedPorts := NormPorts(s.exposedPorts), env := NormEnvs(s.env))
  }

  // One level of `Norm`.

  lemma NormScalar(k: Kind, v: Val)
    requires Scalar(k) && Fits(k, v)
    ensures Norm(k, v) == v
    ensures forall isSet :: Norm(KOpt(k), VOpt(isSet, v)) == VOpt(isSet, if isSet then v else Zero(k))
    ensures forall isNull :: Norm(KNil(k), VNil(isNull, v)) == VNil(isNull, if isNull then Zero(k) else v)
  {
  }

  lemma HealthCheckUnchanged(s: HealthCheck)
    ensures Fits(KObj(HEALTH_CHECK_FIELDS), HealthCheckVal(s))
    ensures Norm(KObj(HEALTH_CHECK_FIELDS), HealthCheckVal(s)) == HealthCheckVal(s)
  {
    HealthCheckFits(s);
    HealthCheckTable();
    UnchangedExactly(KObj(HEALTH_CHECK_FIELDS), HealthCheckVal(s));
  }

  lemma StringsNorm(s: Slice<string>)
    ensures Fits(KArr(KStr), StringsVal(s))
    ensures s.SliceOf? ==> Norm(KArr(KStr), StringsVal(s)) == StringsVal(s)
  {
    StringsFits(s);
    UnchangedExactly(KArr(KStr), StringsVal(s));
  }

  lemma PortNorm(s: ExposedPort)
    ensures Fits(KObj(EXPOSED_PORT_FIELDS), ExposedPortVal(s))
    ensures Norm(KObj(EXPOSED_PORT_FIELDS), ExposedPortVal(s)) == ExposedPortVal(NormPort(s))
  {
    ExposedPortFits(s);
    StringsNorm(s.host);
    HealthCheckUnchanged(s.healthCheck.value);
    ZeroHealthCheckVal();
    NormScalar(UINT16, VInt(s.targetPort));
    NormScalar(UINT16, VInt(s.loadBalancerPort.value));
    NormScalar(KBool, VBool(s.useLetsEncrypt));
    var v, n := ExposedPortVal(s), NormPort(s);
    forall i: nat | i < 5 ensures Norm(KObj(EXPOSED_PORT_FIELDS), v).vals[i] == ExposedPortAt(n, i) {
      NormSlot(EXPOSED_PORT_FIELDS, v, i);
      assert v.vals[i] == ExposedPortAt(s, i);
    }
    NormSlot(EXPOSED_PORT_FIELDS, v, 0);
    assert Norm(KObj(EXPOSED_PORT_FIELDS), v).vals == ExposedPortVal(n).vals;
  }

  lemma EnvNorm(s: CreateEnvironmentVariable)
    ensures Fits(KObj(CREATE_ENV_FIELDS), CreateEnvironmentVariableVal(s))
    ensures Norm(KObj(CREATE_ENV_FIELDS), CreateEnvironmentVariableVal(s)) == CreateEnvironmentVariableVal(NormEnv(s))
  {
    CreateEnvironmentVariableFits(s);
    NormScalar(KStr, VStr(s.key));
    NormScalar(KStr, VStr(s.value.value));
    NormScalar(KBool, VBool(s.secret));
    var v, n := CreateEnvironmentVariableVal(s), NormEnv(s);
    forall i: nat | i < 3 ensures Norm(KObj(CREATE_ENV_FIELDS), v).vals[i] == CreateEnvironmentVariableAt(n, i) {
      NormSlot(CREATE_ENV_FIELDS, v, i);
      assert v.vals[i] == CreateEnvironmentVariableAt(s, i);
    }
    NormSlot(CREATE_ENV_FIELDS, v, 0);
    assert Norm(KObj(CREATE_ENV_FIELDS), v).vals == CreateEnvironmentVariableVal(n).vals;
  }

  lemma PortsNorm(s: Slice<ExposedPort>)
    ensures Fits(KArr(KObj(EXPOSED_PORT_FIELDS)), ExposedPortsVal(s))
    ensures Norm(KArr(KObj(EXPOSED_PORT_FIELDS)), ExposedPortsVal(s)) == ExposedPortsVal(NormPorts(s))
  {
    ExposedPortsFits(s);
    forall i | 0 <= i < |Items(s)|
      ensures Fits(KObj(EXPOSED_PORT_FIELDS), ExposedPortVal(Items(s)[i]))
      ensures Norm(KObj(EXPOSED_PORT_FIELDS), ExposedPortVal(Items(s)[i])) == ExposedPortVal(NormPort(Items(s)[i]))
    {
      PortNorm(Items(s)[i]);
    }
    assert Norm(KArr(KObj(EXPOSED_PORT_FIELDS)), ExposedPortsVal(s)).elems == ExposedPortsVal(NormPorts(s)).elems;
  }

  lemma EnvsNorm(s: Slice<CreateEnvironmentVariable>)
    ensures Fits(KArr(KObj(CREATE_ENV_FIELDS)), CreateEnvironmentVariablesVal(s))
    ensures Norm(KArr(KObj(CREATE_ENV_FIELDS)), CreateEnvironmentVariablesVal(s)) ==
        CreateEnvironmentVariablesVal(NormEnvs(s))
  {
    CreateEnvironmentVariablesFits(s);
    forall i | 0 <= i < |Items(s)|
      ensures Fits(KObj(CREATE_ENV_FIELDS), CreateEnvironmentVariableVal(Items(s)[i]))
      ensures Norm(KObj(CREATE_ENV_FIELDS), CreateEnvironmentVariableVal(Items(s)[i])) ==
          CreateEnvironmentVariableVal(NormEnv(Items(s)[i]))
    {
      EnvNorm(Items(s)[i]);
    }
    assert Norm(KArr(KObj(CREATE_ENV_FIELDS)), CreateEnvironmentVariablesVal(s)).elems
        == CreateEnvironmentVariablesVal(NormEnvs(s)).elems;
  }

  lemma LowVersionSlots(s: CreateApplicationVersion, i: nat)
    requires i < 8
    ensures Fits(CREATE_VERSION_FIELDS[i].kind, CreateApplicationVersionAt(s, i))
    ensures Present(CREATE_VERSION_FIELDS[i], CreateApplicationVersionAt(s, i)) ==>
              Norm(CREATE_VERSION_FIELDS[i].kind, CreateApplicationVersionAt(s, i)) ==
                  CreateApplicationVersionAt(NormVersion(s), i)
    ensures !Present(CREATE_VERSION_FIELDS[i], CreateApplicationVersionAt(s, i)) ==>
              Zero(CREATE_VERSION_FIELDS[i].kind) == CreateApplicationVersionAt(NormVersion(s), i)
  {
    NormScalar(INT64, VInt(s.cpu));
    NormScalar(INT64, VInt(s.memory));
    NormScalar(KStr, VStr(s.scalingMode));
    NormScalar(INT32, VInt(s.fixedScale.value));
    NormScalar(INT32, VInt(s.minScale.value));
    NormScalar(INT32, VInt(s.maxScale.value));
    NormScalar(INT32, VInt(s.scaleInThreshold.value));
    NormScalar(INT32, VInt(s.scaleOutThreshold.value));
  }

  lemma HighVersionSlots(s: CreateApplicationVersion, i: nat)
    requires 8 <= i < 15
    ensures Fits(CREATE_VERSION_FIELDS[i].kind, CreateApplicationVersionAt(s, i))
    ensures Present(CREATE_VERSION_FIELDS[i], CreateApplicationVersionAt(s, i)) ==>
              Norm(CREATE_VERSION_FIELDS[i].kind, CreateApplicationVersionAt(s, i)) ==
                  CreateApplicationVersionAt(NormVersion(s), i)
    ensures !Present(CREATE_VERSION_FIELDS[i], CreateApplicationVersionAt(s, i)) ==>
              Zero(CREATE_VERSION_FIELDS[i].kind) == CreateApplicationVersionAt(NormVersion(s), i)
  {
    NormScalar(KStr, VStr(s.image));
    StringsNorm(s.cmd);
    NormScalar(KStr, VStr(s.registryUsername.value));
    NormScalar(KStr, VStr(s.registryPassword.value));
    NormScalar(KStr, VStr(s.registryPasswordAction));
    PortsNorm(s.exposedPorts);
    EnvsNorm(s.env);
  }

  /** `NormVersion` is the normal form. */
  lemma VersionNorm(s: CreateApplicationVersion)
    ensures Fits(KObj(CREATE_VERSION_FIELDS), CreateApplicationVersionVal(s))
    ensures Norm(KObj(CREATE_VERSION_FIELDS), CreateApplicationVersionVal(s)) ==
        CreateApplicationVersionVal(NormVersion(s))
  {
    CreateApplicationVersionFits(s);
    var v, n := CreateApplicationVersionVal(s), NormVersion(s);
    forall i: nat | i < 15 ensures Norm(KObj(CREATE_VERSION_FIELDS), v).vals[i] == CreateApplicationVersionAt(n, i) {
      NormSlot(CREATE_VERSION_FIELDS, v, i);
      assert v.vals[i] == CreateApplicationVersionAt(s, i);
      if i < 8 {
        LowVersionSlots(s, i);
      } else {
        HighVersionSlots(s, i);
      }
    }
    NormSlot(CREATE_VERSION_FIELDS, v, 0);
    assert Norm(KObj(CREATE_VERSION_FIELDS), v).vals == CreateApplicationVersionVal(n).vals;
  }

  // ---------- a struct is determined by its field values ----------

  lemma SameStrings(s: Slice<string>, t: Slice<string>)
    requires StringsVal(s) == StringsVal(t)
    ensures s == t
  {
    if s.SliceOf? {
      forall i | 0 <= i < |s.elems| ensures s.elems[i] == t.elems[i] {
        assert StringsVal(s).elems[i] == StringsVal(t).elems[i];
      }
      assert s.elems == t.elems;
    }
  }

  lemma SameHealthCheckSlot(s: HealthCheck, t: HealthCheck, i: nat)
    requires i < 3 && HealthCheckVal(s) == HealthCheckVal(t)
    ensures HealthCheckAt(s, i) == HealthCheckAt(t, i)
  {
    assert HealthCheckVal(s).vals[i] == HealthCheckAt(s, i);
    assert HealthCheckVal(t).vals[i] == HealthCheckAt(t, i);
  }

  lemma SameHealthChecks(s: HealthCheck, t: HealthCheck)
    requires HealthCheckVal(s) == HealthCheckVal(t)
    ensures s == t
  {
    SameHealthCheckSlot(s, t, 0);
    SameHealthCheckSlot(s, t, 1);
    SameHealthCheckSlot(s, t, 2);
  }

  lemma SameExposedPortSlot(s: ExposedPort, t: ExposedPort, i: nat)
    requires i < 5 && ExposedPortVal(s) == ExposedPortVal(t)
    ensures ExposedPortAt(s, i) == ExposedPortAt(t, i)
  {
    assert ExposedPortVal(s).vals[i] == ExposedPortAt(s, i);
    assert ExposedPortVal(t).vals[i] == ExposedPortAt(t, i);
  }

  lemma SamePorts(s: ExposedPort, t: ExposedPort)
    requires ExposedPortVal(s) == ExposedPortVal(t)
    ensures s == t
  {
    SameExposedPortSlot(s, t, 0);
    SameExposedPortSlot(s, t, 1);
    SameExposedPortSlot(s, t, 2);
    SameExposedPortSlot(s, t, 3);
    SameExposedPortSlot(s, t, 4);
    SameStrings(s.host, t.host);
    SameHealthChecks(s.healthCheck.value, t.healthCheck.value);
  }

  lemma SameCreateEnvironmentVariableSlot(s: CreateEnvironmentVariable, t: CreateEnvironmentVariable, i: nat)
    requires i < 3 && CreateEnvironmentVariableVal(s) == CreateEnvironmentVariableVal(t)
    ensures CreateEnvironmentVariableAt(s, i) == CreateEnvironmentVariableAt(t, i)
  {
    assert CreateEnvironmentVariableVal(s).vals[i] == CreateEnvironmentVariableAt(s, i);
    assert CreateEnvironmentVariableVal(t).vals[i] == CreateEnvironmentVariableAt(t, i);
  }

  lemma SameEnvs(s: CreateEnvironmentVariable, t: CreateEnvironmentVariable)
    requires CreateEnvironmentVariableVal(s) == CreateEnvironmentVariableVal(t)
    ensures s == t
  {
    SameCreateEnvironmentVariableSlot(s, t, 0);
    SameCreateEnvironmentVariableSlot(s, t, 1);
    SameCreateEnvironmentVariableSlot(s, t, 2);
  }

  lemma SamePortSlices(s: Slice<ExposedPort>, t: Slice<ExposedPort>)
    requires ExposedPortsVal(s) == ExposedPortsVal(t)
    ensures s == t
  {
    if s.SliceOf? {
      forall i | 0 <= i < |s.elems| ensures s.elems[i] == t.elems[i] {
        assert ExposedPortsVal(s).elems[i] == ExposedPortsVal(t).elems[i];
        SamePorts(s.elems[i], t.elems[i]);
      }
      assert s.elems == t.elems;
    }
  }

  lemma SameEnvSlices(s: Slice<CreateEnvironmentVariable>, t: Slice<CreateEnvironmentVariable>)
    requires CreateEnvironmentVariablesVal(s) == CreateEnvironmentVariablesVal(t)
    ensures s == t
  {
    if s.SliceOf? {
      forall i | 0 <= i < |s.elems| ensures s.elems[i] == t.elems[i] {
        assert CreateEnvironmentVariablesVal(s).elems[i] == CreateEnvironmentVariablesVal(t).elems[i];
        SameEnvs(s.elems[i], t.elems[i]);
      }
      assert s.elems == t.elems;
    }
  }

  lemma SameCreateApplicationVersionSlot(s: CreateApplicationVersion, t: CreateApplicationVersion, i: nat)
    requires i < 15 && CreateApplicationVersionVal(s) == CreateApplicationVersionVal(t)
    ensures CreateApplicationVersionAt(s, i) == CreateApplicationVersionAt(t, i)
  {
    assert CreateApplicationVersionVal(s).vals[i] == CreateApplicationVersionAt(s, i);
    assert CreateApplicationVersionVal(t).vals[i] == CreateApplicationVersionAt(t, i);
  }

  lemma SameVersions(s: CreateApplicationVersion, t: CreateApplicationVersion)
    requires CreateApplicationVersionVal(s) == CreateApplicationVersionVal(t)
    ensures s == t
  {
    SameCreateApplicationVersionSlot(s, t, 0);
    SameCreateApplicationVersionSlot(s, t, 1);
    SameCreateApplicationVersionSlot(s, t, 2);
    SameCreateApplicationVersionSlot(s, t, 3);
    SameCreateApplicationVersionSlot(s, t, 4);
    SameCreateApplicationVersionSlot(s, t, 5);
    SameCreateApplicationVersionSlot(s, t, 6);
    SameCreateApplicationVersionSlot(s, t, 7);
    SameCreateApplicationVersionSlot(s, t, 8);
    SameCreateApplicationVersionSlot(s, t, 9);
    SameCreateApplicationVersionSlot(s, t, 10);
    SameCreateApplicationVersionSlot(s, t, 11);
    SameCreateApplicationVersionSlot(s, t, 12);
    SameCreateApplicationVersionSlot(s, t, 13);
    SameCreateApplicationVersionSlot(s, t, 14);
    SameStrings(s.cmd, t.cmd);
    SamePortSlices(s.exposedPorts, t.exposedPorts);
    SameEnvSlices(s.env, t.env);
  }

  // ---------- repeated keys ----------

  /** Repeated keys in a `CreateApplicationVersion`: the last occurrence of each key decides,
      and an earlier one can do nothing but fail. */
  lemma VersionLastWins(prior: Val, ms: seq<Member>)
    ensures var k, kept := KObj(CREATE_VERSION_FIELDS), KeepLast(ms);
            (Decode(k, prior, JObj(ms)).Done? <==>
             Decode(k, prior, JObj(kept)).Done? && KnownMembersDecode(CREATE_VERSION_FIELDS, ms)) &&
            (KnownMembersDecode(CREATE_VERSION_FIELDS, ms) ==>
               Decode(k, prior, JObj(ms)) == Decode(k, prior, JObj(kept)))
  {
    forall i: nat | i < 15 ensures Overwrites(CREATE_VERSION_FIELDS[i].kind) {
      assert CREATE_VERSION_FIELDS[i] == CreateVersionField(i);
    }
    EarlierCanOnlyFail(CREATE_VERSION_FIELDS, prior, ms);
    if KnownMembersDecode(CREATE_VERSION_FIELDS, ms) {
      LastWins(CREATE_VERSION_FIELDS, prior, ms);
    }
  }

  lemma DetailOverwrites()
    ensures forall i :: 0 <= i < |ASG_DETAIL_FIELDS| ==> Overwrites(ASG_DETAIL_FIELDS[i].kind)
  {
    forall i: nat | i < 10 ensures Overwrites(ASG_DETAIL_FIELDS[i].kind) {
      assert ASG_DETAIL_FIELDS[i] == AsgDetailField(i);
    }
  }

  /** The members of an object that says `autoScalingGroup` once for each of `js`. */
  function Groups(js: seq<Value>): seq<Member> {
    seq(|js|, i requires 0 <= i < |js| => Member("autoScalingGroup", js[i]))
  }

  lemma {:induction false} GroupValues(js: seq<Value>)
    ensures Values(GET_ASG_FIELDS, 0, Groups(js)) == js
    decreases |js|
  {
    if js != [] {
      assert GET_ASG_FIELDS[0].name == "autoScalingGroup";
      GroupValues(js[1..]);
      assert Groups(js)[1..] == Groups(js[1..]);
    }
  }

  /** A response decodes one and the same struct from each of its groups in turn. */
  lemma GroupsInTurn(ms: seq<Member>)
    ensures var k, detail, js := KObj(GET_ASG_FIELDS), KObj(ASG_DETAIL_FIELDS), Values(GET_ASG_FIELDS, 0, ms);
            var r := DecodeAll(detail, Zero(detail), js);
            Decode(k, Zero(k), JObj(ms)) ==
            if r.None? then Failed else if js == [] then Missing(["autoScalingGroup"]) else Done(VObj([r.value]))
  {
    var k := KObj(GET_ASG_FIELDS);
    var vals := Preset(GET_ASG_FIELDS, Slots(GET_ASG_FIELDS, Zero(k)));
    assert GET_ASG_FIELDS[0] == GetAsgField(0);
    assert vals[0] == Zero(KObj(ASG_DETAIL_FIELDS));
    FieldByField(GET_ASG_FIELDS, vals, ms);
    OccursIsValues(GET_ASG_FIELDS, 0, ms);
    OneMissing(ms);
    var r := DecodeMembers(k, vals, ms);
    if r.Some? {
      assert r.value == [DecodeAll(KObj(ASG_DETAIL_FIELDS), vals[0], Values(GET_ASG_FIELDS, 0, ms)).value];
    }
  }

  lemma OneMissing(ms: seq<Member>)
    ensures MissingBelow(GET_ASG_FIELDS, ms, |GET_ASG_FIELDS|) ==
            if Occurs(GET_ASG_FIELDS, 0, ms) then [] else ["autoScalingGroup"]
  {
    assert GET_ASG_FIELDS[0] == GetAsgField(0);
    assert MissingBelow(GET_ASG_FIELDS, ms, 0) == [];
  }

  /** A detail that decodes has every field but `nameServers`. */
  lemma DetailOccurs(ms: seq<Member>, i: nat)
    requires Decodes(KObj(ASG_DETAIL_FIELDS), JObj(ms)) && i < 10 && i != 3
    ensures Occurs(ASG_DETAIL_FIELDS, i, ms)
  {
    SuccessExact(ASG_DETAIL_FIELDS, Zero(KObj(ASG_DETAIL_FIELDS)), ms);
    assert ASG_DETAIL_FIELDS[i] == AsgDetailField(i);
  }

  /** Repeated `autoScalingGroup` members, any number of them and among any others: keeping
      only the last occurrence of each key changes nothing exactly when there is no group, or
      the last one does not decode, or all of them do and the last one has `nameServers` if
      any has. */
  lemma RepeatedGroup(ms: seq<Member>)
    ensures var k, detail, js := KObj(GET_ASG_FIELDS), KObj(ASG_DETAIL_FIELDS), Values(GET_ASG_FIELDS, 0, ms);
            Decode(k, Zero(k), JObj(ms)) == Decode(k, Zero(k), JObj(KeepLast(ms))) <==>
            js == [] || !Decodes(detail, js[|js| - 1]) ||
            ((forall j :: j in js ==> Decodes(detail, j)) &&
             (OccursIn(ASG_DETAIL_FIELDS, 3, js) ==> OccursIn(ASG_DETAIL_FIELDS, 3, LastOf(js))))
  {
    var detail, js := KObj(ASG_DETAIL_FIELDS), Values(GET_ASG_FIELDS, 0, ms);
    GroupsInTurn(ms);
    GroupsInTurn(KeepLast(ms));
    KeepLastValues(GET_ASG_FIELDS, 0, ms);
    SucceedsInTurn(detail, Zero(detail), js);
    SucceedsInTurn(detail, Zero(detail), LastOf(js));
    if js != [] && forall j :: j in js ==> Decodes(detail, j) {
      LastGroup(js);
    }
  }

  lemma LastGroup(js: seq<Value>)
    requires js != [] && forall j :: j in js ==> Decodes(KObj(ASG_DETAIL_FIELDS), j)
    ensures var detail := KObj(ASG_DETAIL_FIELDS);
            DecodeAll(detail, Zero(detail), js) == DecodeAll(detail, Zero(detail), LastOf(js)) <==>
            (OccursIn(ASG_DETAIL_FIELDS, 3, js) ==> OccursIn(ASG_DETAIL_FIELDS, 3, LastOf(js)))
  {
    AsgDetailTable();
    DetailOverwrites();
    LastDecidesExactly(ASG_DETAIL_FIELDS, js);
    var last := js[|js| - 1];
    assert Decodes(KObj(ASG_DETAIL_FIELDS), last) && LastOf(js)[0] == last;
    forall i: nat | i < 10 && i != 3 ensures OccursIn(ASG_DETAIL_FIELDS, i, LastOf(js)) {
      DetailOccurs(last.members, i);
    }
  }

  /** So for every group `v` with name servers, followed by one `w` without: the name
      servers of `v` end up in `w`. */
  lemma NameServersSurvive(v: ReadAutoScalingGroupDetail, w: ReadAutoScalingGroupDetail)
    requires v.nameServers.SliceOf? && w.nameServers.NilSlice?
    ensures var k, detail := KObj(GET_ASG_FIELDS), KObj(ASG_DETAIL_FIELDS);
            var vs, ws := ReadAutoScalingGroupDetailVal(v), ReadAutoScalingGroupDetailVal(w);
            Fits(detail, vs) && Fits(detail, ws) &&
            var both := Decode(k, Zero(k), JObj(Groups([Tree(detail, vs), Tree(detail, ws)])));
            both == Done(VObj([VObj(Norm(detail, ws).vals[3 := StringsVal(v.nameServers)])])) &&
            both != Decode(k, Zero(k), JObj(Groups([Tree(detail, ws)])))
  {
    var detail := KObj(ASG_DETAIL_FIELDS);
    var vs, ws := ReadAutoScalingGroupDetailVal(v), ReadAutoScalingGroupDetailVal(w);
    ReadAutoScalingGroupDetailFits(v);
    ReadAutoScalingGroupDetailFits(w);
    AsgDetailTable();
    RoundTrip(detail, ws);
    NameServersSent(w);
    SecondInPlace(v, w);
    Alone(detail, Tree(detail, ws), Norm(detail, ws));
    GroupsDecode([Tree(detail, vs), Tree(detail, ws)]);
    GroupsDecode([Tree(detail, ws)]);
    assert Norm(detail, ws).vals[3] != StringsVal(v.nameServers);
  }

  lemma GroupsDecode(js: seq<Value>)
    requires js != [] && DecodeAll(KObj(ASG_DETAIL_FIELDS), Zero(KObj(ASG_DETAIL_FIELDS)), js).Some?
    ensures Decode(KObj(GET_ASG_FIELDS), Zero(KObj(GET_ASG_FIELDS)), JObj(Groups(js))) ==
            Done(VObj([DecodeAll(KObj(ASG_DETAIL_FIELDS), Zero(KObj(ASG_DETAIL_FIELDS)), js).value]))
  {
    GroupValues(js);
    GroupsInTurn(Groups(js));
  }

  lemma Alone(k: Kind, j: Value, r: Val)
    requires Decode(k, Zero(k), j) == Done(r)
    ensures DecodeAll(k, Zero(k), [j]) == Some(r)
  {
    assert DecodeAll(k, r, [j][1..]) == Some(r);
  }

  lemma NameServersSent(v: ReadAutoScalingGroupDetail)
    ensures var detail, vs := KObj(ASG_DETAIL_FIELDS), ReadAutoScalingGroupDetailVal(v);
            Fits(detail, vs) &&
            (Occurs(ASG_DETAIL_FIELDS, 3, Tree(detail, vs).members) <==> v.nameServers.SliceOf?) &&
            (v.nameServers.SliceOf? ==> Norm(detail, vs).vals[3] == StringsVal(v.nameServers))
  {
    ReadAutoScalingGroupDetailFits(v);
    AsgDetailTable();
    var vs := ReadAutoScalingGroupDetailVal(v);
    assert vs.vals[3] == ReadAutoScalingGroupDetailAt(v, 3);
    assert ASG_DETAIL_FIELDS[3] == AsgDetailField(3);
    SentExactly(KObj(ASG_DETAIL_FIELDS), vs, 3);
    NormSlot(ASG_DETAIL_FIELDS, vs, 3);
    StringsNorm(v.nameServers);
  }

  /** A detail without `nameServers`, decoded into `p`, replaces all of it but those. */
  lemma AllButNameServers(p: Val, ms: seq<Member>)
    requires p.VObj? && |p.vals| == 10
    requires Decodes(KObj(ASG_DETAIL_FIELDS), JObj(ms)) && !Occurs(ASG_DETAIL_FIELDS, 3, ms)
    ensures var k := KObj(ASG_DETAIL_FIELDS);
            var r0 := Decode(k, Zero(k), JObj(ms));
            r0.v.VObj? && |r0.v.vals| == 10 && Decode(k, p, JObj(ms)) == Done(VObj(r0.v.vals[3 := p.vals[3]]))
  {
    var k := KObj(ASG_DETAIL_FIELDS);
    AsgDetailTable();
    DetailOverwrites();
    var r, r0 := Decode(k, p, JObj(ms)), Decode(k, Zero(k), JObj(ms));
    InPlaceSlot(ASG_DETAIL_FIELDS, p, ms, 3);
    forall i: nat | i < 10 ensures r.v.vals[i] == if i == 3 then p.vals[3] else r0.v.vals[i] {
      InPlaceSlot(ASG_DETAIL_FIELDS, p, ms, i);
      if i != 3 {
        DetailOccurs(ms, i);
      }
    }
    assert r.v.vals == r0.v.vals[3 := p.vals[3]];
  }

  lemma SecondInPlace(v: ReadAutoScalingGroupDetail, w: ReadAutoScalingGroupDetail)
    requires v.nameServers.SliceOf? && w.nameServers.NilSlice?
    ensures var detail := KObj(ASG_DETAIL_FIELDS);
            var vs, ws := ReadAutoScalingGroupDetailVal(v), ReadAutoScalingGroupDetailVal(w);
            Fits(detail, vs) && Fits(detail, ws) &&
            DecodeAll(detail, Zero(detail), [Tree(detail, vs), Tree(detail, ws)]) ==
            Some(VObj(Norm(detail, ws).vals[3 := StringsVal(v.nameServers)]))
  {
    var detail := KObj(ASG_DETAIL_FIELDS);
    var vs, ws := ReadAutoScalingGroupDetailVal(v), ReadAutoScalingGroupDetailVal(w);
    NameServersSent(v);
    NameServersSent(w);
    AsgDetailTable();
    RoundTrip(detail, vs);
    RoundTrip(detail, ws);
    var p, second := Norm(detail, vs), Tree(detail, ws).members;
    AllButNameServers(p, second);
    var r := Decode(detail, p, JObj(second)).v;
    InTurn(detail, Tree(detail, vs), Tree(detail, ws), p, r);
  }

  lemma SentExactly(k: Kind, v: Val, i: nat)
    requires k.KObj? && WellFormed(k) && Fits(k, v) && i < |k.fields|
    ensures Occurs(k.fields, i, Tree(k, v).members) <==> Present(k.fields[i], v.vals[i])
  {
    TreeKeys(k, v.vals, |k.fields|, i);
    OccursIsValues(k.fields, i, Tree(k, v).members);
  }

  lemma InTurn(k: Kind, a: Value, b: Value, p: Val, r: Val)
    requires Decode(k, Zero(k), a) == Done(p) && Decode(k, p, b) == Done(r)
    ensures DecodeAll(k, Zero(k), [a, b]) == Some(r)
  {
    assert [a, b][1..] == [b];
    assert DecodeAll(k, p, [b]) == DecodeAll(k, r, []);
  }

  // ---------- defaults ----------

  /** `HealthCheck.setDefaults` is never observable: a successful decode takes interval and
      timeout from the last such members of the input, whatever the receiver held. */
  lemma DefaultsUnseen(prior: Val, ms: seq<Member>)
    requires Decode(KObj(HEALTH_CHECK_FIELDS), prior, JObj(ms)).Done?
    ensures var r := Decode(KObj(HEALTH_CHECK_FIELDS), prior, JObj(ms)).v.vals;
            var intervals, timeouts := Values(HEALTH_CHECK_FIELDS, 1, ms), Values(HEALTH_CHECK_FIELDS, 2, ms);
            intervals != [] && timeouts != [] && |r| == 3 &&
            Decode(INT32, VInt(30), intervals[|intervals| - 1]) == Done(r[1]) &&
            Decode(INT32, VInt(5), timeouts[|timeouts| - 1]) == Done(r[2])
  {
    var vals := Preset(HEALTH_CHECK_FIELDS, Slots(HEALTH_CHECK_FIELDS, prior));
    FieldByField(HEALTH_CHECK_FIELDS, vals, ms);
    SuccessExact(HEALTH_CHECK_FIELDS, prior, ms);
    forall i: nat | i in {1, 2}
      ensures HEALTH_CHECK_FIELDS[i] == HealthCheckField(i) && HEALTH_CHECK_FIELDS[i].kind == INT32
      ensures Values(HEALTH_CHECK_FIELDS, i, ms) != []
      ensures forall j :: j in Values(HEALTH_CHECK_FIELDS, i, ms) ==> Decodes(INT32, j)
    {
      OccursIsValues(HEALTH_CHECK_FIELDS, i, ms);
      ValuesDecode(HEALTH_CHECK_FIELDS, i, ms);
    }
    DecodeAllLast(INT32, vals[1], Values(HEALTH_CHECK_FIELDS, 1, ms));
    DecodeAllLast(INT32, vals[2], Values(HEALTH_CHECK_FIELDS, 2, ms));
  }

  /** Nor would any other defaults be; and null stores zeros, not the defaults. */
  lemma AnyDefaultsUnseen(interval: Option<Val>, timeout: Option<Val>, p: Val, q: Val, j: Value)
    ensures var fields' := HEALTH_CHECK_FIELDS[1 := HEALTH_CHECK_FIELDS[1].(preset := interval)]
                                            [2 := HEALTH_CHECK_FIELDS[2].(preset := timeout)];
            Decode(KObj(fields'), p, j) == Decode(KObj(HEALTH_CHECK_FIELDS), q, j)
    ensures Decode(KNil(KObj(HEALTH_CHECK_FIELDS)), p, JNull) == Done(VNil(true, HealthCheckVal(HealthCheck("", 0, 0))))
  {
    var fields' := HEALTH_CHECK_FIELDS[1 := HEALTH_CHECK_FIELDS[1].(preset := interval)]
                                    [2 := HEALTH_CHECK_FIELDS[2].(preset := timeout)];
    forall i: nat | i < 3 ensures HEALTH_CHECK_FIELDS[i].required && Overwrites(HEALTH_CHECK_FIELDS[i].kind) {
      assert HEALTH_CHECK_FIELDS[i] == HealthCheckField(i);
    }
    PresetsUnseen(HEALTH_CHECK_FIELDS, fields', p, j);
    OverwritesReceiver(KObj(HEALTH_CHECK_FIELDS), p, q, j);
    ZeroHealthCheckVal();
  }
}
