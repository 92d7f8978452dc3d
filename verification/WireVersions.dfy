/** What is said under each key of a version, of its ports, variables and health checks. */
module WireVersions {
  import opened Json
  import opened Schema
  import opened Kinds
  import opened Jx
  import opened Wrappers
  import opened HealthChecks
  import opened Versions
  import opened Laws
  import opened RoundTrips
  import opened Decoded
  import opened Payloads
  import opened Wire

  // ---------- HealthCheck ----------

  function HealthCheckParts(s: HealthCheck): seq<seq<Member>> {
    [[Member("path", JStr(s.path))],
     [Member("intervalSeconds", JInt(s.intervalSeconds))],
     [Member("timeoutSeconds", JInt(s.timeoutSeconds))]]
  }

  function HealthCheckJson(s: HealthCheck): Value { JObj(Flat(HealthCheckParts(s))) }

  lemma HealthCheckSaid(s: HealthCheck)
    ensures var f, vals := HEALTH_CHECK_FIELDS, HealthCheckVal(s).vals;
            forall i: nat | 0 <= i < 3 :: Says(f[i], vals[i], HealthCheckParts(s)[i])
  {
    var f := HEALTH_CHECK_FIELDS;
    SaysText(f[0], s.path);
    SaysInt(f[1], s.intervalSeconds);
    SaysInt(f[2], s.timeoutSeconds);
  }

  /** The object that is sent. */
  lemma HealthCheckSent(s: HealthCheck)
    ensures Fits(KObj(HEALTH_CHECK_FIELDS), HealthCheckVal(s))
    ensures Tree(KObj(HEALTH_CHECK_FIELDS), HealthCheckVal(s)) == HealthCheckJson(s)
  {
    HealthCheckFits(s);
    HealthCheckSaid(s);
    StructSent(HEALTH_CHECK_FIELDS, HealthCheckVal(s).vals, HealthCheckParts(s), 3);
    assert HealthCheckParts(s)[..3] == HealthCheckParts(s);
  }

  ghost predicate ReadsHealthCheck(ms: seq<Member>, now: HealthCheck) {
    ReadsText(AllOf(ms, "path"), now.path) &&
    ReadsInt32(AllOf(ms, "intervalSeconds"), now.intervalSeconds) &&
    ReadsInt32(AllOf(ms, "timeoutSeconds"), now.timeoutSeconds)
  }

  lemma HealthCheckRead(ms: seq<Member>, was: HealthCheck, now: HealthCheck)
    ensures Decode(KObj(HEALTH_CHECK_FIELDS), HealthCheckVal(was), JObj(ms)) == Done(HealthCheckVal(now)) <==>
            ReadsHealthCheck(ms, now)
  {
    var f, vals := HEALTH_CHECK_FIELDS, HealthCheckVal(was).vals;
    HealthCheckTable();
    StructExactly(f, vals, HealthCheckVal(now).vals, ms);
    TextField(f[0], AllOf(ms, "path"), vals[0], now.path);
    IntField(f[1], AllOf(ms, "intervalSeconds"), vals[1], now.intervalSeconds);
    IntField(f[2], AllOf(ms, "timeoutSeconds"), vals[2], now.timeoutSeconds);
  }

  ghost predicate IsHealthCheck(j: Value) { j.JObj? && exists s :: ReadsHealthCheck(j.members, s) }

  lemma HealthCheckStruct(v: Val) returns (s: HealthCheck)
    requires Fits(KObj(HEALTH_CHECK_FIELDS), v)
    ensures HealthCheckVal(s) == v
  {
    var f := HEALTH_CHECK_FIELDS;
    assert Fits(f[0].kind, v.vals[0]) && Fits(f[1].kind, v.vals[1]) && Fits(f[2].kind, v.vals[2]);
    s := HealthCheck(v.vals[0].s, v.vals[1].n, v.vals[2].n);
    assert HealthCheckVal(s).vals == v.vals;
  }

  lemma HealthCheckDecodes(j: Value)
    ensures Decodes(KObj(HEALTH_CHECK_FIELDS), j) <==> IsHealthCheck(j)
  {
    var k := KObj(HEALTH_CHECK_FIELDS);
    ZeroHealthCheckVal();
    if Decodes(k, j) {
      HealthCheckTable();
      ZeroTidy(k);
      DecodeCanonical(k, Zero(k), j);
      var s := HealthCheckStruct(Decode(k, Zero(k), j).v);
      HealthCheckRead(j.members, ZERO_HEALTH_CHECK, s);
    }
    if IsHealthCheck(j) {
      var s :| ReadsHealthCheck(j.members, s);
      HealthCheckRead(j.members, ZERO_HEALTH_CHECK, s);
    }
  }

  ghost predicate ReadsNilHealthCheck(js: seq<Value>, now: NilOf<HealthCheck>) {
    js != [] && (forall j :: j in js ==> j.JNull? || IsHealthCheck(j)) &&
    var last := js[|js| - 1];
    if now.isNull then last == JNull && now.value == ZERO_HEALTH_CHECK
    else last.JObj? && ReadsHealthCheck(last.members, now.value)
  }

  lemma NilHealthCheckField(f: Field, js: seq<Value>, was: Val, now: NilOf<HealthCheck>)
    requires f.required && f.kind == KNil(KObj(HEALTH_CHECK_FIELDS))
    ensures FieldReads(f, js, was, VNil(now.isNull, HealthCheckVal(now.value))) <==> ReadsNilHealthCheck(js, now)
  {
    var k := KObj(HEALTH_CHECK_FIELDS);
    HealthCheckOverwrites();
    LastReads(f, js, was, VNil(now.isNull, HealthCheckVal(now.value)));
    if js != [] {
      forall j | j in js ensures Decodes(f.kind, j) <==> j.JNull? || IsHealthCheck(j) {
        NilOnce(k, j);
        HealthCheckDecodes(j);
      }
      NilHealthCheckLast(js[|js| - 1], now);
    }
  }

  lemma HealthCheckOverwrites()
    ensures Overwrites(KObj(HEALTH_CHECK_FIELDS)) && Overwrites(KNil(KObj(HEALTH_CHECK_FIELDS)))
  {
    forall i: nat | i < 3 ensures HEALTH_CHECK_FIELDS[i].required && Overwrites(HEALTH_CHECK_FIELDS[i].kind) {
      assert HEALTH_CHECK_FIELDS[i] == HealthCheckField(i);
    }
  }

  lemma NilHealthCheckLast(j: Value, now: NilOf<HealthCheck>)
    ensures var k := KNil(KObj(HEALTH_CHECK_FIELDS));
            Decode(k, Zero(k), j) == Done(VNil(now.isNull, HealthCheckVal(now.value))) <==>
            if now.isNull then j == JNull && now.value == ZERO_HEALTH_CHECK
            else j.JObj? && ReadsHealthCheck(j.members, now.value)
  {
    NilOnce(KObj(HEALTH_CHECK_FIELDS), j);
    ZeroHealthCheckVal();
    if j.JObj? {
      HealthCheckRead(j.members, ZERO_HEALTH_CHECK, now.value);
    } else if HealthCheckVal(now.value) == HealthCheckVal(ZERO_HEALTH_CHECK) {
      SameHealthChecks(now.value, ZERO_HEALTH_CHECK);
    }
  }

  // ---------- ExposedPort ----------

  /** What is sent of each field, in turn. */
  function PortParts(s: ExposedPort): seq<seq<Member>> {
    [[Member("targetPort", JInt(s.targetPort))],
     [Member("loadBalancerPort", OrNull(s.loadBalancerPort.isNull, JInt(s.loadBalancerPort.value)))],
     [Member("useLetsEncrypt", JBool(s.useLetsEncrypt))],
     When(s.host.SliceOf?, Member("host", TextsJson(Items(s.host)))),
     [Member("healthCheck", OrNull(s.healthCheck.isNull, HealthCheckJson(s.healthCheck.value)))]]
  }

  function PortJson(s: ExposedPort): Value { JObj(Flat(PortParts(s))) }

  lemma PortSaid(s: ExposedPort)
    ensures var f, vals := EXPOSED_PORT_FIELDS, ExposedPortVal(s).vals;
            forall i: nat | 0 <= i < 5 :: Says(f[i], vals[i], PortParts(s)[i])
  {
    var f := EXPOSED_PORT_FIELDS;
    SaysInt(f[0], s.targetPort);
    SaysNilInt(f[1], s.loadBalancerPort.isNull, s.loadBalancerPort.value);
    SaysBool(f[2], s.useLetsEncrypt);
    TextsSent(s.host);
    SaysSlice(f[3], StringsVal(s.host));
    HealthCheckSent(s.healthCheck.value);
    SaysNil(f[4], s.healthCheck.isNull, HealthCheckVal(s.healthCheck.value));
  }

  /** The object that is sent. */
  lemma PortSent(s: ExposedPort)
    ensures Fits(KObj(EXPOSED_PORT_FIELDS), ExposedPortVal(s))
    ensures Tree(KObj(EXPOSED_PORT_FIELDS), ExposedPortVal(s)) == PortJson(s)
  {
    ExposedPortFits(s);
    PortSaid(s);
    StructSent(EXPOSED_PORT_FIELDS, ExposedPortVal(s).vals, PortParts(s), 5);
    assert PortParts(s)[..5] == PortParts(s);
  }

  ghost predicate ReadsPort(ms: seq<Member>, was: ExposedPort, now: ExposedPort) {
    ReadsPortNumber(AllOf(ms, "targetPort"), now.targetPort) &&
    ReadsNilPortNumber(AllOf(ms, "loadBalancerPort"), now.loadBalancerPort) &&
    ReadsBool(AllOf(ms, "useLetsEncrypt"), now.useLetsEncrypt) &&
    ReadsOptTexts(AllOf(ms, "host"), was.host, now.host) &&
    ReadsNilHealthCheck(AllOf(ms, "healthCheck"), now.healthCheck)
  }

  /** An object decodes to `now` exactly when what stands under the keys says so. */
  lemma PortRead(ms: seq<Member>, was: ExposedPort, now: ExposedPort)
    ensures ReadsPort(ms, was, now) <==>
            (Decode(KObj(EXPOSED_PORT_FIELDS), ExposedPortVal(was), JObj(ms)) ==
             Done(ExposedPortVal(now)))
  {
    var f, vals := EXPOSED_PORT_FIELDS, ExposedPortVal(was).vals;
    ExposedPortTable();
    StructExactly(f, vals, ExposedPortVal(now).vals, ms);
    IntField(f[0], AllOf(ms, "targetPort"), vals[0], now.targetPort);
    NilPortNumberField(f[1], AllOf(ms, "loadBalancerPort"), vals[1], now.loadBalancerPort);
    BoolField(f[2], AllOf(ms, "useLetsEncrypt"), vals[2], now.useLetsEncrypt);
    OptTextsField(f[3], AllOf(ms, "host"), was.host, now.host);
    NilHealthCheckField(f[4], AllOf(ms, "healthCheck"), vals[4], now.healthCheck);
  }

  /** What an element is decoded from. */
  ghost predicate IsPort(j: Value) { j.JObj? && exists s :: ReadsPort(j.members, ZERO_EXPOSED_PORT, s) }

  lemma PortStruct(v: Val) returns (s: ExposedPort)
    requires Fits(KObj(EXPOSED_PORT_FIELDS), v)
    ensures ExposedPortVal(s) == v
  {
    var f := EXPOSED_PORT_FIELDS;
    assert Fits(f[0].kind, v.vals[0]) && Fits(f[1].kind, v.vals[1]) && Fits(f[2].kind, v.vals[2]) &&
        Fits(f[3].kind, v.vals[3]) && Fits(f[4].kind, v.vals[4]);
    var loadBalancerPort := NilPortNumberOf(v.vals[1]);
    var slice := TextsSlice(v.vals[3]);
    var inner := HealthCheckStruct(v.vals[4].v);
    s := ExposedPort(v.vals[0].n, loadBalancerPort, v.vals[2].b, slice, NilOf(inner, v.vals[4].isNull));
    assert ExposedPortVal(s).vals == v.vals;
  }

  lemma PortDecodes(j: Value)
    ensures Decodes(KObj(EXPOSED_PORT_FIELDS), j) <==> IsPort(j)
  {
    var k := KObj(EXPOSED_PORT_FIELDS);
    ZeroExposedPortVal();
    if Decodes(k, j) {
      ExposedPortTable();
      ZeroTidy(k);
      DecodeCanonical(k, Zero(k), j);
      var s := PortStruct(Decode(k, Zero(k), j).v);
      PortRead(j.members, ZERO_EXPOSED_PORT, s);
    }
    if IsPort(j) {
      var s :| ReadsPort(j.members, ZERO_EXPOSED_PORT, s);
      PortRead(j.members, ZERO_EXPOSED_PORT, s);
    }
  }

  function PortsJson(xs: seq<ExposedPort>): Value { JArr(seq(|xs|, i requires 0 <= i < |xs| => PortJson(xs[i]))) }

  lemma PortsSent(s: Slice<ExposedPort>)
    ensures Fits(KArr(KObj(EXPOSED_PORT_FIELDS)), ExposedPortsVal(s)) &&
        Tree(KArr(KObj(EXPOSED_PORT_FIELDS)), ExposedPortsVal(s)) == PortsJson(Items(s))
  {
    ExposedPortsFits(s);
    forall i | 0 <= i < |Items(s)|
      ensures Elems(ExposedPortsVal(s))[i] == ExposedPortVal(Items(s)[i]) &&
          Fits(KObj(EXPOSED_PORT_FIELDS), Elems(ExposedPortsVal(s))[i])
      ensures Tree(KObj(EXPOSED_PORT_FIELDS), Elems(ExposedPortsVal(s))[i]) == PortJson(Items(s)[i])
    {
      PortSent(Items(s)[i]);
    }
    assert TreeElems(KObj(EXPOSED_PORT_FIELDS), Elems(ExposedPortsVal(s))) == PortsJson(Items(s)).elems;
  }

  ghost predicate ArePorts(j: Value) { j.JArr? && forall x :: x in j.elems ==> IsPort(x) }

  /** An array fills a slice, each element in a fresh struct. */
  ghost predicate FillsPorts(j: Value, now: Slice<ExposedPort>) {
    j.JArr? && now.SliceOf? && |now.elems| == |j.elems| &&
    forall i :: 0 <= i < |j.elems| ==>
      j.elems[i].JObj? && ReadsPort(j.elems[i].members, ZERO_EXPOSED_PORT, now.elems[i])
  }

  lemma PortsDecode(j: Value, now: Slice<ExposedPort>)
    ensures Decodes(KArr(KObj(EXPOSED_PORT_FIELDS)), j) <==> ArePorts(j)
    ensures FillsPorts(j, now) <==>
            (Decode(KArr(KObj(EXPOSED_PORT_FIELDS)), VNilSlice, j) ==
             Done(ExposedPortsVal(now)))
  {
    if j.JArr? {
      var k, js := KObj(EXPOSED_PORT_FIELDS), j.elems;
      ElemsDecode(k, js);
      forall x | x in js ensures Decodes(k, x) <==> IsPort(x) {
        PortDecodes(x);
      }
      if now.SliceOf? {
        ElemsExactly(k, js, ExposedPortsVal(now).elems);
        if |js| == |now.elems| {
          PortsFill(js, now.elems);
        }
      }
    }
  }

  lemma PortsFill(js: seq<Value>, now: seq<ExposedPort>)
    requires |js| == |now|
    ensures forall i :: 0 <= i < |js| ==>
              (js[i].JObj? && ReadsPort(js[i].members, ZERO_EXPOSED_PORT, now[i]) <==>
               Becomes(EXPOSED_PORT_FIELDS, js[i], ExposedPortVal(now[i])))
  {
    ZeroExposedPortVal();
    forall i | 0 <= i < |js| && js[i].JObj?
      ensures ReadsPort(js[i].members, ZERO_EXPOSED_PORT, now[i]) <==>
              Becomes(EXPOSED_PORT_FIELDS, js[i], ExposedPortVal(now[i]))
    {
      PortRead(js[i].members, ZERO_EXPOSED_PORT, now[i]);
    }
  }

  lemma PortsStruct(vs: seq<Val>) returns (xs: seq<ExposedPort>)
    requires forall v :: v in vs ==> Fits(KObj(EXPOSED_PORT_FIELDS), v)
    ensures |xs| == |vs| && forall i :: 0 <= i < |vs| ==> ExposedPortVal(xs[i]) == vs[i]
  {
    xs := [];
    if vs != [] {
      var x := PortStruct(vs[0]);
      var rest := PortsStruct(vs[1..]);
      xs := [x] + rest;
    }
  }

  lemma PortsSlice(v: Val) returns (s: Slice<ExposedPort>)
    requires Fits(KArr(KObj(EXPOSED_PORT_FIELDS)), v)
    ensures ExposedPortsVal(s) == v
  {
    var xs := PortsStruct(Elems(v));
    s := if v.VSlice? then SliceOf(xs) else NilSlice;
    if v.VSlice? {
      assert ExposedPortsVal(s).elems == v.elems;
    }
  }

  ghost predicate ReadsPorts(js: seq<Value>, now: Slice<ExposedPort>) {
    js != [] && (forall j :: j in js ==> ArePorts(j)) && FillsPorts(js[|js| - 1], now)
  }

  lemma PortsField(f: Field, js: seq<Value>, was: Val, now: Slice<ExposedPort>)
    requires f.required && f.kind == KArr(KObj(EXPOSED_PORT_FIELDS))
    ensures FieldReads(f, js, was, ExposedPortsVal(now)) <==> ReadsPorts(js, now)
  {
    LastReads(f, js, was, ExposedPortsVal(now));
    if js != [] {
      forall j | j in js ensures Decodes(f.kind, j) <==> ArePorts(j) { PortsDecode(j, now); }
      PortsDecode(js[|js| - 1], now);
    }
  }

  // ---------- CreateEnvironmentVariable ----------

  /** What is sent of each field, in turn. */
  function VariableParts(s: CreateEnvironmentVariable): seq<seq<Member>> {
    [[Member("key", JStr(s.key))],
     When(s.value.isSet, Member("value", JStr(s.value.value))),
     [Member("secret", JBool(s.secret))]]
  }

  function VariableJson(s: CreateEnvironmentVariable): Value { JObj(Flat(VariableParts(s))) }

  lemma VariableSaid(s: CreateEnvironmentVariable)
    ensures var f, vals := CREATE_ENV_FIELDS, CreateEnvironmentVariableVal(s).vals;
            forall i: nat | 0 <= i < 3 :: Says(f[i], vals[i], VariableParts(s)[i])
  {
    var f := CREATE_ENV_FIELDS;
    SaysText(f[0], s.key);
    SaysOptText(f[1], s.value.isSet, s.value.value);
    SaysBool(f[2], s.secret);
  }

  /** The object that is sent. */
  lemma VariableSent(s: CreateEnvironmentVariable)
    ensures Fits(KObj(CREATE_ENV_FIELDS), CreateEnvironmentVariableVal(s))
    ensures Tree(KObj(CREATE_ENV_FIELDS), CreateEnvironmentVariableVal(s)) == VariableJson(s)
  {
    CreateEnvironmentVariableFits(s);
    VariableSaid(s);
    StructSent(CREATE_ENV_FIELDS, CreateEnvironmentVariableVal(s).vals, VariableParts(s), 3);
    assert VariableParts(s)[..3] == VariableParts(s);
  }

  ghost predicate ReadsVariable(ms: seq<Member>, was: CreateEnvironmentVariable, now: CreateEnvironmentVariable) {
    ReadsText(AllOf(ms, "key"), now.key) &&
    ReadsOptText(AllOf(ms, "value"), was.value, now.value) &&
    ReadsBool(AllOf(ms, "secret"), now.secret)
  }

  /** An object decodes to `now` exactly when what stands under the keys says so. */
  lemma VariableRead(ms: seq<Member>, was: CreateEnvironmentVariable, now: CreateEnvironmentVariable)
    ensures ReadsVariable(ms, was, now) <==>
            (Decode(KObj(CREATE_ENV_FIELDS), CreateEnvironmentVariableVal(was), JObj(ms)) ==
             Done(CreateEnvironmentVariableVal(now)))
  {
    var f, vals := CREATE_ENV_FIELDS, CreateEnvironmentVariableVal(was).vals;
    CreateEnvTable();
    StructExactly(f, vals, CreateEnvironmentVariableVal(now).vals, ms);
    TextField(f[0], AllOf(ms, "key"), vals[0], now.key);
    OptTextField(f[1], AllOf(ms, "value"), was.value, now.value);
    BoolField(f[2], AllOf(ms, "secret"), vals[2], now.secret);
  }

  /** What an element is decoded from. */
  ghost predicate IsVariable(j: Value) { j.JObj? &&
      exists s :: ReadsVariable(j.members, ZERO_CREATE_ENVIRONMENT_VARIABLE, s) }

  lemma VariableStruct(v: Val) returns (s: CreateEnvironmentVariable)
    requires Fits(KObj(CREATE_ENV_FIELDS), v)
    ensures CreateEnvironmentVariableVal(s) == v
  {
    var f := CREATE_ENV_FIELDS;
    assert Fits(f[0].kind, v.vals[0]) && Fits(f[1].kind, v.vals[1]) && Fits(f[2].kind, v.vals[2]);
    var value := OptTextOf(v.vals[1]);
    s := CreateEnvironmentVariable(v.vals[0].s, value, v.vals[2].b);
    assert CreateEnvironmentVariableVal(s).vals == v.vals;
  }

  lemma VariableDecodes(j: Value)
    ensures Decodes(KObj(CREATE_ENV_FIELDS), j) <==> IsVariable(j)
  {
    var k := KObj(CREATE_ENV_FIELDS);
    ZeroCreateEnvironmentVariableVal();
    if Decodes(k, j) {
      CreateEnvTable();
      ZeroTidy(k);
      DecodeCanonical(k, Zero(k), j);
      var s := VariableStruct(Decode(k, Zero(k), j).v);
      VariableRead(j.members, ZERO_CREATE_ENVIRONMENT_VARIABLE, s);
    }
    if IsVariable(j) {
      var s :| ReadsVariable(j.members, ZERO_CREATE_ENVIRONMENT_VARIABLE, s);
      VariableRead(j.members, ZERO_CREATE_ENVIRONMENT_VARIABLE, s);
    }
  }

  function VariablesJson(xs: seq<CreateEnvironmentVariable>): Value { JArr(seq(|xs|,
      i requires 0 <= i < |xs| => VariableJson(xs[i]))) }

  lemma VariablesSent(s: Slice<CreateEnvironmentVariable>)
    ensures Fits(KArr(KObj(CREATE_ENV_FIELDS)), CreateEnvironmentVariablesVal(s)) &&
        Tree(KArr(KObj(CREATE_ENV_FIELDS)), CreateEnvironmentVariablesVal(s)) == VariablesJson(Items(s))
  {
    CreateEnvironmentVariablesFits(s);
    forall i | 0 <= i < |Items(s)|
      ensures Elems(CreateEnvironmentVariablesVal(s))[i] == CreateEnvironmentVariableVal(Items(s)[i]) &&
          Fits(KObj(CREATE_ENV_FIELDS), Elems(CreateEnvironmentVariablesVal(s))[i])
      ensures Tree(KObj(CREATE_ENV_FIELDS), Elems(CreateEnvironmentVariablesVal(s))[i]) == VariableJson(Items(s)[i])
    {
      VariableSent(Items(s)[i]);
    }
    assert TreeElems(KObj(CREATE_ENV_FIELDS), Elems(CreateEnvironmentVariablesVal(s))) ==
        VariablesJson(Items(s)).elems;
  }

  ghost predicate AreVariables(j: Value) { j.JArr? && forall x :: x in j.elems ==> IsVariable(x) }

  /** An array fills a slice, each element in a fresh struct. */
  ghost predicate FillsVariables(j: Value, now: Slice<CreateEnvironmentVariable>) {
    j.JArr? && now.SliceOf? && |now.elems| == |j.elems| &&
    forall i :: 0 <= i < |j.elems| ==>
      j.elems[i].JObj? && ReadsVariable(j.elems[i].members, ZERO_CREATE_ENVIRONMENT_VARIABLE, now.elems[i])
  }

  lemma VariablesDecode(j: Value, now: Slice<CreateEnvironmentVariable>)
    ensures Decodes(KArr(KObj(CREATE_ENV_FIELDS)), j) <==> AreVariables(j)
    ensures FillsVariables(j, now) <==>
            (Decode(KArr(KObj(CREATE_ENV_FIELDS)), VNilSlice, j) ==
             Done(CreateEnvironmentVariablesVal(now)))
  {
    if j.JArr? {
      var k, js := KObj(CREATE_ENV_FIELDS), j.elems;
      ElemsDecode(k, js);
      forall x | x in js ensures Decodes(k, x) <==> IsVariable(x) {
        VariableDecodes(x);
      }
      if now.SliceOf? {
        ElemsExactly(k, js, CreateEnvironmentVariablesVal(now).elems);
        if |js| == |now.elems| {
          VariablesFill(js, now.elems);
        }
      }
    }
  }

  lemma VariablesFill(js: seq<Value>, now: seq<CreateEnvironmentVariable>)
    requires |js| == |now|
    ensures forall i :: 0 <= i < |js| ==>
              (js[i].JObj? && ReadsVariable(js[i].members, ZERO_CREATE_ENVIRONMENT_VARIABLE, now[i]) <==>
               Becomes(CREATE_ENV_FIELDS, js[i], CreateEnvironmentVariableVal(now[i])))
  {
    ZeroCreateEnvironmentVariableVal();
    forall i | 0 <= i < |js| && js[i].JObj?
      ensures ReadsVariable(js[i].members, ZERO_CREATE_ENVIRONMENT_VARIABLE, now[i]) <==>
              Becomes(CREATE_ENV_FIELDS, js[i], CreateEnvironmentVariableVal(now[i]))
    {
      VariableRead(js[i].members, ZERO_CREATE_ENVIRONMENT_VARIABLE, now[i]);
    }
  }

  lemma VariablesStruct(vs: seq<Val>) returns (xs: seq<CreateEnvironmentVariable>)
    requires forall v :: v in vs ==> Fits(KObj(CREATE_ENV_FIELDS), v)
    ensures |xs| == |vs| && forall i :: 0 <= i < |vs| ==> CreateEnvironmentVariableVal(xs[i]) == vs[i]
  {
    xs := [];
    if vs != [] {
      var x := VariableStruct(vs[0]);
      var rest := VariablesStruct(vs[1..]);
      xs := [x] + rest;
    }
  }

  lemma VariablesSlice(v: Val) returns (s: Slice<CreateEnvironmentVariable>)
    requires Fits(KArr(KObj(CREATE_ENV_FIELDS)), v)
    ensures CreateEnvironmentVariablesVal(s) == v
  {
    var xs := VariablesStruct(Elems(v));
    s := if v.VSlice? then SliceOf(xs) else NilSlice;
    if v.VSlice? {
      assert CreateEnvironmentVariablesVal(s).elems == v.elems;
    }
  }

  ghost predicate ReadsVariables(js: seq<Value>, now: Slice<CreateEnvironmentVariable>) {
    js != [] && (forall j :: j in js ==> AreVariables(j)) && FillsVariables(js[|js| - 1], now)
  }

  lemma VariablesField(f: Field, js: seq<Value>, was: Val, now: Slice<CreateEnvironmentVariable>)
    requires f.required && f.kind == KArr(KObj(CREATE_ENV_FIELDS))
    ensures FieldReads(f, js, was, CreateEnvironmentVariablesVal(now)) <==> ReadsVariables(js, now)
  {
    LastReads(f, js, was, CreateEnvironmentVariablesVal(now));
    if js != [] {
      forall j | j in js ensures Decodes(f.kind, j) <==> AreVariables(j) { VariablesDecode(j, now); }
      VariablesDecode(js[|js| - 1], now);
    }
  }

  // ---------- CreateApplicationVersion ----------

  /** What is sent of each field, in turn. */
  function VersionParts(s: CreateApplicationVersion): seq<seq<Member>> {
    [[Member("cpu", JInt(s.cpu))],
     [Member("memory", JInt(s.memory))],
     [Member("scalingMode", JStr(s.scalingMode))],
     When(s.fixedScale.isSet, Member("fixedScale", JInt(s.fixedScale.value))),
     When(s.minScale.isSet, Member("minScale", JInt(s.minScale.value))),
     When(s.maxScale.isSet, Member("maxScale", JInt(s.maxScale.value))),
     When(s.scaleInThreshold.isSet, Member("scaleInThreshold", JInt(s.scaleInThreshold.value))),
     When(s.scaleOutThreshold.isSet, Member("scaleOutThreshold", JInt(s.scaleOutThreshold.value))),
     [Member("image", JStr(s.image))],
     When(s.cmd.SliceOf?, Member("cmd", TextsJson(Items(s.cmd)))),
     [Member("registryUsername", OrNull(s.registryUsername.isNull, JStr(s.registryUsername.value)))],
     [Member("registryPassword", OrNull(s.registryPassword.isNull, JStr(s.registryPassword.value)))],
     [Member("registryPasswordAction", JStr(s.registryPasswordAction))],
     [Member("exposedPorts", PortsJson(Items(s.exposedPorts)))],
     [Member("env", VariablesJson(Items(s.env)))]]
  }

  function VersionJson(s: CreateApplicationVersion): Value { JObj(Flat(VersionParts(s))) }

  lemma VersionSizesSaid(s: CreateApplicationVersion)
    ensures var f, vals := CREATE_VERSION_FIELDS, CreateApplicationVersionVal(s).vals;
            forall i: nat | 0 <= i < 3 :: Says(f[i], vals[i], VersionParts(s)[i])
  {
    var f := CREATE_VERSION_FIELDS;
    SaysInt(f[0], s.cpu);
    SaysInt(f[1], s.memory);
    SaysText(f[2], s.scalingMode);
  }

  lemma VersionScalesSaid(s: CreateApplicationVersion)
    ensures var f, vals := CREATE_VERSION_FIELDS, CreateApplicationVersionVal(s).vals;
            forall i: nat | 3 <= i < 8 :: Says(f[i], vals[i], VersionParts(s)[i])
  {
    var f := CREATE_VERSION_FIELDS;
    SaysOptInt(f[3], s.fixedScale.isSet, s.fixedScale.value);
    SaysOptInt(f[4], s.minScale.isSet, s.minScale.value);
    SaysOptInt(f[5], s.maxScale.isSet, s.maxScale.value);
    SaysOptInt(f[6], s.scaleInThreshold.isSet, s.scaleInThreshold.value);
    SaysOptInt(f[7], s.scaleOutThreshold.isSet, s.scaleOutThreshold.value);
  }

  lemma VersionImageSaid(s: CreateApplicationVersion)
    ensures var f, vals := CREATE_VERSION_FIELDS, CreateApplicationVersionVal(s).vals;
            forall i: nat | 8 <= i < 11 :: Says(f[i], vals[i], VersionParts(s)[i])
  {
    var f := CREATE_VERSION_FIELDS;
    SaysText(f[8], s.image);
    TextsSent(s.cmd);
    SaysSlice(f[9], StringsVal(s.cmd));
    SaysNilText(f[10], s.registryUsername);
  }

  lemma VersionRegistrySaid(s: CreateApplicationVersion)
    ensures var f, vals := CREATE_VERSION_FIELDS, CreateApplicationVersionVal(s).vals;
            forall i: nat | 11 <= i < 13 :: Says(f[i], vals[i], VersionParts(s)[i])
  {
    var f := CREATE_VERSION_FIELDS;
    SaysNilText(f[11], s.registryPassword);
    SaysText(f[12], s.registryPasswordAction);
  }

  lemma VersionListsSaid(s: CreateApplicationVersion)
    ensures var f, vals := CREATE_VERSION_FIELDS, CreateApplicationVersionVal(s).vals;
            forall i: nat | 13 <= i < 15 :: Says(f[i], vals[i], VersionParts(s)[i])
  {
    var f := CREATE_VERSION_FIELDS;
    PortsSent(s.exposedPorts);
    SaysSlice(f[13], ExposedPortsVal(s.exposedPorts));
    VariablesSent(s.env);
    SaysSlice(f[14], CreateEnvironmentVariablesVal(s.env));
  }

  /** The object that is sent. */
  lemma VersionSent(s: CreateApplicationVersion)
    ensures Fits(KObj(CREATE_VERSION_FIELDS), CreateApplicationVersionVal(s))
    ensures Tree(KObj(CREATE_VERSION_FIELDS), CreateApplicationVersionVal(s)) == VersionJson(s)
  {
    CreateApplicationVersionFits(s);
    VersionSizesSaid(s);
    VersionScalesSaid(s);
    VersionImageSaid(s);
    VersionRegistrySaid(s);
    VersionListsSaid(s);
    StructSent(CREATE_VERSION_FIELDS, CreateApplicationVersionVal(s).vals, VersionParts(s), 15);
    assert VersionParts(s)[..15] == VersionParts(s);
  }

  ghost predicate ReadsVersionSizes(ms: seq<Member>, now: CreateApplicationVersion) {
    ReadsInt64(AllOf(ms, "cpu"), now.cpu) &&
    ReadsInt64(AllOf(ms, "memory"), now.memory) &&
    ReadsText(AllOf(ms, "scalingMode"), now.scalingMode)
  }

  ghost predicate ReadsVersionScales(ms: seq<Member>, was: CreateApplicationVersion,
      now: CreateApplicationVersion) {
    ReadsOptInt32(AllOf(ms, "fixedScale"), was.fixedScale, now.fixedScale) &&
    ReadsOptInt32(AllOf(ms, "minScale"), was.minScale, now.minScale) &&
    ReadsOptInt32(AllOf(ms, "maxScale"), was.maxScale, now.maxScale) &&
    ReadsOptInt32(AllOf(ms, "scaleInThreshold"), was.scaleInThreshold, now.scaleInThreshold) &&
    ReadsOptInt32(AllOf(ms, "scaleOutThreshold"), was.scaleOutThreshold, now.scaleOutThreshold)
  }

  ghost predicate ReadsVersionImage(ms: seq<Member>, was: CreateApplicationVersion, now: CreateApplicationVersion) {
    ReadsText(AllOf(ms, "image"), now.image) &&
    ReadsOptTexts(AllOf(ms, "cmd"), was.cmd, now.cmd) &&
    ReadsNilText(AllOf(ms, "registryUsername"), now.registryUsername)
  }

  ghost predicate ReadsVersionRegistry(ms: seq<Member>, now: CreateApplicationVersion) {
    ReadsNilText(AllOf(ms, "registryPassword"), now.registryPassword) &&
    ReadsText(AllOf(ms, "registryPasswordAction"), now.registryPasswordAction)
  }

  ghost predicate ReadsVersionLists(ms: seq<Member>, now: CreateApplicationVersion) {
    ReadsPorts(AllOf(ms, "exposedPorts"), now.exposedPorts) &&
    ReadsVariables(AllOf(ms, "env"), now.env)
  }

  ghost predicate ReadsVersion(ms: seq<Member>, was: CreateApplicationVersion, now: CreateApplicationVersion) {
    ReadsVersionSizes(ms, now) &&
    ReadsVersionScales(ms, was, now) &&
    ReadsVersionImage(ms, was, now) &&
    ReadsVersionRegistry(ms, now) &&
    ReadsVersionLists(ms, now)
  }

  lemma VersionSizesRead(ms: seq<Member>, was: CreateApplicationVersion, now: CreateApplicationVersion)
    ensures FieldsRead(CREATE_VERSION_FIELDS, CreateApplicationVersionVal(was).vals,
        CreateApplicationVersionVal(now).vals, ms, 0, 3) <==>
            ReadsVersionSizes(ms, now)
  {
    var f, vals := CREATE_VERSION_FIELDS, CreateApplicationVersionVal(was).vals;
    IntField(f[0], AllOf(ms, "cpu"), vals[0], now.cpu);
    IntField(f[1], AllOf(ms, "memory"), vals[1], now.memory);
    TextField(f[2], AllOf(ms, "scalingMode"), vals[2], now.scalingMode);
  }

  lemma VersionScalesRead(ms: seq<Member>, was: CreateApplicationVersion, now: CreateApplicationVersion)
    ensures FieldsRead(CREATE_VERSION_FIELDS, CreateApplicationVersionVal(was).vals,
        CreateApplicationVersionVal(now).vals, ms, 3, 8) <==>
            ReadsVersionScales(ms, was, now)
  {
    var f, vals := CREATE_VERSION_FIELDS, CreateApplicationVersionVal(was).vals;
    OptInt32Field(f[3], AllOf(ms, "fixedScale"), was.fixedScale, now.fixedScale);
    OptInt32Field(f[4], AllOf(ms, "minScale"), was.minScale, now.minScale);
    OptInt32Field(f[5], AllOf(ms, "maxScale"), was.maxScale, now.maxScale);
    OptInt32Field(f[6], AllOf(ms, "scaleInThreshold"), was.scaleInThreshold, now.scaleInThreshold);
    OptInt32Field(f[7], AllOf(ms, "scaleOutThreshold"), was.scaleOutThreshold, now.scaleOutThreshold);
  }

  lemma VersionImageRead(ms: seq<Member>, was: CreateApplicationVersion, now: CreateApplicationVersion)
    ensures FieldsRead(CREATE_VERSION_FIELDS, CreateApplicationVersionVal(was).vals,
        CreateApplicationVersionVal(now).vals, ms, 8, 11) <==>
            ReadsVersionImage(ms, was, now)
  {
    var f, vals := CREATE_VERSION_FIELDS, CreateApplicationVersionVal(was).vals;
    TextField(f[8], AllOf(ms, "image"), vals[8], now.image);
    OptTextsField(f[9], AllOf(ms, "cmd"), was.cmd, now.cmd);
    NilTextField(f[10], AllOf(ms, "registryUsername"), vals[10], now.registryUsername);
  }

  lemma VersionRegistryRead(ms: seq<Member>, was: CreateApplicationVersion, now: CreateApplicationVersion)
    ensures FieldsRead(CREATE_VERSION_FIELDS, CreateApplicationVersionVal(was).vals,
        CreateApplicationVersionVal(now).vals, ms, 11, 13) <==>
            ReadsVersionRegistry(ms, now)
  {
    var f, vals := CREATE_VERSION_FIELDS, CreateApplicationVersionVal(was).vals;
    NilTextField(f[11], AllOf(ms, "registryPassword"), vals[11], now.registryPassword);
    TextField(f[12], AllOf(ms, "registryPasswordAction"), vals[12], now.registryPasswordAction);
  }

  lemma VersionListsRead(ms: seq<Member>, was: CreateApplicationVersion, now: CreateApplicationVersion)
    ensures FieldsRead(CREATE_VERSION_FIELDS, CreateApplicationVersionVal(was).vals,
        CreateApplicationVersionVal(now).vals, ms, 13, 15) <==>
            ReadsVersionLists(ms, now)
  {
    var f, vals := CREATE_VERSION_FIELDS, CreateApplicationVersionVal(was).vals;
    PortsField(f[13], AllOf(ms, "exposedPorts"), vals[13], now.exposedPorts);
    VariablesField(f[14], AllOf(ms, "env"), vals[14], now.env);
  }

  /** An object decodes to `now` exactly when what stands under the keys says so. */
  lemma VersionRead(ms: seq<Member>, was: CreateApplicationVersion, now: CreateApplicationVersion)
    ensures ReadsVersion(ms, was, now) <==>
            (Decode(KObj(CREATE_VERSION_FIELDS), CreateApplicationVersionVal(was), JObj(ms)) ==
             Done(CreateApplicationVersionVal(now)))
  {
    CreateVersionTable();
    StructExactly(CREATE_VERSION_FIELDS, CreateApplicationVersionVal(was).vals,
        CreateApplicationVersionVal(now).vals, ms);
    VersionSizesRead(ms, was, now);
    VersionScalesRead(ms, was, now);
    VersionImageRead(ms, was, now);
    VersionRegistryRead(ms, was, now);
    VersionListsRead(ms, was, now);
  }

  /** The required keys. */
  const VERSION_KEYS := ["cpu", "memory", "scalingMode", "image", "registryUsername", "registryPassword",
                         "registryPasswordAction", "exposedPorts", "env"]

  lemma VersionKeysTo5()
    ensures RequiredKeys(CREATE_VERSION_FIELDS, 5) == VERSION_KEYS[..3]
  {
    assert RequiredKeys(CREATE_VERSION_FIELDS, 1) == VERSION_KEYS[..1];
    assert RequiredKeys(CREATE_VERSION_FIELDS, 2) == VERSION_KEYS[..2];
    assert RequiredKeys(CREATE_VERSION_FIELDS, 3) == VERSION_KEYS[..3];
    assert RequiredKeys(CREATE_VERSION_FIELDS, 4) == VERSION_KEYS[..3];
  }

  lemma VersionKeysTo10()
    ensures RequiredKeys(CREATE_VERSION_FIELDS, 10) == VERSION_KEYS[..4]
  {
    VersionKeysTo5();
    assert RequiredKeys(CREATE_VERSION_FIELDS, 6) == VERSION_KEYS[..3];
    assert RequiredKeys(CREATE_VERSION_FIELDS, 7) == VERSION_KEYS[..3];
    assert RequiredKeys(CREATE_VERSION_FIELDS, 8) == VERSION_KEYS[..3];
    assert RequiredKeys(CREATE_VERSION_FIELDS, 9) == VERSION_KEYS[..4];
  }

  lemma VersionKeysTo15()
    ensures RequiredKeys(CREATE_VERSION_FIELDS, 15) == VERSION_KEYS[..9]
  {
    VersionKeysTo10();
    assert RequiredKeys(CREATE_VERSION_FIELDS, 11) == VERSION_KEYS[..5];
    assert RequiredKeys(CREATE_VERSION_FIELDS, 12) == VERSION_KEYS[..6];
    assert RequiredKeys(CREATE_VERSION_FIELDS, 13) == VERSION_KEYS[..7];
    assert RequiredKeys(CREATE_VERSION_FIELDS, 14) == VERSION_KEYS[..8];
  }

  /** What a decode reports as missing. */
  lemma VersionMissing(ms: seq<Member>)
    ensures MissingBelow(CREATE_VERSION_FIELDS, ms, 15) == Absent(VERSION_KEYS, ms)
  {
    CreateVersionTable();
    VersionKeysTo15();
    assert VERSION_KEYS[..9] == VERSION_KEYS;
    MissingIsAbsent(CREATE_VERSION_FIELDS, ms, 15);
  }

  lemma VersionScalesOf(v: Val)
    returns (fixed: OptOf<int32>, min: OptOf<int32>, max: OptOf<int32>, scaleIn: OptOf<int32>, scaleOut: OptOf<int32>)
    requires Fits(KObj(CREATE_VERSION_FIELDS), v)
    ensures VOpt(fixed.isSet, VInt(fixed.value)) == v.vals[3] && VOpt(min.isSet, VInt(min.value)) == v.vals[4]
    ensures VOpt(max.isSet, VInt(max.value)) == v.vals[5] && VOpt(scaleIn.isSet, VInt(scaleIn.value)) == v.vals[6]
    ensures VOpt(scaleOut.isSet, VInt(scaleOut.value)) == v.vals[7]
  {
    var f := CREATE_VERSION_FIELDS;
    assert Fits(f[3].kind, v.vals[3]) && Fits(f[4].kind, v.vals[4]) && Fits(f[5].kind, v.vals[5]) &&
        Fits(f[6].kind, v.vals[6]) && Fits(f[7].kind, v.vals[7]);
    fixed := OptInt32Of(v.vals[3]);
    min := OptInt32Of(v.vals[4]);
    max := OptInt32Of(v.vals[5]);
    scaleIn := OptInt32Of(v.vals[6]);
    scaleOut := OptInt32Of(v.vals[7]);
  }

  lemma VersionStruct(v: Val) returns (s: CreateApplicationVersion)
    requires Fits(KObj(CREATE_VERSION_FIELDS), v)
    ensures CreateApplicationVersionVal(s) == v
  {
    var f := CREATE_VERSION_FIELDS;
    assert Fits(f[0].kind, v.vals[0]) && Fits(f[1].kind, v.vals[1]) && Fits(f[2].kind, v.vals[2]) &&
        Fits(f[8].kind, v.vals[8]) && Fits(f[9].kind, v.vals[9]) && Fits(f[10].kind, v.vals[10]) &&
        Fits(f[11].kind, v.vals[11]) && Fits(f[12].kind, v.vals[12]) && Fits(f[13].kind, v.vals[13]) &&
        Fits(f[14].kind, v.vals[14]);
    var fixedScale, minScale, maxScale, scaleInThreshold, scaleOutThreshold := VersionScalesOf(v);
    var cmd := TextsSlice(v.vals[9]);
    var registryUsername := NilTextOf(v.vals[10]);
    var registryPassword := NilTextOf(v.vals[11]);
    var exposedPorts := PortsSlice(v.vals[13]);
    var env := VariablesSlice(v.vals[14]);
    s := CreateApplicationVersion(v.vals[0].n, v.vals[1].n, v.vals[2].s, fixedScale, minScale, maxScale,
        scaleInThreshold, scaleOutThreshold, v.vals[8].s, cmd, registryUsername, registryPassword, v.vals[12].s,
        exposedPorts, env);
    assert CreateApplicationVersionVal(s).vals == v.vals;
  }

  lemma VersionSucceeds(ms: seq<Member>)
    ensures Decodes(KObj(CREATE_VERSION_FIELDS), JObj(ms)) <==>
            exists v :: ReadsVersion(ms, ZERO_CREATE_APPLICATION_VERSION, v)
  {
    var k := KObj(CREATE_VERSION_FIELDS);
    ZeroCreateApplicationVersionVal();
    if Decodes(k, JObj(ms)) {
      CreateVersionTable();
      ZeroTidy(k);
      DecodeCanonical(k, Zero(k), JObj(ms));
      var v := VersionStruct(Decode(k, Zero(k), JObj(ms)).v);
      VersionRead(ms, ZERO_CREATE_APPLICATION_VERSION, v);
    }
    if v :| ReadsVersion(ms, ZERO_CREATE_APPLICATION_VERSION, v) {
      VersionRead(ms, ZERO_CREATE_APPLICATION_VERSION, v);
    }
  }

  /** Missing fields are reported, in the order of the struct, exactly when nothing else is
      wrong: with the members of a zero version added the object would decode. */
  lemma VersionLacks(was: CreateApplicationVersion, ms: seq<Member>, names: seq<string>)
    ensures Decode(KObj(CREATE_VERSION_FIELDS), CreateApplicationVersionVal(was), JObj(ms)) == Missing(names) <==>
            names != [] && names == Absent(VERSION_KEYS, ms) && OnlyLacks(ms)
  {
    var k, zero := KObj(CREATE_VERSION_FIELDS), ZERO_CREATE_APPLICATION_VERSION;
    ZeroCreateApplicationVersionVal();
    CreateVersionTable();
    VersionSent(zero);
    RoundTrip(k, CreateApplicationVersionVal(zero));
    OnlyMissing(CREATE_VERSION_FIELDS, CreateApplicationVersionVal(was), ms, VersionJson(zero).members, names);
    VersionMissing(ms);
    VersionSucceeds(ms + VersionJson(zero).members);
  }

  ghost predicate OnlyLacks(ms: seq<Member>) {
    exists v ::
      ReadsVersion(ms + VersionJson(ZERO_CREATE_APPLICATION_VERSION).members, ZERO_CREATE_APPLICATION_VERSION, v)
  }

  /** Whole streams: what was read is one object, printed, and says so under its keys. */
  lemma VersionOnStream(was: CreateApplicationVersion, now: CreateApplicationVersion,
      t: seq<Token>, rest: seq<Token>)
    ensures (exists ms :: t == Print(JObj(ms), rest) && ReadsVersion(ms, was, now)) <==>
            (DecodeAt(KObj(CREATE_VERSION_FIELDS), CreateApplicationVersionVal(was), t) ==
             DoneAt(CreateApplicationVersionVal(now), rest))
  {
    OnStream(CREATE_VERSION_FIELDS, CreateApplicationVersionVal(was), CreateApplicationVersionVal(now), t, rest);
    forall ms: seq<Member>
      ensures ReadsVersion(ms, was, now) <==>
              (Decode(KObj(CREATE_VERSION_FIELDS), CreateApplicationVersionVal(was), JObj(ms)) ==
               Done(CreateApplicationVersionVal(now)))
    {
      VersionRead(ms, was, now);
    }
  }

  /** Round trip: encode `v`, put any tokens behind it, decode into a fresh receiver.  What is
      sent is the object written out above; it is consumed exactly, and gives the normal form. */
  method SendVersion(v: CreateApplicationVersion, behind: seq<Token>)
    returns (sent: seq<Token>, back: CreateApplicationVersion, err: Error, left: seq<Token>)
    ensures sent == Print(VersionJson(v), [])
    ensures err == NoError && back == NormVersion(v) && left == behind
  {
    var e := new Encoder();
    var out := new CreateApplicationVersionRef(v);
    out.Encode(e);
    sent := e.tokens;
    var d := new Decoder(sent + behind);
    var received := new CreateApplicationVersionRef(ZERO_CREATE_APPLICATION_VERSION);
    err := received.Decode(d);
    back, left := received.s, d.Rest();
    ZeroCreateApplicationVersionVal();
    VersionNorm(v);
    CreateVersionTable();
    VersionSent(v);
    EncodedAs(KObj(CREATE_VERSION_FIELDS), CreateApplicationVersionVal(v));
    StreamRoundTrip(KObj(CREATE_VERSION_FIELDS), CreateApplicationVersionVal(v), behind);
    SameVersions(back, NormVersion(v));
  }
}
