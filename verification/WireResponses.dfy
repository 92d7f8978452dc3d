/** What is said under each key of a version detail and of an auto scaling group. */
module WireResponses {
  import opened Json
  import opened Schema
  import opened Kinds
  import opened Jx
  import opened Wrappers
  import opened Versions
  import opened ReadVersions
  import opened AutoScaling
  import opened Laws
  import opened RoundTrips
  import opened Decoded
  import opened Payloads
  import opened Responses
  import opened Wire
  import opened WireVersions

  // ---------- ReadEnvironmentVariable ----------

  /** What is sent of each field, in turn. */
  function ShownVariableParts(s: ReadEnvironmentVariable): seq<seq<Member>> {
    [[Member("key", JStr(s.key))],
     [Member("value", OrNull(s.value.isNull, JStr(s.value.value)))],
     [Member("secret", JBool(s.secret))]]
  }

  function ShownVariableJson(s: ReadEnvironmentVariable): Value { JObj(Flat(ShownVariableParts(s))) }

  lemma ShownVariableSaid(s: ReadEnvironmentVariable)
    ensures var f, vals := READ_ENV_FIELDS, ReadEnvironmentVariableVal(s).vals;
            forall i: nat | 0 <= i < 3 :: Says(f[i], vals[i], ShownVariableParts(s)[i])
  {
    var f := READ_ENV_FIELDS;
    SaysText(f[0], s.key);
    SaysNilText(f[1], s.value);
    SaysBool(f[2], s.secret);
  }

  /** The object that is sent. */
  lemma ShownVariableSent(s: ReadEnvironmentVariable)
    ensures Fits(KObj(READ_ENV_FIELDS), ReadEnvironmentVariableVal(s))
    ensures Tree(KObj(READ_ENV_FIELDS), ReadEnvironmentVariableVal(s)) == ShownVariableJson(s)
  {
    ReadEnvironmentVariableFits(s);
    ShownVariableSaid(s);
    StructSent(READ_ENV_FIELDS, ReadEnvironmentVariableVal(s).vals, ShownVariableParts(s), 3);
    assert ShownVariableParts(s)[..3] == ShownVariableParts(s);
  }

  ghost predicate ReadsShownVariable(ms: seq<Member>, now: ReadEnvironmentVariable) {
    ReadsText(AllOf(ms, "key"), now.key) &&
    ReadsNilText(AllOf(ms, "value"), now.value) &&
    ReadsBool(AllOf(ms, "secret"), now.secret)
  }

  /** An object decodes to `now` exactly when what stands under the keys says so. */
  lemma ShownVariableRead(ms: seq<Member>, was: ReadEnvironmentVariable, now: ReadEnvironmentVariable)
    ensures ReadsShownVariable(ms, now) <==>
            (Decode(KObj(READ_ENV_FIELDS), ReadEnvironmentVariableVal(was), JObj(ms)) ==
             Done(ReadEnvironmentVariableVal(now)))
  {
    var f, vals := READ_ENV_FIELDS, ReadEnvironmentVariableVal(was).vals;
    ReadEnvTable();
    StructExactly(f, vals, ReadEnvironmentVariableVal(now).vals, ms);
    TextField(f[0], AllOf(ms, "key"), vals[0], now.key);
    NilTextField(f[1], AllOf(ms, "value"), vals[1], now.value);
    BoolField(f[2], AllOf(ms, "secret"), vals[2], now.secret);
  }

  /** What an element is decoded from. */
  ghost predicate IsShownVariable(j: Value) { j.JObj? && exists s :: ReadsShownVariable(j.members, s) }

  lemma ShownVariableStruct(v: Val) returns (s: ReadEnvironmentVariable)
    requires Fits(KObj(READ_ENV_FIELDS), v)
    ensures ReadEnvironmentVariableVal(s) == v
  {
    var f := READ_ENV_FIELDS;
    assert Fits(f[0].kind, v.vals[0]) && Fits(f[1].kind, v.vals[1]) && Fits(f[2].kind, v.vals[2]);
    var value := NilTextOf(v.vals[1]);
    s := ReadEnvironmentVariable(v.vals[0].s, value, v.vals[2].b);
    assert ReadEnvironmentVariableVal(s).vals == v.vals;
  }

  lemma ShownVariableDecodes(j: Value)
    ensures Decodes(KObj(READ_ENV_FIELDS), j) <==> IsShownVariable(j)
  {
    var k := KObj(READ_ENV_FIELDS);
    ZeroReadEnvironmentVariableVal();
    if Decodes(k, j) {
      ReadEnvTable();
      ZeroTidy(k);
      DecodeCanonical(k, Zero(k), j);
      var s := ShownVariableStruct(Decode(k, Zero(k), j).v);
      ShownVariableRead(j.members, ZERO_READ_ENVIRONMENT_VARIABLE, s);
    }
    if IsShownVariable(j) {
      var s :| ReadsShownVariable(j.members, s);
      ShownVariableRead(j.members, ZERO_READ_ENVIRONMENT_VARIABLE, s);
    }
  }

  function ShownVariablesJson(xs: seq<ReadEnvironmentVariable>): Value { JArr(seq(|xs|,
      i requires 0 <= i < |xs| => ShownVariableJson(xs[i]))) }

  lemma ShownVariablesSent(s: Slice<ReadEnvironmentVariable>)
    ensures Fits(KArr(KObj(READ_ENV_FIELDS)), ReadEnvironmentVariablesVal(s)) &&
        Tree(KArr(KObj(READ_ENV_FIELDS)), ReadEnvironmentVariablesVal(s)) == ShownVariablesJson(Items(s))
  {
    ReadEnvironmentVariablesFits(s);
    forall i | 0 <= i < |Items(s)|
      ensures Elems(ReadEnvironmentVariablesVal(s))[i] == ReadEnvironmentVariableVal(Items(s)[i]) &&
          Fits(KObj(READ_ENV_FIELDS), Elems(ReadEnvironmentVariablesVal(s))[i])
      ensures Tree(KObj(READ_ENV_FIELDS), Elems(ReadEnvironmentVariablesVal(s))[i]) ==
          ShownVariableJson(Items(s)[i])
    {
      ShownVariableSent(Items(s)[i]);
    }
    assert TreeElems(KObj(READ_ENV_FIELDS), Elems(ReadEnvironmentVariablesVal(s))) ==
        ShownVariablesJson(Items(s)).elems;
  }

  ghost predicate AreShownVariables(j: Value) { j.JArr? && forall x :: x in j.elems ==> IsShownVariable(x) }

  /** An array fills a slice, each element in a fresh struct. */
  ghost predicate FillsShownVariables(j: Value, now: Slice<ReadEnvironmentVariable>) {
    j.JArr? && now.SliceOf? && |now.elems| == |j.elems| &&
    forall i :: 0 <= i < |j.elems| ==>
      j.elems[i].JObj? && ReadsShownVariable(j.elems[i].members, now.elems[i])
  }

  lemma ShownVariablesDecode(j: Value, now: Slice<ReadEnvironmentVariable>)
    ensures Decodes(KArr(KObj(READ_ENV_FIELDS)), j) <==> AreShownVariables(j)
    ensures FillsShownVariables(j, now) <==>
            (Decode(KArr(KObj(READ_ENV_FIELDS)), VNilSlice, j) ==
             Done(ReadEnvironmentVariablesVal(now)))
  {
    if j.JArr? {
      var k, js := KObj(READ_ENV_FIELDS), j.elems;
      ElemsDecode(k, js);
      forall x | x in js ensures Decodes(k, x) <==> IsShownVariable(x) {
        ShownVariableDecodes(x);
      }
      if now.SliceOf? {
        ElemsExactly(k, js, ReadEnvironmentVariablesVal(now).elems);
        if |js| == |now.elems| {
          ShownVariablesFill(js, now.elems);
        }
      }
    }
  }

  lemma ShownVariablesFill(js: seq<Value>, now: seq<ReadEnvironmentVariable>)
    requires |js| == |now|
    ensures forall i :: 0 <= i < |js| ==>
              (js[i].JObj? && ReadsShownVariable(js[i].members, now[i]) <==>
               Becomes(READ_ENV_FIELDS, js[i], ReadEnvironmentVariableVal(now[i])))
  {
    ZeroReadEnvironmentVariableVal();
    forall i | 0 <= i < |js| && js[i].JObj?
      ensures ReadsShownVariable(js[i].members, now[i]) <==>
              Becomes(READ_ENV_FIELDS, js[i], ReadEnvironmentVariableVal(now[i]))
    {
      ShownVariableRead(js[i].members, ZERO_READ_ENVIRONMENT_VARIABLE, now[i]);
    }
  }

  ghost predicate ReadsShownVariables(js: seq<Value>, now: Slice<ReadEnvironmentVariable>) {
    js != [] && (forall j :: j in js ==> AreShownVariables(j)) && FillsShownVariables(js[|js| - 1], now)
  }

  lemma ShownVariablesField(f: Field, js: seq<Value>, was: Val, now: Slice<ReadEnvironmentVariable>)
    requires f.required && f.kind == KArr(KObj(READ_ENV_FIELDS))
    ensures FieldReads(f, js, was, ReadEnvironmentVariablesVal(now)) <==> ReadsShownVariables(js, now)
  {
    LastReads(f, js, was, ReadEnvironmentVariablesVal(now));
    if js != [] {
      forall j | j in js ensures Decodes(f.kind, j) <==> AreShownVariables(j) { ShownVariablesDecode(j, now); }
      ShownVariablesDecode(js[|js| - 1], now);
    }
  }

  // ---------- ReadApplicationVersionDetail ----------

  /** What is sent of each field, in turn. */
  function DetailParts(s: ReadApplicationVersionDetail): seq<seq<Member>> {
    [[Member("version", JInt(s.version))],
     [Member("cpu", JInt(s.cpu))],
     [Member("memory", JInt(s.memory))],
     [Member("scalingMode", JStr(s.scalingMode))],
     When(s.fixedScale.isSet, Member("fixedScale", JInt(s.fixedScale.value))),
     When(s.minScale.isSet, Member("minScale", JInt(s.minScale.value))),
     When(s.maxScale.isSet, Member("maxScale", JInt(s.maxScale.value))),
     When(s.scaleInThreshold.isSet, Member("scaleInThreshold", JInt(s.scaleInThreshold.value))),
     When(s.scaleOutThreshold.isSet, Member("scaleOutThreshold", JInt(s.scaleOutThreshold.value))),
     [Member("image", JStr(s.image))],
     When(s.cmd.SliceOf?, Member("cmd", TextsJson(Items(s.cmd)))),
     [Member("registryUsername", OrNull(s.registryUsername.isNull, JStr(s.registryUsername.value)))],
     [Member("registryPassword", OrNull(s.registryPassword.isNull, JStr(s.registryPassword.value)))],
     [Member("activeNodeCount", JInt(s.activeNodeCount))],
     [Member("created", JInt(s.created))],
     [Member("exposedPorts", PortsJson(Items(s.exposedPorts)))],
     [Member("env", ShownVariablesJson(Items(s.env)))]]
  }

  function DetailJson(s: ReadApplicationVersionDetail): Value { JObj(Flat(DetailParts(s))) }

  lemma DetailSizesSaid(s: ReadApplicationVersionDetail)
    ensures var f, vals := READ_VERSION_FIELDS, ReadApplicationVersionDetailVal(s).vals;
            forall i: nat | 0 <= i < 4 :: Says(f[i], vals[i], DetailParts(s)[i])
  {
    var f := READ_VERSION_FIELDS;
    SaysInt(f[0], s.version);
    SaysInt(f[1], s.cpu);
    SaysInt(f[2], s.memory);
    SaysText(f[3], s.scalingMode);
  }

  lemma DetailScalesSaid(s: ReadApplicationVersionDetail)
    ensures var f, vals := READ_VERSION_FIELDS, ReadApplicationVersionDetailVal(s).vals;
            forall i: nat | 4 <= i < 9 :: Says(f[i], vals[i], DetailParts(s)[i])
  {
    var f := READ_VERSION_FIELDS;
    SaysOptInt(f[4], s.fixedScale.isSet, s.fixedScale.value);
    SaysOptInt(f[5], s.minScale.isSet, s.minScale.value);
    SaysOptInt(f[6], s.maxScale.isSet, s.maxScale.value);
    SaysOptInt(f[7], s.scaleInThreshold.isSet, s.scaleInThreshold.value);
    SaysOptInt(f[8], s.scaleOutThreshold.isSet, s.scaleOutThreshold.value);
  }

  lemma DetailImageSaid(s: ReadApplicationVersionDetail)
    ensures var f, vals := READ_VERSION_FIELDS, ReadApplicationVersionDetailVal(s).vals;
            forall i: nat | 9 <= i < 12 :: Says(f[i], vals[i], DetailParts(s)[i])
  {
    var f := READ_VERSION_FIELDS;
    SaysText(f[9], s.image);
    TextsSent(s.cmd);
    SaysSlice(f[10], StringsVal(s.cmd));
    SaysNilText(f[11], s.registryUsername);
  }

  lemma DetailRegistrySaid(s: ReadApplicationVersionDetail)
    ensures var f, vals := READ_VERSION_FIELDS, ReadApplicationVersionDetailVal(s).vals;
            forall i: nat | 12 <= i < 15 :: Says(f[i], vals[i], DetailParts(s)[i])
  {
    var f := READ_VERSION_FIELDS;
    SaysNilText(f[12], s.registryPassword);
    SaysInt(f[13], s.activeNodeCount);
    SaysInt(f[14], s.created);
  }

  lemma DetailListsSaid(s: ReadApplicationVersionDetail)
    ensures var f, vals := READ_VERSION_FIELDS, ReadApplicationVersionDetailVal(s).vals;
            forall i: nat | 15 <= i < 17 :: Says(f[i], vals[i], DetailParts(s)[i])
  {
    var f := READ_VERSION_FIELDS;
    PortsSent(s.exposedPorts);
    SaysSlice(f[15], ExposedPortsVal(s.exposedPorts));
    ShownVariablesSent(s.env);
    SaysSlice(f[16], ReadEnvironmentVariablesVal(s.env));
  }

  /** The object that is sent. */
  lemma DetailSent(s: ReadApplicationVersionDetail)
    ensures Fits(KObj(READ_VERSION_FIELDS), ReadApplicationVersionDetailVal(s))
    ensures Tree(KObj(READ_VERSION_FIELDS), ReadApplicationVersionDetailVal(s)) == DetailJson(s)
  {
    ReadApplicationVersionDetailFits(s);
    DetailSizesSaid(s);
    DetailScalesSaid(s);
    DetailImageSaid(s);
    DetailRegistrySaid(s);
    DetailListsSaid(s);
    StructSent(READ_VERSION_FIELDS, ReadApplicationVersionDetailVal(s).vals, DetailParts(s), 17);
    assert DetailParts(s)[..17] == DetailParts(s);
  }

  ghost predicate ReadsDetailSizes(ms: seq<Member>, now: ReadApplicationVersionDetail) {
    ReadsInt32(AllOf(ms, "version"), now.version) &&
    ReadsInt64(AllOf(ms, "cpu"), now.cpu) &&
    ReadsInt64(AllOf(ms, "memory"), now.memory) &&
    ReadsText(AllOf(ms, "scalingMode"), now.scalingMode)
  }

  ghost predicate ReadsDetailScales(ms: seq<Member>, was: ReadApplicationVersionDetail,
      now: ReadApplicationVersionDetail) {
    ReadsOptInt32(AllOf(ms, "fixedScale"), was.fixedScale, now.fixedScale) &&
    ReadsOptInt32(AllOf(ms, "minScale"), was.minScale, now.minScale) &&
    ReadsOptInt32(AllOf(ms, "maxScale"), was.maxScale, now.maxScale) &&
    ReadsOptInt32(AllOf(ms, "scaleInThreshold"), was.scaleInThreshold, now.scaleInThreshold) &&
    ReadsOptInt32(AllOf(ms, "scaleOutThreshold"), was.scaleOutThreshold, now.scaleOutThreshold)
  }

  ghost predicate ReadsDetailImage(ms: seq<Member>, was: ReadApplicationVersionDetail,
      now: ReadApplicationVersionDetail) {
    ReadsText(AllOf(ms, "image"), now.image) &&
    ReadsOptTexts(AllOf(ms, "cmd"), was.cmd, now.cmd) &&
    ReadsNilText(AllOf(ms, "registryUsername"), now.registryUsername)
  }

  ghost predicate ReadsDetailRegistry(ms: seq<Member>, now: ReadApplicationVersionDetail) {
    ReadsNilText(AllOf(ms, "registryPassword"), now.registryPassword) &&
    ReadsInt64(AllOf(ms, "activeNodeCount"), now.activeNodeCount) &&
    ReadsInt64(AllOf(ms, "created"), now.created)
  }

  ghost predicate ReadsDetailLists(ms: seq<Member>, now: ReadApplicationVersionDetail) {
    ReadsPorts(AllOf(ms, "exposedPorts"), now.exposedPorts) &&
    ReadsShownVariables(AllOf(ms, "env"), now.env)
  }

  ghost predicate ReadsDetail(ms: seq<Member>, was: ReadApplicationVersionDetail,
      now: ReadApplicationVersionDetail) {
    ReadsDetailSizes(ms, now) &&
    ReadsDetailScales(ms, was, now) &&
    ReadsDetailImage(ms, was, now) &&
    ReadsDetailRegistry(ms, now) &&
    ReadsDetailLists(ms, now)
  }

  lemma DetailSizesRead(ms: seq<Member>, was: ReadApplicationVersionDetail, now: ReadApplicationVersionDetail)
    ensures FieldsRead(READ_VERSION_FIELDS, ReadApplicationVersionDetailVal(was).vals,
        ReadApplicationVersionDetailVal(now).vals, ms, 0, 4) <==>
            ReadsDetailSizes(ms, now)
  {
    var f, vals := READ_VERSION_FIELDS, ReadApplicationVersionDetailVal(was).vals;
    IntField(f[0], AllOf(ms, "version"), vals[0], now.version);
    IntField(f[1], AllOf(ms, "cpu"), vals[1], now.cpu);
    IntField(f[2], AllOf(ms, "memory"), vals[2], now.memory);
    TextField(f[3], AllOf(ms, "scalingMode"), vals[3], now.scalingMode);
  }

  lemma DetailScalesRead(ms: seq<Member>, was: ReadApplicationVersionDetail, now: ReadApplicationVersionDetail)
    ensures FieldsRead(READ_VERSION_FIELDS, ReadApplicationVersionDetailVal(was).vals,
        ReadApplicationVersionDetailVal(now).vals, ms, 4, 9) <==>
            ReadsDetailScales(ms, was, now)
  {
    var f, vals := READ_VERSION_FIELDS, ReadApplicationVersionDetailVal(was).vals;
    OptInt32Field(f[4], AllOf(ms, "fixedScale"), was.fixedScale, now.fixedScale);
    OptInt32Field(f[5], AllOf(ms, "minScale"), was.minScale, now.minScale);
    OptInt32Field(f[6], AllOf(ms, "maxScale"), was.maxScale, now.maxScale);
    OptInt32Field(f[7], AllOf(ms, "scaleInThreshold"), was.scaleInThreshold, now.scaleInThreshold);
    OptInt32Field(f[8], AllOf(ms, "scaleOutThreshold"), was.scaleOutThreshold, now.scaleOutThreshold);
  }

  lemma DetailImageRead(ms: seq<Member>, was: ReadApplicationVersionDetail, now: ReadApplicationVersionDetail)
    ensures FieldsRead(READ_VERSION_FIELDS, ReadApplicationVersionDetailVal(was).vals,
        ReadApplicationVersionDetailVal(now).vals, ms, 9, 12) <==>
            ReadsDetailImage(ms, was, now)
  {
    var f, vals := READ_VERSION_FIELDS, ReadApplicationVersionDetailVal(was).vals;
    TextField(f[9], AllOf(ms, "image"), vals[9], now.image);
    OptTextsField(f[10], AllOf(ms, "cmd"), was.cmd, now.cmd);
    NilTextField(f[11], AllOf(ms, "registryUsername"), vals[11], now.registryUsername);
  }

  lemma DetailRegistryRead(ms: seq<Member>, was: ReadApplicationVersionDetail, now: ReadApplicationVersionDetail)
    ensures FieldsRead(READ_VERSION_FIELDS, ReadApplicationVersionDetailVal(was).vals,
        ReadApplicationVersionDetailVal(now).vals, ms, 12, 15) <==>
            ReadsDetailRegistry(ms, now)
  {
    var f, vals := READ_VERSION_FIELDS, ReadApplicationVersionDetailVal(was).vals;
    NilTextField(f[12], AllOf(ms, "registryPassword"), vals[12], now.registryPassword);
    IntField(f[13], AllOf(ms, "activeNodeCount"), vals[13], now.activeNodeCount);
    IntField(f[14], AllOf(ms, "created"), vals[14], now.created);
  }

  lemma DetailListsRead(ms: seq<Member>, was: ReadApplicationVersionDetail, now: ReadApplicationVersionDetail)
    ensures FieldsRead(READ_VERSION_FIELDS, ReadApplicationVersionDetailVal(was).vals,
        ReadApplicationVersionDetailVal(now).vals, ms, 15, 17) <==>
            ReadsDetailLists(ms, now)
  {
    var f, vals := READ_VERSION_FIELDS, ReadApplicationVersionDetailVal(was).vals;
    PortsField(f[15], AllOf(ms, "exposedPorts"), vals[15], now.exposedPorts);
    ShownVariablesField(f[16], AllOf(ms, "env"), vals[16], now.env);
  }

  /** An object decodes to `now` exactly when what stands under the keys says so. */
  lemma DetailRead(ms: seq<Member>, was: ReadApplicationVersionDetail, now: ReadApplicationVersionDetail)
    ensures ReadsDetail(ms, was, now) <==>
            (Decode(KObj(READ_VERSION_FIELDS), ReadApplicationVersionDetailVal(was), JObj(ms)) ==
             Done(ReadApplicationVersionDetailVal(now)))
  {
    ReadVersionTable();
    StructExactly(READ_VERSION_FIELDS, ReadApplicationVersionDetailVal(was).vals,
        ReadApplicationVersionDetailVal(now).vals, ms);
    DetailSizesRead(ms, was, now);
    DetailScalesRead(ms, was, now);
    DetailImageRead(ms, was, now);
    DetailRegistryRead(ms, was, now);
    DetailListsRead(ms, was, now);
  }

  /** The required keys. */
  const DETAIL_KEYS := ["version", "cpu", "memory", "scalingMode", "image", "registryUsername",
                        "registryPassword", "activeNodeCount", "created", "exposedPorts", "env"]

  lemma DetailKeysTo5()
    ensures RequiredKeys(READ_VERSION_FIELDS, 5) == DETAIL_KEYS[..4]
  {
    assert RequiredKeys(READ_VERSION_FIELDS, 1) == DETAIL_KEYS[..1];
    assert RequiredKeys(READ_VERSION_FIELDS, 2) == DETAIL_KEYS[..2];
    assert RequiredKeys(READ_VERSION_FIELDS, 3) == DETAIL_KEYS[..3];
    assert RequiredKeys(READ_VERSION_FIELDS, 4) == DETAIL_KEYS[..4];
  }

  lemma DetailKeysTo10()
    ensures RequiredKeys(READ_VERSION_FIELDS, 10) == DETAIL_KEYS[..5]
  {
    DetailKeysTo5();
    assert RequiredKeys(READ_VERSION_FIELDS, 6) == DETAIL_KEYS[..4];
    assert RequiredKeys(READ_VERSION_FIELDS, 7) == DETAIL_KEYS[..4];
    assert RequiredKeys(READ_VERSION_FIELDS, 8) == DETAIL_KEYS[..4];
    assert RequiredKeys(READ_VERSION_FIELDS, 9) == DETAIL_KEYS[..4];
  }

  lemma DetailKeysTo15()
    ensures RequiredKeys(READ_VERSION_FIELDS, 15) == DETAIL_KEYS[..9]
  {
    DetailKeysTo10();
    assert RequiredKeys(READ_VERSION_FIELDS, 11) == DETAIL_KEYS[..5];
    assert RequiredKeys(READ_VERSION_FIELDS, 12) == DETAIL_KEYS[..6];
    assert RequiredKeys(READ_VERSION_FIELDS, 13) == DETAIL_KEYS[..7];
    assert RequiredKeys(READ_VERSION_FIELDS, 14) == DETAIL_KEYS[..8];
  }

  lemma DetailKeysTo17()
    ensures RequiredKeys(READ_VERSION_FIELDS, 17) == DETAIL_KEYS[..11]
  {
    DetailKeysTo15();
    assert RequiredKeys(READ_VERSION_FIELDS, 16) == DETAIL_KEYS[..10];
  }

  /** What a decode reports as missing. */
  lemma DetailMissing(ms: seq<Member>)
    ensures MissingBelow(READ_VERSION_FIELDS, ms, 17) == Absent(DETAIL_KEYS, ms)
  {
    ReadVersionTable();
    DetailKeysTo17();
    assert DETAIL_KEYS[..11] == DETAIL_KEYS;
    MissingIsAbsent(READ_VERSION_FIELDS, ms, 17);
  }

  /** Whole streams: what was read is one object, printed, and says so under its keys. */
  lemma DetailOnStream(was: ReadApplicationVersionDetail, now: ReadApplicationVersionDetail,
      t: seq<Token>, rest: seq<Token>)
    ensures (exists ms :: t == Print(JObj(ms), rest) && ReadsDetail(ms, was, now)) <==>
            (DecodeAt(KObj(READ_VERSION_FIELDS), ReadApplicationVersionDetailVal(was), t) ==
             DoneAt(ReadApplicationVersionDetailVal(now), rest))
  {
    OnStream(READ_VERSION_FIELDS, ReadApplicationVersionDetailVal(was), ReadApplicationVersionDetailVal(now), t,
        rest);
    forall ms: seq<Member>
      ensures ReadsDetail(ms, was, now) <==>
              (Decode(KObj(READ_VERSION_FIELDS), ReadApplicationVersionDetailVal(was), JObj(ms)) ==
               Done(ReadApplicationVersionDetailVal(now)))
    {
      DetailRead(ms, was, now);
    }
  }

  /** Round trip of a version detail, with any tokens behind it. */
  method SendDetail(v: ReadApplicationVersionDetail, behind: seq<Token>)
    returns (sent: seq<Token>, back: ReadApplicationVersionDetail, err: Error, left: seq<Token>)
    ensures sent == Print(DetailJson(v), [])
    ensures err == NoError && back == NormDetail(v) && left == behind
  {
    var e := new Encoder();
    var out := new ReadApplicationVersionDetailRef(v);
    out.Encode(e);
    sent := e.tokens;
    var d := new Decoder(sent + behind);
    var received := new ReadApplicationVersionDetailRef(ZERO_READ_APPLICATION_VERSION_DETAIL);
    err := received.Decode(d);
    back, left := received.s, d.Rest();
    ZeroReadApplicationVersionDetailVal();
    DetailNorm(v);
    ReadVersionTable();
    DetailSent(v);
    EncodedAs(KObj(READ_VERSION_FIELDS), ReadApplicationVersionDetailVal(v));
    StreamRoundTrip(KObj(READ_VERSION_FIELDS), ReadApplicationVersionDetailVal(v), behind);
    SameDetails(back, NormDetail(v));
  }

  // ---------- IpRange ----------

  /** What is sent of each field, in turn. */
  function RangeParts(s: IpRange): seq<seq<Member>> {
    [[Member("start", JStr(s.start))],
     [Member("end", JStr(s.end))]]
  }

  function RangeJson(s: IpRange): Value { JObj(Flat(RangeParts(s))) }

  lemma RangeSaid(s: IpRange)
    ensures var f, vals := IP_RANGE_FIELDS, IpRangeVal(s).vals;
            forall i: nat | 0 <= i < 2 :: Says(f[i], vals[i], RangeParts(s)[i])
  {
    var f := IP_RANGE_FIELDS;
    SaysText(f[0], s.start);
    SaysText(f[1], s.end);
  }

  /** The object that is sent. */
  lemma RangeSent(s: IpRange)
    ensures Fits(KObj(IP_RANGE_FIELDS), IpRangeVal(s))
    ensures Tree(KObj(IP_RANGE_FIELDS), IpRangeVal(s)) == RangeJson(s)
  {
    IpRangeFits(s);
    RangeSaid(s);
    StructSent(IP_RANGE_FIELDS, IpRangeVal(s).vals, RangeParts(s), 2);
    assert RangeParts(s)[..2] == RangeParts(s);
  }

  ghost predicate ReadsRange(ms: seq<Member>, now: IpRange) {
    ReadsText(AllOf(ms, "start"), now.start) &&
    ReadsText(AllOf(ms, "end"), now.end)
  }

  /** An object decodes to `now` exactly when what stands under the keys says so. */
  lemma RangeRead(ms: seq<Member>, was: IpRange, now: IpRange)
    ensures ReadsRange(ms, now) <==>
            (Decode(KObj(IP_RANGE_FIELDS), IpRangeVal(was), JObj(ms)) ==
             Done(IpRangeVal(now)))
  {
    var f, vals := IP_RANGE_FIELDS, IpRangeVal(was).vals;
    IpRangeTable();
    StructExactly(f, vals, IpRangeVal(now).vals, ms);
    TextField(f[0], AllOf(ms, "start"), vals[0], now.start);
    TextField(f[1], AllOf(ms, "end"), vals[1], now.end);
  }

  /** What an element is decoded from. */
  ghost predicate IsRange(j: Value) { j.JObj? && exists s :: ReadsRange(j.members, s) }

  lemma RangeStruct(v: Val) returns (s: IpRange)
    requires Fits(KObj(IP_RANGE_FIELDS), v)
    ensures IpRangeVal(s) == v
  {
    var f := IP_RANGE_FIELDS;
    assert Fits(f[0].kind, v.vals[0]) && Fits(f[1].kind, v.vals[1]);
    s := IpRange(v.vals[0].s, v.vals[1].s);
    assert IpRangeVal(s).vals == v.vals;
  }

  lemma RangeDecodes(j: Value)
    ensures Decodes(KObj(IP_RANGE_FIELDS), j) <==> IsRange(j)
  {
    var k := KObj(IP_RANGE_FIELDS);
    ZeroIpRangeVal();
    if Decodes(k, j) {
      IpRangeTable();
      ZeroTidy(k);
      DecodeCanonical(k, Zero(k), j);
      var s := RangeStruct(Decode(k, Zero(k), j).v);
      RangeRead(j.members, ZERO_IP_RANGE, s);
    }
    if IsRange(j) {
      var s :| ReadsRange(j.members, s);
      RangeRead(j.members, ZERO_IP_RANGE, s);
    }
  }

  function RangesJson(xs: seq<IpRange>): Value { JArr(seq(|xs|, i requires 0 <= i < |xs| => RangeJson(xs[i]))) }

  lemma RangesSent(s: Slice<IpRange>)
    ensures Fits(KArr(KObj(IP_RANGE_FIELDS)), IpRangesVal(s)) &&
        Tree(KArr(KObj(IP_RANGE_FIELDS)), IpRangesVal(s)) == RangesJson(Items(s))
  {
    IpRangesFits(s);
    forall i | 0 <= i < |Items(s)|
      ensures Elems(IpRangesVal(s))[i] == IpRangeVal(Items(s)[i]) &&
          Fits(KObj(IP_RANGE_FIELDS), Elems(IpRangesVal(s))[i])
      ensures Tree(KObj(IP_RANGE_FIELDS), Elems(IpRangesVal(s))[i]) == RangeJson(Items(s)[i])
    {
      RangeSent(Items(s)[i]);
    }
    assert TreeElems(KObj(IP_RANGE_FIELDS), Elems(IpRangesVal(s))) == RangesJson(Items(s)).elems;
  }

  ghost predicate AreRanges(j: Value) { j.JArr? && forall x :: x in j.elems ==> IsRange(x) }

  /** An array fills a slice, each element in a fresh struct. */
  ghost predicate FillsRanges(j: Value, now: Slice<IpRange>) {
    j.JArr? && now.SliceOf? && |now.elems| == |j.elems| &&
    forall i :: 0 <= i < |j.elems| ==>
      j.elems[i].JObj? && ReadsRange(j.elems[i].members, now.elems[i])
  }

  lemma RangesDecode(j: Value, now: Slice<IpRange>)
    ensures Decodes(KArr(KObj(IP_RANGE_FIELDS)), j) <==> AreRanges(j)
    ensures FillsRanges(j, now) <==>
            (Decode(KArr(KObj(IP_RANGE_FIELDS)), VNilSlice, j) ==
             Done(IpRangesVal(now)))
  {
    if j.JArr? {
      var k, js := KObj(IP_RANGE_FIELDS), j.elems;
      ElemsDecode(k, js);
      forall x | x in js ensures Decodes(k, x) <==> IsRange(x) {
        RangeDecodes(x);
      }
      if now.SliceOf? {
        ElemsExactly(k, js, IpRangesVal(now).elems);
        if |js| == |now.elems| {
          RangesFill(js, now.elems);
        }
      }
    }
  }

  lemma RangesFill(js: seq<Value>, now: seq<IpRange>)
    requires |js| == |now|
    ensures forall i :: 0 <= i < |js| ==>
              (js[i].JObj? && ReadsRange(js[i].members, now[i]) <==>
               Becomes(IP_RANGE_FIELDS, js[i], IpRangeVal(now[i])))
  {
    ZeroIpRangeVal();
    forall i | 0 <= i < |js| && js[i].JObj?
      ensures ReadsRange(js[i].members, now[i]) <==>
              Becomes(IP_RANGE_FIELDS, js[i], IpRangeVal(now[i]))
    {
      RangeRead(js[i].members, ZERO_IP_RANGE, now[i]);
    }
  }

  lemma RangesStruct(vs: seq<Val>) returns (xs: seq<IpRange>)
    requires forall v :: v in vs ==> Fits(KObj(IP_RANGE_FIELDS), v)
    ensures |xs| == |vs| && forall i :: 0 <= i < |vs| ==> IpRangeVal(xs[i]) == vs[i]
  {
    xs := [];
    if vs != [] {
      var x := RangeStruct(vs[0]);
      var rest := RangesStruct(vs[1..]);
      xs := [x] + rest;
    }
  }

  lemma RangesSlice(v: Val) returns (s: Slice<IpRange>)
    requires Fits(KArr(KObj(IP_RANGE_FIELDS)), v)
    ensures IpRangesVal(s) == v
  {
    var xs := RangesStruct(Elems(v));
    s := if v.VSlice? then SliceOf(xs) else NilSlice;
    if v.VSlice? {
      assert IpRangesVal(s).elems == v.elems;
    }
  }

  ghost predicate ReadsOptRanges(js: seq<Value>, was: Slice<IpRange>, now: Slice<IpRange>) {
    if js == [] then now == was else (forall j :: j in js ==> AreRanges(j)) && FillsRanges(js[|js| - 1], now)
  }

  lemma OptRangesField(f: Field, js: seq<Value>, was: Slice<IpRange>, now: Slice<IpRange>)
    requires !f.required && f.kind == KArr(KObj(IP_RANGE_FIELDS)) && f.preset.None?
    ensures FieldReads(f, js, IpRangesVal(was), IpRangesVal(now)) <==> ReadsOptRanges(js, was, now)
  {
    LastReads(f, js, IpRangesVal(was), IpRangesVal(now));
    if js == [] {
      if IpRangesVal(now) == IpRangesVal(was) { SameRangeSlices(now, was); }
    } else {
      forall j | j in js ensures Decodes(f.kind, j) <==> AreRanges(j) { RangesDecode(j, now); }
      RangesDecode(js[|js| - 1], now);
    }
  }

  // ---------- AutoScalingGroupNodeInterface ----------

  /** What is sent of each field, in turn. */
  function InterfaceParts(s: AutoScalingGroupNodeInterface): seq<seq<Member>> {
    [[Member("interfaceIndex", JInt(s.interfaceIndex))],
     [Member("upstream", JStr(s.upstream))],
     When(s.ipPool.SliceOf?, Member("ipPool", RangesJson(Items(s.ipPool)))),
     When(s.netmaskLen.isSet, Member("netmaskLen", JInt(s.netmaskLen.value))),
     When(s.defaultGateway.isSet, Member("defaultGateway", JStr(s.defaultGateway.value))),
     When(s.packetFilterID.isSet, Member("packetFilterID", JStr(s.packetFilterID.value))),
     [Member("connectsToLB", JBool(s.connectsToLB))]]
  }

  function InterfaceJson(s: AutoScalingGroupNodeInterface): Value { JObj(Flat(InterfaceParts(s))) }

  lemma InterfacePoolSaid(s: AutoScalingGroupNodeInterface)
    ensures var f, vals := NODE_INTERFACE_FIELDS, AutoScalingGroupNodeInterfaceVal(s).vals;
            forall i: nat | 0 <= i < 4 :: Says(f[i], vals[i], InterfaceParts(s)[i])
  {
    var f := NODE_INTERFACE_FIELDS;
    SaysInt(f[0], s.interfaceIndex);
    SaysText(f[1], s.upstream);
    RangesSent(s.ipPool);
    SaysSlice(f[2], IpRangesVal(s.ipPool));
    SaysOptInt(f[3], s.netmaskLen.isSet, s.netmaskLen.value);
  }

  lemma InterfaceGatewaySaid(s: AutoScalingGroupNodeInterface)
    ensures var f, vals := NODE_INTERFACE_FIELDS, AutoScalingGroupNodeInterfaceVal(s).vals;
            forall i: nat | 4 <= i < 7 :: Says(f[i], vals[i], InterfaceParts(s)[i])
  {
    var f := NODE_INTERFACE_FIELDS;
    SaysOptText(f[4], s.defaultGateway.isSet, s.defaultGateway.value);
    SaysOptText(f[5], s.packetFilterID.isSet, s.packetFilterID.value);
    SaysBool(f[6], s.connectsToLB);
  }

  /** The object that is sent. */
  lemma InterfaceSent(s: AutoScalingGroupNodeInterface)
    ensures Fits(KObj(NODE_INTERFACE_FIELDS), AutoScalingGroupNodeInterfaceVal(s))
    ensures Tree(KObj(NODE_INTERFACE_FIELDS), AutoScalingGroupNodeInterfaceVal(s)) == InterfaceJson(s)
  {
    AutoScalingGroupNodeInterfaceFits(s);
    InterfacePoolSaid(s);
    InterfaceGatewaySaid(s);
    StructSent(NODE_INTERFACE_FIELDS, AutoScalingGroupNodeInterfaceVal(s).vals, InterfaceParts(s), 7);
    assert InterfaceParts(s)[..7] == InterfaceParts(s);
  }

  ghost predicate ReadsInterfacePool(ms: seq<Member>, was: AutoScalingGroupNodeInterface,
      now: AutoScalingGroupNodeInterface) {
    ReadsInt16(AllOf(ms, "interfaceIndex"), now.interfaceIndex) &&
    ReadsText(AllOf(ms, "upstream"), now.upstream) &&
    ReadsOptRanges(AllOf(ms, "ipPool"), was.ipPool, now.ipPool) &&
    ReadsOptInt16(AllOf(ms, "netmaskLen"), was.netmaskLen, now.netmaskLen)
  }

  ghost predicate ReadsInterfaceGateway(ms: seq<Member>, was: AutoScalingGroupNodeInterface,
      now: AutoScalingGroupNodeInterface) {
    ReadsOptText(AllOf(ms, "defaultGateway"), was.defaultGateway, now.defaultGateway) &&
    ReadsOptText(AllOf(ms, "packetFilterID"), was.packetFilterID, now.packetFilterID) &&
    ReadsBool(AllOf(ms, "connectsToLB"), now.connectsToLB)
  }

  ghost predicate ReadsInterface(ms: seq<Member>, was: AutoScalingGroupNodeInterface,
      now: AutoScalingGroupNodeInterface) {
    ReadsInterfacePool(ms, was, now) &&
    ReadsInterfaceGateway(ms, was, now)
  }

  lemma InterfacePoolRead(ms: seq<Member>, was: AutoScalingGroupNodeInterface, now: AutoScalingGroupNodeInterface)
    ensures FieldsRead(NODE_INTERFACE_FIELDS, AutoScalingGroupNodeInterfaceVal(was).vals,
        AutoScalingGroupNodeInterfaceVal(now).vals, ms, 0, 4) <==>
            ReadsInterfacePool(ms, was, now)
  {
    var f, vals := NODE_INTERFACE_FIELDS, AutoScalingGroupNodeInterfaceVal(was).vals;
    IntField(f[0], AllOf(ms, "interfaceIndex"), vals[0], now.interfaceIndex);
    TextField(f[1], AllOf(ms, "upstream"), vals[1], now.upstream);
    OptRangesField(f[2], AllOf(ms, "ipPool"), was.ipPool, now.ipPool);
    OptInt16Field(f[3], AllOf(ms, "netmaskLen"), was.netmaskLen, now.netmaskLen);
  }

  lemma InterfaceGatewayRead(ms: seq<Member>, was: AutoScalingGroupNodeInterface,
      now: AutoScalingGroupNodeInterface)
    ensures FieldsRead(NODE_INTERFACE_FIELDS, AutoScalingGroupNodeInterfaceVal(was).vals,
        AutoScalingGroupNodeInterfaceVal(now).vals, ms, 4, 7) <==>
            ReadsInterfaceGateway(ms, was, now)
  {
    var f, vals := NODE_INTERFACE_FIELDS, AutoScalingGroupNodeInterfaceVal(was).vals;
    OptTextField(f[4], AllOf(ms, "defaultGateway"), was.defaultGateway, now.defaultGateway);
    OptTextField(f[5], AllOf(ms, "packetFilterID"), was.packetFilterID, now.packetFilterID);
    BoolField(f[6], AllOf(ms, "connectsToLB"), vals[6], now.connectsToLB);
  }

  /** An object decodes to `now` exactly when what stands under the keys says so. */
  lemma InterfaceRead(ms: seq<Member>, was: AutoScalingGroupNodeInterface, now: AutoScalingGroupNodeInterface)
    ensures ReadsInterface(ms, was, now) <==>
            (Decode(KObj(NODE_INTERFACE_FIELDS), AutoScalingGroupNodeInterfaceVal(was), JObj(ms)) ==
             Done(AutoScalingGroupNodeInterfaceVal(now)))
  {
    NodeInterfaceTable();
    StructExactly(NODE_INTERFACE_FIELDS, AutoScalingGroupNodeInterfaceVal(was).vals,
        AutoScalingGroupNodeInterfaceVal(now).vals, ms);
    InterfacePoolRead(ms, was, now);
    InterfaceGatewayRead(ms, was, now);
  }

  /** What an element is decoded from. */
  ghost predicate IsInterface(j: Value) { j.JObj? &&
      exists s :: ReadsInterface(j.members, ZERO_AUTO_SCALING_GROUP_NODE_INTERFACE, s) }

  lemma InterfaceStruct(v: Val) returns (s: AutoScalingGroupNodeInterface)
    requires Fits(KObj(NODE_INTERFACE_FIELDS), v)
    ensures AutoScalingGroupNodeInterfaceVal(s) == v
  {
    var f := NODE_INTERFACE_FIELDS;
    assert Fits(f[0].kind, v.vals[0]) && Fits(f[1].kind, v.vals[1]) && Fits(f[2].kind, v.vals[2]) &&
        Fits(f[3].kind, v.vals[3]) && Fits(f[4].kind, v.vals[4]) && Fits(f[5].kind, v.vals[5]) &&
        Fits(f[6].kind, v.vals[6]);
    var slice := RangesSlice(v.vals[2]);
    var netmaskLen := OptInt16Of(v.vals[3]);
    var defaultGateway := OptTextOf(v.vals[4]);
    var packetFilterID := OptTextOf(v.vals[5]);
    s := AutoScalingGroupNodeInterface(v.vals[0].n, v.vals[1].s, slice, netmaskLen, defaultGateway, packetFilterID,
        v.vals[6].b);
    assert AutoScalingGroupNodeInterfaceVal(s).vals == v.vals;
  }

  lemma InterfaceDecodes(j: Value)
    ensures Decodes(KObj(NODE_INTERFACE_FIELDS), j) <==> IsInterface(j)
  {
    var k := KObj(NODE_INTERFACE_FIELDS);
    ZeroAutoScalingGroupNodeInterfaceVal();
    if Decodes(k, j) {
      NodeInterfaceTable();
      ZeroTidy(k);
      DecodeCanonical(k, Zero(k), j);
      var s := InterfaceStruct(Decode(k, Zero(k), j).v);
      InterfaceRead(j.members, ZERO_AUTO_SCALING_GROUP_NODE_INTERFACE, s);
    }
    if IsInterface(j) {
      var s :| ReadsInterface(j.members, ZERO_AUTO_SCALING_GROUP_NODE_INTERFACE, s);
      InterfaceRead(j.members, ZERO_AUTO_SCALING_GROUP_NODE_INTERFACE, s);
    }
  }

  function InterfacesJson(xs: seq<AutoScalingGroupNodeInterface>): Value { JArr(seq(|xs|,
      i requires 0 <= i < |xs| => InterfaceJson(xs[i]))) }

  lemma InterfacesSent(s: Slice<AutoScalingGroupNodeInterface>)
    ensures Fits(KArr(KObj(NODE_INTERFACE_FIELDS)), AutoScalingGroupNodeInterfacesVal(s)) &&
        Tree(KArr(KObj(NODE_INTERFACE_FIELDS)), AutoScalingGroupNodeInterfacesVal(s)) == InterfacesJson(Items(s))
  {
    AutoScalingGroupNodeInterfacesFits(s);
    forall i | 0 <= i < |Items(s)|
      ensures Elems(AutoScalingGroupNodeInterfacesVal(s))[i] == AutoScalingGroupNodeInterfaceVal(Items(s)[i]) &&
          Fits(KObj(NODE_INTERFACE_FIELDS), Elems(AutoScalingGroupNodeInterfacesVal(s))[i])
      ensures Tree(KObj(NODE_INTERFACE_FIELDS), Elems(AutoScalingGroupNodeInterfacesVal(s))[i]) ==
          InterfaceJson(Items(s)[i])
    {
      InterfaceSent(Items(s)[i]);
    }
    assert TreeElems(KObj(NODE_INTERFACE_FIELDS), Elems(AutoScalingGroupNodeInterfacesVal(s))) ==
        InterfacesJson(Items(s)).elems;
  }

  ghost predicate AreInterfaces(j: Value) { j.JArr? && forall x :: x in j.elems ==> IsInterface(x) }

  /** An array fills a slice, each element in a fresh struct. */
  ghost predicate FillsInterfaces(j: Value, now: Slice<AutoScalingGroupNodeInterface>) {
    j.JArr? && now.SliceOf? && |now.elems| == |j.elems| &&
    forall i :: 0 <= i < |j.elems| ==>
      j.elems[i].JObj? && ReadsInterface(j.elems[i].members, ZERO_AUTO_SCALING_GROUP_NODE_INTERFACE, now.elems[i])
  }

  lemma InterfacesDecode(j: Value, now: Slice<AutoScalingGroupNodeInterface>)
    ensures Decodes(KArr(KObj(NODE_INTERFACE_FIELDS)), j) <==> AreInterfaces(j)
    ensures FillsInterfaces(j, now) <==>
            (Decode(KArr(KObj(NODE_INTERFACE_FIELDS)), VNilSlice, j) ==
             Done(AutoScalingGroupNodeInterfacesVal(now)))
  {
    if j.JArr? {
      var k, js := KObj(NODE_INTERFACE_FIELDS), j.elems;
      ElemsDecode(k, js);
      forall x | x in js ensures Decodes(k, x) <==> IsInterface(x) {
        InterfaceDecodes(x);
      }
      if now.SliceOf? {
        ElemsExactly(k, js, AutoScalingGroupNodeInterfacesVal(now).elems);
        if |js| == |now.elems| {
          InterfacesFill(js, now.elems);
        }
      }
    }
  }

  lemma InterfacesFill(js: seq<Value>, now: seq<AutoScalingGroupNodeInterface>)
    requires |js| == |now|
    ensures forall i :: 0 <= i < |js| ==>
              (js[i].JObj? && ReadsInterface(js[i].members, ZERO_AUTO_SCALING_GROUP_NODE_INTERFACE, now[i]) <==>
               Becomes(NODE_INTERFACE_FIELDS, js[i], AutoScalingGroupNodeInterfaceVal(now[i])))
  {
    ZeroAutoScalingGroupNodeInterfaceVal();
    forall i | 0 <= i < |js| && js[i].JObj?
      ensures ReadsInterface(js[i].members, ZERO_AUTO_SCALING_GROUP_NODE_INTERFACE, now[i]) <==>
              Becomes(NODE_INTERFACE_FIELDS, js[i], AutoScalingGroupNodeInterfaceVal(now[i]))
    {
      InterfaceRead(js[i].members, ZERO_AUTO_SCALING_GROUP_NODE_INTERFACE, now[i]);
    }
  }

  ghost predicate ReadsInterfaces(js: seq<Value>, now: Slice<AutoScalingGroupNodeInterface>) {
    js != [] && (forall j :: j in js ==> AreInterfaces(j)) && FillsInterfaces(js[|js| - 1], now)
  }

  lemma InterfacesField(f: Field, js: seq<Value>, was: Val, now: Slice<AutoScalingGroupNodeInterface>)
    requires f.required && f.kind == KArr(KObj(NODE_INTERFACE_FIELDS))
    ensures FieldReads(f, js, was, AutoScalingGroupNodeInterfacesVal(now)) <==> ReadsInterfaces(js, now)
  {
    LastReads(f, js, was, AutoScalingGroupNodeInterfacesVal(now));
    if js != [] {
      forall j | j in js ensures Decodes(f.kind, j) <==> AreInterfaces(j) { InterfacesDecode(j, now); }
      InterfacesDecode(js[|js| - 1], now);
    }
  }

  // ---------- ReadAutoScalingGroupDetail ----------

  /** What is sent of each field, in turn. */
  function GroupParts(s: ReadAutoScalingGroupDetail): seq<seq<Member>> {
    [[Member("autoScalingGroupID", JStr(s.autoScalingGroupID))],
     [Member("name", JStr(s.name))],
     [Member("zone", JStr(s.zone))],
     When(s.nameServers.SliceOf?, Member("nameServers", TextsJson(Items(s.nameServers)))),
     [Member("workerServiceClassPath", JStr(s.workerServiceClassPath))],
     [Member("minNodes", JInt(s.minNodes))],
     [Member("maxNodes", JInt(s.maxNodes))],
     [Member("workerNodeCount", JInt(s.workerNodeCount))],
     [Member("deleting", JBool(s.deleting))],
     [Member("interfaces", InterfacesJson(Items(s.interfaces)))]]
  }

  function GroupJson(s: ReadAutoScalingGroupDetail): Value { JObj(Flat(GroupParts(s))) }

  lemma GroupNamesSaid(s: ReadAutoScalingGroupDetail)
    ensures var f, vals := ASG_DETAIL_FIELDS, ReadAutoScalingGroupDetailVal(s).vals;
            forall i: nat | 0 <= i < 5 :: Says(f[i], vals[i], GroupParts(s)[i])
  {
    var f := ASG_DETAIL_FIELDS;
    SaysUuid(f[0], s.autoScalingGroupID);
    SaysText(f[1], s.name);
    SaysText(f[2], s.zone);
    TextsSent(s.nameServers);
    SaysSlice(f[3], StringsVal(s.nameServers));
    SaysText(f[4], s.workerServiceClassPath);
  }

  lemma GroupNodesSaid(s: ReadAutoScalingGroupDetail)
    ensures var f, vals := ASG_DETAIL_FIELDS, ReadAutoScalingGroupDetailVal(s).vals;
            forall i: nat | 5 <= i < 8 :: Says(f[i], vals[i], GroupParts(s)[i])
  {
    var f := ASG_DETAIL_FIELDS;
    SaysInt(f[5], s.minNodes);
    SaysInt(f[6], s.maxNodes);
    SaysInt(f[7], s.workerNodeCount);
  }

  lemma GroupInterfacesSaid(s: ReadAutoScalingGroupDetail)
    ensures var f, vals := ASG_DETAIL_FIELDS, ReadAutoScalingGroupDetailVal(s).vals;
            forall i: nat | 8 <= i < 10 :: Says(f[i], vals[i], GroupParts(s)[i])
  {
    var f := ASG_DETAIL_FIELDS;
    SaysBool(f[8], s.deleting);
    InterfacesSent(s.interfaces);
    SaysSlice(f[9], AutoScalingGroupNodeInterfacesVal(s.interfaces));
  }

  /** The object that is sent. */
  lemma GroupSent(s: ReadAutoScalingGroupDetail)
    ensures Fits(KObj(ASG_DETAIL_FIELDS), ReadAutoScalingGroupDetailVal(s))
    ensures Tree(KObj(ASG_DETAIL_FIELDS), ReadAutoScalingGroupDetailVal(s)) == GroupJson(s)
  {
    ReadAutoScalingGroupDetailFits(s);
    GroupNamesSaid(s);
    GroupNodesSaid(s);
    GroupInterfacesSaid(s);
    StructSent(ASG_DETAIL_FIELDS, ReadAutoScalingGroupDetailVal(s).vals, GroupParts(s), 10);
    assert GroupParts(s)[..10] == GroupParts(s);
  }

  ghost predicate ReadsGroupNames(ms: seq<Member>, was: ReadAutoScalingGroupDetail,
      now: ReadAutoScalingGroupDetail) {
    ReadsUuid(AllOf(ms, "autoScalingGroupID"), now.autoScalingGroupID) &&
    ReadsText(AllOf(ms, "name"), now.name) &&
    ReadsText(AllOf(ms, "zone"), now.zone) &&
    ReadsOptTexts(AllOf(ms, "nameServers"), was.nameServers, now.nameServers) &&
    ReadsText(AllOf(ms, "workerServiceClassPath"), now.workerServiceClassPath)
  }

  ghost predicate ReadsGroupNodes(ms: seq<Member>, now: ReadAutoScalingGroupDetail) {
    ReadsInt32(AllOf(ms, "minNodes"), now.minNodes) &&
    ReadsInt32(AllOf(ms, "maxNodes"), now.maxNodes) &&
    ReadsInt32(AllOf(ms, "workerNodeCount"), now.workerNodeCount)
  }

  ghost predicate ReadsGroupInterfaces(ms: seq<Member>, now: ReadAutoScalingGroupDetail) {
    ReadsBool(AllOf(ms, "deleting"), now.deleting) &&
    ReadsInterfaces(AllOf(ms, "interfaces"), now.interfaces)
  }

  ghost predicate ReadsGroup(ms: seq<Member>, was: ReadAutoScalingGroupDetail, now: ReadAutoScalingGroupDetail) {
    ReadsGroupNames(ms, was, now) &&
    ReadsGroupNodes(ms, now) &&
    ReadsGroupInterfaces(ms, now)
  }

  lemma GroupNamesRead(ms: seq<Member>, was: ReadAutoScalingGroupDetail, now: ReadAutoScalingGroupDetail)
    ensures FieldsRead(ASG_DETAIL_FIELDS, ReadAutoScalingGroupDetailVal(was).vals,
        ReadAutoScalingGroupDetailVal(now).vals, ms, 0, 5) <==>
            ReadsGroupNames(ms, was, now)
  {
    var f, vals := ASG_DETAIL_FIELDS, ReadAutoScalingGroupDetailVal(was).vals;
    UuidField(f[0], AllOf(ms, "autoScalingGroupID"), vals[0], now.autoScalingGroupID);
    TextField(f[1], AllOf(ms, "name"), vals[1], now.name);
    TextField(f[2], AllOf(ms, "zone"), vals[2], now.zone);
    OptTextsField(f[3], AllOf(ms, "nameServers"), was.nameServers, now.nameServers);
    TextField(f[4], AllOf(ms, "workerServiceClassPath"), vals[4], now.workerServiceClassPath);
  }

  lemma GroupNodesRead(ms: seq<Member>, was: ReadAutoScalingGroupDetail, now: ReadAutoScalingGroupDetail)
    ensures FieldsRead(ASG_DETAIL_FIELDS, ReadAutoScalingGroupDetailVal(was).vals,
        ReadAutoScalingGroupDetailVal(now).vals, ms, 5, 8) <==>
            ReadsGroupNodes(ms, now)
  {
    var f, vals := ASG_DETAIL_FIELDS, ReadAutoScalingGroupDetailVal(was).vals;
    IntField(f[5], AllOf(ms, "minNodes"), vals[5], now.minNodes);
    IntField(f[6], AllOf(ms, "maxNodes"), vals[6], now.maxNodes);
    IntField(f[7], AllOf(ms, "workerNodeCount"), vals[7], now.workerNodeCount);
  }

  lemma GroupInterfacesRead(ms: seq<Member>, was: ReadAutoScalingGroupDetail, now: ReadAutoScalingGroupDetail)
    ensures FieldsRead(ASG_DETAIL_FIELDS, ReadAutoScalingGroupDetailVal(was).vals,
        ReadAutoScalingGroupDetailVal(now).vals, ms, 8, 10) <==>
            ReadsGroupInterfaces(ms, now)
  {
    var f, vals := ASG_DETAIL_FIELDS, ReadAutoScalingGroupDetailVal(was).vals;
    BoolField(f[8], AllOf(ms, "deleting"), vals[8], now.deleting);
    InterfacesField(f[9], AllOf(ms, "interfaces"), vals[9], now.interfaces);
  }

  /** An object decodes to `now` exactly when what stands under the keys says so. */
  lemma GroupRead(ms: seq<Member>, was: ReadAutoScalingGroupDetail, now: ReadAutoScalingGroupDetail)
    ensures ReadsGroup(ms, was, now) <==>
            (Decode(KObj(ASG_DETAIL_FIELDS), ReadAutoScalingGroupDetailVal(was), JObj(ms)) ==
             Done(ReadAutoScalingGroupDetailVal(now)))
  {
    AsgDetailTable();
    StructExactly(ASG_DETAIL_FIELDS, ReadAutoScalingGroupDetailVal(was).vals,
        ReadAutoScalingGroupDetailVal(now).vals, ms);
    GroupNamesRead(ms, was, now);
    GroupNodesRead(ms, was, now);
    GroupInterfacesRead(ms, was, now);
  }

  /** The required keys. */
  const GROUP_KEYS := ["autoScalingGroupID", "name", "zone", "workerServiceClassPath", "minNodes", "maxNodes",
                       "workerNodeCount", "deleting", "interfaces"]

  lemma GroupKeysTo5()
    ensures RequiredKeys(ASG_DETAIL_FIELDS, 5) == GROUP_KEYS[..4]
  {
    assert RequiredKeys(ASG_DETAIL_FIELDS, 1) == GROUP_KEYS[..1];
    assert RequiredKeys(ASG_DETAIL_FIELDS, 2) == GROUP_KEYS[..2];
    assert RequiredKeys(ASG_DETAIL_FIELDS, 3) == GROUP_KEYS[..3];
    assert RequiredKeys(ASG_DETAIL_FIELDS, 4) == GROUP_KEYS[..3];
  }

  lemma GroupKeysTo10()
    ensures RequiredKeys(ASG_DETAIL_FIELDS, 10) == GROUP_KEYS[..9]
  {
    GroupKeysTo5();
    assert RequiredKeys(ASG_DETAIL_FIELDS, 6) == GROUP_KEYS[..5];
    assert RequiredKeys(ASG_DETAIL_FIELDS, 7) == GROUP_KEYS[..6];
    assert RequiredKeys(ASG_DETAIL_FIELDS, 8) == GROUP_KEYS[..7];
    assert RequiredKeys(ASG_DETAIL_FIELDS, 9) == GROUP_KEYS[..8];
  }

  /** What a decode reports as missing. */
  lemma GroupMissing(ms: seq<Member>)
    ensures MissingBelow(ASG_DETAIL_FIELDS, ms, 10) == Absent(GROUP_KEYS, ms)
  {
    AsgDetailTable();
    GroupKeysTo10();
    assert GROUP_KEYS[..9] == GROUP_KEYS;
    MissingIsAbsent(ASG_DETAIL_FIELDS, ms, 10);
  }

  // ---------- a group, and more groups into the same receiver ----------

  /** Groups decoded into one receiver: each has all required keys, and together they read as
      one object with all their members. */
  ghost predicate ReadsGroups(js: seq<Value>, was: ReadAutoScalingGroupDetail, now: ReadAutoScalingGroupDetail) {
    js != [] && (forall j :: j in js ==> j.JObj? && Absent(GROUP_KEYS, j.members) == []) &&
    ReadsGroup(Joined(js), was, now)
  }

  lemma GroupsField(f: Field, js: seq<Value>, was: ReadAutoScalingGroupDetail, now: ReadAutoScalingGroupDetail)
    requires f.required && f.preset.None? && f.kind == KObj(ASG_DETAIL_FIELDS)
    ensures FieldReads(f, js, ReadAutoScalingGroupDetailVal(was), ReadAutoScalingGroupDetailVal(now)) <==>
            ReadsGroups(js, was, now)
  {
    AsgDetailTable();
    if js != [] {
      ObjectsInTurn(ASG_DETAIL_FIELDS, ReadAutoScalingGroupDetailVal(was).vals, js,
          ReadAutoScalingGroupDetailVal(now).vals);
      forall j | j in js && j.JObj?
        ensures MissingBelow(ASG_DETAIL_FIELDS, j.members, 10) == Absent(GROUP_KEYS, j.members)
      {
        GroupMissing(j.members);
      }
      GroupRead(Joined(js), was, now);
    }
  }

  // ---------- GetAutoScalingGroupResponse ----------

  /** What is sent of each field, in turn. */
  function ResponseParts(s: GetAutoScalingGroupResponse): seq<seq<Member>> {
    [[Member("autoScalingGroup", GroupJson(s.autoScalingGroup))]]
  }

  function ResponseJson(s: GetAutoScalingGroupResponse): Value { JObj(Flat(ResponseParts(s))) }

  lemma ResponseSaid(s: GetAutoScalingGroupResponse)
    ensures var f, vals := GET_ASG_FIELDS, GetAutoScalingGroupResponseVal(s).vals;
            forall i: nat | 0 <= i < 1 :: Says(f[i], vals[i], ResponseParts(s)[i])
  {
    var f := GET_ASG_FIELDS;
    GroupSent(s.autoScalingGroup);
    SaysObj(f[0], ReadAutoScalingGroupDetailVal(s.autoScalingGroup));
  }

  /** The object that is sent. */
  lemma ResponseSent(s: GetAutoScalingGroupResponse)
    ensures Fits(KObj(GET_ASG_FIELDS), GetAutoScalingGroupResponseVal(s))
    ensures Tree(KObj(GET_ASG_FIELDS), GetAutoScalingGroupResponseVal(s)) == ResponseJson(s)
  {
    GetAutoScalingGroupResponseFits(s);
    ResponseSaid(s);
    StructSent(GET_ASG_FIELDS, GetAutoScalingGroupResponseVal(s).vals, ResponseParts(s), 1);
    assert ResponseParts(s)[..1] == ResponseParts(s);
  }

  ghost predicate ReadsResponse(ms: seq<Member>, was: GetAutoScalingGroupResponse,
      now: GetAutoScalingGroupResponse) {
    ReadsGroups(AllOf(ms, "autoScalingGroup"), was.autoScalingGroup, now.autoScalingGroup)
  }

  /** An object decodes to `now` exactly when what stands under the keys says so. */
  lemma ResponseRead(ms: seq<Member>, was: GetAutoScalingGroupResponse, now: GetAutoScalingGroupResponse)
    ensures ReadsResponse(ms, was, now) <==>
            (Decode(KObj(GET_ASG_FIELDS), GetAutoScalingGroupResponseVal(was), JObj(ms)) ==
             Done(GetAutoScalingGroupResponseVal(now)))
  {
    var f, vals := GET_ASG_FIELDS, GetAutoScalingGroupResponseVal(was).vals;
    GetAsgTable();
    StructExactly(f, vals, GetAutoScalingGroupResponseVal(now).vals, ms);
    GroupsField(f[0], AllOf(ms, "autoScalingGroup"), was.autoScalingGroup, now.autoScalingGroup);
  }

  /** Whole streams: what was read is one object, printed, and says so under its keys. */
  lemma ResponseOnStream(was: GetAutoScalingGroupResponse, now: GetAutoScalingGroupResponse,
      t: seq<Token>, rest: seq<Token>)
    ensures (exists ms :: t == Print(JObj(ms), rest) && ReadsResponse(ms, was, now)) <==>
            (DecodeAt(KObj(GET_ASG_FIELDS), GetAutoScalingGroupResponseVal(was), t) ==
             DoneAt(GetAutoScalingGroupResponseVal(now), rest))
  {
    OnStream(GET_ASG_FIELDS, GetAutoScalingGroupResponseVal(was), GetAutoScalingGroupResponseVal(now), t, rest);
    forall ms: seq<Member>
      ensures ReadsResponse(ms, was, now) <==>
              (Decode(KObj(GET_ASG_FIELDS), GetAutoScalingGroupResponseVal(was), JObj(ms)) ==
               Done(GetAutoScalingGroupResponseVal(now)))
    {
      ResponseRead(ms, was, now);
    }
  }

  /** Round trip of an auto scaling group response, through three levels of structs. */
  method SendResponse(v: GetAutoScalingGroupResponse, behind: seq<Token>)
    returns (sent: seq<Token>, back: GetAutoScalingGroupResponse, err: Error, left: seq<Token>)
    ensures sent == Print(ResponseJson(v), [])
    ensures err == NoError && back == NormResponse(v) && left == behind
  {
    var e := new Encoder();
    var out := new GetAutoScalingGroupResponseRef(v);
    out.Encode(e);
    sent := e.tokens;
    var d := new Decoder(sent + behind);
    var received := new GetAutoScalingGroupResponseRef(ZERO_GET_AUTO_SCALING_GROUP_RESPONSE);
    err := received.Decode(d);
    back, left := received.s, d.Rest();
    ZeroGetAutoScalingGroupResponseVal();
    ResponseNorm(v);
    GetAsgTable();
    ResponseSent(v);
    EncodedAs(KObj(GET_ASG_FIELDS), GetAutoScalingGroupResponseVal(v));
    StreamRoundTrip(KObj(GET_ASG_FIELDS), GetAutoScalingGroupResponseVal(v), behind);
    SameResponses(back, NormResponse(v));
  }

  /** Two groups in one response, the second without name servers: the first one's stay. */
  lemma NameServersStay(v: ReadAutoScalingGroupDetail, w: ReadAutoScalingGroupDetail, now: GetAutoScalingGroupResponse)
    requires v.nameServers.SliceOf? && w.nameServers.NilSlice?
    ensures var ms := [Member("autoScalingGroup", GroupJson(v)), Member("autoScalingGroup", GroupJson(w))];
            ReadsResponse(ms, ZERO_GET_AUTO_SCALING_GROUP_RESPONSE, now) <==>
            now.autoScalingGroup == NormGroup(w).(nameServers := v.nameServers)
  {
    var ms := [Member("autoScalingGroup", GroupJson(v)), Member("autoScalingGroup", GroupJson(w))];
    var both := NormGroup(w).(nameServers := v.nameServers);
    NameServersSurvive(v, w);
    GroupSent(v);
    GroupSent(w);
    assert ms == Groups([GroupJson(v), GroupJson(w)]);
    GroupNorm(w);
    assert ReadAutoScalingGroupDetailVal(both).vals ==
        ReadAutoScalingGroupDetailVal(NormGroup(w)).vals[3 := StringsVal(v.nameServers)];
    var r := GetAutoScalingGroupResponse(both);
    assert GetAutoScalingGroupResponseVal(r).vals == [ReadAutoScalingGroupDetailVal(both)];
    ZeroGetAutoScalingGroupResponseVal();
    ResponseRead(ms, ZERO_GET_AUTO_SCALING_GROUP_RESPONSE, now);
    if GetAutoScalingGroupResponseVal(now) == GetAutoScalingGroupResponseVal(r) {
      SameResponses(now, r);
    }
  }
}
