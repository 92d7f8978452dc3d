/** `CreateApplicationVersion` and the structs in it. */
module Versions {
  import opened Json
  import opened Schema
  import opened RequiredFields
  import opened Jx
  import opened Kinds
  import opened Wrappers
  import opened HealthChecks

  // ---------- ExposedPort ----------

  datatype ExposedPort = ExposedPort(
    targetPort: uint16, loadBalancerPort: NilOf<uint16>, useLetsEncrypt: bool, host: Slice<string>,
    healthCheck: NilOf<HealthCheck>)

  const ZERO_EXPOSED_PORT := ExposedPort(0, NilOf(0, false), false, NilSlice, NilOf(ZERO_HEALTH_CHECK, false))

  /** The value of field `i`, in the order of `EXPOSED_PORT_FIELDS`. */
  function ExposedPortAt(s: ExposedPort, i: nat): Val
    requires i < 5
  {
    if i == 0 then VInt(s.targetPort)
    else if i == 1 then VNil(s.loadBalancerPort.isNull, VInt(s.loadBalancerPort.value))
    else if i == 2 then VBool(s.useLetsEncrypt)
    else if i == 3 then StringsVal(s.host)
    else VNil(s.healthCheck.isNull, HealthCheckVal(s.healthCheck.value))
  }

  function ExposedPortVal(s: ExposedPort): Val {
    VObj(seq(5, i requires 0 <= i < 5 => ExposedPortAt(s, i)))
  }

  lemma ExposedPortFits(s: ExposedPort)
    ensures Fits(KObj(EXPOSED_PORT_FIELDS), ExposedPortVal(s))
  {
    HealthCheckFits(s.healthCheck.value);
    forall i | 0 <= i < 5 ensures Fits(EXPOSED_PORT_FIELDS[i].kind, ExposedPortAt(s, i)) {
    }
  }

  /** The mask literals at the end of `Decode`: exactly the required fields. */
  const EXPOSED_PORT_MASKS: seq<bv8> := [0x17]  // 0b00010111

  lemma ExposedPortMask()
    ensures Represents(EXPOSED_PORT_MASKS, RequiredOf(EXPOSED_PORT_FIELDS))
  {
  }

  /** A `*ExposedPort`: the struct its methods update. */
  class ExposedPortRef {
    var s: ExposedPort

    constructor (s: ExposedPort)
      ensures this.s == s
    {
      this.s := s;
    }

    method Encode(e: Encoder)
      modifies e
      ensures e.tokens == Schema.Encode(old(e.tokens), KObj(EXPOSED_PORT_FIELDS), ExposedPortVal(s))
    {
      ghost var acc := e.tokens + [ObjStart];
      e.Put(ObjStart);
      EncodeFields(e, acc);
      e.Put(ObjEnd);
    }

    /** `encodeFields`. */
    method EncodeFields(e: Encoder, ghost acc: seq<Token>)
      requires e.tokens == Schema.EncodeFields(acc, KObj(EXPOSED_PORT_FIELDS), ExposedPortVal(s).vals, 0)
      modifies e
      ensures e.tokens == Schema.EncodeFields(acc, KObj(EXPOSED_PORT_FIELDS), ExposedPortVal(s).vals, 5)
    {
      e.Put(Key("targetPort"));
      e.Put(Int(s.targetPort));
      assert e.tokens == Schema.EncodeFields(acc, KObj(EXPOSED_PORT_FIELDS), ExposedPortVal(s).vals, 1);
      e.Put(Key("loadBalancerPort"));
      EncodeNilPort(e, s.loadBalancerPort);
      assert e.tokens == Schema.EncodeFields(acc, KObj(EXPOSED_PORT_FIELDS), ExposedPortVal(s).vals, 2);
      e.Put(Key("useLetsEncrypt"));
      e.Put(Bool(s.useLetsEncrypt));
      assert e.tokens == Schema.EncodeFields(acc, KObj(EXPOSED_PORT_FIELDS), ExposedPortVal(s).vals, 3);
      EncodeFieldsFrom3(e, acc);
    }

    /** `encodeFields` from field 3 on. */
    method EncodeFieldsFrom3(e: Encoder, ghost acc: seq<Token>)
      requires e.tokens == Schema.EncodeFields(acc, KObj(EXPOSED_PORT_FIELDS), ExposedPortVal(s).vals, 3)
      modifies e
      ensures e.tokens == Schema.EncodeFields(acc, KObj(EXPOSED_PORT_FIELDS), ExposedPortVal(s).vals, 5)
    {
      if s.host != NilSlice {
        e.Put(Key("host"));
        EncodeStrings(e, s.host);
      }
      assert e.tokens == Schema.EncodeFields(acc, KObj(EXPOSED_PORT_FIELDS), ExposedPortVal(s).vals, 4);
      e.Put(Key("healthCheck"));
      EncodeNilHealthCheck(e, s.healthCheck);
    }

    /** The `ObjBytes` callback: the field the key selects is decoded, a required one's bit set. */
    method DecodeField(d: Decoder, k: string, requiredBitSet: seq<bv8>, ghost marks: set<nat>)
      returns (err: Error, bits: seq<bv8>)
      requires d.Valid() && |requiredBitSet| == 1 && Represents(requiredBitSet, marks)
      modifies this, d
      ensures d.Valid() && |bits| == 1 &&
          Represents(bits, Mark(EXPOSED_PORT_FIELDS, marks, Find(EXPOSED_PORT_FIELDS, k)))
      ensures MemberRead(EXPOSED_PORT_FIELDS, ExposedPortVal(old(s)), k, old(d.Rest()), err, ExposedPortVal(s),
          d.Rest())
    {
      ghost var f, prior := EXPOSED_PORT_FIELDS, ExposedPortVal(s);
      bits := requiredBitSet;
      ghost var t := d.Rest();
      if k == "targetPort" {
        bits := SetRequired(bits, 0, 0, f, marks);
        var v;
        v, err := d.Int(0, 0xFFFF, VInt(s.targetPort));
        s := s.(targetPort := v);
        assert ExposedPortVal(s).vals == prior.vals[0 := VInt(s.targetPort)];
        FieldRead(f, prior, k, 0, t, err, VInt(s.targetPort), ExposedPortVal(s), d.Rest());
      } else if k == "loadBalancerPort" {
        bits := SetRequired(bits, 0, 1, f, marks);
        var v;
        v, err := DecodeNilPort(d, VNil(s.loadBalancerPort.isNull, VInt(s.loadBalancerPort.value)));
        s := s.(loadBalancerPort := v);
        assert ExposedPortVal(s).vals ==
            prior.vals[1 := VNil(s.loadBalancerPort.isNull, VInt(s.loadBalancerPort.value))];
        FieldRead(f, prior, k, 1, t, err, VNil(s.loadBalancerPort.isNull, VInt(s.loadBalancerPort.value)),
            ExposedPortVal(s), d.Rest());
      } else if k == "useLetsEncrypt" {
        bits := SetRequired(bits, 0, 2, f, marks);
        var v;
        v, err := d.Bool(VBool(s.useLetsEncrypt));
        s := s.(useLetsEncrypt := v);
        assert ExposedPortVal(s).vals == prior.vals[2 := VBool(s.useLetsEncrypt)];
        FieldRead(f, prior, k, 2, t, err, VBool(s.useLetsEncrypt), ExposedPortVal(s), d.Rest());
      } else {
        err, bits := DecodeFieldFrom3(d, k, requiredBitSet, marks);
      }
    }

    /** The key switch from case 3 on. */
    method DecodeFieldFrom3(d: Decoder, k: string, requiredBitSet: seq<bv8>, ghost marks: set<nat>)
      returns (err: Error, bits: seq<bv8>)
      requires d.Valid() && |requiredBitSet| == 1 && Represents(requiredBitSet, marks)
      requires Find(EXPOSED_PORT_FIELDS, k) == Find(EXPOSED_PORT_FIELDS, k, 3)
      modifies this, d
      ensures d.Valid() && |bits| == 1 &&
          Represents(bits, Mark(EXPOSED_PORT_FIELDS, marks, Find(EXPOSED_PORT_FIELDS, k)))
      ensures MemberRead(EXPOSED_PORT_FIELDS, ExposedPortVal(old(s)), k, old(d.Rest()), err, ExposedPortVal(s),
          d.Rest())
    {
      ghost var f, prior := EXPOSED_PORT_FIELDS, ExposedPortVal(s);
      bits := requiredBitSet;
      ghost var t := d.Rest();
      if k == "host" {
        var v;
        v, err := DecodeStrings(d, StringsVal(s.host));
        s := s.(host := v);
        assert ExposedPortVal(s).vals == prior.vals[3 := StringsVal(s.host)];
        FieldRead(f, prior, k, 3, t, err, StringsVal(s.host), ExposedPortVal(s), d.Rest());
      } else if k == "healthCheck" {
        bits := SetRequired(bits, 0, 4, f, marks);
        var v;
        v, err := DecodeNilHealthCheck(d, s.healthCheck);
        s := s.(healthCheck := v);
        assert ExposedPortVal(s).vals ==
            prior.vals[4 := VNil(s.healthCheck.isNull, HealthCheckVal(s.healthCheck.value))];
        FieldRead(f, prior, k, 4, t, err, VNil(s.healthCheck.isNull, HealthCheckVal(s.healthCheck.value)),
            ExposedPortVal(s), d.Rest());
      } else {
        var r := d.Skip();
        err := if r == Skipped then NoError else Invalid;
      }
    }

    method Decode(d: Decoder) returns (err: Error)
      requires d.Valid()
      modifies this, d
      ensures d.Valid()
      ensures Reads(KObj(EXPOSED_PORT_FIELDS), ExposedPortVal(old(s)), old(d.Rest()), err, ExposedPortVal(s),
          d.Rest())
    {
      var f := EXPOSED_PORT_FIELDS;
      var requiredBitSet := ZeroBits(1);
      ghost var result := DecodeAt(KObj(f), ExposedPortVal(s), d.Rest());
      ghost var seen, marks: set<nat> := [], {};
      Opening(f, ExposedPortVal(s), d.Rest());
      assert ExposedPortVal(s).vals == Preset(f, ExposedPortVal(s).vals);
      if !d.At(ObjStart) {
        return Invalid;
      }
      d.Advance();
      while true
        invariant d.Valid() && |requiredBitSet| == 1 && Represents(requiredBitSet, marks)
        invariant Looping(f, result, ExposedPortVal(s).vals, seen, marks, d.Rest())
        decreases |d.Rest()|
      {
        ghost var t, vals := d.Rest(), ExposedPortVal(s).vals;
        Closing(f, result, vals, seen, marks, t);
        var more, k;
        more, k, err := d.NextKey();
        if err != NoError {
          return Invalid;
        }
        if !more {
          break;
        }
        NextMember(f, result, vals, seen, marks, t);
        err, requiredBitSet := DecodeField(d, k, requiredBitSet, marks);
        if err != NoError {
          return Invalid;
        }
        seen, marks := seen + [Member(k, Parse(t[1..]).value)], Mark(f, marks, Find(f, k));
      }
      ExposedPortMask();
      err := CheckRequired(f, requiredBitSet, EXPOSED_PORT_MASKS, seen);
    }
  }

  function ExposedPortsVal(s: Slice<ExposedPort>): Val {
    if s.NilSlice? then VNilSlice else VSlice(seq(|s.elems|,
        i requires 0 <= i < |s.elems| => ExposedPortVal(s.elems[i])))
  }

  lemma ExposedPortsFits(s: Slice<ExposedPort>)
    ensures Fits(KArr(KObj(EXPOSED_PORT_FIELDS)), ExposedPortsVal(s))
  {
    forall x: ExposedPort ensures Fits(KObj(EXPOSED_PORT_FIELDS), ExposedPortVal(x)) {
      ExposedPortFits(x);
    }
  }

  /** The `Arr` loop of a `[]ExposedPort`: every element is decoded into a fresh one. */
  method DecodeExposedPorts(d: Decoder, ghost prior: Val) returns (slice: Slice<ExposedPort>, err: Error)
    requires d.Valid()
    modifies d
    ensures d.Valid() && Reads(KArr(KObj(EXPOSED_PORT_FIELDS)), prior, old(d.Rest()), err, ExposedPortsVal(slice),
        d.Rest())
  {
    slice := SliceOf([]);
    ghost var k, result := KObj(EXPOSED_PORT_FIELDS), DecodeAt(KArr(KObj(EXPOSED_PORT_FIELDS)), prior, d.Rest());
    ElemsOpening(k, prior, d.Rest());
    assert ExposedPortsVal(slice).elems == [];
    ZeroExposedPortVal();
    if !d.At(ArrStart) {
      return slice, Invalid;
    }
    d.Advance();
    while !d.At(ArrEnd)
      invariant d.Valid() && slice.SliceOf?
      invariant result == RemainingElems(k, ExposedPortsVal(slice).elems, d.Rest())
      decreases |d.Rest()|
    {
      ghost var read := ExposedPortsVal(slice).elems;
      ElemsNext(k, read, d.Rest());
      var elem := new ExposedPortRef(ZERO_EXPOSED_PORT);
      err := elem.Decode(d);
      if err != NoError {
        return slice, Invalid;
      }
      slice := SliceOf(slice.elems + [elem.s]);
      assert ExposedPortsVal(slice).elems == read + [ExposedPortVal(elem.s)];
    }
    ElemsClosing(k, ExposedPortsVal(slice).elems, d.Rest());
    d.Advance();
    err := NoError;
  }

  method EncodeExposedPorts(e: Encoder, slice: Slice<ExposedPort>)
    modifies e
    ensures e.tokens == Encode(old(e.tokens), KArr(KObj(EXPOSED_PORT_FIELDS)), ExposedPortsVal(slice))
  {
    ghost var acc := e.tokens + [ArrStart];
    e.Put(ArrStart);
    var elems := if slice.SliceOf? then slice.elems else [];
    for i := 0 to |elems|
      invariant e.tokens == EncodeElems(acc, KObj(EXPOSED_PORT_FIELDS), Elems(ExposedPortsVal(slice)), i)
    {
      var elem := new ExposedPortRef(elems[i]);
      elem.Encode(e);
    }
    e.Put(ArrEnd);
  }

  lemma ZeroExposedPortVal()
    ensures ExposedPortVal(ZERO_EXPOSED_PORT) == Zero(KObj(EXPOSED_PORT_FIELDS))
  {
    ZeroHealthCheckVal();
    assert ExposedPortVal(ZERO_EXPOSED_PORT).vals == Zero(KObj(EXPOSED_PORT_FIELDS)).vals;
  }

  // ---------- CreateEnvironmentVariable ----------

  datatype CreateEnvironmentVariable = CreateEnvironmentVariable(
    key: string, value: OptOf<string>, secret: bool)

  const ZERO_CREATE_ENVIRONMENT_VARIABLE := CreateEnvironmentVariable("", OptOf("", false), false)

  /** The value of field `i`, in the order of `CREATE_ENV_FIELDS`. */
  function CreateEnvironmentVariableAt(s: CreateEnvironmentVariable, i: nat): Val
    requires i < 3
  {
    if i == 0 then VStr(s.key)
    else if i == 1 then VOpt(s.value.isSet, VStr(s.value.value))
    else VBool(s.secret)
  }

  function CreateEnvironmentVariableVal(s: CreateEnvironmentVariable): Val {
    VObj(seq(3, i requires 0 <= i < 3 => CreateEnvironmentVariableAt(s, i)))
  }

  lemma CreateEnvironmentVariableFits(s: CreateEnvironmentVariable)
    ensures Fits(KObj(CREATE_ENV_FIELDS), CreateEnvironmentVariableVal(s))
  {
    forall i | 0 <= i < 3 ensures Fits(CREATE_ENV_FIELDS[i].kind, CreateEnvironmentVariableAt(s, i)) {
    }
  }

  /** The mask literals at the end of `Decode`: exactly the required fields. */
  const CREATE_ENV_MASKS: seq<bv8> := [0x05]  // 0b00000101

  lemma CreateEnvMask()
    ensures Represents(CREATE_ENV_MASKS, RequiredOf(CREATE_ENV_FIELDS))
  {
  }

  /** A `*CreateEnvironmentVariable`: the struct its methods update. */
  class CreateEnvironmentVariableRef {
    var s: CreateEnvironmentVariable

    constructor (s: CreateEnvironmentVariable)
      ensures this.s == s
    {
      this.s := s;
    }

    method Encode(e: Encoder)
      modifies e
      ensures e.tokens == Schema.Encode(old(e.tokens), KObj(CREATE_ENV_FIELDS), CreateEnvironmentVariableVal(s))
    {
      ghost var acc := e.tokens + [ObjStart];
      e.Put(ObjStart);
      EncodeFields(e, acc);
      e.Put(ObjEnd);
    }

    /** `encodeFields`. */
    method EncodeFields(e: Encoder, ghost acc: seq<Token>)
      requires e.tokens == Schema.EncodeFields(acc, KObj(CREATE_ENV_FIELDS), CreateEnvironmentVariableVal(s).vals,
          0)
      modifies e
      ensures e.tokens == Schema.EncodeFields(acc, KObj(CREATE_ENV_FIELDS), CreateEnvironmentVariableVal(s).vals, 3)
    {
      e.Put(Key("key"));
      e.Put(Str(s.key));
      assert e.tokens == Schema.EncodeFields(acc, KObj(CREATE_ENV_FIELDS), CreateEnvironmentVariableVal(s).vals, 1);
      if s.value.isSet {
        e.Put(Key("value"));
        EncodeOptString(e, s.value);
      }
      assert e.tokens == Schema.EncodeFields(acc, KObj(CREATE_ENV_FIELDS), CreateEnvironmentVariableVal(s).vals, 2);
      e.Put(Key("secret"));
      e.Put(Bool(s.secret));
    }

    /** The `ObjBytes` callback: the field the key selects is decoded, a required one's bit set. */
    method DecodeField(d: Decoder, k: string, requiredBitSet: seq<bv8>, ghost marks: set<nat>)
      returns (err: Error, bits: seq<bv8>)
      requires d.Valid() && |requiredBitSet| == 1 && Represents(requiredBitSet, marks)
      modifies this, d
      ensures d.Valid() && |bits| == 1 &&
          Represents(bits, Mark(CREATE_ENV_FIELDS, marks, Find(CREATE_ENV_FIELDS, k)))
      ensures MemberRead(CREATE_ENV_FIELDS, CreateEnvironmentVariableVal(old(s)), k, old(d.Rest()), err,
          CreateEnvironmentVariableVal(s), d.Rest())
    {
      ghost var f, prior := CREATE_ENV_FIELDS, CreateEnvironmentVariableVal(s);
      bits := requiredBitSet;
      ghost var t := d.Rest();
      if k == "key" {
        bits := SetRequired(bits, 0, 0, f, marks);
        var v;
        v, err := d.Str(VStr(s.key));
        s := s.(key := v);
        assert CreateEnvironmentVariableVal(s).vals == prior.vals[0 := VStr(s.key)];
        FieldRead(f, prior, k, 0, t, err, VStr(s.key), CreateEnvironmentVariableVal(s), d.Rest());
      } else if k == "value" {
        var v;
        v, err := DecodeOptString(d, VOpt(s.value.isSet, VStr(s.value.value)));
        s := s.(value := v);
        assert CreateEnvironmentVariableVal(s).vals == prior.vals[1 := VOpt(s.value.isSet, VStr(s.value.value))];
        FieldRead(f, prior, k, 1, t, err, VOpt(s.value.isSet, VStr(s.value.value)),
            CreateEnvironmentVariableVal(s), d.Rest());
      } else if k == "secret" {
        bits := SetRequired(bits, 0, 2, f, marks);
        var v;
        v, err := d.Bool(VBool(s.secret));
        s := s.(secret := v);
        assert CreateEnvironmentVariableVal(s).vals == prior.vals[2 := VBool(s.secret)];
        FieldRead(f, prior, k, 2, t, err, VBool(s.secret), CreateEnvironmentVariableVal(s), d.Rest());
      } else {
        var r := d.Skip();
        err := if r == Skipped then NoError else Invalid;
      }
    }

    method Decode(d: Decoder) returns (err: Error)
      requires d.Valid()
      modifies this, d
      ensures d.Valid()
      ensures Reads(KObj(CREATE_ENV_FIELDS), CreateEnvironmentVariableVal(old(s)), old(d.Rest()), err,
          CreateEnvironmentVariableVal(s), d.Rest())
    {
      var f := CREATE_ENV_FIELDS;
      var requiredBitSet := ZeroBits(1);
      ghost var result := DecodeAt(KObj(f), CreateEnvironmentVariableVal(s), d.Rest());
      ghost var seen, marks: set<nat> := [], {};
      Opening(f, CreateEnvironmentVariableVal(s), d.Rest());
      assert CreateEnvironmentVariableVal(s).vals == Preset(f, CreateEnvironmentVariableVal(s).vals);
      if !d.At(ObjStart) {
        return Invalid;
      }
      d.Advance();
      while true
        invariant d.Valid() && |requiredBitSet| == 1 && Represents(requiredBitSet, marks)
        invariant Looping(f, result, CreateEnvironmentVariableVal(s).vals, seen, marks, d.Rest())
        decreases |d.Rest()|
      {
        ghost var t, vals := d.Rest(), CreateEnvironmentVariableVal(s).vals;
        Closing(f, result, vals, seen, marks, t);
        var more, k;
        more, k, err := d.NextKey();
        if err != NoError {
          return Invalid;
        }
        if !more {
          break;
        }
        NextMember(f, result, vals, seen, marks, t);
        err, requiredBitSet := DecodeField(d, k, requiredBitSet, marks);
        if err != NoError {
          return Invalid;
        }
        seen, marks := seen + [Member(k, Parse(t[1..]).value)], Mark(f, marks, Find(f, k));
      }
      CreateEnvMask();
      err := CheckRequired(f, requiredBitSet, CREATE_ENV_MASKS, seen);
    }
  }

  function CreateEnvironmentVariablesVal(s: Slice<CreateEnvironmentVariable>): Val {
    if s.NilSlice? then VNilSlice else VSlice(seq(|s.elems|,
        i requires 0 <= i < |s.elems| => CreateEnvironmentVariableVal(s.elems[i])))
  }

  lemma CreateEnvironmentVariablesFits(s: Slice<CreateEnvironmentVariable>)
    ensures Fits(KArr(KObj(CREATE_ENV_FIELDS)), CreateEnvironmentVariablesVal(s))
  {
    forall x: CreateEnvironmentVariable ensures Fits(KObj(CREATE_ENV_FIELDS), CreateEnvironmentVariableVal(x)) {
      CreateEnvironmentVariableFits(x);
    }
  }

  /** The `Arr` loop of a `[]CreateEnvironmentVariable`: every element is decoded into a fresh one. */
  method DecodeCreateEnvironmentVariables(d: Decoder,
      ghost prior: Val) returns (slice: Slice<CreateEnvironmentVariable>, err: Error)
    requires d.Valid()
    modifies d
    ensures d.Valid() && Reads(KArr(KObj(CREATE_ENV_FIELDS)), prior, old(d.Rest()), err,
        CreateEnvironmentVariablesVal(slice), d.Rest())
  {
    slice := SliceOf([]);
    ghost var k, result := KObj(CREATE_ENV_FIELDS), DecodeAt(KArr(KObj(CREATE_ENV_FIELDS)), prior, d.Rest());
    ElemsOpening(k, prior, d.Rest());
    assert CreateEnvironmentVariablesVal(slice).elems == [];
    ZeroCreateEnvironmentVariableVal();
    if !d.At(ArrStart) {
      return slice, Invalid;
    }
    d.Advance();
    while !d.At(ArrEnd)
      invariant d.Valid() && slice.SliceOf?
      invariant result == RemainingElems(k, CreateEnvironmentVariablesVal(slice).elems, d.Rest())
      decreases |d.Rest()|
    {
      ghost var read := CreateEnvironmentVariablesVal(slice).elems;
      ElemsNext(k, read, d.Rest());
      var elem := new CreateEnvironmentVariableRef(ZERO_CREATE_ENVIRONMENT_VARIABLE);
      err := elem.Decode(d);
      if err != NoError {
        return slice, Invalid;
      }
      slice := SliceOf(slice.elems + [elem.s]);
      assert CreateEnvironmentVariablesVal(slice).elems == read + [CreateEnvironmentVariableVal(elem.s)];
    }
    ElemsClosing(k, CreateEnvironmentVariablesVal(slice).elems, d.Rest());
    d.Advance();
    err := NoError;
  }

  method EncodeCreateEnvironmentVariables(e: Encoder, slice: Slice<CreateEnvironmentVariable>)
    modifies e
    ensures e.tokens == Encode(old(e.tokens), KArr(KObj(CREATE_ENV_FIELDS)), CreateEnvironmentVariablesVal(slice))
  {
    ghost var acc := e.tokens + [ArrStart];
    e.Put(ArrStart);
    var elems := if slice.SliceOf? then slice.elems else [];
    for i := 0 to |elems|
      invariant e.tokens == EncodeElems(acc, KObj(CREATE_ENV_FIELDS), Elems(CreateEnvironmentVariablesVal(slice)),
          i)
    {
      var elem := new CreateEnvironmentVariableRef(elems[i]);
      elem.Encode(e);
    }
    e.Put(ArrEnd);
  }

  lemma ZeroCreateEnvironmentVariableVal()
    ensures CreateEnvironmentVariableVal(ZERO_CREATE_ENVIRONMENT_VARIABLE) == Zero(KObj(CREATE_ENV_FIELDS))
  {
    assert CreateEnvironmentVariableVal(ZERO_CREATE_ENVIRONMENT_VARIABLE).vals ==
        Zero(KObj(CREATE_ENV_FIELDS)).vals;
  }

  // ---------- CreateApplicationVersion ----------

  datatype CreateApplicationVersion = CreateApplicationVersion(
    cpu: int64, memory: int64, scalingMode: string, fixedScale: OptOf<int32>,
    minScale: OptOf<int32>, maxScale: OptOf<int32>, scaleInThreshold: OptOf<int32>,
    scaleOutThreshold: OptOf<int32>, image: string, cmd: Slice<string>,
    registryUsername: NilOf<string>, registryPassword: NilOf<string>,
    registryPasswordAction: string, exposedPorts: Slice<ExposedPort>,
    env: Slice<CreateEnvironmentVariable>)

  const ZERO_CREATE_APPLICATION_VERSION := CreateApplicationVersion(0, 0, "", OptOf(0, false), OptOf(0, false),
      OptOf(0, false), OptOf(0, false), OptOf(0, false), "", NilSlice, NilOf("", false), NilOf("", false), "",
          NilSlice, NilSlice)

  /** The value of field `i`, in the order of `CREATE_VERSION_FIELDS`. */
  function CreateApplicationVersionAt(s: CreateApplicationVersion, i: nat): Val
    requires i < 15
  {
    if i == 0 then VInt(s.cpu)
    else if i == 1 then VInt(s.memory)
    else if i == 2 then VStr(s.scalingMode)
    else if i == 3 then VOpt(s.fixedScale.isSet, VInt(s.fixedScale.value))
    else if i == 4 then VOpt(s.minScale.isSet, VInt(s.minScale.value))
    else if i == 5 then VOpt(s.maxScale.isSet, VInt(s.maxScale.value))
    else if i == 6 then VOpt(s.scaleInThreshold.isSet, VInt(s.scaleInThreshold.value))
    else if i == 7 then VOpt(s.scaleOutThreshold.isSet, VInt(s.scaleOutThreshold.value))
    else if i == 8 then VStr(s.image)
    else if i == 9 then StringsVal(s.cmd)
    else if i == 10 then VNil(s.registryUsername.isNull, VStr(s.registryUsername.value))
    else if i == 11 then VNil(s.registryPassword.isNull, VStr(s.registryPassword.value))
    else if i == 12 then VStr(s.registryPasswordAction)
    else if i == 13 then ExposedPortsVal(s.exposedPorts)
    else CreateEnvironmentVariablesVal(s.env)
  }

  function CreateApplicationVersionVal(s: CreateApplicationVersion): Val {
    VObj(seq(15, i requires 0 <= i < 15 => CreateApplicationVersionAt(s, i)))
  }

  lemma CreateApplicationVersionFitsFrom0(s: CreateApplicationVersion, i: nat)
    requires 0 <= i < 8
    ensures Fits(CREATE_VERSION_FIELDS[i].kind, CreateApplicationVersionAt(s, i))
  {
  }

  lemma CreateApplicationVersionFitsFrom8(s: CreateApplicationVersion, i: nat)
    requires 8 <= i < 15
    ensures Fits(CREATE_VERSION_FIELDS[i].kind, CreateApplicationVersionAt(s, i))
  {
    ExposedPortsFits(s.exposedPorts);
    CreateEnvironmentVariablesFits(s.env);
  }

  lemma CreateApplicationVersionFits(s: CreateApplicationVersion)
    ensures Fits(KObj(CREATE_VERSION_FIELDS), CreateApplicationVersionVal(s))
  {
    forall i | 0 <= i < 15 ensures Fits(CREATE_VERSION_FIELDS[i].kind, CreateApplicationVersionAt(s, i)) {
      if i < 8 {
        CreateApplicationVersionFitsFrom0(s, i);
      } else {
        CreateApplicationVersionFitsFrom8(s, i);
      }
    }
  }

  /** The mask literals at the end of `Decode`: exactly the required fields. */
  const CREATE_VERSION_MASKS: seq<bv8> := [0x07, 0x7D]  // 0b00000111, 0b01111101

  lemma CreateVersionMask()
    ensures Represents(CREATE_VERSION_MASKS, RequiredOf(CREATE_VERSION_FIELDS))
  {
  }

  /** A `*CreateApplicationVersion`: the struct its methods update. */
  class CreateApplicationVersionRef {
    var s: CreateApplicationVersion

    constructor (s: CreateApplicationVersion)
      ensures this.s == s
    {
      this.s := s;
    }

    method Encode(e: Encoder)
      modifies e
      ensures e.tokens == Schema.Encode(old(e.tokens), KObj(CREATE_VERSION_FIELDS), CreateApplicationVersionVal(s))
    {
      ghost var acc := e.tokens + [ObjStart];
      e.Put(ObjStart);
      EncodeFields(e, acc);
      e.Put(ObjEnd);
    }

    /** `encodeFields`. */
    method EncodeFields(e: Encoder, ghost acc: seq<Token>)
      requires e.tokens == Schema.EncodeFields(acc, KObj(CREATE_VERSION_FIELDS),
          CreateApplicationVersionVal(s).vals, 0)
      modifies e
      ensures e.tokens == Schema.EncodeFields(acc, KObj(CREATE_VERSION_FIELDS),
          CreateApplicationVersionVal(s).vals, 15)
    {
      e.Put(Key("cpu"));
      e.Put(Int(s.cpu));
      assert e.tokens == Schema.EncodeFields(acc, KObj(CREATE_VERSION_FIELDS), CreateApplicationVersionVal(s).vals,
          1);
      e.Put(Key("memory"));
      e.Put(Int(s.memory));
      assert e.tokens == Schema.EncodeFields(acc, KObj(CREATE_VERSION_FIELDS), CreateApplicationVersionVal(s).vals,
          2);
      e.Put(Key("scalingMode"));
      e.Put(Str(s.scalingMode));
      assert e.tokens == Schema.EncodeFields(acc, KObj(CREATE_VERSION_FIELDS), CreateApplicationVersionVal(s).vals,
          3);
      EncodeFieldsFrom3(e, acc);
    }

    /** `encodeFields` from field 3 on. */
    method EncodeFieldsFrom3(e: Encoder, ghost acc: seq<Token>)
      requires e.tokens == Schema.EncodeFields(acc, KObj(CREATE_VERSION_FIELDS),
          CreateApplicationVersionVal(s).vals, 3)
      modifies e
      ensures e.tokens == Schema.EncodeFields(acc, KObj(CREATE_VERSION_FIELDS),
          CreateApplicationVersionVal(s).vals, 15)
    {
      if s.fixedScale.isSet {
        e.Put(Key("fixedScale"));
        EncodeOptInt32(e, s.fixedScale);
      }
      assert e.tokens == Schema.EncodeFields(acc, KObj(CREATE_VERSION_FIELDS), CreateApplicationVersionVal(s).vals,
          4);
      if s.minScale.isSet {
        e.Put(Key("minScale"));
        EncodeOptInt32(e, s.minScale);
      }
      assert e.tokens == Schema.EncodeFields(acc, KObj(CREATE_VERSION_FIELDS), CreateApplicationVersionVal(s).vals,
          5);
      if s.maxScale.isSet {
        e.Put(Key("maxScale"));
        EncodeOptInt32(e, s.maxScale);
      }
      assert e.tokens == Schema.EncodeFields(acc, KObj(CREATE_VERSION_FIELDS), CreateApplicationVersionVal(s).vals,
          6);
      EncodeFieldsFrom6(e, acc);
    }

    /** `encodeFields` from field 6 on. */
    method EncodeFieldsFrom6(e: Encoder, ghost acc: seq<Token>)
      requires e.tokens == Schema.EncodeFields(acc, KObj(CREATE_VERSION_FIELDS),
          CreateApplicationVersionVal(s).vals, 6)
      modifies e
      ensures e.tokens == Schema.EncodeFields(acc, KObj(CREATE_VERSION_FIELDS),
          CreateApplicationVersionVal(s).vals, 15)
    {
      if s.scaleInThreshold.isSet {
        e.Put(Key("scaleInThreshold"));
        EncodeOptInt32(e, s.scaleInThreshold);
      }
      assert e.tokens == Schema.EncodeFields(acc, KObj(CREATE_VERSION_FIELDS), CreateApplicationVersionVal(s).vals,
          7);
      if s.scaleOutThreshold.isSet {
        e.Put(Key("scaleOutThreshold"));
        EncodeOptInt32(e, s.scaleOutThreshold);
      }
      assert e.tokens == Schema.EncodeFields(acc, KObj(CREATE_VERSION_FIELDS), CreateApplicationVersionVal(s).vals,
          8);
      EncodeFieldsFrom8(e, acc);
    }

    /** `encodeFields` from field 8 on. */
    method EncodeFieldsFrom8(e: Encoder, ghost acc: seq<Token>)
      requires e.tokens == Schema.EncodeFields(acc, KObj(CREATE_VERSION_FIELDS),
          CreateApplicationVersionVal(s).vals, 8)
      modifies e
      ensures e.tokens == Schema.EncodeFields(acc, KObj(CREATE_VERSION_FIELDS),
          CreateApplicationVersionVal(s).vals, 15)
    {
      e.Put(Key("image"));
      e.Put(Str(s.image));
      assert e.tokens == Schema.EncodeFields(acc, KObj(CREATE_VERSION_FIELDS), CreateApplicationVersionVal(s).vals,
          9);
      EncodeFieldsFrom9(e, acc);
    }

    /** `encodeFields` from field 9 on. */
    method EncodeFieldsFrom9(e: Encoder, ghost acc: seq<Token>)
      requires e.tokens == Schema.EncodeFields(acc, KObj(CREATE_VERSION_FIELDS),
          CreateApplicationVersionVal(s).vals, 9)
      modifies e
      ensures e.tokens == Schema.EncodeFields(acc, KObj(CREATE_VERSION_FIELDS),
          CreateApplicationVersionVal(s).vals, 15)
    {
      if s.cmd != NilSlice {
        e.Put(Key("cmd"));
        EncodeStrings(e, s.cmd);
      }
      assert e.tokens == Schema.EncodeFields(acc, KObj(CREATE_VERSION_FIELDS), CreateApplicationVersionVal(s).vals,
          10);
      e.Put(Key("registryUsername"));
      EncodeNilString(e, s.registryUsername);
      assert e.tokens == Schema.EncodeFields(acc, KObj(CREATE_VERSION_FIELDS), CreateApplicationVersionVal(s).vals,
          11);
      EncodeFieldsFrom11(e, acc);
    }

    /** `encodeFields` from field 11 on. */
    method EncodeFieldsFrom11(e: Encoder, ghost acc: seq<Token>)
      requires e.tokens == Schema.EncodeFields(acc, KObj(CREATE_VERSION_FIELDS),
          CreateApplicationVersionVal(s).vals, 11)
      modifies e
      ensures e.tokens == Schema.EncodeFields(acc, KObj(CREATE_VERSION_FIELDS),
          CreateApplicationVersionVal(s).vals, 15)
    {
      e.Put(Key("registryPassword"));
      EncodeNilString(e, s.registryPassword);
      assert e.tokens == Schema.EncodeFields(acc, KObj(CREATE_VERSION_FIELDS), CreateApplicationVersionVal(s).vals,
          12);
      e.Put(Key("registryPasswordAction"));
      e.Put(Str(s.registryPasswordAction));
      assert e.tokens == Schema.EncodeFields(acc, KObj(CREATE_VERSION_FIELDS), CreateApplicationVersionVal(s).vals,
          13);
      EncodeFieldsFrom13(e, acc);
    }

    /** `encodeFields` from field 13 on. */
    method EncodeFieldsFrom13(e: Encoder, ghost acc: seq<Token>)
      requires e.tokens == Schema.EncodeFields(acc, KObj(CREATE_VERSION_FIELDS),
          CreateApplicationVersionVal(s).vals, 13)
      modifies e
      ensures e.tokens == Schema.EncodeFields(acc, KObj(CREATE_VERSION_FIELDS),
          CreateApplicationVersionVal(s).vals, 15)
    {
      assert CreateApplicationVersionVal(s).vals[13] == CreateApplicationVersionAt(s, 13);
      e.Put(Key("exposedPorts"));
      EncodeExposedPorts(e, s.exposedPorts);
      assert e.tokens == Schema.EncodeFields(acc, KObj(CREATE_VERSION_FIELDS), CreateApplicationVersionVal(s).vals,
          14);
      EncodeFieldsFrom14(e, acc);
    }

    /** `encodeFields` from field 14 on. */
    method EncodeFieldsFrom14(e: Encoder, ghost acc: seq<Token>)
      requires e.tokens == Schema.EncodeFields(acc, KObj(CREATE_VERSION_FIELDS),
          CreateApplicationVersionVal(s).vals, 14)
      modifies e
      ensures e.tokens == Schema.EncodeFields(acc, KObj(CREATE_VERSION_FIELDS),
          CreateApplicationVersionVal(s).vals, 15)
    {
      assert CreateApplicationVersionVal(s).vals[14] == CreateApplicationVersionAt(s, 14);
      e.Put(Key("env"));
      EncodeCreateEnvironmentVariables(e, s.env);
    }

    /** The `ObjBytes` callback: the field the key selects is decoded, a required one's bit set. */
    method DecodeField(d: Decoder, k: string, requiredBitSet: seq<bv8>, ghost marks: set<nat>)
      returns (err: Error, bits: seq<bv8>)
      requires d.Valid() && |requiredBitSet| == 2 && Represents(requiredBitSet, marks)
      modifies this, d
      ensures d.Valid() && |bits| == 2 &&
          Represents(bits, Mark(CREATE_VERSION_FIELDS, marks, Find(CREATE_VERSION_FIELDS, k)))
      ensures MemberRead(CREATE_VERSION_FIELDS, CreateApplicationVersionVal(old(s)), k, old(d.Rest()), err,
          CreateApplicationVersionVal(s), d.Rest())
    {
      ghost var f, prior := CREATE_VERSION_FIELDS, CreateApplicationVersionVal(s);
      bits := requiredBitSet;
      ghost var t := d.Rest();
      if k == "cpu" {
        bits := SetRequired(bits, 0, 0, f, marks);
        var v;
        v, err := d.Int(-0x8000_0000_0000_0000, 0x7FFF_FFFF_FFFF_FFFF, VInt(s.cpu));
        s := s.(cpu := v);
        assert CreateApplicationVersionVal(s).vals == prior.vals[0 := VInt(s.cpu)];
        FieldRead(f, prior, k, 0, t, err, VInt(s.cpu), CreateApplicationVersionVal(s), d.Rest());
      } else if k == "memory" {
        bits := SetRequired(bits, 0, 1, f, marks);
        var v;
        v, err := d.Int(-0x8000_0000_0000_0000, 0x7FFF_FFFF_FFFF_FFFF, VInt(s.memory));
        s := s.(memory := v);
        assert CreateApplicationVersionVal(s).vals == prior.vals[1 := VInt(s.memory)];
        FieldRead(f, prior, k, 1, t, err, VInt(s.memory), CreateApplicationVersionVal(s), d.Rest());
      } else if k == "scalingMode" {
        bits := SetRequired(bits, 0, 2, f, marks);
        var v;
        v, err := d.Str(VStr(s.scalingMode));
        s := s.(scalingMode := v);
        assert CreateApplicationVersionVal(s).vals == prior.vals[2 := VStr(s.scalingMode)];
        FieldRead(f, prior, k, 2, t, err, VStr(s.scalingMode), CreateApplicationVersionVal(s), d.Rest());
      } else {
        err, bits := DecodeFieldFrom3(d, k, requiredBitSet, marks);
      }
    }

    /** The key switch from case 3 on. */
    method DecodeFieldFrom3(d: Decoder, k: string, requiredBitSet: seq<bv8>, ghost marks: set<nat>)
      returns (err: Error, bits: seq<bv8>)
      requires d.Valid() && |requiredBitSet| == 2 && Represents(requiredBitSet, marks)
      requires Find(CREATE_VERSION_FIELDS, k) == Find(CREATE_VERSION_FIELDS, k, 3)
      modifies this, d
      ensures d.Valid() && |bits| == 2 &&
          Represents(bits, Mark(CREATE_VERSION_FIELDS, marks, Find(CREATE_VERSION_FIELDS, k)))
      ensures MemberRead(CREATE_VERSION_FIELDS, CreateApplicationVersionVal(old(s)), k, old(d.Rest()), err,
          CreateApplicationVersionVal(s), d.Rest())
    {
      ghost var f, prior := CREATE_VERSION_FIELDS, CreateApplicationVersionVal(s);
      bits := requiredBitSet;
      ghost var t := d.Rest();
      if k == "fixedScale" {
        var v;
        v, err := DecodeOptInt32(d, VOpt(s.fixedScale.isSet, VInt(s.fixedScale.value)));
        s := s.(fixedScale := v);
        assert CreateApplicationVersionVal(s).vals ==
            prior.vals[3 := VOpt(s.fixedScale.isSet, VInt(s.fixedScale.value))];
        FieldRead(f, prior, k, 3, t, err, VOpt(s.fixedScale.isSet, VInt(s.fixedScale.value)),
            CreateApplicationVersionVal(s), d.Rest());
      } else if k == "minScale" {
        var v;
        v, err := DecodeOptInt32(d, VOpt(s.minScale.isSet, VInt(s.minScale.value)));
        s := s.(minScale := v);
        assert CreateApplicationVersionVal(s).vals ==
            prior.vals[4 := VOpt(s.minScale.isSet, VInt(s.minScale.value))];
        FieldRead(f, prior, k, 4, t, err, VOpt(s.minScale.isSet, VInt(s.minScale.value)),
            CreateApplicationVersionVal(s), d.Rest());
      } else {
        err, bits := DecodeFieldFrom5(d, k, requiredBitSet, marks);
      }
    }

    /** The key switch from case 5 on. */
    method DecodeFieldFrom5(d: Decoder, k: string, requiredBitSet: seq<bv8>, ghost marks: set<nat>)
      returns (err: Error, bits: seq<bv8>)
      requires d.Valid() && |requiredBitSet| == 2 && Represents(requiredBitSet, marks)
      requires Find(CREATE_VERSION_FIELDS, k) == Find(CREATE_VERSION_FIELDS, k, 5)
      modifies this, d
      ensures d.Valid() && |bits| == 2 &&
          Represents(bits, Mark(CREATE_VERSION_FIELDS, marks, Find(CREATE_VERSION_FIELDS, k)))
      ensures MemberRead(CREATE_VERSION_FIELDS, CreateApplicationVersionVal(old(s)), k, old(d.Rest()), err,
          CreateApplicationVersionVal(s), d.Rest())
    {
      ghost var f, prior := CREATE_VERSION_FIELDS, CreateApplicationVersionVal(s);
      bits := requiredBitSet;
      ghost var t := d.Rest();
      if k == "maxScale" {
        var v;
        v, err := DecodeOptInt32(d, VOpt(s.maxScale.isSet, VInt(s.maxScale.value)));
        s := s.(maxScale := v);
        assert CreateApplicationVersionVal(s).vals ==
            prior.vals[5 := VOpt(s.maxScale.isSet, VInt(s.maxScale.value))];
        FieldRead(f, prior, k, 5, t, err, VOpt(s.maxScale.isSet, VInt(s.maxScale.value)),
            CreateApplicationVersionVal(s), d.Rest());
      } else if k == "scaleInThreshold" {
        var v;
        v, err := DecodeOptInt32(d, VOpt(s.scaleInThreshold.isSet, VInt(s.scaleInThreshold.value)));
        s := s.(scaleInThreshold := v);
        assert CreateApplicationVersionVal(s).vals ==
            prior.vals[6 := VOpt(s.scaleInThreshold.isSet, VInt(s.scaleInThreshold.value))];
        FieldRead(f, prior, k, 6, t, err, VOpt(s.scaleInThreshold.isSet, VInt(s.scaleInThreshold.value)),
            CreateApplicationVersionVal(s), d.Rest());
      } else {
        err, bits := DecodeFieldFrom7(d, k, requiredBitSet, marks);
      }
    }

    /** The key switch from case 7 on. */
    method DecodeFieldFrom7(d: Decoder, k: string, requiredBitSet: seq<bv8>, ghost marks: set<nat>)
      returns (err: Error, bits: seq<bv8>)
      requires d.Valid() && |requiredBitSet| == 2 && Represents(requiredBitSet, marks)
      requires Find(CREATE_VERSION_FIELDS, k) == Find(CREATE_VERSION_FIELDS, k, 7)
      modifies this, d
      ensures d.Valid() && |bits| == 2 &&
          Represents(bits, Mark(CREATE_VERSION_FIELDS, marks, Find(CREATE_VERSION_FIELDS, k)))
      ensures MemberRead(CREATE_VERSION_FIELDS, CreateApplicationVersionVal(old(s)), k, old(d.Rest()), err,
          CreateApplicationVersionVal(s), d.Rest())
    {
      ghost var f, prior := CREATE_VERSION_FIELDS, CreateApplicationVersionVal(s);
      bits := requiredBitSet;
      ghost var t := d.Rest();
      if k == "scaleOutThreshold" {
        var v;
        v, err := DecodeOptInt32(d, VOpt(s.scaleOutThreshold.isSet, VInt(s.scaleOutThreshold.value)));
        s := s.(scaleOutThreshold := v);
        assert CreateApplicationVersionVal(s).vals ==
            prior.vals[7 := VOpt(s.scaleOutThreshold.isSet, VInt(s.scaleOutThreshold.value))];
        FieldRead(f, prior, k, 7, t, err, VOpt(s.scaleOutThreshold.isSet, VInt(s.scaleOutThreshold.value)),
            CreateApplicationVersionVal(s), d.Rest());
      } else if k == "image" {
        bits := SetRequired(bits, 1, 0, f, marks);
        var v;
        v, err := d.Str(VStr(s.image));
        s := s.(image := v);
        assert CreateApplicationVersionVal(s).vals == prior.vals[8 := VStr(s.image)];
        FieldRead(f, prior, k, 8, t, err, VStr(s.image), CreateApplicationVersionVal(s), d.Rest());
      } else {
        err, bits := DecodeFieldFrom9(d, k, requiredBitSet, marks);
      }
    }

    /** The key switch from case 9 on. */
    method DecodeFieldFrom9(d: Decoder, k: string, requiredBitSet: seq<bv8>, ghost marks: set<nat>)
      returns (err: Error, bits: seq<bv8>)
      requires d.Valid() && |requiredBitSet| == 2 && Represents(requiredBitSet, marks)
      requires Find(CREATE_VERSION_FIELDS, k) == Find(CREATE_VERSION_FIELDS, k, 9)
      modifies this, d
      ensures d.Valid() && |bits| == 2 &&
          Represents(bits, Mark(CREATE_VERSION_FIELDS, marks, Find(CREATE_VERSION_FIELDS, k)))
      ensures MemberRead(CREATE_VERSION_FIELDS, CreateApplicationVersionVal(old(s)), k, old(d.Rest()), err,
          CreateApplicationVersionVal(s), d.Rest())
    {
      ghost var f, prior := CREATE_VERSION_FIELDS, CreateApplicationVersionVal(s);
      bits := requiredBitSet;
      ghost var t := d.Rest();
      if k == "cmd" {
        var v;
        v, err := DecodeStrings(d, StringsVal(s.cmd));
        s := s.(cmd := v);
        assert CreateApplicationVersionVal(s).vals == prior.vals[9 := StringsVal(s.cmd)];
        FieldRead(f, prior, k, 9, t, err, StringsVal(s.cmd), CreateApplicationVersionVal(s), d.Rest());
      } else {
        err, bits := DecodeFieldFrom10(d, k, requiredBitSet, marks);
      }
    }

    /** The key switch from case 10 on. */
    method DecodeFieldFrom10(d: Decoder, k: string, requiredBitSet: seq<bv8>, ghost marks: set<nat>)
      returns (err: Error, bits: seq<bv8>)
      requires d.Valid() && |requiredBitSet| == 2 && Represents(requiredBitSet, marks)
      requires Find(CREATE_VERSION_FIELDS, k) == Find(CREATE_VERSION_FIELDS, k, 10)
      modifies this, d
      ensures d.Valid() && |bits| == 2 &&
          Represents(bits, Mark(CREATE_VERSION_FIELDS, marks, Find(CREATE_VERSION_FIELDS, k)))
      ensures MemberRead(CREATE_VERSION_FIELDS, CreateApplicationVersionVal(old(s)), k, old(d.Rest()), err,
          CreateApplicationVersionVal(s), d.Rest())
    {
      ghost var f, prior := CREATE_VERSION_FIELDS, CreateApplicationVersionVal(s);
      bits := requiredBitSet;
      ghost var t := d.Rest();
      if k == "registryUsername" {
        bits := SetRequired(bits, 1, 2, f, marks);
        var v;
        v, err := DecodeNilString(d, VNil(s.registryUsername.isNull, VStr(s.registryUsername.value)));
        s := s.(registryUsername := v);
        assert CreateApplicationVersionVal(s).vals ==
            prior.vals[10 := VNil(s.registryUsername.isNull, VStr(s.registryUsername.value))];
        FieldRead(f, prior, k, 10, t, err, VNil(s.registryUsername.isNull, VStr(s.registryUsername.value)),
            CreateApplicationVersionVal(s), d.Rest());
      } else if k == "registryPassword" {
        bits := SetRequired(bits, 1, 3, f, marks);
        var v;
        v, err := DecodeNilString(d, VNil(s.registryPassword.isNull, VStr(s.registryPassword.value)));
        s := s.(registryPassword := v);
        assert CreateApplicationVersionVal(s).vals ==
            prior.vals[11 := VNil(s.registryPassword.isNull, VStr(s.registryPassword.value))];
        FieldRead(f, prior, k, 11, t, err, VNil(s.registryPassword.isNull, VStr(s.registryPassword.value)),
            CreateApplicationVersionVal(s), d.Rest());
      } else {
        err, bits := DecodeFieldFrom12(d, k, requiredBitSet, marks);
      }
    }

    /** The key switch from case 12 on. */
    method DecodeFieldFrom12(d: Decoder, k: string, requiredBitSet: seq<bv8>, ghost marks: set<nat>)
      returns (err: Error, bits: seq<bv8>)
      requires d.Valid() && |requiredBitSet| == 2 && Represents(requiredBitSet, marks)
      requires Find(CREATE_VERSION_FIELDS, k) == Find(CREATE_VERSION_FIELDS, k, 12)
      modifies this, d
      ensures d.Valid() && |bits| == 2 &&
          Represents(bits, Mark(CREATE_VERSION_FIELDS, marks, Find(CREATE_VERSION_FIELDS, k)))
      ensures MemberRead(CREATE_VERSION_FIELDS, CreateApplicationVersionVal(old(s)), k, old(d.Rest()), err,
          CreateApplicationVersionVal(s), d.Rest())
    {
      ghost var f, prior := CREATE_VERSION_FIELDS, CreateApplicationVersionVal(s);
      bits := requiredBitSet;
      ghost var t := d.Rest();
      if k == "registryPasswordAction" {
        bits := SetRequired(bits, 1, 4, f, marks);
        var v;
        v, err := d.Str(VStr(s.registryPasswordAction));
        s := s.(registryPasswordAction := v);
        assert CreateApplicationVersionVal(s).vals == prior.vals[12 := VStr(s.registryPasswordAction)];
        FieldRead(f, prior, k, 12, t, err, VStr(s.registryPasswordAction), CreateApplicationVersionVal(s),
            d.Rest());
      } else {
        err, bits := DecodeFieldFrom13(d, k, requiredBitSet, marks);
      }
    }

    /** The key switch from case 13 on. */
    method DecodeFieldFrom13(d: Decoder, k: string, requiredBitSet: seq<bv8>, ghost marks: set<nat>)
      returns (err: Error, bits: seq<bv8>)
      requires d.Valid() && |requiredBitSet| == 2 && Represents(requiredBitSet, marks)
      requires Find(CREATE_VERSION_FIELDS, k) == Find(CREATE_VERSION_FIELDS, k, 13)
      modifies this, d
      ensures d.Valid() && |bits| == 2 &&
          Represents(bits, Mark(CREATE_VERSION_FIELDS, marks, Find(CREATE_VERSION_FIELDS, k)))
      ensures MemberRead(CREATE_VERSION_FIELDS, CreateApplicationVersionVal(old(s)), k, old(d.Rest()), err,
          CreateApplicationVersionVal(s), d.Rest())
    {
      ghost var f, prior := CREATE_VERSION_FIELDS, CreateApplicationVersionVal(s);
      bits := requiredBitSet;
      ghost var t := d.Rest();
      if k == "exposedPorts" {
        bits := SetRequired(bits, 1, 5, f, marks);
        var v;
        v, err := DecodeExposedPorts(d, ExposedPortsVal(s.exposedPorts));
        s := s.(exposedPorts := v);
        assert CreateApplicationVersionVal(s).vals == prior.vals[13 := ExposedPortsVal(s.exposedPorts)];
        FieldRead(f, prior, k, 13, t, err, ExposedPortsVal(s.exposedPorts), CreateApplicationVersionVal(s),
            d.Rest());
      } else {
        err, bits := DecodeFieldFrom14(d, k, requiredBitSet, marks);
      }
    }

    /** The key switch from case 14 on. */
    method DecodeFieldFrom14(d: Decoder, k: string, requiredBitSet: seq<bv8>, ghost marks: set<nat>)
      returns (err: Error, bits: seq<bv8>)
      requires d.Valid() && |requiredBitSet| == 2 && Represents(requiredBitSet, marks)
      requires Find(CREATE_VERSION_FIELDS, k) == Find(CREATE_VERSION_FIELDS, k, 14)
      modifies this, d
      ensures d.Valid() && |bits| == 2 &&
          Represents(bits, Mark(CREATE_VERSION_FIELDS, marks, Find(CREATE_VERSION_FIELDS, k)))
      ensures MemberRead(CREATE_VERSION_FIELDS, CreateApplicationVersionVal(old(s)), k, old(d.Rest()), err,
          CreateApplicationVersionVal(s), d.Rest())
    {
      ghost var f, prior := CREATE_VERSION_FIELDS, CreateApplicationVersionVal(s);
      bits := requiredBitSet;
      ghost var t := d.Rest();
      if k == "env" {
        bits := SetRequired(bits, 1, 6, f, marks);
        var v;
        v, err := DecodeCreateEnvironmentVariables(d, CreateEnvironmentVariablesVal(s.env));
        s := s.(env := v);
        assert CreateApplicationVersionVal(s).vals == prior.vals[14 := CreateEnvironmentVariablesVal(s.env)];
        FieldRead(f, prior, k, 14, t, err, CreateEnvironmentVariablesVal(s.env), CreateApplicationVersionVal(s),
            d.Rest());
      } else {
        var r := d.Skip();
        err := if r == Skipped then NoError else Invalid;
      }
    }

    method Decode(d: Decoder) returns (err: Error)
      requires d.Valid()
      modifies this, d
      ensures d.Valid()
      ensures Reads(KObj(CREATE_VERSION_FIELDS), CreateApplicationVersionVal(old(s)), old(d.Rest()), err,
          CreateApplicationVersionVal(s), d.Rest())
    {
      var f := CREATE_VERSION_FIELDS;
      var requiredBitSet := ZeroBits(2);
      ghost var result := DecodeAt(KObj(f), CreateApplicationVersionVal(s), d.Rest());
      ghost var seen, marks: set<nat> := [], {};
      Opening(f, CreateApplicationVersionVal(s), d.Rest());
      assert CreateApplicationVersionVal(s).vals == Preset(f, CreateApplicationVersionVal(s).vals);
      if !d.At(ObjStart) {
        return Invalid;
      }
      d.Advance();
      while true
        invariant d.Valid() && |requiredBitSet| == 2 && Represents(requiredBitSet, marks)
        invariant Looping(f, result, CreateApplicationVersionVal(s).vals, seen, marks, d.Rest())
        decreases |d.Rest()|
      {
        ghost var t, vals := d.Rest(), CreateApplicationVersionVal(s).vals;
        Closing(f, result, vals, seen, marks, t);
        var more, k;
        more, k, err := d.NextKey();
        if err != NoError {
          return Invalid;
        }
        if !more {
          break;
        }
        NextMember(f, result, vals, seen, marks, t);
        err, requiredBitSet := DecodeField(d, k, requiredBitSet, marks);
        if err != NoError {
          return Invalid;
        }
        seen, marks := seen + [Member(k, Parse(t[1..]).value)], Mark(f, marks, Find(f, k));
      }
      CreateVersionMask();
      err := CheckRequired(f, requiredBitSet, CREATE_VERSION_MASKS, seen);
    }
  }

  lemma ZeroCreateApplicationVersionVal()
    ensures CreateApplicationVersionVal(ZERO_CREATE_APPLICATION_VERSION) == Zero(KObj(CREATE_VERSION_FIELDS))
  {
    assert CreateApplicationVersionVal(ZERO_CREATE_APPLICATION_VERSION).vals ==
        Zero(KObj(CREATE_VERSION_FIELDS)).vals;
  }
}
