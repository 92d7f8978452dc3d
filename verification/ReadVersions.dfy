/** `ReadApplicationVersionDetail`: three bytes of required bits. */
module ReadVersions {
  import opened Json
  import opened Schema
  import opened RequiredFields
  import opened Jx
  import opened Kinds
  import opened Wrappers
  import opened Versions

  // ---------- ReadEnvironmentVariable ----------

  datatype ReadEnvironmentVariable = ReadEnvironmentVariable(
    key: string, value: NilOf<string>, secret: bool)

  const ZERO_READ_ENVIRONMENT_VARIABLE := ReadEnvironmentVariable("", NilOf("", false), false)

  /** The value of field `i`, in the order of `READ_ENV_FIELDS`. */
  function ReadEnvironmentVariableAt(s: ReadEnvironmentVariable, i: nat): Val
    requires i < 3
  {
    if i == 0 then VStr(s.key)
    else if i == 1 then VNil(s.value.isNull, VStr(s.value.value))
    else VBool(s.secret)
  }

  function ReadEnvironmentVariableVal(s: ReadEnvironmentVariable): Val {
    VObj(seq(3, i requires 0 <= i < 3 => ReadEnvironmentVariableAt(s, i)))
  }

  lemma ReadEnvironmentVariableFits(s: ReadEnvironmentVariable)
    ensures Fits(KObj(READ_ENV_FIELDS), ReadEnvironmentVariableVal(s))
  {
    forall i | 0 <= i < 3 ensures Fits(READ_ENV_FIELDS[i].kind, ReadEnvironmentVariableAt(s, i)) {
    }
  }

  /** The mask literals at the end of `Decode`: exactly the required fields. */
  const READ_ENV_MASKS: seq<bv8> := [0x07]  // 0b00000111

  lemma ReadEnvMask()
    ensures Represents(READ_ENV_MASKS, RequiredOf(READ_ENV_FIELDS))
  {
  }

  /** A `*ReadEnvironmentVariable`: the struct its methods update. */
  class ReadEnvironmentVariableRef {
    var s: ReadEnvironmentVariable

    constructor (s: ReadEnvironmentVariable)
      ensures this.s == s
    {
      this.s := s;
    }

    method Encode(e: Encoder)
      modifies e
      ensures e.tokens == Schema.Encode(old(e.tokens), KObj(READ_ENV_FIELDS), ReadEnvironmentVariableVal(s))
    {
      ghost var acc := e.tokens + [ObjStart];
      e.Put(ObjStart);
      EncodeFields(e, acc);
      e.Put(ObjEnd);
    }

    /** `encodeFields`. */
    method EncodeFields(e: Encoder, ghost acc: seq<Token>)
      requires e.tokens == Schema.EncodeFields(acc, KObj(READ_ENV_FIELDS), ReadEnvironmentVariableVal(s).vals, 0)
      modifies e
      ensures e.tokens == Schema.EncodeFields(acc, KObj(READ_ENV_FIELDS), ReadEnvironmentVariableVal(s).vals, 3)
    {
      e.Put(Key("key"));
      e.Put(Str(s.key));
      assert e.tokens == Schema.EncodeFields(acc, KObj(READ_ENV_FIELDS), ReadEnvironmentVariableVal(s).vals, 1);
      e.Put(Key("value"));
      EncodeNilString(e, s.value);
      assert e.tokens == Schema.EncodeFields(acc, KObj(READ_ENV_FIELDS), ReadEnvironmentVariableVal(s).vals, 2);
      e.Put(Key("secret"));
      e.Put(Bool(s.secret));
    }

    /** The `ObjBytes` callback: the field the key selects is decoded, a required one's bit set. */
    method DecodeField(d: Decoder, k: string, requiredBitSet: seq<bv8>, ghost marks: set<nat>)
      returns (err: Error, bits: seq<bv8>)
      requires d.Valid() && |requiredBitSet| == 1 && Represents(requiredBitSet, marks)
      modifies this, d
      ensures d.Valid() && |bits| == 1 && Represents(bits, Mark(READ_ENV_FIELDS, marks, Find(READ_ENV_FIELDS, k)))
      ensures MemberRead(READ_ENV_FIELDS, ReadEnvironmentVariableVal(old(s)), k, old(d.Rest()), err,
          ReadEnvironmentVariableVal(s), d.Rest())
    {
      ghost var f, prior := READ_ENV_FIELDS, ReadEnvironmentVariableVal(s);
      bits := requiredBitSet;
      ghost var t := d.Rest();
      if k == "key" {
        bits := SetRequired(bits, 0, 0, f, marks);
        var v;
        v, err := d.Str(VStr(s.key));
        s := s.(key := v);
        assert ReadEnvironmentVariableVal(s).vals == prior.vals[0 := VStr(s.key)];
        FieldRead(f, prior, k, 0, t, err, VStr(s.key), ReadEnvironmentVariableVal(s), d.Rest());
      } else if k == "value" {
        bits := SetRequired(bits, 0, 1, f, marks);
        var v;
        v, err := DecodeNilString(d, VNil(s.value.isNull, VStr(s.value.value)));
        s := s.(value := v);
        assert ReadEnvironmentVariableVal(s).vals == prior.vals[1 := VNil(s.value.isNull, VStr(s.value.value))];
        FieldRead(f, prior, k, 1, t, err, VNil(s.value.isNull, VStr(s.value.value)), ReadEnvironmentVariableVal(s),
            d.Rest());
      } else if k == "secret" {
        bits := SetRequired(bits, 0, 2, f, marks);
        var v;
        v, err := d.Bool(VBool(s.secret));
        s := s.(secret := v);
        assert ReadEnvironmentVariableVal(s).vals == prior.vals[2 := VBool(s.secret)];
        FieldRead(f, prior, k, 2, t, err, VBool(s.secret), ReadEnvironmentVariableVal(s), d.Rest());
      } else {
        var r := d.Skip();
        err := if r == Skipped then NoError else Invalid;
      }
    }

    method Decode(d: Decoder) returns (err: Error)
      requires d.Valid()
      modifies this, d
      ensures d.Valid()
      ensures Reads(KObj(READ_ENV_FIELDS), ReadEnvironmentVariableVal(old(s)), old(d.Rest()), err,
          ReadEnvironmentVariableVal(s), d.Rest())
    {
      var f := READ_ENV_FIELDS;
      var requiredBitSet := ZeroBits(1);
      ghost var result := DecodeAt(KObj(f), ReadEnvironmentVariableVal(s), d.Rest());
      ghost var seen, marks: set<nat> := [], {};
      Opening(f, ReadEnvironmentVariableVal(s), d.Rest());
      assert ReadEnvironmentVariableVal(s).vals == Preset(f, ReadEnvironmentVariableVal(s).vals);
      if !d.At(ObjStart) {
        return Invalid;
      }
      d.Advance();
      while true
        invariant d.Valid() && |requiredBitSet| == 1 && Represents(requiredBitSet, marks)
        invariant Looping(f, result, ReadEnvironmentVariableVal(s).vals, seen, marks, d.Rest())
        decreases |d.Rest()|
      {
        ghost var t, vals := d.Rest(), ReadEnvironmentVariableVal(s).vals;
        Closing(f, result, vals, seen, marks, t);
        var more, k;
        more, k, err := d.NextKey();
        if err != NoError {
          return Invalid;
        }
        if !more {
          break;
        }
        NextMember(f, result, vals, seen, marks, t);
        err, requiredBitSet := DecodeField(d, k, requiredBitSet, marks);
        if err != NoError {
          return Invalid;
        }
        seen, marks := seen + [Member(k, Parse(t[1..]).value)], Mark(f, marks, Find(f, k));
      }
      ReadEnvMask();
      err := CheckRequired(f, requiredBitSet, READ_ENV_MASKS, seen);
    }
  }

  function ReadEnvironmentVariablesVal(s: Slice<ReadEnvironmentVariable>): Val {
    if s.NilSlice? then VNilSlice else VSlice(seq(|s.elems|,
        i requires 0 <= i < |s.elems| => ReadEnvironmentVariableVal(s.elems[i])))
  }

  lemma ReadEnvironmentVariablesFits(s: Slice<ReadEnvironmentVariable>)
    ensures Fits(KArr(KObj(READ_ENV_FIELDS)), ReadEnvironmentVariablesVal(s))
  {
    forall x: ReadEnvironmentVariable ensures Fits(KObj(READ_ENV_FIELDS), ReadEnvironmentVariableVal(x)) {
      ReadEnvironmentVariableFits(x);
    }
  }

  /** The `Arr` loop of a `[]ReadEnvironmentVariable`: every element is decoded into a fresh one. */
  method DecodeReadEnvironmentVariables(d: Decoder,
      ghost prior: Val) returns (slice: Slice<ReadEnvironmentVariable>, err: Error)
    requires d.Valid()
    modifies d
    ensures d.Valid() && Reads(KArr(KObj(READ_ENV_FIELDS)), prior, old(d.Rest()), err,
        ReadEnvironmentVariablesVal(slice), d.Rest())
  {
    slice := SliceOf([]);
    ghost var k, result := KObj(READ_ENV_FIELDS), DecodeAt(KArr(KObj(READ_ENV_FIELDS)), prior, d.Rest());
    ElemsOpening(k, prior, d.Rest());
    assert ReadEnvironmentVariablesVal(slice).elems == [];
    ZeroReadEnvironmentVariableVal();
    if !d.At(ArrStart) {
      return slice, Invalid;
    }
    d.Advance();
    while !d.At(ArrEnd)
      invariant d.Valid() && slice.SliceOf?
      invariant result == RemainingElems(k, ReadEnvironmentVariablesVal(slice).elems, d.Rest())
      decreases |d.Rest()|
    {
      ghost var read := ReadEnvironmentVariablesVal(slice).elems;
      ElemsNext(k, read, d.Rest());
      var elem := new ReadEnvironmentVariableRef(ZERO_READ_ENVIRONMENT_VARIABLE);
      err := elem.Decode(d);
      if err != NoError {
        return slice, Invalid;
      }
      slice := SliceOf(slice.elems + [elem.s]);
      assert ReadEnvironmentVariablesVal(slice).elems == read + [ReadEnvironmentVariableVal(elem.s)];
    }
    ElemsClosing(k, ReadEnvironmentVariablesVal(slice).elems, d.Rest());
    d.Advance();
    err := NoError;
  }

  method EncodeReadEnvironmentVariables(e: Encoder, slice: Slice<ReadEnvironmentVariable>)
    modifies e
    ensures e.tokens == Encode(old(e.tokens), KArr(KObj(READ_ENV_FIELDS)), ReadEnvironmentVariablesVal(slice))
  {
    ghost var acc := e.tokens + [ArrStart];
    e.Put(ArrStart);
    var elems := if slice.SliceOf? then slice.elems else [];
    for i := 0 to |elems|
      invariant e.tokens == EncodeElems(acc, KObj(READ_ENV_FIELDS), Elems(ReadEnvironmentVariablesVal(slice)), i)
    {
      var elem := new ReadEnvironmentVariableRef(elems[i]);
      elem.Encode(e);
    }
    e.Put(ArrEnd);
  }

  lemma ZeroReadEnvironmentVariableVal()
    ensures ReadEnvironmentVariableVal(ZERO_READ_ENVIRONMENT_VARIABLE) == Zero(KObj(READ_ENV_FIELDS))
  {
    assert ReadEnvironmentVariableVal(ZERO_READ_ENVIRONMENT_VARIABLE).vals == Zero(KObj(READ_ENV_FIELDS)).vals;
  }

  // ---------- ReadApplicationVersionDetail ----------

  datatype ReadApplicationVersionDetail = ReadApplicationVersionDetail(
    version: int32, cpu: int64, memory: int64, scalingMode: string, fixedScale: OptOf<int32>,
    minScale: OptOf<int32>, maxScale: OptOf<int32>, scaleInThreshold: OptOf<int32>,
    scaleOutThreshold: OptOf<int32>, image: string, cmd: Slice<string>,
    registryUsername: NilOf<string>, registryPassword: NilOf<string>, activeNodeCount: int64,
    created: int64, exposedPorts: Slice<ExposedPort>, env: Slice<ReadEnvironmentVariable>)

  const ZERO_READ_APPLICATION_VERSION_DETAIL := ReadApplicationVersionDetail(0, 0, 0, "", OptOf(0, false),
      OptOf(0, false), OptOf(0, false), OptOf(0, false), OptOf(0, false), "", NilSlice, NilOf("", false),
          NilOf("", false), 0, 0, NilSlice, NilSlice)

  /** The value of field `i`, in the order of `READ_VERSION_FIELDS`. */
  function ReadApplicationVersionDetailAt(s: ReadApplicationVersionDetail, i: nat): Val
    requires i < 17
  {
    if i == 0 then VInt(s.version)
    else if i == 1 then VInt(s.cpu)
    else if i == 2 then VInt(s.memory)
    else if i == 3 then VStr(s.scalingMode)
    else if i == 4 then VOpt(s.fixedScale.isSet, VInt(s.fixedScale.value))
    else if i == 5 then VOpt(s.minScale.isSet, VInt(s.minScale.value))
    else if i == 6 then VOpt(s.maxScale.isSet, VInt(s.maxScale.value))
    else if i == 7 then VOpt(s.scaleInThreshold.isSet, VInt(s.scaleInThreshold.value))
    else if i == 8 then VOpt(s.scaleOutThreshold.isSet, VInt(s.scaleOutThreshold.value))
    else if i == 9 then VStr(s.image)
    else if i == 10 then StringsVal(s.cmd)
    else if i == 11 then VNil(s.registryUsername.isNull, VStr(s.registryUsername.value))
    else if i == 12 then VNil(s.registryPassword.isNull, VStr(s.registryPassword.value))
    else if i == 13 then VInt(s.activeNodeCount)
    else if i == 14 then VInt(s.created)
    else if i == 15 then ExposedPortsVal(s.exposedPorts)
    else ReadEnvironmentVariablesVal(s.env)
  }

  function ReadApplicationVersionDetailVal(s: ReadApplicationVersionDetail): Val {
    VObj(seq(17, i requires 0 <= i < 17 => ReadApplicationVersionDetailAt(s, i)))
  }

  lemma ReadApplicationVersionDetailFitsFrom0(s: ReadApplicationVersionDetail, i: nat)
    requires 0 <= i < 6
    ensures Fits(READ_VERSION_FIELDS[i].kind, ReadApplicationVersionDetailAt(s, i))
  {
  }

  lemma ReadApplicationVersionDetailFitsFrom6(s: ReadApplicationVersionDetail, i: nat)
    requires 6 <= i < 12
    ensures Fits(READ_VERSION_FIELDS[i].kind, ReadApplicationVersionDetailAt(s, i))
  {
  }

  lemma ReadApplicationVersionDetailFitsFrom12(s: ReadApplicationVersionDetail, i: nat)
    requires 12 <= i < 17
    ensures Fits(READ_VERSION_FIELDS[i].kind, ReadApplicationVersionDetailAt(s, i))
  {
    ExposedPortsFits(s.exposedPorts);
    ReadEnvironmentVariablesFits(s.env);
  }

  lemma ReadApplicationVersionDetailFits(s: ReadApplicationVersionDetail)
    ensures Fits(KObj(READ_VERSION_FIELDS), ReadApplicationVersionDetailVal(s))
  {
    forall i | 0 <= i < 17 ensures Fits(READ_VERSION_FIELDS[i].kind, ReadApplicationVersionDetailAt(s, i)) {
      if i < 6 {
        ReadApplicationVersionDetailFitsFrom0(s, i);
      } else if i < 12 {
        ReadApplicationVersionDetailFitsFrom6(s, i);
      } else {
        ReadApplicationVersionDetailFitsFrom12(s, i);
      }
    }
  }

  /** The mask literals at the end of `Decode`: exactly the required fields. */
  const READ_VERSION_MASKS: seq<bv8> := [0x0F, 0xFA, 0x01]  // 0b00001111, 0b11111010, 0b00000001

  lemma ReadVersionMask()
    ensures Represents(READ_VERSION_MASKS, RequiredOf(READ_VERSION_FIELDS))
  {
  }

  /** A `*ReadApplicationVersionDetail`: the struct its methods update. */
  class ReadApplicationVersionDetailRef {
    var s: ReadApplicationVersionDetail

    constructor (s: ReadApplicationVersionDetail)
      ensures this.s == s
    {
      this.s := s;
    }

    method Encode(e: Encoder)
      modifies e
      ensures e.tokens == Schema.Encode(old(e.tokens), KObj(READ_VERSION_FIELDS),
          ReadApplicationVersionDetailVal(s))
    {
      ghost var acc := e.tokens + [ObjStart];
      e.Put(ObjStart);
      EncodeFields(e, acc);
      e.Put(ObjEnd);
    }

    /** `encodeFields`. */
    method EncodeFields(e: Encoder, ghost acc: seq<Token>)
      requires e.tokens == Schema.EncodeFields(acc, KObj(READ_VERSION_FIELDS),
          ReadApplicationVersionDetailVal(s).vals, 0)
      modifies e
      ensures e.tokens == Schema.EncodeFields(acc, KObj(READ_VERSION_FIELDS),
          ReadApplicationVersionDetailVal(s).vals, 17)
    {
      e.Put(Key("version"));
      e.Put(Int(s.version));
      assert e.tokens == Schema.EncodeFields(acc, KObj(READ_VERSION_FIELDS),
          ReadApplicationVersionDetailVal(s).vals, 1);
      e.Put(Key("cpu"));
      e.Put(Int(s.cpu));
      assert e.tokens == Schema.EncodeFields(acc, KObj(READ_VERSION_FIELDS),
          ReadApplicationVersionDetailVal(s).vals, 2);
      e.Put(Key("memory"));
      e.Put(Int(s.memory));
      assert e.tokens == Schema.EncodeFields(acc, KObj(READ_VERSION_FIELDS),
          ReadApplicationVersionDetailVal(s).vals, 3);
      EncodeFieldsFrom3(e, acc);
    }

    /** `encodeFields` from field 3 on. */
    method EncodeFieldsFrom3(e: Encoder, ghost acc: seq<Token>)
      requires e.tokens == Schema.EncodeFields(acc, KObj(READ_VERSION_FIELDS),
          ReadApplicationVersionDetailVal(s).vals, 3)
      modifies e
      ensures e.tokens == Schema.EncodeFields(acc, KObj(READ_VERSION_FIELDS),
          ReadApplicationVersionDetailVal(s).vals, 17)
    {
      e.Put(Key("scalingMode"));
      e.Put(Str(s.scalingMode));
      assert e.tokens == Schema.EncodeFields(acc, KObj(READ_VERSION_FIELDS),
          ReadApplicationVersionDetailVal(s).vals, 4);
      if s.fixedScale.isSet {
        e.Put(Key("fixedScale"));
        EncodeOptInt32(e, s.fixedScale);
      }
      assert e.tokens == Schema.EncodeFields(acc, KObj(READ_VERSION_FIELDS),
          ReadApplicationVersionDetailVal(s).vals, 5);
      if s.minScale.isSet {
        e.Put(Key("minScale"));
        EncodeOptInt32(e, s.minScale);
      }
      assert e.tokens == Schema.EncodeFields(acc, KObj(READ_VERSION_FIELDS),
          ReadApplicationVersionDetailVal(s).vals, 6);
      EncodeFieldsFrom6(e, acc);
    }

    /** `encodeFields` from field 6 on. */
    method EncodeFieldsFrom6(e: Encoder, ghost acc: seq<Token>)
      requires e.tokens == Schema.EncodeFields(acc, KObj(READ_VERSION_FIELDS),
          ReadApplicationVersionDetailVal(s).vals, 6)
      modifies e
      ensures e.tokens == Schema.EncodeFields(acc, KObj(READ_VERSION_FIELDS),
          ReadApplicationVersionDetailVal(s).vals, 17)
    {
      if s.maxScale.isSet {
        e.Put(Key("maxScale"));
        EncodeOptInt32(e, s.maxScale);
      }
      assert e.tokens == Schema.EncodeFields(acc, KObj(READ_VERSION_FIELDS),
          ReadApplicationVersionDetailVal(s).vals, 7);
      if s.scaleInThreshold.isSet {
        e.Put(Key("scaleInThreshold"));
        EncodeOptInt32(e, s.scaleInThreshold);
      }
      assert e.tokens == Schema.EncodeFields(acc, KObj(READ_VERSION_FIELDS),
          ReadApplicationVersionDetailVal(s).vals, 8);
      EncodeFieldsFrom8(e, acc);
    }

    /** `encodeFields` from field 8 on. */
    method EncodeFieldsFrom8(e: Encoder, ghost acc: seq<Token>)
      requires e.tokens == Schema.EncodeFields(acc, KObj(READ_VERSION_FIELDS),
          ReadApplicationVersionDetailVal(s).vals, 8)
      modifies e
      ensures e.tokens == Schema.EncodeFields(acc, KObj(READ_VERSION_FIELDS),
          ReadApplicationVersionDetailVal(s).vals, 17)
    {
      if s.scaleOutThreshold.isSet {
        e.Put(Key("scaleOutThreshold"));
        EncodeOptInt32(e, s.scaleOutThreshold);
      }
      assert e.tokens == Schema.EncodeFields(acc, KObj(READ_VERSION_FIELDS),
          ReadApplicationVersionDetailVal(s).vals, 9);
      e.Put(Key("image"));
      e.Put(Str(s.image));
      assert e.tokens == Schema.EncodeFields(acc, KObj(READ_VERSION_FIELDS),
          ReadApplicationVersionDetailVal(s).vals, 10);
      if s.cmd != NilSlice {
        e.Put(Key("cmd"));
        EncodeStrings(e, s.cmd);
      }
      assert e.tokens == Schema.EncodeFields(acc, KObj(READ_VERSION_FIELDS),
          ReadApplicationVersionDetailVal(s).vals, 11);
      EncodeFieldsFrom11(e, acc);
    }

    /** `encodeFields` from field 11 on. */
    method EncodeFieldsFrom11(e: Encoder, ghost acc: seq<Token>)
      requires e.tokens == Schema.EncodeFields(acc, KObj(READ_VERSION_FIELDS),
          ReadApplicationVersionDetailVal(s).vals, 11)
      modifies e
      ensures e.tokens == Schema.EncodeFields(acc, KObj(READ_VERSION_FIELDS),
          ReadApplicationVersionDetailVal(s).vals, 17)
    {
      e.Put(Key("registryUsername"));
      EncodeNilString(e, s.registryUsername);
      assert e.tokens == Schema.EncodeFields(acc, KObj(READ_VERSION_FIELDS),
          ReadApplicationVersionDetailVal(s).vals, 12);
      e.Put(Key("registryPassword"));
      EncodeNilString(e, s.registryPassword);
      assert e.tokens == Schema.EncodeFields(acc, KObj(READ_VERSION_FIELDS),
          ReadApplicationVersionDetailVal(s).vals, 13);
      EncodeFieldsFrom13(e, acc);
    }

    /** `encodeFields` from field 13 on. */
    method EncodeFieldsFrom13(e: Encoder, ghost acc: seq<Token>)
      requires e.tokens == Schema.EncodeFields(acc, KObj(READ_VERSION_FIELDS),
          ReadApplicationVersionDetailVal(s).vals, 13)
      modifies e
      ensures e.tokens == Schema.EncodeFields(acc, KObj(READ_VERSION_FIELDS),
          ReadApplicationVersionDetailVal(s).vals, 17)
    {
      e.Put(Key("activeNodeCount"));
      e.Put(Int(s.activeNodeCount));
      assert e.tokens == Schema.EncodeFields(acc, KObj(READ_VERSION_FIELDS),
          ReadApplicationVersionDetailVal(s).vals, 14);
      e.Put(Key("created"));
      e.Put(Int(s.created));
      assert e.tokens == Schema.EncodeFields(acc, KObj(READ_VERSION_FIELDS),
          ReadApplicationVersionDetailVal(s).vals, 15);
      EncodeFieldsFrom15(e, acc);
    }

    /** `encodeFields` from field 15 on. */
    method EncodeFieldsFrom15(e: Encoder, ghost acc: seq<Token>)
      requires e.tokens == Schema.EncodeFields(acc, KObj(READ_VERSION_FIELDS),
          ReadApplicationVersionDetailVal(s).vals, 15)
      modifies e
      ensures e.tokens == Schema.EncodeFields(acc, KObj(READ_VERSION_FIELDS),
          ReadApplicationVersionDetailVal(s).vals, 17)
    {
      assert ReadApplicationVersionDetailVal(s).vals[15] == ReadApplicationVersionDetailAt(s, 15);
      e.Put(Key("exposedPorts"));
      EncodeExposedPorts(e, s.exposedPorts);
      assert e.tokens == Schema.EncodeFields(acc, KObj(READ_VERSION_FIELDS),
          ReadApplicationVersionDetailVal(s).vals, 16);
      EncodeFieldsFrom16(e, acc);
    }

    /** `encodeFields` from field 16 on. */
    method EncodeFieldsFrom16(e: Encoder, ghost acc: seq<Token>)
      requires e.tokens == Schema.EncodeFields(acc, KObj(READ_VERSION_FIELDS),
          ReadApplicationVersionDetailVal(s).vals, 16)
      modifies e
      ensures e.tokens == Schema.EncodeFields(acc, KObj(READ_VERSION_FIELDS),
          ReadApplicationVersionDetailVal(s).vals, 17)
    {
      assert ReadApplicationVersionDetailVal(s).vals[16] == ReadApplicationVersionDetailAt(s, 16);
      e.Put(Key("env"));
      EncodeReadEnvironmentVariables(e, s.env);
    }

    /** The `ObjBytes` callback: the field the key selects is decoded, a required one's bit set. */
    method DecodeField(d: Decoder, k: string, requiredBitSet: seq<bv8>, ghost marks: set<nat>)
      returns (err: Error, bits: seq<bv8>)
      requires d.Valid() && |requiredBitSet| == 3 && Represents(requiredBitSet, marks)
      modifies this, d
      ensures d.Valid() && |bits| == 3 &&
          Represents(bits, Mark(READ_VERSION_FIELDS, marks, Find(READ_VERSION_FIELDS, k)))
      ensures MemberRead(READ_VERSION_FIELDS, ReadApplicationVersionDetailVal(old(s)), k, old(d.Rest()), err,
          ReadApplicationVersionDetailVal(s), d.Rest())
    {
      ghost var f, prior := READ_VERSION_FIELDS, ReadApplicationVersionDetailVal(s);
      bits := requiredBitSet;
      ghost var t := d.Rest();
      if k == "version" {
        bits := SetRequired(bits, 0, 0, f, marks);
        var v;
        v, err := d.Int(-0x8000_0000, 0x7FFF_FFFF, VInt(s.version));
        s := s.(version := v);
        assert ReadApplicationVersionDetailVal(s).vals == prior.vals[0 := VInt(s.version)];
        FieldRead(f, prior, k, 0, t, err, VInt(s.version), ReadApplicationVersionDetailVal(s), d.Rest());
      } else if k == "cpu" {
        bits := SetRequired(bits, 0, 1, f, marks);
        var v;
        v, err := d.Int(-0x8000_0000_0000_0000, 0x7FFF_FFFF_FFFF_FFFF, VInt(s.cpu));
        s := s.(cpu := v);
        assert ReadApplicationVersionDetailVal(s).vals == prior.vals[1 := VInt(s.cpu)];
        FieldRead(f, prior, k, 1, t, err, VInt(s.cpu), ReadApplicationVersionDetailVal(s), d.Rest());
      } else if k == "memory" {
        bits := SetRequired(bits, 0, 2, f, marks);
        var v;
        v, err := d.Int(-0x8000_0000_0000_0000, 0x7FFF_FFFF_FFFF_FFFF, VInt(s.memory));
        s := s.(memory := v);
        assert ReadApplicationVersionDetailVal(s).vals == prior.vals[2 := VInt(s.memory)];
        FieldRead(f, prior, k, 2, t, err, VInt(s.memory), ReadApplicationVersionDetailVal(s), d.Rest());
      } else {
        err, bits := DecodeFieldFrom3(d, k, requiredBitSet, marks);
      }
    }

    /** The key switch from case 3 on. */
    method DecodeFieldFrom3(d: Decoder, k: string, requiredBitSet: seq<bv8>, ghost marks: set<nat>)
      returns (err: Error, bits: seq<bv8>)
      requires d.Valid() && |requiredBitSet| == 3 && Represents(requiredBitSet, marks)
      requires Find(READ_VERSION_FIELDS, k) == Find(READ_VERSION_FIELDS, k, 3)
      modifies this, d
      ensures d.Valid() && |bits| == 3 &&
          Represents(bits, Mark(READ_VERSION_FIELDS, marks, Find(READ_VERSION_FIELDS, k)))
      ensures MemberRead(READ_VERSION_FIELDS, ReadApplicationVersionDetailVal(old(s)), k, old(d.Rest()), err,
          ReadApplicationVersionDetailVal(s), d.Rest())
    {
      ghost var f, prior := READ_VERSION_FIELDS, ReadApplicationVersionDetailVal(s);
      bits := requiredBitSet;
      ghost var t := d.Rest();
      if k == "scalingMode" {
        bits := SetRequired(bits, 0, 3, f, marks);
        var v;
        v, err := d.Str(VStr(s.scalingMode));
        s := s.(scalingMode := v);
        assert ReadApplicationVersionDetailVal(s).vals == prior.vals[3 := VStr(s.scalingMode)];
        FieldRead(f, prior, k, 3, t, err, VStr(s.scalingMode), ReadApplicationVersionDetailVal(s), d.Rest());
      } else if k == "fixedScale" {
        var v;
        v, err := DecodeOptInt32(d, VOpt(s.fixedScale.isSet, VInt(s.fixedScale.value)));
        s := s.(fixedScale := v);
        assert ReadApplicationVersionDetailVal(s).vals ==
            prior.vals[4 := VOpt(s.fixedScale.isSet, VInt(s.fixedScale.value))];
        FieldRead(f, prior, k, 4, t, err, VOpt(s.fixedScale.isSet, VInt(s.fixedScale.value)),
            ReadApplicationVersionDetailVal(s), d.Rest());
      } else {
        err, bits := DecodeFieldFrom5(d, k, requiredBitSet, marks);
      }
    }

    /** The key switch from case 5 on. */
    method DecodeFieldFrom5(d: Decoder, k: string, requiredBitSet: seq<bv8>, ghost marks: set<nat>)
      returns (err: Error, bits: seq<bv8>)
      requires d.Valid() && |requiredBitSet| == 3 && Represents(requiredBitSet, marks)
      requires Find(READ_VERSION_FIELDS, k) == Find(READ_VERSION_FIELDS, k, 5)
      modifies this, d
      ensures d.Valid() && |bits| == 3 &&
          Represents(bits, Mark(READ_VERSION_FIELDS, marks, Find(READ_VERSION_FIELDS, k)))
      ensures MemberRead(READ_VERSION_FIELDS, ReadApplicationVersionDetailVal(old(s)), k, old(d.Rest()), err,
          ReadApplicationVersionDetailVal(s), d.Rest())
    {
      ghost var f, prior := READ_VERSION_FIELDS, ReadApplicationVersionDetailVal(s);
      bits := requiredBitSet;
      ghost var t := d.Rest();
      if k == "minScale" {
        var v;
        v, err := DecodeOptInt32(d, VOpt(s.minScale.isSet, VInt(s.minScale.value)));
        s := s.(minScale := v);
        assert ReadApplicationVersionDetailVal(s).vals ==
            prior.vals[5 := VOpt(s.minScale.isSet, VInt(s.minScale.value))];
        FieldRead(f, prior, k, 5, t, err, VOpt(s.minScale.isSet, VInt(s.minScale.value)),
            ReadApplicationVersionDetailVal(s), d.Rest());
      } else if k == "maxScale" {
        var v;
        v, err := DecodeOptInt32(d, VOpt(s.maxScale.isSet, VInt(s.maxScale.value)));
        s := s.(maxScale := v);
        assert ReadApplicationVersionDetailVal(s).vals ==
            prior.vals[6 := VOpt(s.maxScale.isSet, VInt(s.maxScale.value))];
        FieldRead(f, prior, k, 6, t, err, VOpt(s.maxScale.isSet, VInt(s.maxScale.value)),
            ReadApplicationVersionDetailVal(s), d.Rest());
      } else {
        err, bits := DecodeFieldFrom7(d, k, requiredBitSet, marks);
      }
    }

    /** The key switch from case 7 on. */
    method DecodeFieldFrom7(d: Decoder, k: string, requiredBitSet: seq<bv8>, ghost marks: set<nat>)
      returns (err: Error, bits: seq<bv8>)
      requires d.Valid() && |requiredBitSet| == 3 && Represents(requiredBitSet, marks)
      requires Find(READ_VERSION_FIELDS, k) == Find(READ_VERSION_FIELDS, k, 7)
      modifies this, d
      ensures d.Valid() && |bits| == 3 &&
          Represents(bits, Mark(READ_VERSION_FIELDS, marks, Find(READ_VERSION_FIELDS, k)))
      ensures MemberRead(READ_VERSION_FIELDS, ReadApplicationVersionDetailVal(old(s)), k, old(d.Rest()), err,
          ReadApplicationVersionDetailVal(s), d.Rest())
    {
      ghost var f, prior := READ_VERSION_FIELDS, ReadApplicationVersionDetailVal(s);
      bits := requiredBitSet;
      ghost var t := d.Rest();
      if k == "scaleInThreshold" {
        var v;
        v, err := DecodeOptInt32(d, VOpt(s.scaleInThreshold.isSet, VInt(s.scaleInThreshold.value)));
        s := s.(scaleInThreshold := v);
        assert ReadApplicationVersionDetailVal(s).vals ==
            prior.vals[7 := VOpt(s.scaleInThreshold.isSet, VInt(s.scaleInThreshold.value))];
        FieldRead(f, prior, k, 7, t, err, VOpt(s.scaleInThreshold.isSet, VInt(s.scaleInThreshold.value)),
            ReadApplicationVersionDetailVal(s), d.Rest());
      } else if k == "scaleOutThreshold" {
        var v;
        v, err := DecodeOptInt32(d, VOpt(s.scaleOutThreshold.isSet, VInt(s.scaleOutThreshold.value)));
        s := s.(scaleOutThreshold := v);
        assert ReadApplicationVersionDetailVal(s).vals ==
            prior.vals[8 := VOpt(s.scaleOutThreshold.isSet, VInt(s.scaleOutThreshold.value))];
        FieldRead(f, prior, k, 8, t, err, VOpt(s.scaleOutThreshold.isSet, VInt(s.scaleOutThreshold.value)),
            ReadApplicationVersionDetailVal(s), d.Rest());
      } else {
        err, bits := DecodeFieldFrom9(d, k, requiredBitSet, marks);
      }
    }

    /** The key switch from case 9 on. */
    method DecodeFieldFrom9(d: Decoder, k: string, requiredBitSet: seq<bv8>, ghost marks: set<nat>)
      returns (err: Error, bits: seq<bv8>)
      requires d.Valid() && |requiredBitSet| == 3 && Represents(requiredBitSet, marks)
      requires Find(READ_VERSION_FIELDS, k) == Find(READ_VERSION_FIELDS, k, 9)
      modifies this, d
      ensures d.Valid() && |bits| == 3 &&
          Represents(bits, Mark(READ_VERSION_FIELDS, marks, Find(READ_VERSION_FIELDS, k)))
      ensures MemberRead(READ_VERSION_FIELDS, ReadApplicationVersionDetailVal(old(s)), k, old(d.Rest()), err,
          ReadApplicationVersionDetailVal(s), d.Rest())
    {
      ghost var f, prior := READ_VERSION_FIELDS, ReadApplicationVersionDetailVal(s);
      bits := requiredBitSet;
      ghost var t := d.Rest();
      if k == "image" {
        bits := SetRequired(bits, 1, 1, f, marks);
        var v;
        v, err := d.Str(VStr(s.image));
        s := s.(image := v);
        assert ReadApplicationVersionDetailVal(s).vals == prior.vals[9 := VStr(s.image)];
        FieldRead(f, prior, k, 9, t, err, VStr(s.image), ReadApplicationVersionDetailVal(s), d.Rest());
      } else if k == "cmd" {
        var v;
        v, err := DecodeStrings(d, StringsVal(s.cmd));
        s := s.(cmd := v);
        assert ReadApplicationVersionDetailVal(s).vals == prior.vals[10 := StringsVal(s.cmd)];
        FieldRead(f, prior, k, 10, t, err, StringsVal(s.cmd), ReadApplicationVersionDetailVal(s), d.Rest());
      } else {
        err, bits := DecodeFieldFrom11(d, k, requiredBitSet, marks);
      }
    }

    /** The key switch from case 11 on. */
    method DecodeFieldFrom11(d: Decoder, k: string, requiredBitSet: seq<bv8>, ghost marks: set<nat>)
      returns (err: Error, bits: seq<bv8>)
      requires d.Valid() && |requiredBitSet| == 3 && Represents(requiredBitSet, marks)
      requires Find(READ_VERSION_FIELDS, k) == Find(READ_VERSION_FIELDS, k, 11)
      modifies this, d
      ensures d.Valid() && |bits| == 3 &&
          Represents(bits, Mark(READ_VERSION_FIELDS, marks, Find(READ_VERSION_FIELDS, k)))
      ensures MemberRead(READ_VERSION_FIELDS, ReadApplicationVersionDetailVal(old(s)), k, old(d.Rest()), err,
          ReadApplicationVersionDetailVal(s), d.Rest())
    {
      ghost var f, prior := READ_VERSION_FIELDS, ReadApplicationVersionDetailVal(s);
      bits := requiredBitSet;
      ghost var t := d.Rest();
      if k == "registryUsername" {
        bits := SetRequired(bits, 1, 3, f, marks);
        var v;
        v, err := DecodeNilString(d, VNil(s.registryUsername.isNull, VStr(s.registryUsername.value)));
        s := s.(registryUsername := v);
        assert ReadApplicationVersionDetailVal(s).vals ==
            prior.vals[11 := VNil(s.registryUsername.isNull, VStr(s.registryUsername.value))];
        FieldRead(f, prior, k, 11, t, err, VNil(s.registryUsername.isNull, VStr(s.registryUsername.value)),
            ReadApplicationVersionDetailVal(s), d.Rest());
      } else if k == "registryPassword" {
        bits := SetRequired(bits, 1, 4, f, marks);
        var v;
        v, err := DecodeNilString(d, VNil(s.registryPassword.isNull, VStr(s.registryPassword.value)));
        s := s.(registryPassword := v);
        assert ReadApplicationVersionDetailVal(s).vals ==
            prior.vals[12 := VNil(s.registryPassword.isNull, VStr(s.registryPassword.value))];
        FieldRead(f, prior, k, 12, t, err, VNil(s.registryPassword.isNull, VStr(s.registryPassword.value)),
            ReadApplicationVersionDetailVal(s), d.Rest());
      } else {
        err, bits := DecodeFieldFrom13(d, k, requiredBitSet, marks);
      }
    }

    /** The key switch from case 13 on. */
    method DecodeFieldFrom13(d: Decoder, k: string, requiredBitSet: seq<bv8>, ghost marks: set<nat>)
      returns (err: Error, bits: seq<bv8>)
      requires d.Valid() && |requiredBitSet| == 3 && Represents(requiredBitSet, marks)
      requires Find(READ_VERSION_FIELDS, k) == Find(READ_VERSION_FIELDS, k, 13)
      modifies this, d
      ensures d.Valid() && |bits| == 3 &&
          Represents(bits, Mark(READ_VERSION_FIELDS, marks, Find(READ_VERSION_FIELDS, k)))
      ensures MemberRead(READ_VERSION_FIELDS, ReadApplicationVersionDetailVal(old(s)), k, old(d.Rest()), err,
          ReadApplicationVersionDetailVal(s), d.Rest())
    {
      ghost var f, prior := READ_VERSION_FIELDS, ReadApplicationVersionDetailVal(s);
      bits := requiredBitSet;
      ghost var t := d.Rest();
      if k == "activeNodeCount" {
        bits := SetRequired(bits, 1, 5, f, marks);
        var v;
        v, err := d.Int(-0x8000_0000_0000_0000, 0x7FFF_FFFF_FFFF_FFFF, VInt(s.activeNodeCount));
        s := s.(activeNodeCount := v);
        assert ReadApplicationVersionDetailVal(s).vals == prior.vals[13 := VInt(s.activeNodeCount)];
        FieldRead(f, prior, k, 13, t, err, VInt(s.activeNodeCount), ReadApplicationVersionDetailVal(s), d.Rest());
      } else if k == "created" {
        bits := SetRequired(bits, 1, 6, f, marks);
        var v;
        v, err := d.Int(-0x8000_0000_0000_0000, 0x7FFF_FFFF_FFFF_FFFF, VInt(s.created));
        s := s.(created := v);
        assert ReadApplicationVersionDetailVal(s).vals == prior.vals[14 := VInt(s.created)];
        FieldRead(f, prior, k, 14, t, err, VInt(s.created), ReadApplicationVersionDetailVal(s), d.Rest());
      } else {
        err, bits := DecodeFieldFrom15(d, k, requiredBitSet, marks);
      }
    }

    /** The key switch from case 15 on. */
    method DecodeFieldFrom15(d: Decoder, k: string, requiredBitSet: seq<bv8>, ghost marks: set<nat>)
      returns (err: Error, bits: seq<bv8>)
      requires d.Valid() && |requiredBitSet| == 3 && Represents(requiredBitSet, marks)
      requires Find(READ_VERSION_FIELDS, k) == Find(READ_VERSION_FIELDS, k, 15)
      modifies this, d
      ensures d.Valid() && |bits| == 3 &&
          Represents(bits, Mark(READ_VERSION_FIELDS, marks, Find(READ_VERSION_FIELDS, k)))
      ensures MemberRead(READ_VERSION_FIELDS, ReadApplicationVersionDetailVal(old(s)), k, old(d.Rest()), err,
          ReadApplicationVersionDetailVal(s), d.Rest())
    {
      ghost var f, prior := READ_VERSION_FIELDS, ReadApplicationVersionDetailVal(s);
      bits := requiredBitSet;
      ghost var t := d.Rest();
      if k == "exposedPorts" {
        bits := SetRequired(bits, 1, 7, f, marks);
        var v;
        v, err := DecodeExposedPorts(d, ExposedPortsVal(s.exposedPorts));
        s := s.(exposedPorts := v);
        assert ReadApplicationVersionDetailVal(s).vals == prior.vals[15 := ExposedPortsVal(s.exposedPorts)];
        FieldRead(f, prior, k, 15, t, err, ExposedPortsVal(s.exposedPorts), ReadApplicationVersionDetailVal(s),
            d.Rest());
      } else {
        err, bits := DecodeFieldFrom16(d, k, requiredBitSet, marks);
      }
    }

    /** The key switch from case 16 on. */
    method DecodeFieldFrom16(d: Decoder, k: string, requiredBitSet: seq<bv8>, ghost marks: set<nat>)
      returns (err: Error, bits: seq<bv8>)
      requires d.Valid() && |requiredBitSet| == 3 && Represents(requiredBitSet, marks)
      requires Find(READ_VERSION_FIELDS, k) == Find(READ_VERSION_FIELDS, k, 16)
      modifies this, d
      ensures d.Valid() && |bits| == 3 &&
          Represents(bits, Mark(READ_VERSION_FIELDS, marks, Find(READ_VERSION_FIELDS, k)))
      ensures MemberRead(READ_VERSION_FIELDS, ReadApplicationVersionDetailVal(old(s)), k, old(d.Rest()), err,
          ReadApplicationVersionDetailVal(s), d.Rest())
    {
      ghost var f, prior := READ_VERSION_FIELDS, ReadApplicationVersionDetailVal(s);
      bits := requiredBitSet;
      ghost var t := d.Rest();
      if k == "env" {
        bits := SetRequired(bits, 2, 0, f, marks);
        var v;
        v, err := DecodeReadEnvironmentVariables(d, ReadEnvironmentVariablesVal(s.env));
        s := s.(env := v);
        assert ReadApplicationVersionDetailVal(s).vals == prior.vals[16 := ReadEnvironmentVariablesVal(s.env)];
        FieldRead(f, prior, k, 16, t, err, ReadEnvironmentVariablesVal(s.env), ReadApplicationVersionDetailVal(s),
            d.Rest());
      } else {
        var r := d.Skip();
        err := if r == Skipped then NoError else Invalid;
      }
    }

    method Decode(d: Decoder) returns (err: Error)
      requires d.Valid()
      modifies this, d
      ensures d.Valid()
      ensures Reads(KObj(READ_VERSION_FIELDS), ReadApplicationVersionDetailVal(old(s)), old(d.Rest()), err,
          ReadApplicationVersionDetailVal(s), d.Rest())
    {
      var f := READ_VERSION_FIELDS;
      var requiredBitSet := ZeroBits(3);
      ghost var result := DecodeAt(KObj(f), ReadApplicationVersionDetailVal(s), d.Rest());
      ghost var seen, marks: set<nat> := [], {};
      Opening(f, ReadApplicationVersionDetailVal(s), d.Rest());
      assert ReadApplicationVersionDetailVal(s).vals == Preset(f, ReadApplicationVersionDetailVal(s).vals);
      if !d.At(ObjStart) {
        return Invalid;
      }
      d.Advance();
      while true
        invariant d.Valid() && |requiredBitSet| == 3 && Represents(requiredBitSet, marks)
        invariant Looping(f, result, ReadApplicationVersionDetailVal(s).vals, seen, marks, d.Rest())
        decreases |d.Rest()|
      {
        ghost var t, vals := d.Rest(), ReadApplicationVersionDetailVal(s).vals;
        Closing(f, result, vals, seen, marks, t);
        var more, k;
        more, k, err := d.NextKey();
        if err != NoError {
          return Invalid;
        }
        if !more {
          break;
        }
        NextMember(f, result, vals, seen, marks, t);
        err, requiredBitSet := DecodeField(d, k, requiredBitSet, marks);
        if err != NoError {
          return Invalid;
        }
        seen, marks := seen + [Member(k, Parse(t[1..]).value)], Mark(f, marks, Find(f, k));
      }
      ReadVersionMask();
      err := CheckRequired(f, requiredBitSet, READ_VERSION_MASKS, seen);
    }
  }

  lemma ZeroReadApplicationVersionDetailVal()
    ensures ReadApplicationVersionDetailVal(ZERO_READ_APPLICATION_VERSION_DETAIL) == Zero(KObj(READ_VERSION_FIELDS))
  {
    assert ReadApplicationVersionDetailVal(ZERO_READ_APPLICATION_VERSION_DETAIL).vals ==
        Zero(KObj(READ_VERSION_FIELDS)).vals;
  }
}
