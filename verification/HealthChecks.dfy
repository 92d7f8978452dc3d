/** `HealthCheck`, with its defaults, and `NilHealthCheck`. */
module HealthChecks {
  import opened Json
  import opened Schema
  import opened RequiredFields
  import opened Jx
  import opened Kinds
  import opened Wrappers

  // ---------- HealthCheck ----------

  datatype HealthCheck = HealthCheck(
    path: string, intervalSeconds: int32, timeoutSeconds: int32)

  const ZERO_HEALTH_CHECK := HealthCheck("", 0, 0)

  /** The value of field `i`, in the order of `HEALTH_CHECK_FIELDS`. */
  function HealthCheckAt(s: HealthCheck, i: nat): Val
    requires i < 3
  {
    if i == 0 then VStr(s.path)
    else if i == 1 then VInt(s.intervalSeconds)
    else VInt(s.timeoutSeconds)
  }

  function HealthCheckVal(s: HealthCheck): Val {
    VObj(seq(3, i requires 0 <= i < 3 => HealthCheckAt(s, i)))
  }

  lemma HealthCheckFits(s: HealthCheck)
    ensures Fits(KObj(HEALTH_CHECK_FIELDS), HealthCheckVal(s))
  {
    forall i | 0 <= i < 3 ensures Fits(HEALTH_CHECK_FIELDS[i].kind, HealthCheckAt(s, i)) {
    }
  }

  /** The mask literals at the end of `Decode`: exactly the required fields. */
  const HEALTH_CHECK_MASKS: seq<bv8> := [0x07]  // 0b00000111

  lemma HealthCheckMask()
    ensures Represents(HEALTH_CHECK_MASKS, RequiredOf(HEALTH_CHECK_FIELDS))
  {
  }

  /** A `*HealthCheck`: the struct its methods update. */
  class HealthCheckRef {
    var s: HealthCheck

    constructor (s: HealthCheck)
      ensures this.s == s
    {
      this.s := s;
    }

    method SetDefaults()
      modifies this
      ensures s == old(s).(intervalSeconds := 30, timeoutSeconds := 5)
    {
      s := s.(intervalSeconds := 30);
      s := s.(timeoutSeconds := 5);
    }

    method Encode(e: Encoder)
      modifies e
      ensures e.tokens == Schema.Encode(old(e.tokens), KObj(HEALTH_CHECK_FIELDS), HealthCheckVal(s))
    {
      ghost var acc := e.tokens + [ObjStart];
      e.Put(ObjStart);
      EncodeFields(e, acc);
      e.Put(ObjEnd);
    }

    /** `encodeFields`. */
    method EncodeFields(e: Encoder, ghost acc: seq<Token>)
      requires e.tokens == Schema.EncodeFields(acc, KObj(HEALTH_CHECK_FIELDS), HealthCheckVal(s).vals, 0)
      modifies e
      ensures e.tokens == Schema.EncodeFields(acc, KObj(HEALTH_CHECK_FIELDS), HealthCheckVal(s).vals, 3)
    {
      e.Put(Key("path"));
      e.Put(Str(s.path));
      assert e.tokens == Schema.EncodeFields(acc, KObj(HEALTH_CHECK_FIELDS), HealthCheckVal(s).vals, 1);
      e.Put(Key("intervalSeconds"));
      e.Put(Int(s.intervalSeconds));
      assert e.tokens == Schema.EncodeFields(acc, KObj(HEALTH_CHECK_FIELDS), HealthCheckVal(s).vals, 2);
      e.Put(Key("timeoutSeconds"));
      e.Put(Int(s.timeoutSeconds));
    }

    /** The `ObjBytes` callback: the field the key selects is decoded, a required one's bit set. */
    method DecodeField(d: Decoder, k: string, requiredBitSet: seq<bv8>, ghost marks: set<nat>)
      returns (err: Error, bits: seq<bv8>)
      requires d.Valid() && |requiredBitSet| == 1 && Represents(requiredBitSet, marks)
      modifies this, d
      ensures d.Valid() && |bits| == 1 &&
          Represents(bits, Mark(HEALTH_CHECK_FIELDS, marks, Find(HEALTH_CHECK_FIELDS, k)))
      ensures MemberRead(HEALTH_CHECK_FIELDS, HealthCheckVal(old(s)), k, old(d.Rest()), err, HealthCheckVal(s),
          d.Rest())
    {
      ghost var f, prior := HEALTH_CHECK_FIELDS, HealthCheckVal(s);
      bits := requiredBitSet;
      ghost var t := d.Rest();
      if k == "path" {
        bits := SetRequired(bits, 0, 0, f, marks);
        var v;
        v, err := d.Str(VStr(s.path));
        s := s.(path := v);
        assert HealthCheckVal(s).vals == prior.vals[0 := VStr(s.path)];
        FieldRead(f, prior, k, 0, t, err, VStr(s.path), HealthCheckVal(s), d.Rest());
      } else if k == "intervalSeconds" {
        bits := SetRequired(bits, 0, 1, f, marks);
        var v;
        v, err := d.Int(-0x8000_0000, 0x7FFF_FFFF, VInt(s.intervalSeconds));
        s := s.(intervalSeconds := v);
        assert HealthCheckVal(s).vals == prior.vals[1 := VInt(s.intervalSeconds)];
        FieldRead(f, prior, k, 1, t, err, VInt(s.intervalSeconds), HealthCheckVal(s), d.Rest());
      } else if k == "timeoutSeconds" {
        bits := SetRequired(bits, 0, 2, f, marks);
        var v;
        v, err := d.Int(-0x8000_0000, 0x7FFF_FFFF, VInt(s.timeoutSeconds));
        s := s.(timeoutSeconds := v);
        assert HealthCheckVal(s).vals == prior.vals[2 := VInt(s.timeoutSeconds)];
        FieldRead(f, prior, k, 2, t, err, VInt(s.timeoutSeconds), HealthCheckVal(s), d.Rest());
      } else {
        var r := d.Skip();
        err := if r == Skipped then NoError else Invalid;
      }
    }

    method Decode(d: Decoder) returns (err: Error)
      requires d.Valid()
      modifies this, d
      ensures d.Valid()
      ensures Reads(KObj(HEALTH_CHECK_FIELDS), HealthCheckVal(old(s)), old(d.Rest()), err, HealthCheckVal(s),
          d.Rest())
    {
      var f := HEALTH_CHECK_FIELDS;
      var requiredBitSet := ZeroBits(1);
      ghost var result := DecodeAt(KObj(f), HealthCheckVal(s), d.Rest());
      ghost var seen, marks: set<nat> := [], {};
      Opening(f, HealthCheckVal(s), d.Rest());
      ghost var prior := HealthCheckVal(s).vals;
      SetDefaults();
      assert HealthCheckVal(s).vals == Preset(f, prior);
      if !d.At(ObjStart) {
        return Invalid;
      }
      d.Advance();
      while true
        invariant d.Valid() && |requiredBitSet| == 1 && Represents(requiredBitSet, marks)
        invariant Looping(f, result, HealthCheckVal(s).vals, seen, marks, d.Rest())
        decreases |d.Rest()|
      {
        ghost var t, vals := d.Rest(), HealthCheckVal(s).vals;
        Closing(f, result, vals, seen, marks, t);
        var more, k;
        more, k, err := d.NextKey();
        if err != NoError {
          return Invalid;
        }
        if !more {
          break;
        }
        NextMember(f, result, vals, seen, marks, t);
        err, requiredBitSet := DecodeField(d, k, requiredBitSet, marks);
        if err != NoError {
          return Invalid;
        }
        seen, marks := seen + [Member(k, Parse(t[1..]).value)], Mark(f, marks, Find(f, k));
      }
      HealthCheckMask();
      err := CheckRequired(f, requiredBitSet, HEALTH_CHECK_MASKS, seen);
    }
  }

  lemma ZeroHealthCheckVal()
    ensures HealthCheckVal(ZERO_HEALTH_CHECK) == Zero(KObj(HEALTH_CHECK_FIELDS))
  {
    assert HealthCheckVal(ZERO_HEALTH_CHECK).vals == Zero(KObj(HEALTH_CHECK_FIELDS)).vals;
  }

  function NilHealthCheckVal(o: NilOf<HealthCheck>): Val {
    VNil(o.isNull, HealthCheckVal(o.value))
  }

  /** `NilHealthCheck.Decode`: null stores the zero value, not the defaults; anything else
      is decoded into the payload that is there. */
  method DecodeNilHealthCheck(d: Decoder, prior: NilOf<HealthCheck>) returns (o: NilOf<HealthCheck>, err: Error)
    requires d.Valid()
    modifies d
    ensures d.Valid()
    ensures Reads(KNil(KObj(HEALTH_CHECK_FIELDS)), NilHealthCheckVal(prior), old(d.Rest()), err,
        NilHealthCheckVal(o), d.Rest())
  {
    o := prior;
    NilAt(KObj(HEALTH_CHECK_FIELDS), NilHealthCheckVal(prior), d.Rest());
    if d.At(Null) {
      d.Advance();
      ZeroHealthCheckVal();
      return NilOf(ZERO_HEALTH_CHECK, true), NoError;
    }
    var value := new HealthCheckRef(o.value);
    err := value.Decode(d);
    o := NilOf(value.s, false);
  }

  method EncodeNilHealthCheck(e: Encoder, o: NilOf<HealthCheck>)
    modifies e
    ensures e.tokens == Encode(old(e.tokens), KNil(KObj(HEALTH_CHECK_FIELDS)), NilHealthCheckVal(o))
  {
    if o.isNull {
      e.Put(Null);
      return;
    }
    var value := new HealthCheckRef(o.value);
    value.Encode(e);
  }
}
