/** `GetAutoScalingGroupResponse` and the structs in it. */
module AutoScaling {
  import opened Json
  import opened Schema
  import opened RequiredFields
  import opened Jx
  import opened Kinds
  import opened Wrappers

  // ---------- IpRange ----------

  datatype IpRange = IpRange(
    start: string, end: string)

  const ZERO_IP_RANGE := IpRange("", "")

  /** The value of field `i`, in the order of `IP_RANGE_FIELDS`. */
  function IpRangeAt(s: IpRange, i: nat): Val
    requires i < 2
  {
    if i == 0 then VStr(s.start)
    else VStr(s.end)
  }

  function IpRangeVal(s: IpRange): Val {
    VObj(seq(2, i requires 0 <= i < 2 => IpRangeAt(s, i)))
  }

  lemma IpRangeFits(s: IpRange)
    ensures Fits(KObj(IP_RANGE_FIELDS), IpRangeVal(s))
  {
    forall i | 0 <= i < 2 ensures Fits(IP_RANGE_FIELDS[i].kind, IpRangeAt(s, i)) {
    }
  }

  /** The mask literals at the end of `Decode`: exactly the required fields. */
  const IP_RANGE_MASKS: seq<bv8> := [0x03]  // 0b00000011

  lemma IpRangeMask()
    ensures Represents(IP_RANGE_MASKS, RequiredOf(IP_RANGE_FIELDS))
  {
  }

  /** A `*IpRange`: the struct its methods update. */
  class IpRangeRef {
    var s: IpRange

    constructor (s: IpRange)
      ensures this.s == s
    {
      this.s := s;
    }

    method Encode(e: Encoder)
      modifies e
      ensures e.tokens == Schema.Encode(old(e.tokens), KObj(IP_RANGE_FIELDS), IpRangeVal(s))
    {
      ghost var acc := e.tokens + [ObjStart];
      e.Put(ObjStart);
      EncodeFields(e, acc);
      e.Put(ObjEnd);
    }

    /** `encodeFields`. */
    method EncodeFields(e: Encoder, ghost acc: seq<Token>)
      requires e.tokens == Schema.EncodeFields(acc, KObj(IP_RANGE_FIELDS), IpRangeVal(s).vals, 0)
      modifies e
      ensures e.tokens == Schema.EncodeFields(acc, KObj(IP_RANGE_FIELDS), IpRangeVal(s).vals, 2)
    {
      e.Put(Key("start"));
      e.Put(Str(s.start));
      assert e.tokens == Schema.EncodeFields(acc, KObj(IP_RANGE_FIELDS), IpRangeVal(s).vals, 1);
      e.Put(Key("end"));
      e.Put(Str(s.end));
    }

    /** The `ObjBytes` callback: the field the key selects is decoded, a required one's bit set. */
    method DecodeField(d: Decoder, k: string, requiredBitSet: seq<bv8>, ghost marks: set<nat>)
      returns (err: Error, bits: seq<bv8>)
      requires d.Valid() && |requiredBitSet| == 1 && Represents(requiredBitSet, marks)
      modifies this, d
      ensures d.Valid() && |bits| == 1 && Represents(bits, Mark(IP_RANGE_FIELDS, marks, Find(IP_RANGE_FIELDS, k)))
      ensures MemberRead(IP_RANGE_FIELDS, IpRangeVal(old(s)), k, old(d.Rest()), err, IpRangeVal(s), d.Rest())
    {
      ghost var f, prior := IP_RANGE_FIELDS, IpRangeVal(s);
      bits := requiredBitSet;
      ghost var t := d.Rest();
      if k == "start" {
        bits := SetRequired(bits, 0, 0, f, marks);
        var v;
        v, err := d.Str(VStr(s.start));
        s := s.(start := v);
        assert IpRangeVal(s).vals == prior.vals[0 := VStr(s.start)];
        FieldRead(f, prior, k, 0, t, err, VStr(s.start), IpRangeVal(s), d.Rest());
      } else if k == "end" {
        bits := SetRequired(bits, 0, 1, f, marks);
        var v;
        v, err := d.Str(VStr(s.end));
        s := s.(end := v);
        assert IpRangeVal(s).vals == prior.vals[1 := VStr(s.end)];
        FieldRead(f, prior, k, 1, t, err, VStr(s.end), IpRangeVal(s), d.Rest());
      } else {
        var r := d.Skip();
        err := if r == Skipped then NoError else Invalid;
      }
    }

    method Decode(d: Decoder) returns (err: Error)
      requires d.Valid()
      modifies this, d
      ensures d.Valid()
      ensures Reads(KObj(IP_RANGE_FIELDS), IpRangeVal(old(s)), old(d.Rest()), err, IpRangeVal(s), d.Rest())
    {
      var f := IP_RANGE_FIELDS;
      var requiredBitSet := ZeroBits(1);
      ghost var result := DecodeAt(KObj(f), IpRangeVal(s), d.Rest());
      ghost var seen, marks: set<nat> := [], {};
      Opening(f, IpRangeVal(s), d.Rest());
      assert IpRangeVal(s).vals == Preset(f, IpRangeVal(s).vals);
      if !d.At(ObjStart) {
        return Invalid;
      }
      d.Advance();
      while true
        invariant d.Valid() && |requiredBitSet| == 1 && Represents(requiredBitSet, marks)
        invariant Looping(f, result, IpRangeVal(s).vals, seen, marks, d.Rest())
        decreases |d.Rest()|
      {
        ghost var t, vals := d.Rest(), IpRangeVal(s).vals;
        Closing(f, result, vals, seen, marks, t);
        var more, k;
        more, k, err := d.NextKey();
        if err != NoError {
          return Invalid;
        }
        if !more {
          break;
        }
        NextMember(f, result, vals, seen, marks, t);
        err, requiredBitSet := DecodeField(d, k, requiredBitSet, marks);
        if err != NoError {
          return Invalid;
        }
        seen, marks := seen + [Member(k, Parse(t[1..]).value)], Mark(f, marks, Find(f, k));
      }
      IpRangeMask();
      err := CheckRequired(f, requiredBitSet, IP_RANGE_MASKS, seen);
    }
  }

  function IpRangesVal(s: Slice<IpRange>): Val {
    if s.NilSlice? then VNilSlice else VSlice(seq(|s.elems|,
        i requires 0 <= i < |s.elems| => IpRangeVal(s.elems[i])))
  }

  lemma IpRangesFits(s: Slice<IpRange>)
    ensures Fits(KArr(KObj(IP_RANGE_FIELDS)), IpRangesVal(s))
  {
    forall x: IpRange ensures Fits(KObj(IP_RANGE_FIELDS), IpRangeVal(x)) {
      IpRangeFits(x);
    }
  }

  /** The `Arr` loop of a `[]IpRange`: every element is decoded into a fresh one. */
  method DecodeIpRanges(d: Decoder, ghost prior: Val) returns (slice: Slice<IpRange>, err: Error)
    requires d.Valid()
    modifies d
    ensures d.Valid() && Reads(KArr(KObj(IP_RANGE_FIELDS)), prior, old(d.Rest()), err, IpRangesVal(slice), d.Rest())
  {
    slice := SliceOf([]);
    ghost var k, result := KObj(IP_RANGE_FIELDS), DecodeAt(KArr(KObj(IP_RANGE_FIELDS)), prior, d.Rest());
    ElemsOpening(k, prior, d.Rest());
    assert IpRangesVal(slice).elems == [];
    ZeroIpRangeVal();
    if !d.At(ArrStart) {
      return slice, Invalid;
    }
    d.Advance();
    while !d.At(ArrEnd)
      invariant d.Valid() && slice.SliceOf?
      invariant result == RemainingElems(k, IpRangesVal(slice).elems, d.Rest())
      decreases |d.Rest()|
    {
      ghost var read := IpRangesVal(slice).elems;
      ElemsNext(k, read, d.Rest());
      var elem := new IpRangeRef(ZERO_IP_RANGE);
      err := elem.Decode(d);
      if err != NoError {
        return slice, Invalid;
      }
      slice := SliceOf(slice.elems + [elem.s]);
      assert IpRangesVal(slice).elems == read + [IpRangeVal(elem.s)];
    }
    ElemsClosing(k, IpRangesVal(slice).elems, d.Rest());
    d.Advance();
    err := NoError;
  }

  method EncodeIpRanges(e: Encoder, slice: Slice<IpRange>)
    modifies e
    ensures e.tokens == Encode(old(e.tokens), KArr(KObj(IP_RANGE_FIELDS)), IpRangesVal(slice))
  {
    ghost var acc := e.tokens + [ArrStart];
    e.Put(ArrStart);
    var elems := if slice.SliceOf? then slice.elems else [];
    for i := 0 to |elems|
      invariant e.tokens == EncodeElems(acc, KObj(IP_RANGE_FIELDS), Elems(IpRangesVal(slice)), i)
    {
      var elem := new IpRangeRef(elems[i]);
      elem.Encode(e);
    }
    e.Put(ArrEnd);
  }

  lemma ZeroIpRangeVal()
    ensures IpRangeVal(ZERO_IP_RANGE) == Zero(KObj(IP_RANGE_FIELDS))
  {
    assert IpRangeVal(ZERO_IP_RANGE).vals == Zero(KObj(IP_RANGE_FIELDS)).vals;
  }

  // ---------- AutoScalingGroupNodeInterface ----------

  datatype AutoScalingGroupNodeInterface = AutoScalingGroupNodeInterface(
    interfaceIndex: int16, upstream: string, ipPool: Slice<IpRange>, netmaskLen: OptOf<int16>,
    defaultGateway: OptOf<string>, packetFilterID: OptOf<string>, connectsToLB: bool)

  const ZERO_AUTO_SCALING_GROUP_NODE_INTERFACE := AutoScalingGroupNodeInterface(0, "", NilSlice, OptOf(0, false),
      OptOf("", false), OptOf("", false), false)

  /** The value of field `i`, in the order of `NODE_INTERFACE_FIELDS`. */
  function AutoScalingGroupNodeInterfaceAt(s: AutoScalingGroupNodeInterface, i: nat): Val
    requires i < 7
  {
    if i == 0 then VInt(s.interfaceIndex)
    else if i == 1 then VStr(s.upstream)
    else if i == 2 then IpRangesVal(s.ipPool)
    else if i == 3 then VOpt(s.netmaskLen.isSet, VInt(s.netmaskLen.value))
    else if i == 4 then VOpt(s.defaultGateway.isSet, VStr(s.defaultGateway.value))
    else if i == 5 then VOpt(s.packetFilterID.isSet, VStr(s.packetFilterID.value))
    else VBool(s.connectsToLB)
  }

  function AutoScalingGroupNodeInterfaceVal(s: AutoScalingGroupNodeInterface): Val {
    VObj(seq(7, i requires 0 <= i < 7 => AutoScalingGroupNodeInterfaceAt(s, i)))
  }

  lemma AutoScalingGroupNodeInterfaceFits(s: AutoScalingGroupNodeInterface)
    ensures Fits(KObj(NODE_INTERFACE_FIELDS), AutoScalingGroupNodeInterfaceVal(s))
  {
    IpRangesFits(s.ipPool);
    forall i | 0 <= i < 7 ensures Fits(NODE_INTERFACE_FIELDS[i].kind, AutoScalingGroupNodeInterfaceAt(s, i)) {
    }
  }

  /** The mask literals at the end of `Decode`: exactly the required fields. */
  const NODE_INTERFACE_MASKS: seq<bv8> := [0x43]  // 0b01000011

  lemma NodeInterfaceMask()
    ensures Represents(NODE_INTERFACE_MASKS, RequiredOf(NODE_INTERFACE_FIELDS))
  {
  }

  /** A `*AutoScalingGroupNodeInterface`: the struct its methods update. */
  class AutoScalingGroupNodeInterfaceRef {
    var s: AutoScalingGroupNodeInterface

    constructor (s: AutoScalingGroupNodeInterface)
      ensures this.s == s
    {
      this.s := s;
    }

    method Encode(e: Encoder)
      modifies e
      ensures e.tokens == Schema.Encode(old(e.tokens), KObj(NODE_INTERFACE_FIELDS),
          AutoScalingGroupNodeInterfaceVal(s))
    {
      ghost var acc := e.tokens + [ObjStart];
      e.Put(ObjStart);
      EncodeFields(e, acc);
      e.Put(ObjEnd);
    }

    /** `encodeFields`. */
    method EncodeFields(e: Encoder, ghost acc: seq<Token>)
      requires e.tokens == Schema.EncodeFields(acc, KObj(NODE_INTERFACE_FIELDS),
          AutoScalingGroupNodeInterfaceVal(s).vals, 0)
      modifies e
      ensures e.tokens == Schema.EncodeFields(acc, KObj(NODE_INTERFACE_FIELDS),
          AutoScalingGroupNodeInterfaceVal(s).vals, 7)
    {
      e.Put(Key("interfaceIndex"));
      e.Put(Int(s.interfaceIndex));
      assert e.tokens == Schema.EncodeFields(acc, KObj(NODE_INTERFACE_FIELDS),
          AutoScalingGroupNodeInterfaceVal(s).vals, 1);
      e.Put(Key("upstream"));
      e.Put(Str(s.upstream));
      assert e.tokens == Schema.EncodeFields(acc, KObj(NODE_INTERFACE_FIELDS),
          AutoScalingGroupNodeInterfaceVal(s).vals, 2);
      EncodeFieldsFrom2(e, acc);
    }

    /** `encodeFields` from field 2 on. */
    method EncodeFieldsFrom2(e: Encoder, ghost acc: seq<Token>)
      requires e.tokens == Schema.EncodeFields(acc, KObj(NODE_INTERFACE_FIELDS),
          AutoScalingGroupNodeInterfaceVal(s).vals, 2)
      modifies e
      ensures e.tokens == Schema.EncodeFields(acc, KObj(NODE_INTERFACE_FIELDS),
          AutoScalingGroupNodeInterfaceVal(s).vals, 7)
    {
      assert AutoScalingGroupNodeInterfaceVal(s).vals[2] == AutoScalingGroupNodeInterfaceAt(s, 2);
      if s.ipPool != NilSlice {
        e.Put(Key("ipPool"));
        EncodeIpRanges(e, s.ipPool);
      }
      assert e.tokens == Schema.EncodeFields(acc, KObj(NODE_INTERFACE_FIELDS),
          AutoScalingGroupNodeInterfaceVal(s).vals, 3);
      if s.netmaskLen.isSet {
        e.Put(Key("netmaskLen"));
        EncodeOptInt16(e, s.netmaskLen);
      }
      assert e.tokens == Schema.EncodeFields(acc, KObj(NODE_INTERFACE_FIELDS),
          AutoScalingGroupNodeInterfaceVal(s).vals, 4);
      EncodeFieldsFrom4(e, acc);
    }

    /** `encodeFields` from field 4 on. */
    method EncodeFieldsFrom4(e: Encoder, ghost acc: seq<Token>)
      requires e.tokens == Schema.EncodeFields(acc, KObj(NODE_INTERFACE_FIELDS),
          AutoScalingGroupNodeInterfaceVal(s).vals, 4)
      modifies e
      ensures e.tokens == Schema.EncodeFields(acc, KObj(NODE_INTERFACE_FIELDS),
          AutoScalingGroupNodeInterfaceVal(s).vals, 7)
    {
      if s.defaultGateway.isSet {
        e.Put(Key("defaultGateway"));
        EncodeOptString(e, s.defaultGateway);
      }
      assert e.tokens == Schema.EncodeFields(acc, KObj(NODE_INTERFACE_FIELDS),
          AutoScalingGroupNodeInterfaceVal(s).vals, 5);
      if s.packetFilterID.isSet {
        e.Put(Key("packetFilterID"));
        EncodeOptString(e, s.packetFilterID);
      }
      assert e.tokens == Schema.EncodeFields(acc, KObj(NODE_INTERFACE_FIELDS),
          AutoScalingGroupNodeInterfaceVal(s).vals, 6);
      e.Put(Key("connectsToLB"));
      e.Put(Bool(s.connectsToLB));
    }

    /** The `ObjBytes` callback: the field the key selects is decoded, a required one's bit set. */
    method DecodeField(d: Decoder, k: string, requiredBitSet: seq<bv8>, ghost marks: set<nat>)
      returns (err: Error, bits: seq<bv8>)
      requires d.Valid() && |requiredBitSet| == 1 && Represents(requiredBitSet, marks)
      modifies this, d
      ensures d.Valid() && |bits| == 1 &&
          Represents(bits, Mark(NODE_INTERFACE_FIELDS, marks, Find(NODE_INTERFACE_FIELDS, k)))
      ensures MemberRead(NODE_INTERFACE_FIELDS, AutoScalingGroupNodeInterfaceVal(old(s)), k, old(d.Rest()), err,
          AutoScalingGroupNodeInterfaceVal(s), d.Rest())
    {
      ghost var f, prior := NODE_INTERFACE_FIELDS, AutoScalingGroupNodeInterfaceVal(s);
      bits := requiredBitSet;
      ghost var t := d.Rest();
      if k == "interfaceIndex" {
        bits := SetRequired(bits, 0, 0, f, marks);
        var v;
        v, err := d.Int(-0x8000, 0x7FFF, VInt(s.interfaceIndex));
        s := s.(interfaceIndex := v);
        assert AutoScalingGroupNodeInterfaceVal(s).vals == prior.vals[0 := VInt(s.interfaceIndex)];
        FieldRead(f, prior, k, 0, t, err, VInt(s.interfaceIndex), AutoScalingGroupNodeInterfaceVal(s), d.Rest());
      } else if k == "upstream" {
        bits := SetRequired(bits, 0, 1, f, marks);
        var v;
        v, err := d.Str(VStr(s.upstream));
        s := s.(upstream := v);
        assert AutoScalingGroupNodeInterfaceVal(s).vals == prior.vals[1 := VStr(s.upstream)];
        FieldRead(f, prior, k, 1, t, err, VStr(s.upstream), AutoScalingGroupNodeInterfaceVal(s), d.Rest());
      } else {
        err, bits := DecodeFieldFrom2(d, k, requiredBitSet, marks);
      }
    }

    /** The key switch from case 2 on. */
    method DecodeFieldFrom2(d: Decoder, k: string, requiredBitSet: seq<bv8>, ghost marks: set<nat>)
      returns (err: Error, bits: seq<bv8>)
      requires d.Valid() && |requiredBitSet| == 1 && Represents(requiredBitSet, marks)
      requires Find(NODE_INTERFACE_FIELDS, k) == Find(NODE_INTERFACE_FIELDS, k, 2)
      modifies this, d
      ensures d.Valid() && |bits| == 1 &&
          Represents(bits, Mark(NODE_INTERFACE_FIELDS, marks, Find(NODE_INTERFACE_FIELDS, k)))
      ensures MemberRead(NODE_INTERFACE_FIELDS, AutoScalingGroupNodeInterfaceVal(old(s)), k, old(d.Rest()), err,
          AutoScalingGroupNodeInterfaceVal(s), d.Rest())
    {
      ghost var f, prior := NODE_INTERFACE_FIELDS, AutoScalingGroupNodeInterfaceVal(s);
      bits := requiredBitSet;
      ghost var t := d.Rest();
      if k == "ipPool" {
        var v;
        v, err := DecodeIpRanges(d, IpRangesVal(s.ipPool));
        s := s.(ipPool := v);
        assert AutoScalingGroupNodeInterfaceVal(s).vals == prior.vals[2 := IpRangesVal(s.ipPool)];
        FieldRead(f, prior, k, 2, t, err, IpRangesVal(s.ipPool), AutoScalingGroupNodeInterfaceVal(s), d.Rest());
      } else if k == "netmaskLen" {
        var v;
        v, err := DecodeOptInt16(d, VOpt(s.netmaskLen.isSet, VInt(s.netmaskLen.value)));
        s := s.(netmaskLen := v);
        assert AutoScalingGroupNodeInterfaceVal(s).vals ==
            prior.vals[3 := VOpt(s.netmaskLen.isSet, VInt(s.netmaskLen.value))];
        FieldRead(f, prior, k, 3, t, err, VOpt(s.netmaskLen.isSet, VInt(s.netmaskLen.value)),
            AutoScalingGroupNodeInterfaceVal(s), d.Rest());
      } else {
        err, bits := DecodeFieldFrom4(d, k, requiredBitSet, marks);
      }
    }

    /** The key switch from case 4 on. */
    method DecodeFieldFrom4(d: Decoder, k: string, requiredBitSet: seq<bv8>, ghost marks: set<nat>)
      returns (err: Error, bits: seq<bv8>)
      requires d.Valid() && |requiredBitSet| == 1 && Represents(requiredBitSet, marks)
      requires Find(NODE_INTERFACE_FIELDS, k) == Find(NODE_INTERFACE_FIELDS, k, 4)
      modifies this, d
      ensures d.Valid() && |bits| == 1 &&
          Represents(bits, Mark(NODE_INTERFACE_FIELDS, marks, Find(NODE_INTERFACE_FIELDS, k)))
      ensures MemberRead(NODE_INTERFACE_FIELDS, AutoScalingGroupNodeInterfaceVal(old(s)), k, old(d.Rest()), err,
          AutoScalingGroupNodeInterfaceVal(s), d.Rest())
    {
      ghost var f, prior := NODE_INTERFACE_FIELDS, AutoScalingGroupNodeInterfaceVal(s);
      bits := requiredBitSet;
      ghost var t := d.Rest();
      if k == "defaultGateway" {
        var v;
        v, err := DecodeOptString(d, VOpt(s.defaultGateway.isSet, VStr(s.defaultGateway.value)));
        s := s.(defaultGateway := v);
        assert AutoScalingGroupNodeInterfaceVal(s).vals ==
            prior.vals[4 := VOpt(s.defaultGateway.isSet, VStr(s.defaultGateway.value))];
        FieldRead(f, prior, k, 4, t, err, VOpt(s.defaultGateway.isSet, VStr(s.defaultGateway.value)),
            AutoScalingGroupNodeInterfaceVal(s), d.Rest());
      } else if k == "packetFilterID" {
        var v;
        v, err := DecodeOptString(d, VOpt(s.packetFilterID.isSet, VStr(s.packetFilterID.value)));
        s := s.(packetFilterID := v);
        assert AutoScalingGroupNodeInterfaceVal(s).vals ==
            prior.vals[5 := VOpt(s.packetFilterID.isSet, VStr(s.packetFilterID.value))];
        FieldRead(f, prior, k, 5, t, err, VOpt(s.packetFilterID.isSet, VStr(s.packetFilterID.value)),
            AutoScalingGroupNodeInterfaceVal(s), d.Rest());
      } else if k == "connectsToLB" {
        bits := SetRequired(bits, 0, 6, f, marks);
        var v;
        v, err := d.Bool(VBool(s.connectsToLB));
        s := s.(connectsToLB := v);
        assert AutoScalingGroupNodeInterfaceVal(s).vals == prior.vals[6 := VBool(s.connectsToLB)];
        FieldRead(f, prior, k, 6, t, err, VBool(s.connectsToLB), AutoScalingGroupNodeInterfaceVal(s), d.Rest());
      } else {
        var r := d.Skip();
        err := if r == Skipped then NoError else Invalid;
      }
    }

    method Decode(d: Decoder) returns (err: Error)
      requires d.Valid()
      modifies this, d
      ensures d.Valid()
      ensures Reads(KObj(NODE_INTERFACE_FIELDS), AutoScalingGroupNodeInterfaceVal(old(s)), old(d.Rest()), err,
          AutoScalingGroupNodeInterfaceVal(s), d.Rest())
    {
      var f := NODE_INTERFACE_FIELDS;
      var requiredBitSet := ZeroBits(1);
      ghost var result := DecodeAt(KObj(f), AutoScalingGroupNodeInterfaceVal(s), d.Rest());
      ghost var seen, marks: set<nat> := [], {};
      Opening(f, AutoScalingGroupNodeInterfaceVal(s), d.Rest());
      assert AutoScalingGroupNodeInterfaceVal(s).vals == Preset(f, AutoScalingGroupNodeInterfaceVal(s).vals);
      if !d.At(ObjStart) {
        return Invalid;
      }
      d.Advance();
      while true
        invariant d.Valid() && |requiredBitSet| == 1 && Represents(requiredBitSet, marks)
        invariant Looping(f, result, AutoScalingGroupNodeInterfaceVal(s).vals, seen, marks, d.Rest())
        decreases |d.Rest()|
      {
        ghost var t, vals := d.Rest(), AutoScalingGroupNodeInterfaceVal(s).vals;
        Closing(f, result, vals, seen, marks, t);
        var more, k;
        more, k, err := d.NextKey();
        if err != NoError {
          return Invalid;
        }
        if !more {
          break;
        }
        NextMember(f, result, vals, seen, marks, t);
        err, requiredBitSet := DecodeField(d, k, requiredBitSet, marks);
        if err != NoError {
          return Invalid;
        }
        seen, marks := seen + [Member(k, Parse(t[1..]).value)], Mark(f, marks, Find(f, k));
      }
      NodeInterfaceMask();
      err := CheckRequired(f, requiredBitSet, NODE_INTERFACE_MASKS, seen);
    }
  }

  function AutoScalingGroupNodeInterfacesVal(s: Slice<AutoScalingGroupNodeInterface>): Val {
    if s.NilSlice? then VNilSlice else VSlice(seq(|s.elems|,
        i requires 0 <= i < |s.elems| => AutoScalingGroupNodeInterfaceVal(s.elems[i])))
  }

  lemma AutoScalingGroupNodeInterfacesFits(s: Slice<AutoScalingGroupNodeInterface>)
    ensures Fits(KArr(KObj(NODE_INTERFACE_FIELDS)), AutoScalingGroupNodeInterfacesVal(s))
  {
    forall x: AutoScalingGroupNodeInterface ensures Fits(KObj(NODE_INTERFACE_FIELDS),
        AutoScalingGroupNodeInterfaceVal(x)) {
      AutoScalingGroupNodeInterfaceFits(x);
    }
  }

  /** The `Arr` loop of a `[]AutoScalingGroupNodeInterface`: every element is decoded into a fresh one. */
  method DecodeAutoScalingGroupNodeInterfaces(d: Decoder,
      ghost prior: Val) returns (slice: Slice<AutoScalingGroupNodeInterface>, err: Error)
    requires d.Valid()
    modifies d
    ensures d.Valid() && Reads(KArr(KObj(NODE_INTERFACE_FIELDS)), prior, old(d.Rest()), err,
        AutoScalingGroupNodeInterfacesVal(slice), d.Rest())
  {
    slice := SliceOf([]);
    ghost var k, result := KObj(NODE_INTERFACE_FIELDS),
        DecodeAt(KArr(KObj(NODE_INTERFACE_FIELDS)), prior, d.Rest());
    ElemsOpening(k, prior, d.Rest());
    assert AutoScalingGroupNodeInterfacesVal(slice).elems == [];
    ZeroAutoScalingGroupNodeInterfaceVal();
    if !d.At(ArrStart) {
      return slice, Invalid;
    }
    d.Advance();
    while !d.At(ArrEnd)
      invariant d.Valid() && slice.SliceOf?
      invariant result == RemainingElems(k, AutoScalingGroupNodeInterfacesVal(slice).elems, d.Rest())
      decreases |d.Rest()|
    {
      ghost var read := AutoScalingGroupNodeInterfacesVal(slice).elems;
      ElemsNext(k, read, d.Rest());
      var elem := new AutoScalingGroupNodeInterfaceRef(ZERO_AUTO_SCALING_GROUP_NODE_INTERFACE);
      err := elem.Decode(d);
      if err != NoError {
        return slice, Invalid;
      }
      slice := SliceOf(slice.elems + [elem.s]);
      assert AutoScalingGroupNodeInterfacesVal(slice).elems == read + [AutoScalingGroupNodeInterfaceVal(elem.s)];
    }
    ElemsClosing(k, AutoScalingGroupNodeInterfacesVal(slice).elems, d.Rest());
    d.Advance();
    err := NoError;
  }

  method EncodeAutoScalingGroupNodeInterfaces(e: Encoder, slice: Slice<AutoScalingGroupNodeInterface>)
    modifies e
    ensures e.tokens == Encode(old(e.tokens), KArr(KObj(NODE_INTERFACE_FIELDS)),
        AutoScalingGroupNodeInterfacesVal(slice))
  {
    ghost var acc := e.tokens + [ArrStart];
    e.Put(ArrStart);
    var elems := if slice.SliceOf? then slice.elems else [];
    for i := 0 to |elems|
      invariant e.tokens == EncodeElems(acc, KObj(NODE_INTERFACE_FIELDS),
          Elems(AutoScalingGroupNodeInterfacesVal(slice)), i)
    {
      var elem := new AutoScalingGroupNodeInterfaceRef(elems[i]);
      elem.Encode(e);
    }
    e.Put(ArrEnd);
  }

  lemma ZeroAutoScalingGroupNodeInterfaceVal()
    ensures AutoScalingGroupNodeInterfaceVal(ZERO_AUTO_SCALING_GROUP_NODE_INTERFACE) ==
        Zero(KObj(NODE_INTERFACE_FIELDS))
  {
    assert AutoScalingGroupNodeInterfaceVal(ZERO_AUTO_SCALING_GROUP_NODE_INTERFACE).vals ==
        Zero(KObj(NODE_INTERFACE_FIELDS)).vals;
  }

  // ---------- ReadAutoScalingGroupDetail ----------

  datatype ReadAutoScalingGroupDetail = ReadAutoScalingGroupDetail(
    autoScalingGroupID: Uuid, name: string, zone: string, nameServers: Slice<string>,
    workerServiceClassPath: string, minNodes: int32, maxNodes: int32, workerNodeCount: int32,
    deleting: bool, interfaces: Slice<AutoScalingGroupNodeInterface>)

  const ZERO_READ_AUTO_SCALING_GROUP_DETAIL := ReadAutoScalingGroupDetail(ZERO_UUID, "", "", NilSlice, "", 0, 0, 0,
      false, NilSlice)

  /** The value of field `i`, in the order of `ASG_DETAIL_FIELDS`. */
  function ReadAutoScalingGroupDetailAt(s: ReadAutoScalingGroupDetail, i: nat): Val
    requires i < 10
  {
    if i == 0 then VStr(s.autoScalingGroupID)
    else if i == 1 then VStr(s.name)
    else if i == 2 then VStr(s.zone)
    else if i == 3 then StringsVal(s.nameServers)
    else if i == 4 then VStr(s.workerServiceClassPath)
    else if i == 5 then VInt(s.minNodes)
    else if i == 6 then VInt(s.maxNodes)
    else if i == 7 then VInt(s.workerNodeCount)
    else if i == 8 then VBool(s.deleting)
    else AutoScalingGroupNodeInterfacesVal(s.interfaces)
  }

  function ReadAutoScalingGroupDetailVal(s: ReadAutoScalingGroupDetail): Val {
    VObj(seq(10, i requires 0 <= i < 10 => ReadAutoScalingGroupDetailAt(s, i)))
  }

  lemma ReadAutoScalingGroupDetailFits(s: ReadAutoScalingGroupDetail)
    ensures Fits(KObj(ASG_DETAIL_FIELDS), ReadAutoScalingGroupDetailVal(s))
  {
    AutoScalingGroupNodeInterfacesFits(s.interfaces);
    forall i | 0 <= i < 10 ensures Fits(ASG_DETAIL_FIELDS[i].kind, ReadAutoScalingGroupDetailAt(s, i)) {
    }
  }

  /** The mask literals at the end of `Decode`: exactly the required fields. */
  const ASG_DETAIL_MASKS: seq<bv8> := [0xF7, 0x03]  // 0b11110111, 0b00000011

  lemma AsgDetailMask()
    ensures Represents(ASG_DETAIL_MASKS, RequiredOf(ASG_DETAIL_FIELDS))
  {
  }

  /** A `*ReadAutoScalingGroupDetail`: the struct its methods update. */
  class ReadAutoScalingGroupDetailRef {
    var s: ReadAutoScalingGroupDetail

    constructor (s: ReadAutoScalingGroupDetail)
      ensures this.s == s
    {
      this.s := s;
    }

    method Encode(e: Encoder)
      modifies e
      ensures e.tokens == Schema.Encode(old(e.tokens), KObj(ASG_DETAIL_FIELDS), ReadAutoScalingGroupDetailVal(s))
    {
      ghost var acc := e.tokens + [ObjStart];
      e.Put(ObjStart);
      EncodeFields(e, acc);
      e.Put(ObjEnd);
    }

    /** `encodeFields`. */
    method EncodeFields(e: Encoder, ghost acc: seq<Token>)
      requires e.tokens == Schema.EncodeFields(acc, KObj(ASG_DETAIL_FIELDS), ReadAutoScalingGroupDetailVal(s).vals,
          0)
      modifies e
      ensures e.tokens == Schema.EncodeFields(acc, KObj(ASG_DETAIL_FIELDS), ReadAutoScalingGroupDetailVal(s).vals,
          10)
    {
      e.Put(Key("autoScalingGroupID"));
      e.Put(Str(s.autoScalingGroupID));
      assert e.tokens == Schema.EncodeFields(acc, KObj(ASG_DETAIL_FIELDS), ReadAutoScalingGroupDetailVal(s).vals,
          1);
      e.Put(Key("name"));
      e.Put(Str(s.name));
      assert e.tokens == Schema.EncodeFields(acc, KObj(ASG_DETAIL_FIELDS), ReadAutoScalingGroupDetailVal(s).vals,
          2);
      e.Put(Key("zone"));
      e.Put(Str(s.zone));
      assert e.tokens == Schema.EncodeFields(acc, KObj(ASG_DETAIL_FIELDS), ReadAutoScalingGroupDetailVal(s).vals,
          3);
      EncodeFieldsFrom3(e, acc);
    }

    /** `encodeFields` from field 3 on. */
    method EncodeFieldsFrom3(e: Encoder, ghost acc: seq<Token>)
      requires e.tokens == Schema.EncodeFields(acc, KObj(ASG_DETAIL_FIELDS), ReadAutoScalingGroupDetailVal(s).vals,
          3)
      modifies e
      ensures e.tokens == Schema.EncodeFields(acc, KObj(ASG_DETAIL_FIELDS), ReadAutoScalingGroupDetailVal(s).vals,
          10)
    {
      if s.nameServers != NilSlice {
        e.Put(Key("nameServers"));
        EncodeStrings(e, s.nameServers);
      }
      assert e.tokens == Schema.EncodeFields(acc, KObj(ASG_DETAIL_FIELDS), ReadAutoScalingGroupDetailVal(s).vals,
          4);
      e.Put(Key("workerServiceClassPath"));
      e.Put(Str(s.workerServiceClassPath));
      assert e.tokens == Schema.EncodeFields(acc, KObj(ASG_DETAIL_FIELDS), ReadAutoScalingGroupDetailVal(s).vals,
          5);
      e.Put(Key("minNodes"));
      e.Put(Int(s.minNodes));
      assert e.tokens == Schema.EncodeFields(acc, KObj(ASG_DETAIL_FIELDS), ReadAutoScalingGroupDetailVal(s).vals,
          6);
      EncodeFieldsFrom6(e, acc);
    }

    /** `encodeFields` from field 6 on. */
    method EncodeFieldsFrom6(e: Encoder, ghost acc: seq<Token>)
      requires e.tokens == Schema.EncodeFields(acc, KObj(ASG_DETAIL_FIELDS), ReadAutoScalingGroupDetailVal(s).vals,
          6)
      modifies e
      ensures e.tokens == Schema.EncodeFields(acc, KObj(ASG_DETAIL_FIELDS), ReadAutoScalingGroupDetailVal(s).vals,
          10)
    {
      e.Put(Key("maxNodes"));
      e.Put(Int(s.maxNodes));
      assert e.tokens == Schema.EncodeFields(acc, KObj(ASG_DETAIL_FIELDS), ReadAutoScalingGroupDetailVal(s).vals,
          7);
      e.Put(Key("workerNodeCount"));
      e.Put(Int(s.workerNodeCount));
      assert e.tokens == Schema.EncodeFields(acc, KObj(ASG_DETAIL_FIELDS), ReadAutoScalingGroupDetailVal(s).vals,
          8);
      e.Put(Key("deleting"));
      e.Put(Bool(s.deleting));
      assert e.tokens == Schema.EncodeFields(acc, KObj(ASG_DETAIL_FIELDS), ReadAutoScalingGroupDetailVal(s).vals,
          9);
      assert ReadAutoScalingGroupDetailVal(s).vals[9] == ReadAutoScalingGroupDetailAt(s, 9);
      e.Put(Key("interfaces"));
      EncodeAutoScalingGroupNodeInterfaces(e, s.interfaces);
    }

    /** The `ObjBytes` callback: the field the key selects is decoded, a required one's bit set. */
    method DecodeField(d: Decoder, k: string, requiredBitSet: seq<bv8>, ghost marks: set<nat>)
      returns (err: Error, bits: seq<bv8>)
      requires d.Valid() && |requiredBitSet| == 2 && Represents(requiredBitSet, marks)
      modifies this, d
      ensures d.Valid() && |bits| == 2 &&
          Represents(bits, Mark(ASG_DETAIL_FIELDS, marks, Find(ASG_DETAIL_FIELDS, k)))
      ensures MemberRead(ASG_DETAIL_FIELDS, ReadAutoScalingGroupDetailVal(old(s)), k, old(d.Rest()), err,
          ReadAutoScalingGroupDetailVal(s), d.Rest())
    {
      ghost var f, prior := ASG_DETAIL_FIELDS, ReadAutoScalingGroupDetailVal(s);
      bits := requiredBitSet;
      ghost var t := d.Rest();
      if k == "autoScalingGroupID" {
        bits := SetRequired(bits, 0, 0, f, marks);
        var v;
        v, err := d.Uuid(VStr(s.autoScalingGroupID));
        s := s.(autoScalingGroupID := v);
        assert ReadAutoScalingGroupDetailVal(s).vals == prior.vals[0 := VStr(s.autoScalingGroupID)];
        FieldRead(f, prior, k, 0, t, err, VStr(s.autoScalingGroupID), ReadAutoScalingGroupDetailVal(s), d.Rest());
      } else if k == "name" {
        bits := SetRequired(bits, 0, 1, f, marks);
        var v;
        v, err := d.Str(VStr(s.name));
        s := s.(name := v);
        assert ReadAutoScalingGroupDetailVal(s).vals == prior.vals[1 := VStr(s.name)];
        FieldRead(f, prior, k, 1, t, err, VStr(s.name), ReadAutoScalingGroupDetailVal(s), d.Rest());
      } else {
        err, bits := DecodeFieldFrom2(d, k, requiredBitSet, marks);
      }
    }

    /** The key switch from case 2 on. */
    method DecodeFieldFrom2(d: Decoder, k: string, requiredBitSet: seq<bv8>, ghost marks: set<nat>)
      returns (err: Error, bits: seq<bv8>)
      requires d.Valid() && |requiredBitSet| == 2 && Represents(requiredBitSet, marks)
      requires Find(ASG_DETAIL_FIELDS, k) == Find(ASG_DETAIL_FIELDS, k, 2)
      modifies this, d
      ensures d.Valid() && |bits| == 2 &&
          Represents(bits, Mark(ASG_DETAIL_FIELDS, marks, Find(ASG_DETAIL_FIELDS, k)))
      ensures MemberRead(ASG_DETAIL_FIELDS, ReadAutoScalingGroupDetailVal(old(s)), k, old(d.Rest()), err,
          ReadAutoScalingGroupDetailVal(s), d.Rest())
    {
      ghost var f, prior := ASG_DETAIL_FIELDS, ReadAutoScalingGroupDetailVal(s);
      bits := requiredBitSet;
      ghost var t := d.Rest();
      if k == "zone" {
        bits := SetRequired(bits, 0, 2, f, marks);
        var v;
        v, err := d.Str(VStr(s.zone));
        s := s.(zone := v);
        assert ReadAutoScalingGroupDetailVal(s).vals == prior.vals[2 := VStr(s.zone)];
        FieldRead(f, prior, k, 2, t, err, VStr(s.zone), ReadAutoScalingGroupDetailVal(s), d.Rest());
      } else if k == "nameServers" {
        var v;
        v, err := DecodeStrings(d, StringsVal(s.nameServers));
        s := s.(nameServers := v);
        assert ReadAutoScalingGroupDetailVal(s).vals == prior.vals[3 := StringsVal(s.nameServers)];
        FieldRead(f, prior, k, 3, t, err, StringsVal(s.nameServers), ReadAutoScalingGroupDetailVal(s), d.Rest());
      } else {
        err, bits := DecodeFieldFrom4(d, k, requiredBitSet, marks);
      }
    }

    /** The key switch from case 4 on. */
    method DecodeFieldFrom4(d: Decoder, k: string, requiredBitSet: seq<bv8>, ghost marks: set<nat>)
      returns (err: Error, bits: seq<bv8>)
      requires d.Valid() && |requiredBitSet| == 2 && Represents(requiredBitSet, marks)
      requires Find(ASG_DETAIL_FIELDS, k) == Find(ASG_DETAIL_FIELDS, k, 4)
      modifies this, d
      ensures d.Valid() && |bits| == 2 &&
          Represents(bits, Mark(ASG_DETAIL_FIELDS, marks, Find(ASG_DETAIL_FIELDS, k)))
      ensures MemberRead(ASG_DETAIL_FIELDS, ReadAutoScalingGroupDetailVal(old(s)), k, old(d.Rest()), err,
          ReadAutoScalingGroupDetailVal(s), d.Rest())
    {
      ghost var f, prior := ASG_DETAIL_FIELDS, ReadAutoScalingGroupDetailVal(s);
      bits := requiredBitSet;
      ghost var t := d.Rest();
      if k == "workerServiceClassPath" {
        bits := SetRequired(bits, 0, 4, f, marks);
        var v;
        v, err := d.Str(VStr(s.workerServiceClassPath));
        s := s.(workerServiceClassPath := v);
        assert ReadAutoScalingGroupDetailVal(s).vals == prior.vals[4 := VStr(s.workerServiceClassPath)];
        FieldRead(f, prior, k, 4, t, err, VStr(s.workerServiceClassPath), ReadAutoScalingGroupDetailVal(s),
            d.Rest());
      } else if k == "minNodes" {
        bits := SetRequired(bits, 0, 5, f, marks);
        var v;
        v, err := d.Int(-0x8000_0000, 0x7FFF_FFFF, VInt(s.minNodes));
        s := s.(minNodes := v);
        assert ReadAutoScalingGroupDetailVal(s).vals == prior.vals[5 := VInt(s.minNodes)];
        FieldRead(f, prior, k, 5, t, err, VInt(s.minNodes), ReadAutoScalingGroupDetailVal(s), d.Rest());
      } else {
        err, bits := DecodeFieldFrom6(d, k, requiredBitSet, marks);
      }
    }

    /** The key switch from case 6 on. */
    method DecodeFieldFrom6(d: Decoder, k: string, requiredBitSet: seq<bv8>, ghost marks: set<nat>)
      returns (err: Error, bits: seq<bv8>)
      requires d.Valid() && |requiredBitSet| == 2 && Represents(requiredBitSet, marks)
      requires Find(ASG_DETAIL_FIELDS, k) == Find(ASG_DETAIL_FIELDS, k, 6)
      modifies this, d
      ensures d.Valid() && |bits| == 2 &&
          Represents(bits, Mark(ASG_DETAIL_FIELDS, marks, Find(ASG_DETAIL_FIELDS, k)))
      ensures MemberRead(ASG_DETAIL_FIELDS, ReadAutoScalingGroupDetailVal(old(s)), k, old(d.Rest()), err,
          ReadAutoScalingGroupDetailVal(s), d.Rest())
    {
      ghost var f, prior := ASG_DETAIL_FIELDS, ReadAutoScalingGroupDetailVal(s);
      bits := requiredBitSet;
      ghost var t := d.Rest();
      if k == "maxNodes" {
        bits := SetRequired(bits, 0, 6, f, marks);
        var v;
        v, err := d.Int(-0x8000_0000, 0x7FFF_FFFF, VInt(s.maxNodes));
        s := s.(maxNodes := v);
        assert ReadAutoScalingGroupDetailVal(s).vals == prior.vals[6 := VInt(s.maxNodes)];
        FieldRead(f, prior, k, 6, t, err, VInt(s.maxNodes), ReadAutoScalingGroupDetailVal(s), d.Rest());
      } else if k == "workerNodeCount" {
        bits := SetRequired(bits, 0, 7, f, marks);
        var v;
        v, err := d.Int(-0x8000_0000, 0x7FFF_FFFF, VInt(s.workerNodeCount));
        s := s.(workerNodeCount := v);
        assert ReadAutoScalingGroupDetailVal(s).vals == prior.vals[7 := VInt(s.workerNodeCount)];
        FieldRead(f, prior, k, 7, t, err, VInt(s.workerNodeCount), ReadAutoScalingGroupDetailVal(s), d.Rest());
      } else {
        err, bits := DecodeFieldFrom8(d, k, requiredBitSet, marks);
      }
    }

    /** The key switch from case 8 on. */
    method DecodeFieldFrom8(d: Decoder, k: string, requiredBitSet: seq<bv8>, ghost marks: set<nat>)
      returns (err: Error, bits: seq<bv8>)
      requires d.Valid() && |requiredBitSet| == 2 && Represents(requiredBitSet, marks)
      requires Find(ASG_DETAIL_FIELDS, k) == Find(ASG_DETAIL_FIELDS, k, 8)
      modifies this, d
      ensures d.Valid() && |bits| == 2 &&
          Represents(bits, Mark(ASG_DETAIL_FIELDS, marks, Find(ASG_DETAIL_FIELDS, k)))
      ensures MemberRead(ASG_DETAIL_FIELDS, ReadAutoScalingGroupDetailVal(old(s)), k, old(d.Rest()), err,
          ReadAutoScalingGroupDetailVal(s), d.Rest())
    {
      ghost var f, prior := ASG_DETAIL_FIELDS, ReadAutoScalingGroupDetailVal(s);
      bits := requiredBitSet;
      ghost var t := d.Rest();
      if k == "deleting" {
        bits := SetRequired(bits, 1, 0, f, marks);
        var v;
        v, err := d.Bool(VBool(s.deleting));
        s := s.(deleting := v);
        assert ReadAutoScalingGroupDetailVal(s).vals == prior.vals[8 := VBool(s.deleting)];
        FieldRead(f, prior, k, 8, t, err, VBool(s.deleting), ReadAutoScalingGroupDetailVal(s), d.Rest());
      } else if k == "interfaces" {
        bits := SetRequired(bits, 1, 1, f, marks);
        var v;
        v, err := DecodeAutoScalingGroupNodeInterfaces(d, AutoScalingGroupNodeInterfacesVal(s.interfaces));
        s := s.(interfaces := v);
        assert ReadAutoScalingGroupDetailVal(s).vals ==
            prior.vals[9 := AutoScalingGroupNodeInterfacesVal(s.interfaces)];
        FieldRead(f, prior, k, 9, t, err, AutoScalingGroupNodeInterfacesVal(s.interfaces),
            ReadAutoScalingGroupDetailVal(s), d.Rest());
      } else {
        var r := d.Skip();
        err := if r == Skipped then NoError else Invalid;
      }
    }

    method Decode(d: Decoder) returns (err: Error)
      requires d.Valid()
      modifies this, d
      ensures d.Valid()
      ensures Reads(KObj(ASG_DETAIL_FIELDS), ReadAutoScalingGroupDetailVal(old(s)), old(d.Rest()), err,
          ReadAutoScalingGroupDetailVal(s), d.Rest())
    {
      var f := ASG_DETAIL_FIELDS;
      var requiredBitSet := ZeroBits(2);
      ghost var result := DecodeAt(KObj(f), ReadAutoScalingGroupDetailVal(s), d.Rest());
      ghost var seen, marks: set<nat> := [], {};
      Opening(f, ReadAutoScalingGroupDetailVal(s), d.Rest());
      assert ReadAutoScalingGroupDetailVal(s).vals == Preset(f, ReadAutoScalingGroupDetailVal(s).vals);
      if !d.At(ObjStart) {
        return Invalid;
      }
      d.Advance();
      while true
        invariant d.Valid() && |requiredBitSet| == 2 && Represents(requiredBitSet, marks)
        invariant Looping(f, result, ReadAutoScalingGroupDetailVal(s).vals, seen, marks, d.Rest())
        decreases |d.Rest()|
      {
        ghost var t, vals := d.Rest(), ReadAutoScalingGroupDetailVal(s).vals;
        Closing(f, result, vals, seen, marks, t);
        var more, k;
        more, k, err := d.NextKey();
        if err != NoError {
          return Invalid;
        }
        if !more {
          break;
        }
        NextMember(f, result, vals, seen, marks, t);
        err, requiredBitSet := DecodeField(d, k, requiredBitSet, marks);
        if err != NoError {
          return Invalid;
        }
        seen, marks := seen + [Member(k, Parse(t[1..]).value)], Mark(f, marks, Find(f, k));
      }
      AsgDetailMask();
      err := CheckRequired(f, requiredBitSet, ASG_DETAIL_MASKS, seen);
    }
  }

  lemma ZeroReadAutoScalingGroupDetailVal()
    ensures ReadAutoScalingGroupDetailVal(ZERO_READ_AUTO_SCALING_GROUP_DETAIL) == Zero(KObj(ASG_DETAIL_FIELDS))
  {
    assert ReadAutoScalingGroupDetailVal(ZERO_READ_AUTO_SCALING_GROUP_DETAIL).vals ==
        Zero(KObj(ASG_DETAIL_FIELDS)).vals;
  }

  // ---------- GetAutoScalingGroupResponse ----------

  datatype GetAutoScalingGroupResponse = GetAutoScalingGroupResponse(
    autoScalingGroup: ReadAutoScalingGroupDetail)

  const ZERO_GET_AUTO_SCALING_GROUP_RESPONSE := GetAutoScalingGroupResponse(ZERO_READ_AUTO_SCALING_GROUP_DETAIL)

  /** The value of field `i`, in the order of `GET_ASG_FIELDS`. */
  function GetAutoScalingGroupResponseAt(s: GetAutoScalingGroupResponse, i: nat): Val
    requires i < 1
  {
    ReadAutoScalingGroupDetailVal(s.autoScalingGroup)
  }

  function GetAutoScalingGroupResponseVal(s: GetAutoScalingGroupResponse): Val {
    VObj(seq(1, i requires 0 <= i < 1 => GetAutoScalingGroupResponseAt(s, i)))
  }

  lemma GetAutoScalingGroupResponseFits(s: GetAutoScalingGroupResponse)
    ensures Fits(KObj(GET_ASG_FIELDS), GetAutoScalingGroupResponseVal(s))
  {
    ReadAutoScalingGroupDetailFits(s.autoScalingGroup);
    forall i | 0 <= i < 1 ensures Fits(GET_ASG_FIELDS[i].kind, GetAutoScalingGroupResponseAt(s, i)) {
    }
  }

  /** The mask literals at the end of `Decode`: exactly the required fields. */
  const GET_ASG_MASKS: seq<bv8> := [0x01]  // 0b00000001

  lemma GetAsgMask()
    ensures Represents(GET_ASG_MASKS, RequiredOf(GET_ASG_FIELDS))
  {
  }

  /** A `*GetAutoScalingGroupResponse`: the struct its methods update. */
  class GetAutoScalingGroupResponseRef {
    var s: GetAutoScalingGroupResponse

    constructor (s: GetAutoScalingGroupResponse)
      ensures this.s == s
    {
      this.s := s;
    }

    method Encode(e: Encoder)
      modifies e
      ensures e.tokens == Schema.Encode(old(e.tokens), KObj(GET_ASG_FIELDS), GetAutoScalingGroupResponseVal(s))
    {
      ghost var acc := e.tokens + [ObjStart];
      e.Put(ObjStart);
      EncodeFields(e, acc);
      e.Put(ObjEnd);
    }

    /** `encodeFields`. */
    method EncodeFields(e: Encoder, ghost acc: seq<Token>)
      requires e.tokens == Schema.EncodeFields(acc, KObj(GET_ASG_FIELDS), GetAutoScalingGroupResponseVal(s).vals, 0)
      modifies e
      ensures e.tokens == Schema.EncodeFields(acc, KObj(GET_ASG_FIELDS), GetAutoScalingGroupResponseVal(s).vals, 1)
    {
      e.Put(Key("autoScalingGroup"));
      var autoScalingGroup := new ReadAutoScalingGroupDetailRef(s.autoScalingGroup);
      autoScalingGroup.Encode(e);
    }

    /** The `ObjBytes` callback: the field the key selects is decoded, a required one's bit set. */
    method DecodeField(d: Decoder, k: string, requiredBitSet: seq<bv8>, ghost marks: set<nat>)
      returns (err: Error, bits: seq<bv8>)
      requires d.Valid() && |requiredBitSet| == 1 && Represents(requiredBitSet, marks)
      modifies this, d
      ensures d.Valid() && |bits| == 1 && Represents(bits, Mark(GET_ASG_FIELDS, marks, Find(GET_ASG_FIELDS, k)))
      ensures MemberRead(GET_ASG_FIELDS, GetAutoScalingGroupResponseVal(old(s)), k, old(d.Rest()), err,
          GetAutoScalingGroupResponseVal(s), d.Rest())
    {
      ghost var f, prior := GET_ASG_FIELDS, GetAutoScalingGroupResponseVal(s);
      bits := requiredBitSet;
      ghost var t := d.Rest();
      if k == "autoScalingGroup" {
        bits := SetRequired(bits, 0, 0, f, marks);
        var autoScalingGroup := new ReadAutoScalingGroupDetailRef(s.autoScalingGroup);
        err := autoScalingGroup.Decode(d);
        s := s.(autoScalingGroup := autoScalingGroup.s);
        assert GetAutoScalingGroupResponseVal(s).vals ==
            prior.vals[0 := ReadAutoScalingGroupDetailVal(s.autoScalingGroup)];
        FieldRead(f, prior, k, 0, t, err, ReadAutoScalingGroupDetailVal(s.autoScalingGroup),
            GetAutoScalingGroupResponseVal(s), d.Rest());
      } else {
        var r := d.Skip();
        err := if r == Skipped then NoError else Invalid;
      }
    }

    method Decode(d: Decoder) returns (err: Error)
      requires d.Valid()
      modifies this, d
      ensures d.Valid()
      ensures Reads(KObj(GET_ASG_FIELDS), GetAutoScalingGroupResponseVal(old(s)), old(d.Rest()), err,
          GetAutoScalingGroupResponseVal(s), d.Rest())
    {
      var f := GET_ASG_FIELDS;
      var requiredBitSet := ZeroBits(1);
      ghost var result := DecodeAt(KObj(f), GetAutoScalingGroupResponseVal(s), d.Rest());
      ghost var seen, marks: set<nat> := [], {};
      Opening(f, GetAutoScalingGroupResponseVal(s), d.Rest());
      assert GetAutoScalingGroupResponseVal(s).vals == Preset(f, GetAutoScalingGroupResponseVal(s).vals);
      if !d.At(ObjStart) {
        return Invalid;
      }
      d.Advance();
      while true
        invariant d.Valid() && |requiredBitSet| == 1 && Represents(requiredBitSet, marks)
        invariant Looping(f, result, GetAutoScalingGroupResponseVal(s).vals, seen, marks, d.Rest())
        decreases |d.Rest()|
      {
        ghost var t, vals := d.Rest(), GetAutoScalingGroupResponseVal(s).vals;
        Closing(f, result, vals, seen, marks, t);
        var more, k;
        more, k, err := d.NextKey();
        if err != NoError {
          return Invalid;
        }
        if !more {
          break;
        }
        NextMember(f, result, vals, seen, marks, t);
        err, requiredBitSet := DecodeField(d, k, requiredBitSet, marks);
        if err != NoError {
          return Invalid;
        }
        seen, marks := seen + [Member(k, Parse(t[1..]).value)], Mark(f, marks, Find(f, k));
      }
      GetAsgMask();
      err := CheckRequired(f, requiredBitSet, GET_ASG_MASKS, seen);
    }
  }

  lemma ZeroGetAutoScalingGroupResponseVal()
    ensures GetAutoScalingGroupResponseVal(ZERO_GET_AUTO_SCALING_GROUP_RESPONSE) == Zero(KObj(GET_ASG_FIELDS))
  {
    ZeroReadAutoScalingGroupDetailVal();
    assert GetAutoScalingGroupResponseVal(ZERO_GET_AUTO_SCALING_GROUP_RESPONSE).vals ==
        Zero(KObj(GET_ASG_FIELDS)).vals;
  }
}
