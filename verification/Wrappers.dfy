/** The `Opt*` and `Nil*` wrappers of scalars, slices of strings, and the `Arr` loop. */
module Wrappers {
  import opened Json
  import opened Schema
  import opened Jx
  import opened Kinds

  datatype OptOf<T> = OptOf(value: T, isSet: bool)
  datatype NilOf<T> = NilOf(value: T, isNull: bool)

  datatype Slice<T> = NilSlice | SliceOf(elems: seq<T>)

  /** What `range` goes over. */
  function Items<T>(s: Slice<T>): seq<T> { if s.NilSlice? then [] else s.elems }

  function StringsVal(s: Slice<string>): Val {
    if s.NilSlice? then VNilSlice else VSlice(seq(|s.elems|, i requires 0 <= i < |s.elems| => VStr(s.elems[i])))
  }

  lemma StringsFits(s: Slice<string>)
    ensures Fits(KArr(KStr), StringsVal(s))
  {
  }

  // `Reset` and `Decode` of `OptInt16`, `OptInt32` and `OptString`.

  method DecodeOptInt16(d: Decoder, ghost prior: Val) returns (o: OptOf<int16>, err: Error)
    requires d.Valid()
    modifies d
    ensures d.Valid() && Reads(KOpt(INT16), prior, old(d.Rest()), err, VOpt(o.isSet, VInt(o.value)), d.Rest())
  {
    var v;
    v, err := d.Int(-0x8000, 0x7FFF, VInt(0));
    o := OptOf(if err == NoError then v else 0, true);
  }

  method DecodeOptInt32(d: Decoder, ghost prior: Val) returns (o: OptOf<int32>, err: Error)
    requires d.Valid()
    modifies d
    ensures d.Valid() && Reads(KOpt(INT32), prior, old(d.Rest()), err, VOpt(o.isSet, VInt(o.value)), d.Rest())
  {
    var v;
    v, err := d.Int(-0x8000_0000, 0x7FFF_FFFF, VInt(0));
    o := OptOf(if err == NoError then v else 0, true);
  }

  method DecodeOptString(d: Decoder, ghost prior: Val) returns (o: OptOf<string>, err: Error)
    requires d.Valid()
    modifies d
    ensures d.Valid() && Reads(KOpt(KStr), prior, old(d.Rest()), err, VOpt(o.isSet, VStr(o.value)), d.Rest())
  {
    var v;
    v, err := d.Str(VStr(""));
    o := OptOf(if err == NoError then v else "", true);
  }

  /** `Nil*.Decode` peeks for null and otherwise decodes the payload in place. */
  lemma NilAt(e: Kind, prior: Val, t: seq<Token>)
    ensures DecodeAt(KNil(e), prior, t) ==
            if t != [] && t[0] == Null then DoneAt(VNil(true, Zero(e)), t[1..])
            else
              var inner := DecodeAt(e, Payload(e, prior), t);
              if inner.DoneAt? then DoneAt(VNil(false, inner.v), inner.rest) else inner
  {
  }

  /** `NilPort.Decode`. */
  method DecodeNilPort(d: Decoder, ghost prior: Val) returns (o: NilOf<uint16>, err: Error)
    requires d.Valid()
    modifies d
    ensures d.Valid() && Reads(KNil(UINT16), prior, old(d.Rest()), err, VNil(o.isNull, VInt(o.value)), d.Rest())
  {
    NilAt(UINT16, prior, d.Rest());
    if d.At(Null) {
      d.Advance();
      o, err := NilOf(0, true), NoError;
    } else {
      var v;
      v, err := d.Int(0, 0xFFFF, Payload(UINT16, prior));
      o := NilOf(v, false);
    }
  }

  method DecodeNilString(d: Decoder, ghost prior: Val) returns (o: NilOf<string>, err: Error)
    requires d.Valid()
    modifies d
    ensures d.Valid() && Reads(KNil(KStr), prior, old(d.Rest()), err, VNil(o.isNull, VStr(o.value)), d.Rest())
  {
    NilAt(KStr, prior, d.Rest());
    if d.At(Null) {
      d.Advance();
      o, err := NilOf("", true), NoError;
    } else {
      var v;
      v, err := d.Str(Payload(KStr, prior));
      o := NilOf(v, false);
    }
  }

  method EncodeOptInt16(e: Encoder, o: OptOf<int16>)
    modifies e
    ensures e.tokens == Encode(old(e.tokens), KOpt(INT16), VOpt(o.isSet, VInt(o.value)))
  {
    if !o.isSet {
      return;
    }
    e.Put(Int(o.value));
  }

  method EncodeOptInt32(e: Encoder, o: OptOf<int32>)
    modifies e
    ensures e.tokens == Encode(old(e.tokens), KOpt(INT32), VOpt(o.isSet, VInt(o.value)))
  {
    if !o.isSet {
      return;
    }
    e.Put(Int(o.value));
  }

  method EncodeOptString(e: Encoder, o: OptOf<string>)
    modifies e
    ensures e.tokens == Encode(old(e.tokens), KOpt(KStr), VOpt(o.isSet, VStr(o.value)))
  {
    if !o.isSet {
      return;
    }
    e.Put(Str(o.value));
  }

  method EncodeNilPort(e: Encoder, o: NilOf<uint16>)
    modifies e
    ensures e.tokens == Encode(old(e.tokens), KNil(UINT16), VNil(o.isNull, VInt(o.value)))
  {
    if o.isNull {
      e.Put(Null);
      return;
    }
    e.Put(Int(o.value));
  }

  method EncodeNilString(e: Encoder, o: NilOf<string>)
    modifies e
    ensures e.tokens == Encode(old(e.tokens), KNil(KStr), VNil(o.isNull, VStr(o.value)))
  {
    if o.isNull {
      e.Put(Null);
      return;
    }
    e.Put(Str(o.value));
  }

  // ---------- the Arr loop ----------

  /** What the rest of the loop comes to when the elements `read` are there and `t` is left. */
  ghost function RemainingElems(e: Kind, read: seq<Val>, t: seq<Token>): Schema.At {
    match ParseElems(t)
    case Fail => FailedAt
    case Ok(js, rest) =>
      match DecodeElems(e, js)
      case None => FailedAt
      case Some(vs) => DoneAt(VSlice(read + vs), rest)
  }

  lemma ElemsOpening(e: Kind, prior: Val, t: seq<Token>)
    ensures DecodeAt(KArr(e), prior, t) ==
            if t != [] && t[0] == ArrStart then RemainingElems(e, [], t[1..]) else FailedAt
  {
    if t != [] && t[0] == ArrStart && RemainingElems(e, [], t[1..]).DoneAt? {
      var vs := DecodeElems(e, ParseElems(t[1..]).value).value;
      assert [] + vs == vs;
    }
  }

  lemma ElemsNext(e: Kind, read: seq<Val>, t: seq<Token>)
    requires t == [] || t[0] != ArrEnd
    ensures var head := DecodeAt(e, Zero(e), t);
            RemainingElems(e, read, t) ==
            if head.DoneAt? then RemainingElems(e, read + [head.v], head.rest) else FailedAt
  {
    if Parse(t).Ok? && ParseElems(Parse(t).rest).Ok? {
      var j, js := Parse(t).value, ParseElems(Parse(t).rest).value;
      assert ([j] + js)[1..] == js;
      if Decode(e, Zero(e), j).Done? && DecodeElems(e, js).Some? {
        var v, vs := Decode(e, Zero(e), j).v, DecodeElems(e, js).value;
        assert read + ([v] + vs) == (read + [v]) + vs;
      }
    }
  }

  lemma ElemsClosing(e: Kind, read: seq<Val>, t: seq<Token>)
    requires t != [] && t[0] == ArrEnd
    ensures RemainingElems(e, read, t) == DoneAt(VSlice(read), t[1..])
  {
    assert read + [] == read;
  }

  /** `s.Cmd`, `s.Host`, `s.NameServers`: a fresh slice filled from the array. */
  method DecodeStrings(d: Decoder, ghost prior: Val) returns (slice: Slice<string>, err: Error)
    requires d.Valid()
    modifies d
    ensures d.Valid() && Reads(KArr(KStr), prior, old(d.Rest()), err, StringsVal(slice), d.Rest())
  {
    slice := SliceOf([]);
    ghost var result := DecodeAt(KArr(KStr), prior, d.Rest());
    ElemsOpening(KStr, prior, d.Rest());
    assert StringsVal(slice).elems == [];
    if !d.At(ArrStart) {
      return slice, Invalid;
    }
    d.Advance();
    while !d.At(ArrEnd)
      invariant d.Valid() && slice.SliceOf?
      invariant result == RemainingElems(KStr, StringsVal(slice).elems, d.Rest())
      decreases |d.Rest()|
    {
      ghost var read := StringsVal(slice).elems;
      ElemsNext(KStr, read, d.Rest());
      var s;
      s, err := d.Str(VStr(""));
      if err != NoError {
        return slice, Invalid;
      }
      slice := SliceOf(slice.elems + [s]);
      assert StringsVal(slice).elems == read + [VStr(s)];
    }
    ElemsClosing(KStr, StringsVal(slice).elems, d.Rest());
    d.Advance();
    err := NoError;
  }

  method EncodeStrings(e: Encoder, slice: Slice<string>)
    modifies e
    ensures e.tokens == Encode(old(e.tokens), KArr(KStr), StringsVal(slice))
  {
    ghost var acc := e.tokens + [ArrStart];
    e.Put(ArrStart);
    var elems := if slice.SliceOf? then slice.elems else [];
    for i := 0 to |elems|
      invariant e.tokens == EncodeElems(acc, KStr, Elems(StringsVal(slice)), i)
    {
      e.Put(Str(elems[i]));
    }
    e.Put(ArrEnd);
  }
}
