/** Structs on the wire, key by key: what a key says of a Go field, told of the JSON members
    and of the field itself, without the field tables. */
module Wire {
  import opened Json
  import opened Options
  import opened Schema
  import opened Kinds
  import opened Wrappers
  import opened Laws
  import opened RoundTrips
  import opened Members
  import opened Payloads

  // ---------- sending ----------

  /** The member of a guarded field. */
  function When(present: bool, m: Member): seq<Member> { if present then [m] else [] }

  function OrNull(isNull: bool, j: Value): Value { if isNull then JNull else j }

  function TextsJson(xs: seq<string>): Value { JArr(seq(|xs|, i requires 0 <= i < |xs| => JStr(xs[i]))) }

  function Flat(parts: seq<seq<Member>>): seq<Member> {
    if parts == [] then [] else Flat(parts[..|parts| - 1]) + parts[|parts| - 1]
  }

  /** `part` is what the encoder sends of a field: one member, or none. */
  predicate Says(f: Field, v: Val, part: seq<Member>) {
    Fits(f.kind, v) && part == if Present(f, v) then [Member(f.name, Tree(f.kind, v))] else []
  }

  lemma {:induction false} StructSent(fields: seq<Field>, vals: seq<Val>, parts: seq<seq<Member>>, n: nat)
    requires Fits(KObj(fields), VObj(vals)) && n <= |fields| == |parts|
    requires forall i: nat | i < |fields| :: Says(fields[i], vals[i], parts[i])
    ensures TreeMembers(KObj(fields), vals, n) == Flat(parts[..n])
    decreases n, fields
  {
    if n > 0 {
      StructSent(fields, vals, parts, n - 1);
      assert parts[..n][..n - 1] == parts[..n - 1];
    }
  }

  // One field of each kind.

  lemma SaysInt(f: Field, x: int)
    requires f.required && f.kind.KInt? && f.kind.lo <= x <= f.kind.hi
    ensures Says(f, VInt(x), [Member(f.name, JInt(x))])
  {
  }

  lemma SaysText(f: Field, x: string)
    requires f.required && f.kind == KStr
    ensures Says(f, VStr(x), [Member(f.name, JStr(x))])
  {
  }

  lemma SaysBool(f: Field, x: bool)
    requires f.required && f.kind == KBool
    ensures Says(f, VBool(x), [Member(f.name, JBool(x))])
  {
  }

  lemma SaysUuid(f: Field, x: Uuid)
    requires f.required && f.kind == KUuid
    ensures Says(f, VStr(x), [Member(f.name, JStr(x))])
  {
  }

  lemma SaysOptInt(f: Field, isSet: bool, x: int)
    requires !f.required && f.kind.KOpt? && f.kind.inner.KInt? && f.kind.inner.lo <= x <= f.kind.inner.hi
    ensures Says(f, VOpt(isSet, VInt(x)), When(isSet, Member(f.name, JInt(x))))
  {
  }

  lemma SaysOptText(f: Field, isSet: bool, x: string)
    requires !f.required && f.kind == KOpt(KStr)
    ensures Says(f, VOpt(isSet, VStr(x)), When(isSet, Member(f.name, JStr(x))))
  {
  }

  lemma SaysNil(f: Field, isNull: bool, v: Val)
    requires f.required && f.kind.KNil? && Fits(f.kind.inner, v)
    ensures Says(f, VNil(isNull, v), [Member(f.name, OrNull(isNull, Tree(f.kind.inner, v)))])
  {
  }

  lemma SaysNilInt(f: Field, isNull: bool, x: int)
    requires f.required && f.kind.KNil? && f.kind.inner.KInt? && f.kind.inner.lo <= x <= f.kind.inner.hi
    ensures Says(f, VNil(isNull, VInt(x)), [Member(f.name, OrNull(isNull, JInt(x)))])
  {
    SaysNil(f, isNull, VInt(x));
  }

  lemma SaysNilText(f: Field, o: NilOf<string>)
    requires f.required && f.kind == KNil(KStr)
    ensures Says(f, VNil(o.isNull, VStr(o.value)), [Member(f.name, OrNull(o.isNull, JStr(o.value)))])
  {
    SaysNil(f, o.isNull, VStr(o.value));
  }

  lemma SaysSlice(f: Field, v: Val)
    requires f.kind.KArr? && Fits(f.kind, v)
    ensures Says(f, v, When(f.required || v.VSlice?, Member(f.name, Tree(f.kind, v))))
  {
  }

  lemma SaysObj(f: Field, v: Val)
    requires f.required && f.kind.KObj? && Fits(f.kind, v)
    ensures Says(f, v, [Member(f.name, Tree(f.kind, v))])
  {
  }

  lemma TextsSent(s: Slice<string>)
    ensures Fits(KArr(KStr), StringsVal(s)) && Tree(KArr(KStr), StringsVal(s)) == TextsJson(Items(s))
  {
    StringsFits(s);
    assert TreeElems(KStr, Elems(StringsVal(s))) == TextsJson(Items(s)).elems;
  }

  // ---------- receiving ----------

  /** The values that stand under a key, in order of appearance. */
  function AllOf(ms: seq<Member>, key: string): seq<Value> {
    if ms == [] then []
    else if ms[0].key == key then [ms[0].value] + AllOf(ms[1..], key)
    else AllOf(ms[1..], key)
  }

  /** One field of a successful decode: `js` is all that stands under its key. */
  predicate FieldReads(f: Field, js: seq<Value>, was: Val, now: Val) {
    (f.required ==> js != []) && DecodeAll(f.kind, if f.preset.Some? then f.preset.value else was, js) == Some(now)
  }

  lemma {:induction false} AllOfIsValues(fields: seq<Field>, i: nat, ms: seq<Member>)
    requires DistinctNames(fields) && i < |fields|
    ensures Values(fields, i, ms) == AllOf(ms, fields[i].name)
  {
    if ms != [] {
      AllOfIsValues(fields, i, ms[1..]);
      FindName(fields, i);
    }
  }

  /** A struct decodes to `now` exactly when each field does, by what stands under its key. */
  lemma StructExactly(fields: seq<Field>, was: seq<Val>, now: seq<Val>, ms: seq<Member>)
    requires WellFormed(KObj(fields)) && |was| == |now| == |fields|
    ensures Decode(KObj(fields), VObj(was), JObj(ms)) == Done(VObj(now)) <==>
            FieldsRead(fields, was, now, ms, 0, |fields|)
  {
    var vals := Preset(fields, was);
    FieldByField(fields, vals, ms);
    NothingMissing(fields, ms, |fields|);
    forall i | 0 <= i < |fields|
      ensures Values(fields, i, ms) == AllOf(ms, fields[i].name)
      ensures Occurs(fields, i, ms) <==> AllOf(ms, fields[i].name) != []
    {
      AllOfIsValues(fields, i, ms);
      OccursIsValues(fields, i, ms);
    }
    var r := DecodeMembers(KObj(fields), vals, ms);
    if r.Some? && FieldsRead(fields, was, now, ms, 0, |fields|) {
      assert r.value == now;
    }
  }

  /** Some of the fields, from `lo` to `hi`. */
  predicate FieldsRead(fields: seq<Field>, was: seq<Val>, now: seq<Val>, ms: seq<Member>, lo: nat, hi: nat)
    requires |was| == |now| == |fields| && lo <= hi <= |fields|
  {
    forall i :: lo <= i < hi ==> FieldReads(fields[i], AllOf(ms, fields[i].name), was[i], now[i])
  }

  /** A field that is replaced as a whole takes the last value; the others only have to decode. */
  lemma LastReads(f: Field, js: seq<Value>, was: Val, now: Val)
    requires Overwrites(f.kind)
    ensures js != [] ==>
            (FieldReads(f, js, was, now) <==>
             (forall j :: j in js ==> Decodes(f.kind, j)) && Decode(f.kind, Zero(f.kind), js[|js| - 1]) == Done(now))
    ensures js == [] ==>
            (FieldReads(f, js, was, now) <==>
             !f.required && now == if f.preset.Some? then f.preset.value else was)
  {
    var p := if f.preset.Some? then f.preset.value else was;
    SucceedsInTurn(f.kind, p, js);
    if forall j :: j in js ==> Decodes(f.kind, j) {
      DecodeAllLast(f.kind, p, js);
    }
  }

  /** A fresh struct becomes `now`. */
  predicate Becomes(fields: seq<Field>, j: Value, now: Val) { Decode(KObj(fields), Zero(KObj(fields)), j) == Done(now) }

  lemma {:induction false} ElemsExactly(e: Kind, js: seq<Value>, vs: seq<Val>)
    ensures DecodeElems(e, js) == Some(vs) <==>
            |vs| == |js| && forall i :: 0 <= i < |js| ==> Decode(e, Zero(e), js[i]) == Done(vs[i])
    decreases |js|
  {
    if js != [] && vs != [] {
      ElemsExactly(e, js[1..], vs[1..]);
      assert vs == [vs[0]] + vs[1..] && js == [js[0]] + js[1..];
    }
  }

  lemma {:induction false} ElemsDecode(e: Kind, js: seq<Value>)
    ensures DecodeElems(e, js).Some? <==> forall j :: j in js ==> Decodes(e, j)
    decreases |js|
  {
    if js != [] {
      ElemsDecode(e, js[1..]);
      assert DecodeElems(e, js).Some? <==> Decodes(e, js[0]) && DecodeElems(e, js[1..]).Some?;
      assert forall j :: j in js <==> j == js[0] || j in js[1..];
    }
  }

  lemma OptOnce(e: Kind, j: Value)
    ensures Decode(KOpt(e), Zero(KOpt(e)), j) ==
            match Decode(e, Zero(e), j) case Done(v) => Done(VOpt(true, v)) case other => other
    ensures Decodes(KOpt(e), j) <==> Decodes(e, j)
  {
  }

  lemma NilOnce(e: Kind, j: Value)
    ensures j == JNull ==> Decode(KNil(e), Zero(KNil(e)), j) == Done(VNil(true, Zero(e)))
    ensures j != JNull ==>
            (Decode(KNil(e), Zero(KNil(e)), j) ==
             match Decode(e, Zero(e), j) case Done(v) => Done(VNil(false, v)) case other => other)
    ensures Decodes(KNil(e), j) <==> j == JNull || Decodes(e, j)
  {
  }

  // Scalars, and their wrappers.

  predicate IsInt(j: Value, lo: int, hi: int) { j.JInt? && lo <= j.n <= hi }

  predicate IsTexts(j: Value) { j.JArr? && forall x :: x in j.elems ==> x.JStr? }

  predicate ReadsInt(js: seq<Value>, lo: int, hi: int, now: int) {
    js != [] && (forall j :: j in js ==> IsInt(j, lo, hi)) && js[|js| - 1] == JInt(now)
  }

  predicate ReadsInt64(js: seq<Value>, now: int64) {
    ReadsInt(js, -0x8000_0000_0000_0000, 0x7FFF_FFFF_FFFF_FFFF, now)
  }

  predicate ReadsInt32(js: seq<Value>, now: int32) { ReadsInt(js, -0x8000_0000, 0x7FFF_FFFF, now) }

  predicate ReadsInt16(js: seq<Value>, now: int16) { ReadsInt(js, -0x8000, 0x7FFF, now) }

  predicate ReadsPortNumber(js: seq<Value>, now: uint16) { ReadsInt(js, 0, 0xFFFF, now) }

  predicate ReadsText(js: seq<Value>, now: string) {
    js != [] && (forall j :: j in js ==> j.JStr?) && js[|js| - 1] == JStr(now)
  }

  predicate ReadsBool(js: seq<Value>, now: bool) {
    js != [] && (forall j :: j in js ==> j.JBool?) && js[|js| - 1] == JBool(now)
  }

  predicate ReadsUuid(js: seq<Value>, now: string) {
    js != [] && (forall j :: j in js ==> j.JStr? && UuidText(j.s)) && ReadUuid(js[|js| - 1].s) == now
  }

  predicate ReadsNilText(js: seq<Value>, now: NilOf<string>) {
    js != [] && (forall j :: j in js ==> j.JNull? || j.JStr?) &&
    js[|js| - 1] == OrNull(now.isNull, JStr(now.value)) && (now.isNull ==> now.value == "")
  }

  predicate ReadsNilPortNumber(js: seq<Value>, now: NilOf<uint16>) {
    js != [] && (forall j :: j in js ==> j.JNull? || IsInt(j, 0, 0xFFFF)) &&
    js[|js| - 1] == OrNull(now.isNull, JInt(now.value)) && (now.isNull ==> now.value == 0)
  }

  predicate ReadsOptInt32(js: seq<Value>, was: OptOf<int32>, now: OptOf<int32>) {
    if js == [] then now == was else now.isSet && ReadsInt32(js, now.value)
  }

  predicate ReadsOptInt16(js: seq<Value>, was: OptOf<int16>, now: OptOf<int16>) {
    if js == [] then now == was else now.isSet && ReadsInt16(js, now.value)
  }

  predicate ReadsOptText(js: seq<Value>, was: OptOf<string>, now: OptOf<string>) {
    if js == [] then now == was else now.isSet && ReadsText(js, now.value)
  }

  predicate ReadsOptTexts(js: seq<Value>, was: Slice<string>, now: Slice<string>) {
    if js == [] then now == was
    else (forall j :: j in js ==> IsTexts(j)) && now.SliceOf? && js[|js| - 1] == TextsJson(now.elems)
  }

  lemma IntField(f: Field, js: seq<Value>, was: Val, now: int)
    requires f.required && f.kind.KInt?
    ensures FieldReads(f, js, was, VInt(now)) <==> ReadsInt(js, f.kind.lo, f.kind.hi, now)
  {
    if js != [] {
      forall j | j in js ensures Decodes(f.kind, j) <==> IsInt(j, f.kind.lo, f.kind.hi) {}
      assert js[|js| - 1] in js;
    }
    LastReads(f, js, was, VInt(now));
  }

  lemma TextField(f: Field, js: seq<Value>, was: Val, now: string)
    requires f.required && f.kind == KStr
    ensures FieldReads(f, js, was, VStr(now)) <==> ReadsText(js, now)
  {
    if js != [] {
      forall j | j in js ensures Decodes(f.kind, j) <==> j.JStr? {}
      assert js[|js| - 1] in js;
    }
    LastReads(f, js, was, VStr(now));
  }

  lemma BoolField(f: Field, js: seq<Value>, was: Val, now: bool)
    requires f.required && f.kind == KBool
    ensures FieldReads(f, js, was, VBool(now)) <==> ReadsBool(js, now)
  {
    if js != [] {
      forall j | j in js ensures Decodes(f.kind, j) <==> j.JBool? {}
      assert js[|js| - 1] in js;
    }
    LastReads(f, js, was, VBool(now));
  }

  lemma UuidField(f: Field, js: seq<Value>, was: Val, now: string)
    requires f.required && f.kind == KUuid
    ensures FieldReads(f, js, was, VStr(now)) <==> ReadsUuid(js, now)
  {
    if js != [] {
      forall j | j in js ensures Decodes(f.kind, j) <==> (j.JStr? && UuidText(j.s)) {}
      assert js[|js| - 1] in js;
    }
    LastReads(f, js, was, VStr(now));
  }

  lemma NilTextField(f: Field, js: seq<Value>, was: Val, now: NilOf<string>)
    requires f.required && f.kind == KNil(KStr)
    ensures FieldReads(f, js, was, VNil(now.isNull, VStr(now.value))) <==> ReadsNilText(js, now)
  {
    if js != [] {
      forall j | j in js ensures Decodes(f.kind, j) <==> j.JNull? || j.JStr? {
        NilOnce(KStr, j);
      }
      assert js[|js| - 1] in js;
      NilOnce(KStr, js[|js| - 1]);
    }
    LastReads(f, js, was, VNil(now.isNull, VStr(now.value)));
  }

  lemma NilPortNumberField(f: Field, js: seq<Value>, was: Val, now: NilOf<uint16>)
    requires f.required && f.kind == KNil(UINT16)
    ensures FieldReads(f, js, was, VNil(now.isNull, VInt(now.value))) <==> ReadsNilPortNumber(js, now)
  {
    if js != [] {
      forall j | j in js ensures Decodes(f.kind, j) <==> j.JNull? || IsInt(j, 0, 0xFFFF) {
        NilOnce(UINT16, j);
      }
      assert js[|js| - 1] in js;
      NilOnce(UINT16, js[|js| - 1]);
    }
    LastReads(f, js, was, VNil(now.isNull, VInt(now.value)));
  }

  lemma OptInt32Field(f: Field, js: seq<Value>, was: OptOf<int32>, now: OptOf<int32>)
    requires !f.required && f.kind == KOpt(INT32) && f.preset.None?
    ensures FieldReads(f, js, VOpt(was.isSet, VInt(was.value)), VOpt(now.isSet, VInt(now.value))) <==>
            ReadsOptInt32(js, was, now)
  {
    if js != [] {
      forall j | j in js ensures Decodes(f.kind, j) <==> IsInt(j, -0x8000_0000, 0x7FFF_FFFF) {
        OptOnce(INT32, j);
      }
      assert js[|js| - 1] in js;
      OptOnce(INT32, js[|js| - 1]);
    }
    LastReads(f, js, VOpt(was.isSet, VInt(was.value)), VOpt(now.isSet, VInt(now.value)));
  }

  lemma OptInt16Field(f: Field, js: seq<Value>, was: OptOf<int16>, now: OptOf<int16>)
    requires !f.required && f.kind == KOpt(INT16) && f.preset.None?
    ensures FieldReads(f, js, VOpt(was.isSet, VInt(was.value)), VOpt(now.isSet, VInt(now.value))) <==>
            ReadsOptInt16(js, was, now)
  {
    if js != [] {
      forall j | j in js ensures Decodes(f.kind, j) <==> IsInt(j, -0x8000, 0x7FFF) {
        OptOnce(INT16, j);
      }
      assert js[|js| - 1] in js;
      OptOnce(INT16, js[|js| - 1]);
    }
    LastReads(f, js, VOpt(was.isSet, VInt(was.value)), VOpt(now.isSet, VInt(now.value)));
  }

  lemma OptTextField(f: Field, js: seq<Value>, was: OptOf<string>, now: OptOf<string>)
    requires !f.required && f.kind == KOpt(KStr) && f.preset.None?
    ensures FieldReads(f, js, VOpt(was.isSet, VStr(was.value)), VOpt(now.isSet, VStr(now.value))) <==>
            ReadsOptText(js, was, now)
  {
    if js != [] {
      forall j | j in js ensures Decodes(f.kind, j) <==> j.JStr? {
        OptOnce(KStr, j);
      }
      assert js[|js| - 1] in js;
      OptOnce(KStr, js[|js| - 1]);
    }
    LastReads(f, js, VOpt(was.isSet, VStr(was.value)), VOpt(now.isSet, VStr(now.value)));
  }

  lemma TextsDecode(j: Value)
    ensures Decodes(KArr(KStr), j) <==> IsTexts(j)
  {
    if j.JArr? {
      ElemsDecode(KStr, j.elems);
    }
  }

  lemma TextsRead(j: Value, now: Slice<string>)
    ensures Decode(KArr(KStr), Zero(KArr(KStr)), j) == Done(StringsVal(now)) <==>
            now.SliceOf? && j == TextsJson(now.elems)
  {
    if j.JArr? && now.SliceOf? {
      ElemsExactly(KStr, j.elems, StringsVal(now).elems);
      if j != TextsJson(now.elems) && |j.elems| == |now.elems| {
        var i :| 0 <= i < |j.elems| && j.elems[i] != TextsJson(now.elems).elems[i];
        assert StringsVal(now).elems[i] == VStr(now.elems[i]);
      }
    }
  }

  // What such values come from.

  lemma OptInt32Of(v: Val) returns (o: OptOf<int32>)
    requires Fits(KOpt(INT32), v)
    ensures VOpt(o.isSet, VInt(o.value)) == v
  {
    assert Fits(INT32, v.v);
    o := OptOf(v.v.n, v.isSet);
  }

  lemma OptInt16Of(v: Val) returns (o: OptOf<int16>)
    requires Fits(KOpt(INT16), v)
    ensures VOpt(o.isSet, VInt(o.value)) == v
  {
    assert Fits(INT16, v.v);
    o := OptOf(v.v.n, v.isSet);
  }

  lemma OptTextOf(v: Val) returns (o: OptOf<string>)
    requires Fits(KOpt(KStr), v)
    ensures VOpt(o.isSet, VStr(o.value)) == v
  {
    assert Fits(KStr, v.v);
    o := OptOf(v.v.s, v.isSet);
  }

  lemma NilTextOf(v: Val) returns (o: NilOf<string>)
    requires Fits(KNil(KStr), v)
    ensures VNil(o.isNull, VStr(o.value)) == v
  {
    assert Fits(KStr, v.v);
    o := NilOf(v.v.s, v.isNull);
  }

  lemma NilPortNumberOf(v: Val) returns (o: NilOf<uint16>)
    requires Fits(KNil(UINT16), v)
    ensures VNil(o.isNull, VInt(o.value)) == v
  {
    assert Fits(UINT16, v.v);
    o := NilOf(v.v.n, v.isNull);
  }

  lemma TextsSlice(v: Val) returns (s: Slice<string>)
    requires Fits(KArr(KStr), v)
    ensures StringsVal(s) == v
  {
    var vs := Elems(v);
    assert forall i :: 0 <= i < |vs| ==> Fits(KStr, vs[i]);
    s := if v.VSlice? then SliceOf(seq(|vs|, i requires 0 <= i < |vs| => vs[i].s)) else NilSlice;
    if v.VSlice? {
      assert StringsVal(s).elems == v.elems;
    }
  }

  lemma OptTextsField(f: Field, js: seq<Value>, was: Slice<string>, now: Slice<string>)
    requires !f.required && f.kind == KArr(KStr) && f.preset.None?
    ensures FieldReads(f, js, StringsVal(was), StringsVal(now)) <==> ReadsOptTexts(js, was, now)
  {
    LastReads(f, js, StringsVal(was), StringsVal(now));
    if js == [] {
      if StringsVal(now) == StringsVal(was) { SameStrings(now, was); }
    } else {
      forall j | j in js ensures Decodes(f.kind, j) <==> IsTexts(j) { TextsDecode(j); }
      TextsRead(js[|js| - 1], now);
    }
  }

  // ---------- the missing keys ----------

  /** The keys under which nothing stands. */
  function Absent(keys: seq<string>, ms: seq<Member>): seq<string> {
    if keys == [] then []
    else Absent(keys[..|keys| - 1], ms) + if AllOf(ms, keys[|keys| - 1]) == [] then [keys[|keys| - 1]] else []
  }

  function RequiredKeys(fields: seq<Field>, n: nat): seq<string>
    requires n <= |fields|
    decreases n, fields
  {
    if n == 0 then []
    else RequiredKeys(fields, n - 1) + if fields[n - 1].required then [fields[n - 1].name] else []
  }

  lemma {:induction false} MissingIsAbsent(fields: seq<Field>, ms: seq<Member>, n: nat)
    requires DistinctNames(fields) && n <= |fields|
    ensures MissingBelow(fields, ms, n) == Absent(RequiredKeys(fields, n), ms)
    decreases n, fields
  {
    if n > 0 {
      MissingIsAbsent(fields, ms, n - 1);
      AllOfIsValues(fields, n - 1, ms);
      OccursIsValues(fields, n - 1, ms);
      var keys := RequiredKeys(fields, n);
      if fields[n - 1].required {
        assert keys[..|keys| - 1] == RequiredKeys(fields, n - 1);
      } else {
        assert keys == RequiredKeys(fields, n - 1);
      }
    }
  }

  lemma KnownTogether(fields: seq<Field>, a: seq<Member>, b: seq<Member>)
    ensures KnownMembersDecode(fields, a + b) <==> KnownMembersDecode(fields, a) && KnownMembersDecode(fields, b)
  {
    assert forall p :: 0 <= p < |a| ==> (a + b)[p] == a[p];
    assert forall p :: 0 <= p < |b| ==> (a + b)[|a| + p] == b[p];
  }

  /** A decode reports missing fields exactly when there are some, and only they are wrong:
      with the members of a complete object added it would succeed. */
  lemma OnlyMissing(fields: seq<Field>, was: Val, ms: seq<Member>, complete: seq<Member>, names: seq<string>)
    requires Decodes(KObj(fields), JObj(complete))
    ensures Decode(KObj(fields), was, JObj(ms)) == Missing(names) <==>
            names != [] && names == MissingBelow(fields, ms, |fields|) && Decodes(KObj(fields), JObj(ms + complete))
  {
    MembersSucceed(fields, Preset(fields, Slots(fields, was)), ms);
    SuccessExact(fields, Zero(KObj(fields)), complete);
    SuccessExact(fields, Zero(KObj(fields)), ms + complete);
    KnownTogether(fields, ms, complete);
    forall i | 0 <= i < |fields| && Occurs(fields, i, complete) ensures Occurs(fields, i, ms + complete) {
      var p :| 0 <= p < |complete| && Find(fields, complete[p].key) == i;
      assert (ms + complete)[|ms| + p] == complete[p];
    }
  }

  // ---------- several objects into one receiver ----------

  function Joined(js: seq<Value>): seq<Member> {
    if js == [] then [] else (if js[0].JObj? then js[0].members else []) + Joined(js[1..])
  }

  lemma {:induction false} MembersInTurn(k: Kind, vals: seq<Val>, a: seq<Member>, b: seq<Member>)
    requires k.KObj? && |vals| == |k.fields|
    ensures DecodeMembers(k, vals, a + b) ==
            match DecodeMembers(k, vals, a) case None => None case Some(v) => DecodeMembers(k, v, b)
    decreases |a|
  {
    if a == [] {
      assert a + b == b;
    } else {
      assert (a + b)[1..] == a[1..] + b;
      var step := DecodeMember(k, vals, a[0]);
      if step.Some? {
        MembersInTurn(k, step.value, a[1..], b);
      }
    }
  }

  lemma {:induction false} JoinedInTurn(fields: seq<Field>, was: seq<Val>, js: seq<Value>)
    requires |was| == |fields| && forall i :: 0 <= i < |fields| ==> fields[i].preset.None?
    requires forall j :: j in js ==> j.JObj? && MissingBelow(fields, j.members, |fields|) == []
    ensures DecodeAll(KObj(fields), VObj(was), js) ==
            match DecodeMembers(KObj(fields), was, Joined(js)) case None => None case Some(v) => Some(VObj(v))
    decreases |js|
  {
    if js != [] {
      var k, ms := KObj(fields), js[0].members;
      assert js[0] in js && Preset(fields, was) == was;
      MembersInTurn(k, was, ms, Joined(js[1..]));
      var first := DecodeMembers(k, was, ms);
      if first.Some? {
        JoinedInTurn(fields, first.value, js[1..]);
      }
    }
  }

  /** Objects decoded into one receiver, one after the other: each of them is complete, and
      they decode as one object that has the members of all. */
  lemma ObjectsInTurn(fields: seq<Field>, was: seq<Val>, js: seq<Value>, now: seq<Val>)
    requires |was| == |fields| == |now| && js != [] && forall i :: 0 <= i < |fields| ==> fields[i].preset.None?
    ensures DecodeAll(KObj(fields), VObj(was), js) == Some(VObj(now)) <==>
            (forall j :: j in js ==> j.JObj? && MissingBelow(fields, j.members, |fields|) == []) &&
            Decode(KObj(fields), VObj(was), JObj(Joined(js))) == Done(VObj(now))
  {
    var k := KObj(fields);
    SucceedsInTurn(k, VObj(was), js);
    if forall j :: j in js ==> j.JObj? && MissingBelow(fields, j.members, |fields|) == [] {
      JoinedInTurn(fields, was, js);
      assert Preset(fields, was) == was && js[0] in js;
      NothingMissing(fields, js[0].members, |fields|);
      NothingMissing(fields, Joined(js), |fields|);
      forall i, p: nat | 0 <= i < |fields| && p < |js[0].members| && Find(fields, js[0].members[p].key) == i
        ensures Occurs(fields, i, Joined(js))
      {
        assert Joined(js)[p] == js[0].members[p];
      }
    }
  }

  // ---------- streams ----------

  lemma EncodedAs(k: Kind, v: Val)
    requires WellFormed(k) && Fits(k, v) && Encodable(k, v)
    ensures Encode([], k, v) == Print(Tree(k, v), [])
  {
    EncodePrints([], k, v, []);
    assert Encode([], k, v) + [] == Encode([], k, v);
    assert [] + Print(Tree(k, v), []) == Print(Tree(k, v), []);
  }

  lemma OnStream(fields: seq<Field>, was: Val, now: Val, t: seq<Token>, rest: seq<Token>)
    ensures DecodeAt(KObj(fields), was, t) == DoneAt(now, rest) <==>
            exists ms :: t == Print(JObj(ms), rest) && Decode(KObj(fields), was, JObj(ms)) == Done(now)
  {
    if DecodeAt(KObj(fields), was, t) == DoneAt(now, rest) {
      PrintOfParse(t);
      assert t == Print(JObj(Parse(t).value.members), rest);
    }
    if ms :| t == Print(JObj(ms), rest) && Decode(KObj(fields), was, JObj(ms)) == Done(now) {
      ParseOfPrint(JObj(ms), rest);
    }
  }
}
