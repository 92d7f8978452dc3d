/** The shape of a generated type (`Kind`), the Go values of that shape (`Val`), and what
    the generated `Encode` and `Decode` of the shape compute.  The classes of the other
    files are proved to do exactly this for their own kind; the laws of `Laws.dfy` are
    proved once, for every kind. */
module Schema {
  import opened Options
  import opened Json

  datatype Kind =
    | KInt(lo: int, hi: int)      // int16, int32, int64, int, uint16
    | KStr                        // string, string aliases and open enums
    | KBool
    | KUuid
    | KArr(elem: Kind)            // slice
    | KNil(inner: Kind)           // Nil*: present, possibly null
    | KOpt(inner: Kind)           // Opt*: possibly absent
    | KObj(fields: seq<Field>)    // struct

  /** A struct field: its JSON name, whether its bit is in the required mask, and the
      value `setDefaults` stores before decoding. */
  datatype Field = Field(name: string, kind: Kind, required: bool, preset: Option<Val>)

  /** A Go value.  Structs, `Opt*` and `Nil*` are values: copying one copies all of it. */
  datatype Val =
    | VInt(n: int)
    | VStr(s: string)
    | VBool(b: bool)
    | VNilSlice
    | VSlice(elems: seq<Val>)
    | VNil(isNull: bool, v: Val)
    | VOpt(isSet: bool, v: Val)
    | VObj(vals: seq<Val>)

  /** The outcome of a `Decode`: the receiver's new value, the report of missing required
      fields of this very struct, or any other error. */
  datatype Out = Done(v: Val) | Missing(names: seq<string>) | Failed

  // ---------- UUID text ----------

  predicate IsHex(c: char) { '0' <= c <= '9' || 'a' <= c <= 'f' || 'A' <= c <= 'F' }

  function LowerLetter(c: char): char {
    if 'A' <= c <= 'Z' then (c as int + 32) as char else c
  }

  function Lower(s: string): string { seq(|s|, i requires 0 <= i < |s| => LowerLetter(s[i])) }

  predicate Hyphenated(s: string) {
    |s| == 36 &&
    forall i :: 0 <= i < 36 ==> if i in {8, 13, 18, 23} then s[i] == '-' else IsHex(s[i])
  }

  /** The hyphenated text inside the forms that google/uuid reads: that text itself, the URN,
      the text between any two characters (meant for braces), and the text without hyphens. */
  function HyphenatedText(s: string): string {
    if |s| == 45 && Lower(s[..9]) == "urn:uuid:" then s[9..]
    else if |s| == 38 then s[1..37]
    else if |s| == 32 then s[..8] + "-" + s[8..12] + "-" + s[12..16] + "-" + s[16..20] + "-" + s[20..]
    else s
  }

  predicate UuidText(s: string) { Hyphenated(HyphenatedText(s)) }

  /** The text `uuid.UUID.String` produces. */
  predicate CanonicalUuid(s: string) { Hyphenated(s) && Lower(s) == s }

  /** The canonical text of the UUID that `s` stands for. */
  function ReadUuid(s: string): string { Lower(HyphenatedText(s)) }

  const ZERO_UUID: string :=
    seq(36, i => if i in {8, 13, 18, 23} then '-' else '0')

  lemma ReadIsCanonical(s: string)
    requires UuidText(s)
    ensures CanonicalUuid(ReadUuid(s))
  {
    assert Lower(ReadUuid(s)) == ReadUuid(s);
  }

  function HexValue(c: char): int
    requires IsHex(c)
  {
    if c <= '9' then c as int - '0' as int
    else if c <= 'F' then c as int - 'A' as int + 10
    else c as int - 'a' as int + 10
  }

  /** Where the hyphenated text has digit `i`. */
  function DigitPlace(i: nat): nat
    requires i < 32
  {
    if i < 8 then i else if i < 12 then i + 1 else if i < 16 then i + 2 else if i < 20 then i + 3 else i + 4
  }

  /** Where a text has digit `i`: 32 digits, or the hyphenated text after nothing, a brace, or `urn:uuid:`. */
  function DigitIn(s: string, i: nat): nat
    requires i < 32
  {
    if |s| == 32 then i else DigitPlace(i) + if |s| == 38 then 1 else if |s| == 45 then 9 else 0
  }

  /** Reading keeps every digit. */
  lemma ReadKeepsDigits(s: string, i: nat)
    requires UuidText(s) && i < 32
    ensures |s| in {32, 36, 38, 45} && IsHex(s[DigitIn(s, i)])
    ensures |ReadUuid(s)| == 36 && IsHex(ReadUuid(s)[DigitPlace(i)])
    ensures HexValue(ReadUuid(s)[DigitPlace(i)]) == HexValue(s[DigitIn(s, i)])
  {
    var t, p := HyphenatedText(s), DigitPlace(i);
    assert |t| == 36;
    if |s| == 32 {
      var a, b, c, d, e := s[..8], s[8..12], s[12..16], s[16..20], s[20..];
      assert t == a + ("-" + (b + ("-" + (c + ("-" + (d + ("-" + e)))))));
      assert t[p] == s[i];
    } else {
      assert t[p] == s[DigitIn(s, i)];
    }
  }

  lemma ZeroIsCanonical()
    ensures CanonicalUuid(ZERO_UUID)
  {
    assert Lower(ZERO_UUID) == ZERO_UUID;
  }

  // ---------- shapes ----------

  /** The zero value of the Go type. */
  function Zero(k: Kind): Val
    decreases k
  {
    match k
    case KInt(_, _) => VInt(0)
    case KStr => VStr("")
    case KBool => VBool(false)
    case KUuid => VStr(ZERO_UUID)
    case KArr(_) => VNilSlice
    case KNil(e) => VNil(false, Zero(e))
    case KOpt(e) => VOpt(false, Zero(e))
    case KObj(fields) =>
      VObj(seq(|fields|, i requires 0 <= i < |fields| => Zero(fields[i].kind)))
  }

  /** `v` is a value of the Go type. */
  predicate Fits(k: Kind, v: Val)
    decreases k, v
  {
    match k
    case KInt(lo, hi) => v.VInt? && lo <= v.n <= hi
    case KStr => v.VStr?
    case KBool => v.VBool?
    case KUuid => v.VStr? && CanonicalUuid(v.s)
    case KArr(e) => v.VNilSlice? || (v.VSlice? && forall x :: x in v.elems ==> Fits(e, x))
    case KNil(e) => v.VNil? && Fits(e, v.v)
    case KOpt(e) => v.VOpt? && Fits(e, v.v)
    case KObj(fields) =>
      v.VObj? && |v.vals| == |fields| &&
      forall i :: 0 <= i < |fields| ==> Fits(fields[i].kind, v.vals[i])
  }

  predicate Scalar(k: Kind) { k.KInt? || k.KStr? || k.KBool? || k.KUuid? }

  predicate DistinctNames(fields: seq<Field>) {
    forall i, j :: 0 <= i < j < |fields| ==> fields[i].name != fields[j].name
  }

  /** The shapes the generator produces: names are distinct, an optional field is an
      `Opt*` or a slice, `Opt*` occurs nowhere else, and only required scalars have a preset. */
  predicate WellFormed(k: Kind)
    decreases k
  {
    match k
    case KInt(lo, hi) => lo <= 0 <= hi
    case KArr(e) => WellFormed(e) && !e.KOpt?
    case KNil(e) => WellFormed(e) && !e.KOpt? && !e.KNil?
    case KOpt(e) => WellFormed(e) && !e.KOpt?
    case KObj(fields) =>
      DistinctNames(fields) &&
      forall i :: 0 <= i < |fields| ==>
        var f := fields[i];
        WellFormed(f.kind) &&
        (if f.required then !f.kind.KOpt? else f.kind.KOpt? || f.kind.KArr?) &&
        (f.preset.Some? ==> f.required && Scalar(f.kind) && Fits(f.kind, f.preset.value))
    case _ => true
  }

  function Elems(v: Val): seq<Val> { if v.VSlice? then v.elems else [] }

  /** The guard of a field in `encodeFields`. */
  predicate Present(f: Field, v: Val) {
    f.required || (v.VOpt? && v.isSet) || v.VSlice?
  }

  // ---------- decoding ----------

  /** The case of the key switch that `key` selects; `|fields|` is the default case. */
  function Find(fields: seq<Field>, key: string, from: nat := 0): (i: nat)
    requires from <= |fields|
    ensures from <= i <= |fields|
    ensures i < |fields| ==> fields[i].name == key
    ensures forall j :: from <= j < i ==> fields[j].name != key
    decreases |fields| - from
  {
    if from == |fields| || fields[from].name == key then from
    else Find(fields, key, from + 1)
  }

  /** The struct fields of a receiver; anything that is no such struct counts as zero. */
  function Slots(fields: seq<Field>, prior: Val): (r: seq<Val>)
    ensures |r| == |fields|
  {
    if prior.VObj? && |prior.vals| == |fields| then prior.vals
    else Zero(KObj(fields)).vals
  }

  /** The receiver after `setDefaults`. */
  function Preset(fields: seq<Field>, slots: seq<Val>): (r: seq<Val>)
    requires |slots| == |fields|
    ensures |r| == |fields|
  {
    seq(|fields|, i requires 0 <= i < |fields| =>
      if fields[i].preset.Some? then fields[i].preset.value else slots[i])
  }

  function Payload(e: Kind, prior: Val): Val {
    if prior.VNil? then prior.v else Zero(e)
  }

  predicate Occurs(fields: seq<Field>, i: nat, ms: seq<Member>) {
    exists p :: 0 <= p < |ms| && Find(fields, ms[p].key) == i
  }

  /** Names of the required fields below index `n` that no member fills. */
  function MissingBelow(fields: seq<Field>, ms: seq<Member>, n: nat): seq<string>
    requires n <= |fields|
  {
    if n == 0 then []
    else if fields[n - 1].required && !Occurs(fields, n - 1, ms) then
      MissingBelow(fields, ms, n - 1) + [fields[n - 1].name]
    else MissingBelow(fields, ms, n - 1)
  }

  /** `Decode` of a receiver that holds `prior` from the value `j`. */
  function Decode(k: Kind, prior: Val, j: Value): Out
    decreases k, 2, 0, j
  {
    match k
    case KInt(lo, hi) => if j.JInt? && lo <= j.n <= hi then Done(VInt(j.n)) else Failed
    case KStr => if j.JStr? then Done(VStr(j.s)) else Failed
    case KBool => if j.JBool? then Done(VBool(j.b)) else Failed
    case KUuid => if j.JStr? && UuidText(j.s) then Done(VStr(ReadUuid(j.s))) else Failed
    case KArr(e) =>
      if !j.JArr? then Failed
      else
        (match DecodeElems(e, j.elems)
         case None => Failed
         case Some(vs) => Done(VSlice(vs)))
    case KNil(e) =>
      if j == JNull then Done(VNil(true, Zero(e)))
      else
        (match Decode(e, Payload(e, prior), j)
         case Done(v) => Done(VNil(false, v))
         case other => other)
    case KOpt(e) =>
      (match Decode(e, Zero(e), j)
       case Done(v) => Done(VOpt(true, v))
       case other => other)
    case KObj(fields) =>
      if !j.JObj? then Failed
      else
        Finish(DecodeMembers(k, Preset(fields, Slots(fields, prior)), j.members),
               MissingBelow(fields, j.members, |fields|))
  }

  /** The end of a struct's `Decode`: the loop's error first, then the missing fields. */
  function Finish(vals: Option<seq<Val>>, missing: seq<string>): Out {
    match vals
    case None => Failed
    case Some(r) => if missing == [] then Done(VObj(r)) else Missing(missing)
  }

  /** Every element is decoded into a fresh zero value. */
  function DecodeElems(e: Kind, js: seq<Value>): (r: Option<seq<Val>>)
    ensures r.Some? ==> |r.value| == |js|
    decreases e, 3, |js|
  {
    if js == [] then Some([])
    else
      match Decode(e, Zero(e), js[0])
      case Done(v) =>
        (match DecodeElems(e, js[1..])
         case None => None
         case Some(vs) => Some([v] + vs))
      case _ => None
  }

  /** One call of the `ObjBytes` callback: the field the key selects is decoded in place. */
  function DecodeMember(k: Kind, vals: seq<Val>, m: Member): (r: Option<seq<Val>>)
    requires k.KObj? && |vals| == |k.fields|
    ensures r.Some? ==> |r.value| == |k.fields|
    decreases k, 0, 0, m
  {
    var i := Find(k.fields, m.key);
    if i == |k.fields| then Some(vals)
    else
      match Decode(k.fields[i].kind, vals[i], m.value)
      case Done(v) => Some(vals[i := v])
      case _ => None
  }

  function DecodeMembers(k: Kind, vals: seq<Val>, ms: seq<Member>): (r: Option<seq<Val>>)
    requires k.KObj? && |vals| == |k.fields|
    ensures r.Some? ==> |r.value| == |k.fields|
    decreases k, 1, |ms|
  {
    if ms == [] then Some(vals)
    else
      match DecodeMember(k, vals, ms[0])
      case None => None
      case Some(vals') => DecodeMembers(k, vals', ms[1..])
  }

  // ---------- encoding ----------

  function ScalarToken(v: Val): Token {
    match v
    case VInt(n) => Int(n)
    case VBool(b) => Bool(b)
    case VStr(s) => Str(s)
    case _ => Null
  }

  /** The encoder's tokens after `Encode` of `v`, when they were `acc` before. Meant for
      values that fit `k`. */
  function Encode(acc: seq<Token>, k: Kind, v: Val): seq<Token>
    decreases k, 1, 0, v
  {
    match k
    case KArr(e) => EncodeElems(acc + [ArrStart], e, Elems(v), |Elems(v)|) + [ArrEnd]
    case KNil(e) => if v.VNil? && !v.isNull then Encode(acc, e, v.v) else acc + [Null]
    case KOpt(e) => if v.VOpt? && v.isSet then Encode(acc, e, v.v) else acc
    case KObj(fields) =>
      if v.VObj? && |v.vals| == |fields| then EncodeFields(acc + [ObjStart], k, v.vals, |fields|) + [ObjEnd]
      else acc
    case _ => acc + [ScalarToken(v)]
  }

  /** After the first `n` elements. */
  function EncodeElems(acc: seq<Token>, e: Kind, vs: seq<Val>, n: nat): seq<Token>
    requires n <= |vs|
    decreases e, 2, n, vs
  {
    if n == 0 then acc else Encode(EncodeElems(acc, e, vs, n - 1), e, vs[n - 1])
  }

  /** After the first `n` fields. */
  function EncodeFields(acc: seq<Token>, k: Kind, vals: seq<Val>, n: nat): seq<Token>
    requires k.KObj? && n <= |k.fields| == |vals|
    decreases k, 0, n, vals
  {
    if n == 0 then acc
    else
      var before := EncodeFields(acc, k, vals, n - 1);
      var f := k.fields[n - 1];
      if Present(f, vals[n - 1]) then Encode(before + [Key(f.name)], f.kind, vals[n - 1])
      else before
  }

  // ---------- decoding from a stream ----------

  datatype At = DoneAt(v: Val, rest: seq<Token>) | MissingAt(names: seq<string>) | FailedAt

  /** `Decode` on a decoder whose remaining tokens are `t`. */
  function DecodeAt(k: Kind, prior: Val, t: seq<Token>): (r: At)
    ensures r.DoneAt? ==> |r.rest| < |t|
  {
    match Parse(t)
    case Fail => FailedAt
    case Ok(j, rest) =>
      match Decode(k, prior, j)
      case Done(v) => DoneAt(v, rest)
      case Missing(ns) => MissingAt(ns)
      case Failed => FailedAt
  }
}
