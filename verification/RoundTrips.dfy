/** Encoding and decoding are inverse up to a normal form. */
module RoundTrips {
  import opened Json
  import opened Options
  import opened Schema
  import opened Laws

  // ---------- what is printed ----------

  /** The JSON value that stands for a Go value. */
  function Tree(k: Kind, v: Val): Value
    requires Fits(k, v)
    decreases k, 1, 0, v
  {
    match k
    case KInt(_, _) => JInt(v.n)
    case KStr => JStr(v.s)
    case KBool => JBool(v.b)
    case KUuid => JStr(v.s)
    case KArr(e) => JArr(TreeElems(e, Elems(v)))
    case KNil(e) => if v.isNull then JNull else Tree(e, v.v)
    case KOpt(e) => Tree(e, v.v)
    case KObj(fields) => JObj(TreeMembers(k, v.vals, |fields|))
  }

  function TreeElems(e: Kind, vs: seq<Val>): (r: seq<Value>)
    requires forall x :: x in vs ==> Fits(e, x)
    ensures |r| == |vs|
    decreases e, 2, 0, vs
  {
    seq(|vs|, i requires 0 <= i < |vs| => Tree(e, vs[i]))
  }

  /** One member for each of the first `n` fields that is present. */
  function TreeMembers(k: Kind, vals: seq<Val>, n: nat): seq<Member>
    requires k.KObj? && Fits(k, VObj(vals)) && n <= |k.fields|
    decreases k, 0, n, vals
  {
    if n == 0 then []
    else
      var f := k.fields[n - 1];
      var before := TreeMembers(k, vals, n - 1);
      if Present(f, vals[n - 1]) then before + [Member(f.name, Tree(f.kind, vals[n - 1]))] else before
  }

  /** Only an unset `Opt*` encodes to nothing; the guards never let one be encoded. */
  predicate Encodable(k: Kind, v: Val) { k.KOpt? && v.VOpt? ==> v.isSet }

  lemma {:induction false} PrintElemsLast(es: seq<Value>, last: Value, rest: seq<Token>)
    ensures PrintElems(es + [last], rest) == PrintElems(es, Print(last, rest))
    decreases |es|
  {
    var all := es + [last];
    if es == [] {
      assert all[1..] == [];
    } else {
      PrintElemsLast(es[1..], last, rest);
      assert all[1..] == es[1..] + [last];
    }
  }

  lemma {:induction false} PrintMembersLast(ms: seq<Member>, last: Member, rest: seq<Token>)
    ensures PrintMembers(ms + [last], rest) == PrintMembers(ms, [Key(last.key)] + Print(last.value, rest))
    decreases |ms|
  {
    var all := ms + [last];
    if ms == [] {
      assert all[1..] == [];
    } else {
      PrintMembersLast(ms[1..], last, rest);
      assert all[1..] == ms[1..] + [last];
    }
  }

  /** The encoder appends exactly one balanced value, with one value after each key. */
  lemma {:induction false} EncodePrints(acc: seq<Token>, k: Kind, v: Val, rest: seq<Token>)
    requires WellFormed(k) && Fits(k, v) && Encodable(k, v)
    ensures Encode(acc, k, v) + rest == acc + Print(Tree(k, v), rest)
    decreases k, 1, 0
  {
    match k
    case KNil(e) => if !v.isNull { EncodePrints(acc, e, v.v, rest); }
    case KOpt(e) => EncodePrints(acc, e, v.v, rest);
    case KArr(e) =>
      var vs := Elems(v);
      var es := TreeElems(e, vs);
      ElemsPrint(acc + [ArrStart], e, vs, |vs|, [ArrEnd] + rest);
      assert es[..|vs|] == es;
      Reassociate(EncodeElems(acc + [ArrStart], e, vs, |vs|), ArrEnd, rest);
      Reassociate(acc, ArrStart, PrintElems(es, [ArrEnd] + rest));
    case KObj(fields) =>
      var ms := TreeMembers(k, v.vals, |fields|);
      FieldsPrint(acc + [ObjStart], k, v.vals, |fields|, [ObjEnd] + rest);
      Reassociate(EncodeFields(acc + [ObjStart], k, v.vals, |fields|), ObjEnd, rest);
      Reassociate(acc, ObjStart, PrintMembers(ms, [ObjEnd] + rest));
    case _ =>
  }

  lemma Reassociate(acc: seq<Token>, t: Token, rest: seq<Token>)
    ensures acc + [t] + rest == acc + ([t] + rest)
  {
  }

  lemma {:induction false} ElemsPrint(acc: seq<Token>, e: Kind, vs: seq<Val>, n: nat, rest: seq<Token>)
    requires WellFormed(e) && !e.KOpt? && n <= |vs| && forall x :: x in vs ==> Fits(e, x)
    ensures EncodeElems(acc, e, vs, n) + rest == acc + PrintElems(TreeElems(e, vs)[..n], rest)
    decreases e, 2, n
  {
    if n > 0 {
      var es := TreeElems(e, vs);
      EncodePrints(EncodeElems(acc, e, vs, n - 1), e, vs[n - 1], rest);
      ElemsPrint(acc, e, vs, n - 1, Print(es[n - 1], rest));
      PrintElemsLast(es[..n - 1], es[n - 1], rest);
      assert es[..n] == es[..n - 1] + [es[n - 1]];
    }
  }

  lemma {:induction false} FieldsPrint(acc: seq<Token>, k: Kind, vals: seq<Val>, n: nat, rest: seq<Token>)
    requires k.KObj? && WellFormed(k) && Fits(k, VObj(vals)) && n <= |k.fields|
    ensures EncodeFields(acc, k, vals, n) + rest == acc + PrintMembers(TreeMembers(k, vals, n), rest)
    decreases k, 0, n
  {
    if n > 0 {
      var f := k.fields[n - 1];
      if Present(f, vals[n - 1]) {
        var before := EncodeFields(acc, k, vals, n - 1);
        var j := Tree(f.kind, vals[n - 1]);
        EncodePrints(before + [Key(f.name)], f.kind, vals[n - 1], rest);
        Reassociate(before, Key(f.name), Print(j, rest));
        FieldsPrint(acc, k, vals, n - 1, [Key(f.name)] + Print(j, rest));
        PrintMembersLast(TreeMembers(k, vals, n - 1), Member(f.name, j), rest);
      } else {
        FieldsPrint(acc, k, vals, n - 1, rest);
      }
    }
  }

  /** A struct's keys: exactly the present fields, so all required ones, each once. */
  lemma {:induction false} TreeKeys(k: Kind, vals: seq<Val>, n: nat, i: nat)
    requires k.KObj? && WellFormed(k) && Fits(k, VObj(vals)) && n <= |k.fields| && i < |k.fields|
    ensures Values(k.fields, i, TreeMembers(k, vals, n)) ==
            if i < n && Present(k.fields[i], vals[i]) then [Tree(k.fields[i].kind, vals[i])] else []
    decreases n
  {
    if n > 0 {
      var f := k.fields[n - 1];
      TreeKeys(k, vals, n - 1, i);
      if Present(f, vals[n - 1]) {
        ValuesLast(k.fields, i, TreeMembers(k, vals, n - 1), Member(f.name, Tree(f.kind, vals[n - 1])));
        FindName(k.fields, n - 1);
      }
    }
  }

  lemma {:induction false} ValuesLast(fields: seq<Field>, i: nat, ms: seq<Member>, m: Member)
    ensures Values(fields, i, ms + [m]) ==
            Values(fields, i, ms) + (if Find(fields, m.key) == i then [m.value] else [])
    decreases |ms|
  {
    var all := ms + [m];
    if ms == [] {
      assert all[1..] == [];
    } else {
      ValuesLast(fields, i, ms[1..], m);
      assert all[1..] == ms[1..] + [m];
    }
  }

  lemma FindName(fields: seq<Field>, i: nat)
    requires DistinctNames(fields) && i < |fields|
    ensures Find(fields, fields[i].name) == i
  {
  }

  // ---------- the normal form ----------

  /** `v` as it comes back from the wire: nil slices that are always sent become empty,
      and what an unset `Opt*` or a null `Nil*` hides becomes zero. */
  function Norm(k: Kind, v: Val): Val
    requires Fits(k, v)
    decreases k, 0, v
  {
    match k
    case KArr(e) => VSlice(NormElems(e, Elems(v)))
    case KNil(e) => if v.isNull then VNil(true, Zero(e)) else VNil(false, Norm(e, v.v))
    case KOpt(e) => if v.isSet then VOpt(true, Norm(e, v.v)) else VOpt(false, Zero(e))
    case KObj(fields) =>
      VObj(seq(|fields|, i requires 0 <= i < |fields| =>
        if Present(fields[i], v.vals[i]) then Norm(fields[i].kind, v.vals[i]) else Zero(fields[i].kind)))
    case _ => v
  }

  function NormElems(e: Kind, vs: seq<Val>): (r: seq<Val>)
    requires forall x :: x in vs ==> Fits(e, x)
    ensures |r| == |vs|
    decreases e, 1, vs
  {
    seq(|vs|, i requires 0 <= i < |vs| => Norm(e, vs[i]))
  }

  /** Round trip: decoding the encoding of `v` into a fresh receiver yields `Norm(v)`. */
  lemma {:induction false} RoundTrip(k: Kind, v: Val)
    requires WellFormed(k) && Fits(k, v) && Encodable(k, v)
    ensures Decode(k, Zero(k), Tree(k, v)) == Done(Norm(k, v))
    decreases k, 1, 0
  {
    match k
    case KArr(e) => ElemsRoundTrip(e, Elems(v));
    case KNil(e) =>
      if !v.isNull {
        RoundTrip(e, v.v);
        TreeNotNull(e, v.v);
      }
    case KOpt(e) => RoundTrip(e, v.v);
    case KObj(fields) =>
      var vals := Preset(fields, Slots(fields, Zero(k)));
      var ms := TreeMembers(k, v.vals, |fields|);
      forall i | 0 <= i < |fields|
        ensures DecodeAll(fields[i].kind, vals[i], Values(fields, i, ms)) == Some(Norm(k, v).vals[i])
        ensures fields[i].required ==> Occurs(fields, i, ms)
      {
        TreeKeys(k, v.vals, |fields|, i);
        OccursIsValues(fields, i, ms);
        if Present(fields[i], v.vals[i]) {
          FieldRoundTrip(k, v.vals, i);
        }
      }
      FieldByField(fields, vals, ms);
      NothingMissing(fields, ms, |fields|);
      assert DecodeMembers(k, vals, ms).value == Norm(k, v).vals;
    case _ =>
  }

  lemma {:induction false} FieldRoundTrip(k: Kind, vals: seq<Val>, i: nat)
    requires k.KObj? && WellFormed(k) && Fits(k, VObj(vals)) && i < |k.fields|
    requires Present(k.fields[i], vals[i])
    ensures var f := k.fields[i];
            DecodeAll(f.kind, Preset(k.fields, Slots(k.fields, Zero(k)))[i], [Tree(f.kind, vals[i])])
            == Some(Norm(f.kind, vals[i]))
    decreases k, 0, 0
  {
    var f := k.fields[i];
    RoundTrip(f.kind, vals[i]);
    assert f.preset.Some? ==> Scalar(f.kind);
    var start := Preset(k.fields, Slots(k.fields, Zero(k)))[i];
    assert Decode(f.kind, start, Tree(f.kind, vals[i])) == Done(Norm(f.kind, vals[i]));
    assert DecodeAll(f.kind, Norm(f.kind, vals[i]), []) == Some(Norm(f.kind, vals[i]));
  }

  lemma TreeNotNull(k: Kind, v: Val)
    requires WellFormed(k) && Fits(k, v) && !k.KNil? && !k.KOpt?
    ensures Tree(k, v) != JNull
  {
  }

  lemma {:induction false} ElemsRoundTrip(e: Kind, vs: seq<Val>)
    requires WellFormed(e) && !e.KOpt? && forall x :: x in vs ==> Fits(e, x)
    ensures DecodeElems(e, TreeElems(e, vs)) == Some(NormElems(e, vs))
    decreases e, 2, |vs|
  {
    var es := TreeElems(e, vs);
    if vs == [] {
      assert NormElems(e, vs) == [];
    } else {
      RoundTrip(e, vs[0]);
      ElemsRoundTrip(e, vs[1..]);
      assert es[1..] == TreeElems(e, vs[1..]);
      assert [Norm(e, vs[0])] + NormElems(e, vs[1..]) == NormElems(e, vs);
    }
  }

  /** The same on token streams, with anything behind the value. */
  lemma StreamRoundTrip(k: Kind, v: Val, rest: seq<Token>)
    requires WellFormed(k) && Fits(k, v) && Encodable(k, v)
    ensures DecodeAt(k, Zero(k), Encode([], k, v) + rest) == DoneAt(Norm(k, v), rest)
  {
    EncodePrints([], k, v, rest);
    assert [] + Print(Tree(k, v), rest) == Print(Tree(k, v), rest);
    ParseOfPrint(Tree(k, v), rest);
    RoundTrip(k, v);
  }

  // ---------- the normal form is normal ----------

  lemma {:induction false} ZeroFits(k: Kind)
    requires WellFormed(k)
    ensures Fits(k, Zero(k))
    decreases k
  {
    match k
    case KNil(e) => ZeroFits(e);
    case KOpt(e) => ZeroFits(e);
    case KObj(fields) =>
      forall i | 0 <= i < |fields| ensures Fits(fields[i].kind, Zero(fields[i].kind)) {
        ZeroFits(fields[i].kind);
      }
    case KUuid => ZeroIsCanonical();
    case _ =>
  }

  lemma {:induction false} NormFits(k: Kind, v: Val)
    requires WellFormed(k) && Fits(k, v)
    ensures Fits(k, Norm(k, v))
    decreases k
  {
    match k
    case KArr(e) =>
      forall i | 0 <= i < |Elems(v)| ensures Fits(e, Norm(e, Elems(v)[i])) {
        NormFits(e, Elems(v)[i]);
      }
    case KNil(e) => ZeroFits(e); NormFits(e, v.v);
    case KOpt(e) => ZeroFits(e); NormFits(e, v.v);
    case KObj(fields) =>
      forall i | 0 <= i < |fields| ensures Fits(fields[i].kind, Norm(k, v).vals[i]) {
        ZeroFits(fields[i].kind);
        NormFits(fields[i].kind, v.vals[i]);
      }
    case _ =>
  }

  /** One field of a normal form. */
  lemma NormSlot(fields: seq<Field>, v: Val, i: nat)
    requires Fits(KObj(fields), v) && i < |fields|
    ensures Norm(KObj(fields), v).VObj? && |Norm(KObj(fields), v).vals| == |fields| && Fits(fields[i].kind, v.vals[i])
    ensures Norm(KObj(fields), v).vals[i] ==
            if Present(fields[i], v.vals[i]) then Norm(fields[i].kind, v.vals[i]) else Zero(fields[i].kind)
  {
  }

  lemma NormPresent(f: Field, v: Val)
    requires Fits(f.kind, v) && WellFormed(f.kind)
    requires if f.required then !f.kind.KOpt? else f.kind.KOpt? || f.kind.KArr?
    ensures Present(f, if Present(f, v) then Norm(f.kind, v) else Zero(f.kind)) <==> Present(f, v)
  {
  }

  /** A value and its normal form print alike. */
  lemma {:induction false} NormTree(k: Kind, v: Val)
    requires WellFormed(k) && Fits(k, v) && Encodable(k, v)
    ensures Fits(k, Norm(k, v)) && Tree(k, Norm(k, v)) == Tree(k, v)
    decreases k, 1, 0
  {
    NormFits(k, v);
    match k
    case KArr(e) =>
      forall i | 0 <= i < |Elems(v)| ensures Tree(e, Elems(Norm(k, v))[i]) == Tree(e, Elems(v)[i]) {
        NormTree(e, Elems(v)[i]);
      }
      assert TreeElems(e, Elems(Norm(k, v))) == TreeElems(e, Elems(v));
    case KNil(e) => if !v.isNull { NormTree(e, v.v); }
    case KOpt(e) => NormTree(e, v.v);
    case KObj(fields) =>
      var norm := Norm(k, v).vals;
      forall i | 0 <= i < |fields|
        ensures Present(fields[i], norm[i]) <==> Present(fields[i], v.vals[i])
        ensures Present(fields[i], v.vals[i]) ==> Tree(fields[i].kind, norm[i]) == Tree(fields[i].kind, v.vals[i])
      {
        NormTreeField(k, v.vals, i);
      }
      SameTreeMembers(k, v.vals, norm, |fields|);
    case _ =>
  }

  lemma {:induction false} NormTreeField(k: Kind, vals: seq<Val>, i: nat)
    requires k.KObj? && WellFormed(k) && Fits(k, VObj(vals)) && i < |k.fields|
    requires Fits(k, Norm(k, VObj(vals)))
    ensures var f, norm := k.fields[i], Norm(k, VObj(vals)).vals;
            (Present(f, norm[i]) <==> Present(f, vals[i])) &&
            (Present(f, vals[i]) ==> Tree(f.kind, norm[i]) == Tree(f.kind, vals[i]))
    decreases k, 0, 0
  {
    var f := k.fields[i];
    NormSlot(k.fields, VObj(vals), i);
    NormPresent(f, vals[i]);
    if Present(f, vals[i]) {
      NormTree(f.kind, vals[i]);
    }
  }

  lemma {:induction false} SameTreeMembers(k: Kind, vals: seq<Val>, vals': seq<Val>, n: nat)
    requires k.KObj? && Fits(k, VObj(vals)) && Fits(k, VObj(vals')) && n <= |k.fields|
    requires forall i :: 0 <= i < |k.fields| ==>
               var f := k.fields[i];
               (Present(f, vals'[i]) <==> Present(f, vals[i])) &&
               (Present(f, vals[i]) ==> Tree(f.kind, vals'[i]) == Tree(f.kind, vals[i]))
    ensures TreeMembers(k, vals', n) == TreeMembers(k, vals, n)
  {
    if n > 0 {
      SameTreeMembers(k, vals, vals', n - 1);
    }
  }

  /** Canonical output: the normal form encodes to the very same tokens, so encoding what
      was decoded repeats the stream. */
  lemma CanonicalOutput(acc: seq<Token>, k: Kind, v: Val)
    requires WellFormed(k) && Fits(k, v) && Encodable(k, v)
    ensures Fits(k, Norm(k, v)) && Encode(acc, k, Norm(k, v)) == Encode(acc, k, v)
  {
    NormTree(k, v);
    EncodePrints(acc, k, v, []);
    EncodePrints(acc, k, Norm(k, v), []);
    assert Encode(acc, k, Norm(k, v)) + [] == Encode(acc, k, Norm(k, v));
    assert Encode(acc, k, v) + [] == Encode(acc, k, v);
  }

  /** The values the wire does not change, said without `Norm`. */
  predicate Canonical(k: Kind, v: Val)
    requires Fits(k, v)
    decreases k, v
  {
    match k
    case KArr(e) => v.VSlice? && forall i :: 0 <= i < |v.elems| ==> Canonical(e, v.elems[i])
    case KNil(e) => if v.isNull then v.v == Zero(e) else Canonical(e, v.v)
    case KOpt(e) => if v.isSet then Canonical(e, v.v) else v.v == Zero(e)
    case KObj(fields) =>
      forall i :: 0 <= i < |fields| ==>
        if Present(fields[i], v.vals[i]) then Canonical(fields[i].kind, v.vals[i])
        else v.vals[i] == Zero(fields[i].kind)
    case _ => true
  }

  /** A value survives the round trip unchanged exactly when it is canonical. */
  lemma {:induction false} UnchangedExactly(k: Kind, v: Val)
    requires WellFormed(k) && Fits(k, v)
    ensures Norm(k, v) == v <==> Canonical(k, v)
    decreases k
  {
    match k
    case KArr(e) =>
      forall i | 0 <= i < |Elems(v)| ensures Norm(e, Elems(v)[i]) == Elems(v)[i] <==> Canonical(e, Elems(v)[i]) {
        UnchangedExactly(e, Elems(v)[i]);
      }
      if Norm(k, v) == v {
        assert forall i :: 0 <= i < |v.elems| ==> Norm(k, v).elems[i] == Norm(e, v.elems[i]);
      }
    case KNil(e) => UnchangedExactly(e, v.v);
    case KOpt(e) => UnchangedExactly(e, v.v);
    case KObj(fields) =>
      var norm := Norm(k, v).vals;
      forall i | 0 <= i < |fields|
        ensures Norm(fields[i].kind, v.vals[i]) == v.vals[i] <==> Canonical(fields[i].kind, v.vals[i])
        ensures norm[i] == if Present(fields[i], v.vals[i]) then Norm(fields[i].kind, v.vals[i])
            else Zero(fields[i].kind)
      {
        UnchangedExactly(fields[i].kind, v.vals[i]);
      }
      if Canonical(k, v) {
        assert norm == v.vals;
      }
    case _ =>
  }

  /** The normal form is canonical, so normalising twice is normalising once. */
  lemma {:induction false} NormCanonical(k: Kind, v: Val)
    requires WellFormed(k) && Fits(k, v)
    ensures Fits(k, Norm(k, v)) && Canonical(k, Norm(k, v)) && Norm(k, Norm(k, v)) == Norm(k, v)
    decreases k
  {
    NormFits(k, v);
    match k {
    case KArr(e) =>
      forall i | 0 <= i < |Elems(v)| ensures Fits(e, Norm(e, Elems(v)[i])) && Canonical(e, Norm(e, Elems(v)[i])) {
        NormCanonical(e, Elems(v)[i]);
      }
    case KNil(e) => NormCanonical(e, v.v);
    case KOpt(e) => NormCanonical(e, v.v);
    case KObj(fields) =>
      forall i | 0 <= i < |fields|
        ensures Fits(fields[i].kind, Norm(fields[i].kind, v.vals[i])) &&
            Canonical(fields[i].kind, Norm(fields[i].kind, v.vals[i]))
        ensures Present(fields[i], Norm(k, v).vals[i]) <==> Present(fields[i], v.vals[i])
      {
        NormCanonical(fields[i].kind, v.vals[i]);
        NormPresent(fields[i], v.vals[i]);
      }
    case _ =>
    }
    UnchangedExactly(k, Norm(k, v));
  }
}
