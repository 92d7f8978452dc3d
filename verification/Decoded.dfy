/** What a decode into a fresh receiver yields is already in normal form. */
module Decoded {
  import opened Json
  import opened Schema
  import opened Laws
  import opened RoundTrips

  /** What a receiver may hold on the way from zero to a decoded value. */
  predicate Tidy(k: Kind, v: Val)
    requires Fits(k, v)
    decreases k, v
  {
    match k
    case KArr(e) => forall i :: 0 <= i < |Elems(v)| ==> Canonical(e, Elems(v)[i])
    case KNil(e) => if v.isNull then v.v == Zero(e) else Tidy(e, v.v)
    case KOpt(e) => if v.isSet then Canonical(e, v.v) else v.v == Zero(e)
    case KObj(fields) => forall i :: 0 <= i < |fields| ==> Tidy(fields[i].kind, v.vals[i])
    case _ => true
  }

  lemma {:induction false} ZeroTidy(k: Kind)
    requires WellFormed(k)
    ensures Fits(k, Zero(k)) && Tidy(k, Zero(k))
    decreases k
  {
    ZeroFits(k);
    match k
    case KNil(e) => ZeroTidy(e);
    case KObj(fields) =>
      forall i | 0 <= i < |fields| ensures Tidy(fields[i].kind, Zero(k).vals[i]) {
        ZeroTidy(fields[i].kind);
      }
    case _ =>
  }

  lemma {:induction false} CanonicalTidy(k: Kind, v: Val)
    requires WellFormed(k) && Fits(k, v) && Canonical(k, v)
    ensures Tidy(k, v)
    decreases k
  {
    match k
    case KNil(e) => if !v.isNull { CanonicalTidy(e, v.v); }
    case KObj(fields) =>
      forall i | 0 <= i < |fields| ensures Tidy(fields[i].kind, v.vals[i]) {
        if Present(fields[i], v.vals[i]) {
          CanonicalTidy(fields[i].kind, v.vals[i]);
        } else {
          ZeroTidy(fields[i].kind);
        }
      }
    case _ =>
  }

  /** Decoding keeps values within their Go types, and a tidy receiver becomes canonical. */
  lemma {:induction false} DecodeCanonical(k: Kind, p: Val, j: Value)
    requires WellFormed(k) && Fits(k, p) && Tidy(k, p) && Decode(k, p, j).Done?
    ensures Fits(k, Decode(k, p, j).v) && Canonical(k, Decode(k, p, j).v)
    decreases k, 2, 0
  {
    match k
    case KUuid => ReadIsCanonical(j.s);
    case KArr(e) => ElemsCanonical(e, j.elems);
    case KNil(e) =>
      ZeroTidy(e);
      if j != JNull { DecodeNil(e, p, j); }
    case KOpt(e) =>
      ZeroTidy(e);
      DecodeCanonical(e, Zero(e), j);
    case KObj(fields) =>
      var r := Decode(k, p, j).v.vals;
      forall i | 0 <= i < |fields|
        ensures Fits(fields[i].kind, r[i])
        ensures if Present(fields[i], r[i]) then Canonical(fields[i].kind, r[i]) else r[i] == Zero(fields[i].kind)
      {
        SlotCanonical(k, p, j.members, i);
      }
    case _ =>
  }

  lemma {:induction false} DecodeNil(e: Kind, p: Val, j: Value)
    requires WellFormed(KNil(e)) && Fits(KNil(e), p) && Tidy(KNil(e), p) && j != JNull && Decode(KNil(e), p, j).Done?
    ensures Fits(KNil(e), Decode(KNil(e), p, j).v) && Canonical(KNil(e), Decode(KNil(e), p, j).v)
    decreases e, 3, 0
  {
    ZeroTidy(e);
    DecodeCanonical(e, p.v, j);
  }

  lemma {:induction false} ElemsCanonical(e: Kind, js: seq<Value>)
    requires WellFormed(e) && DecodeElems(e, js).Some?
    ensures var vs := DecodeElems(e, js).value;
            forall i :: 0 <= i < |vs| ==> Fits(e, vs[i]) && Canonical(e, vs[i])
    decreases e, 3, |js|
  {
    if js != [] {
      ZeroTidy(e);
      DecodeCanonical(e, Zero(e), js[0]);
      ElemsCanonical(e, js[1..]);
    }
  }

  lemma {:induction false} SlotCanonical(k: Kind, p: Val, ms: seq<Member>, i: nat)
    requires k.KObj? && WellFormed(k) && Fits(k, p) && Tidy(k, p) && i < |k.fields| && Decode(k, p, JObj(ms)).Done?
    ensures var f, v := k.fields[i], Decode(k, p, JObj(ms)).v.vals[i];
            Fits(f.kind, v) && if Present(f, v) then Canonical(f.kind, v) else v == Zero(f.kind)
    decreases k, 1, 0
  {
    var f, vals := k.fields[i], Preset(k.fields, Slots(k.fields, p));
    FieldByField(k.fields, vals, ms);
    OccursIsValues(k.fields, i, ms);
    NothingMissing(k.fields, ms, |k.fields|);
    assert f.preset.Some? ==> Scalar(f.kind) && Fits(f.kind, f.preset.value);
    assert Fits(f.kind, vals[i]) && Tidy(f.kind, vals[i]);
    AllCanonical(k, i, vals[i], Values(k.fields, i, ms));
    if !Occurs(k.fields, i, ms) {
      AbsentCanonical(f, vals[i]);
    }
  }

  lemma AbsentCanonical(f: Field, v: Val)
    requires f.kind.KOpt? || f.kind.KArr?
    requires !f.required && Fits(f.kind, v) && Tidy(f.kind, v)
    ensures if Present(f, v) then Canonical(f.kind, v) else v == Zero(f.kind)
  {
    if v.VSlice? {
      assert Elems(v) == v.elems;
    }
  }

  lemma {:induction false} AllCanonical(k: Kind, i: nat, p: Val, js: seq<Value>)
    requires k.KObj? && WellFormed(k) && i < |k.fields|
    requires var e := k.fields[i].kind; Fits(e, p) && Tidy(e, p) && DecodeAll(e, p, js).Some?
    ensures var e := k.fields[i].kind; Fits(e, DecodeAll(e, p, js).value)
    ensures js != [] ==> var e := k.fields[i].kind; Canonical(e, DecodeAll(e, p, js).value)
    decreases k, 0, |js|
  {
    if js != [] {
      var e := k.fields[i].kind;
      DecodeCanonical(e, p, js[0]);
      var v := Decode(e, p, js[0]).v;
      CanonicalTidy(e, v);
      AllCanonical(k, i, v, js[1..]);
    }
  }

  /** So a decoded value survives being encoded and decoded again, unchanged, whatever JSON it
      came from. */
  lemma DecodedSurvives(k: Kind, j: Value)
    requires WellFormed(k) && Decodes(k, j)
    ensures var v := Decode(k, Zero(k), j).v;
            Fits(k, v) && Norm(k, v) == v && Decode(k, Zero(k), Tree(k, v)) == Done(v)
  {
    ZeroTidy(k);
    DecodeCanonical(k, Zero(k), j);
    var v := Decode(k, Zero(k), j).v;
    UnchangedExactly(k, v);
    RoundTrip(k, v);
  }
}
