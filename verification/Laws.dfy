/** Laws of the generated codec, for every kind. */
module Laws {
  import opened Json
  import opened Options
  import opened Schema

  // ---------- each field on its own ----------

  /** The values of the members that select field `i`, in order of appearance. */
  function Values(fields: seq<Field>, i: nat, ms: seq<Member>): seq<Value> {
    if ms == [] then []
    else if Find(fields, ms[0].key) == i then [ms[0].value] + Values(fields, i, ms[1..])
    else Values(fields, i, ms[1..])
  }

  /** One receiver, decoded from each of `js` in turn. */
  function DecodeAll(k: Kind, prior: Val, js: seq<Value>): Option<Val>
    decreases |js|
  {
    if js == [] then Some(prior)
    else
      match Decode(k, prior, js[0])
      case Done(v) => DecodeAll(k, v, js[1..])
      case _ => None
  }

  /** The members of an object reach the fields independently of each other: each field
      ends up as if only its own members had been there. */
  lemma {:induction false} FieldByField(fields: seq<Field>, vals: seq<Val>, ms: seq<Member>)
    requires |vals| == |fields|
    ensures var r := DecodeMembers(KObj(fields), vals, ms);
            (r.Some? <==> forall i :: 0 <= i < |fields| ==>
                            DecodeAll(fields[i].kind, vals[i], Values(fields, i, ms)).Some?) &&
            (r.Some? ==> forall i :: 0 <= i < |fields| ==>
                            DecodeAll(fields[i].kind, vals[i], Values(fields, i, ms)) == Some(r.value[i]))
    decreases |ms|
  {
    if ms != [] {
      var f := Find(fields, ms[0].key);
      var step := DecodeMember(KObj(fields), vals, ms[0]);
      if step.Some? {
        FieldByField(fields, step.value, ms[1..]);
        forall i | 0 <= i < |fields|
          ensures DecodeAll(fields[i].kind, vals[i], Values(fields, i, ms))
                  == DecodeAll(fields[i].kind, step.value[i], Values(fields, i, ms[1..]))
        {
          FirstValue(fields, vals, i, ms);
        }
      } else {
        FirstValue(fields, vals, f, ms);
      }
    }
  }

  lemma FirstValue(fields: seq<Field>, vals: seq<Val>, i: nat, ms: seq<Member>)
    requires |vals| == |fields| && i < |fields| && ms != []
    ensures var step := DecodeMember(KObj(fields), vals, ms[0]);
            DecodeAll(fields[i].kind, vals[i], Values(fields, i, ms)) ==
            if step.Some? then DecodeAll(fields[i].kind, step.value[i], Values(fields, i, ms[1..]))
            else if i == Find(fields, ms[0].key) then None
            else DecodeAll(fields[i].kind, vals[i], Values(fields, i, ms[1..]))
  {
    var js := Values(fields, i, ms);
    if i == Find(fields, ms[0].key) {
      assert js[0] == ms[0].value && js[1..] == Values(fields, i, ms[1..]);
    }
  }

  lemma {:induction false} OccursIsValues(fields: seq<Field>, i: nat, ms: seq<Member>)
    ensures Occurs(fields, i, ms) <==> Values(fields, i, ms) != []
    decreases |ms|
  {
    if ms != [] {
      var rest := ms[1..];
      OccursIsValues(fields, i, rest);
      if Occurs(fields, i, rest) {
        var p :| 0 <= p < |rest| && Find(fields, rest[p].key) == i;
        assert ms[p + 1] == rest[p];
      }
      if Occurs(fields, i, ms) && Find(fields, ms[0].key) != i {
        var p :| 0 <= p < |ms| && Find(fields, ms[p].key) == i;
        assert rest[p - 1] == ms[p];
      }
    }
  }

  lemma {:induction false} SameMissing(fields: seq<Field>, ms: seq<Member>, ms': seq<Member>, n: nat)
    requires n <= |fields|
    requires forall i :: 0 <= i < |fields| ==> (Occurs(fields, i, ms) <==> Occurs(fields, i, ms'))
    ensures MissingBelow(fields, ms, n) == MissingBelow(fields, ms', n)
  {
    if n > 0 {
      SameMissing(fields, ms, ms', n - 1);
    }
  }

  /** Objects that offer every field the same values decode alike. */
  lemma SameValues(fields: seq<Field>, prior: Val, ms: seq<Member>, ms': seq<Member>)
    requires forall i :: 0 <= i < |fields| ==> Values(fields, i, ms) == Values(fields, i, ms')
    ensures Decode(KObj(fields), prior, JObj(ms)) == Decode(KObj(fields), prior, JObj(ms'))
  {
    var vals := Preset(fields, Slots(fields, prior));
    FieldByField(fields, vals, ms);
    FieldByField(fields, vals, ms');
    var r, r' := DecodeMembers(KObj(fields), vals, ms), DecodeMembers(KObj(fields), vals, ms');
    if r.Some? {
      forall i | 0 <= i < |fields| ensures r.value[i] == r'.value[i] {
        assert Values(fields, i, ms) == Values(fields, i, ms');
      }
      assert r.value == r'.value;
    }
    forall i | 0 <= i < |fields| ensures Occurs(fields, i, ms) <==> Occurs(fields, i, ms') {
      OccursIsValues(fields, i, ms);
      OccursIsValues(fields, i, ms');
    }
    SameMissing(fields, ms, ms', |fields|);
  }

  // ---------- member order ----------

  predicate DistinctKeys(ms: seq<Member>) {
    forall p, q :: 0 <= p < q < |ms| ==> ms[p].key != ms[q].key
  }

  /** With distinct keys a field sees the value of the one member that selects it. */
  lemma {:induction false} OnlyValue(fields: seq<Field>, i: nat, ms: seq<Member>, p: nat)
    requires DistinctKeys(ms) && i < |fields| && p < |ms| && Find(fields, ms[p].key) == i
    ensures Values(fields, i, ms) == [ms[p].value]
    decreases |ms|
  {
    if p == 0 {
      var rest := ms[1..];
      OccursIsValues(fields, i, rest);
      assert !Occurs(fields, i, rest);
    } else {
      assert ms[0].key != ms[p].key;
      OnlyValue(fields, i, ms[1..], p - 1);
    }
  }

  /** The order of an object's members does not matter: success, value, and report of
      missing fields are those of any permutation. */
  lemma OrderIrrelevant(fields: seq<Field>, prior: Val, ms: seq<Member>, ms': seq<Member>)
    requires DistinctKeys(ms) && DistinctKeys(ms') && multiset(ms) == multiset(ms')
    ensures Decode(KObj(fields), prior, JObj(ms)) == Decode(KObj(fields), prior, JObj(ms'))
  {
    forall i | 0 <= i < |fields| ensures Values(fields, i, ms) == Values(fields, i, ms') {
      OccursIsValues(fields, i, ms);
      OccursIsValues(fields, i, ms');
      if Occurs(fields, i, ms) {
        var p :| 0 <= p < |ms| && Find(fields, ms[p].key) == i;
        assert ms[p] in multiset(ms');
        var q :| 0 <= q < |ms'| && ms'[q] == ms[p];
        OnlyValue(fields, i, ms, p);
        OnlyValue(fields, i, ms', q);
      } else {
        forall q | 0 <= q < |ms'| ensures Find(fields, ms'[q].key) != i {
          assert ms'[q] in multiset(ms);
        }
      }
    }
    SameValues(fields, prior, ms, ms');
  }

  /** What holds of values holds of token streams: decoding what prints as `j` is decoding `j`. */
  lemma FromTokens(k: Kind, prior: Val, j: Value, rest: seq<Token>)
    ensures var r, at := Decode(k, prior, j), DecodeAt(k, prior, Print(j, rest));
            (r.Done? ==> at == DoneAt(r.v, rest)) && (r.Missing? ==> at == MissingAt(r.names)) &&
            (r.Failed? ==> at == FailedAt)
  {
    ParseOfPrint(j, rest);
  }

  /** Member order on a token stream, with anything behind the object. */
  lemma OrderIrrelevantOnStreams(fields: seq<Field>, prior: Val, ms: seq<Member>, ms': seq<Member>, rest: seq<Token>)
    requires DistinctKeys(ms) && DistinctKeys(ms') && multiset(ms) == multiset(ms')
    ensures DecodeAt(KObj(fields), prior, Print(JObj(ms), rest)) ==
        DecodeAt(KObj(fields), prior, Print(JObj(ms'), rest))
  {
    OrderIrrelevant(fields, prior, ms, ms');
    FromTokens(KObj(fields), prior, JObj(ms), rest);
    FromTokens(KObj(fields), prior, JObj(ms'), rest);
  }

  // ---------- success ----------

  predicate Decodes(k: Kind, j: Value) { Decode(k, Zero(k), j).Done? }

  /** Whether a decode succeeds never depends on what the receiver held. */
  lemma {:induction false} SuccessIgnoresReceiver(k: Kind, p: Val, q: Val, j: Value)
    ensures Decode(k, p, j).Done? <==> Decode(k, q, j).Done?
    decreases k, 1, 0
  {
    match k
    case KNil(e) => SuccessIgnoresReceiver(e, Payload(e, p), Payload(e, q), j);
    case KObj(fields) =>
      if j.JObj? {
        MembersIgnoreReceiver(k, Preset(fields, Slots(fields, p)), Preset(fields, Slots(fields, q)), j.members);
      }
    case _ =>
  }

  lemma {:induction false} MembersIgnoreReceiver(k: Kind, vals: seq<Val>, vals': seq<Val>, ms: seq<Member>)
    requires k.KObj? && |vals| == |vals'| == |k.fields|
    ensures DecodeMembers(k, vals, ms).Some? <==> DecodeMembers(k, vals', ms).Some?
    decreases k, 0, |ms|
  {
    if ms != [] {
      var i := Find(k.fields, ms[0].key);
      if i < |k.fields| {
        SuccessIgnoresReceiver(k.fields[i].kind, vals[i], vals'[i], ms[0].value);
      }
      var s, s' := DecodeMember(k, vals, ms[0]), DecodeMember(k, vals', ms[0]);
      if s.Some? {
        MembersIgnoreReceiver(k, s.value, s'.value, ms[1..]);
      }
    }
  }

  /** Every member with a known key has a value its field can decode. */
  predicate KnownMembersDecode(fields: seq<Field>, ms: seq<Member>) {
    forall p :: 0 <= p < |ms| && Find(fields, ms[p].key) < |fields| ==>
      Decodes(fields[Find(fields, ms[p].key)].kind, ms[p].value)
  }

  lemma {:induction false} MembersSucceed(fields: seq<Field>, vals: seq<Val>, ms: seq<Member>)
    requires |vals| == |fields|
    ensures DecodeMembers(KObj(fields), vals, ms).Some? <==> KnownMembersDecode(fields, ms)
    decreases |ms|
  {
    if ms != [] {
      var m, rest := ms[0], ms[1..];
      var i := Find(fields, m.key);
      if i < |fields| {
        SuccessIgnoresReceiver(fields[i].kind, vals[i], Zero(fields[i].kind), m.value);
      }
      var step := DecodeMember(KObj(fields), vals, m);
      if step.Some? {
        MembersSucceed(fields, step.value, rest);
        assert KnownMembersDecode(fields, ms) <==> KnownMembersDecode(fields, rest) by {
          assert forall p :: 0 <= p < |rest| ==> rest[p] == ms[p + 1];
          assert forall p :: 1 <= p < |ms| ==> ms[p] == rest[p - 1];
        }
      }
    }
  }

  lemma {:induction false} NothingMissing(fields: seq<Field>, ms: seq<Member>, n: nat)
    requires n <= |fields|
    ensures MissingBelow(fields, ms, n) == [] <==>
            forall i :: 0 <= i < n && fields[i].required ==> Occurs(fields, i, ms)
  {
    if n > 0 {
      NothingMissing(fields, ms, n - 1);
    }
  }

  /** An object decodes exactly when every known member's value does and every required
      field has a member. */
  lemma SuccessExact(fields: seq<Field>, prior: Val, ms: seq<Member>)
    ensures Decode(KObj(fields), prior, JObj(ms)).Done? <==>
            KnownMembersDecode(fields, ms) &&
            forall i :: 0 <= i < |fields| && fields[i].required ==> Occurs(fields, i, ms)
  {
    MembersSucceed(fields, Preset(fields, Slots(fields, prior)), ms);
    NothingMissing(fields, ms, |fields|);
  }

  // ---------- receivers ----------

  /** Decoding leaves nothing of what the receiver held. */
  predicate Overwrites(k: Kind)
    decreases k
  {
    match k
    case KNil(e) => Overwrites(e)
    case KObj(fields) => forall i :: 0 <= i < |fields| ==> fields[i].required && Overwrites(fields[i].kind)
    case _ => true
  }

  lemma {:induction false} OverwritesReceiver(k: Kind, p: Val, q: Val, j: Value)
    requires Overwrites(k)
    ensures Decode(k, p, j) == Decode(k, q, j)
    decreases k, 1, 0
  {
    match k
    case KNil(e) => OverwritesReceiver(e, Payload(e, p), Payload(e, q), j);
    case KObj(fields) =>
      if j.JObj? {
        var vals, vals' := Preset(fields, Slots(fields, p)), Preset(fields, Slots(fields, q));
        OverwritesFrom(k, vals, vals', j.members);
      }
    case _ =>
  }

  lemma OverwritesFrom(k: Kind, vals: seq<Val>, vals': seq<Val>, ms: seq<Member>)
    requires k.KObj? && Overwrites(k) && |vals| == |vals'| == |k.fields|
    ensures var r, r' := DecodeMembers(k, vals, ms), DecodeMembers(k, vals', ms);
            r.Some? == r'.Some? && (r.Some? && MissingBelow(k.fields, ms, |k.fields|) == [] ==> r == r')
    decreases k, 0, 1
  {
    MembersIgnoreReceiver(k, vals, vals', ms);
    NothingMissing(k.fields, ms, |k.fields|);
    FieldByField(k.fields, vals, ms);
    FieldByField(k.fields, vals', ms);
    var r, r' := DecodeMembers(k, vals, ms), DecodeMembers(k, vals', ms);
    if r.Some? && MissingBelow(k.fields, ms, |k.fields|) == [] {
      forall i | 0 <= i < |k.fields| ensures r.value[i] == r'.value[i] {
        OccursIsValues(k.fields, i, ms);
        OverwritesAll(k, i, vals[i], vals'[i], Values(k.fields, i, ms));
      }
      assert r.value == r'.value;
    }
  }

  lemma OverwritesAll(k: Kind, i: nat, p: Val, q: Val, js: seq<Value>)
    requires k.KObj? && i < |k.fields| && Overwrites(k.fields[i].kind) && js != []
    ensures DecodeAll(k.fields[i].kind, p, js) == DecodeAll(k.fields[i].kind, q, js)
    decreases k, 0, 0
  {
    OverwritesReceiver(k.fields[i].kind, p, q, js[0]);
  }

  /** The receiver law: after a successful decode an absent field keeps its value, and a
      field of an overwriting kind that is present is as in a fresh receiver. */
  lemma ReceiverFrame(fields: seq<Field>, prior: Val, ms: seq<Member>, i: nat)
    requires i < |fields| && WellFormed(KObj(fields))
    requires Decode(KObj(fields), prior, JObj(ms)).Done?
    ensures var r := Decode(KObj(fields), prior, JObj(ms)).v.vals;
            var fresh0 := Decode(KObj(fields), Zero(KObj(fields)), JObj(ms));
            fresh0.Done? && |r| == |fresh0.v.vals| == |fields| &&
            (!Occurs(fields, i, ms) ==> !fields[i].required && r[i] == Slots(fields, prior)[i]) &&
            (Occurs(fields, i, ms) && Overwrites(fields[i].kind) ==> r[i] == fresh0.v.vals[i])
  {
    var k := KObj(fields);
    SuccessIgnoresReceiver(k, prior, Zero(k), JObj(ms));
    var vals, vals0 := Preset(fields, Slots(fields, prior)), Preset(fields, Slots(fields, Zero(k)));
    FieldByField(fields, vals, ms);
    FieldByField(fields, vals0, ms);
    OccursIsValues(fields, i, ms);
    NothingMissing(fields, ms, |fields|);
    if Occurs(fields, i, ms) && Overwrites(fields[i].kind) {
      OverwritesAll(k, i, vals[i], vals0[i], Values(fields, i, ms));
    }
  }

  /** A preset is never seen: whatever `setDefaults` stores, the outcome is the same. */
  lemma PresetsUnseen(fields: seq<Field>, fields': seq<Field>, prior: Val, j: Value)
    requires Overwrites(KObj(fields)) && |fields'| == |fields|
    requires forall i :: 0 <= i < |fields| ==> fields'[i] == fields[i].(preset := fields'[i].preset)
    ensures Decode(KObj(fields'), prior, j) == Decode(KObj(fields), prior, j)
  {
    if j.JObj? {
      var vals', vals := Preset(fields', Slots(fields', prior)), Preset(fields, Slots(fields, prior));
      SamePlaces(fields, fields', j.members, |fields|);
      SameSteps(fields, fields', vals', j.members);
      OverwritesFrom(KObj(fields), vals, vals', j.members);
    }
  }

  lemma {:induction false} SameFind(fields: seq<Field>, fields': seq<Field>, key: string, from: nat)
    requires |fields'| == |fields| && from <= |fields|
    requires forall i :: 0 <= i < |fields| ==> fields'[i].name == fields[i].name
    ensures Find(fields', key, from) == Find(fields, key, from)
    decreases |fields| - from
  {
    if from < |fields| {
      SameFind(fields, fields', key, from + 1);
    }
  }

  lemma {:induction false} SamePlaces(fields: seq<Field>, fields': seq<Field>, ms: seq<Member>, n: nat)
    requires |fields'| == |fields| && n <= |fields|
    requires forall i :: 0 <= i < |fields| ==>
               fields'[i].name == fields[i].name && fields'[i].required == fields[i].required
    ensures MissingBelow(fields', ms, n) == MissingBelow(fields, ms, n)
  {
    if n > 0 {
      SamePlaces(fields, fields', ms, n - 1);
      forall p | 0 <= p < |ms| ensures Find(fields', ms[p].key) == Find(fields, ms[p].key) {
        SameFind(fields, fields', ms[p].key, 0);
      }
    }
  }

  lemma {:induction false} SameSteps(fields: seq<Field>, fields': seq<Field>, vals: seq<Val>, ms: seq<Member>)
    requires |fields'| == |fields| == |vals|
    requires forall i :: 0 <= i < |fields| ==> fields'[i].name == fields[i].name && fields'[i].kind == fields[i].kind
    ensures DecodeMembers(KObj(fields'), vals, ms) == DecodeMembers(KObj(fields), vals, ms)
    decreases |ms|
  {
    if ms != [] {
      SameFind(fields, fields', ms[0].key, 0);
      var step := DecodeMember(KObj(fields), vals, ms[0]);
      assert DecodeMember(KObj(fields'), vals, ms[0]) == step;
      if step.Some? {
        SameSteps(fields, fields', step.value, ms[1..]);
      }
    }
  }
}
