/** Objects with members the decoder does not know, and with repeated members. */
module Members {
  import opened Json
  import opened Options
  import opened Schema
  import opened Laws

  // ---------- unknown members ----------

  /** `j` without the members no `Decode` of kind `k` looks at, at any depth. */
  function Known(k: Kind, j: Value): Value
    decreases k, 1, 0, j
  {
    match k
    case KArr(e) => if j.JArr? then JArr(KnownElems(e, j.elems)) else j
    case KNil(e) => Known(e, j)
    case KOpt(e) => Known(e, j)
    case KObj(_) => if j.JObj? then JObj(KnownMembers(k, j.members)) else j
    case _ => j
  }

  function KnownElems(e: Kind, js: seq<Value>): seq<Value>
    decreases e, 2, |js|
  {
    if js == [] then [] else [Known(e, js[0])] + KnownElems(e, js[1..])
  }

  function KnownMembers(k: Kind, ms: seq<Member>): seq<Member>
    requires k.KObj?
    decreases k, 0, |ms|
  {
    if ms == [] then []
    else
      var i := Find(k.fields, ms[0].key);
      if i == |k.fields| then KnownMembers(k, ms[1..])
      else [Member(ms[0].key, Known(k.fields[i].kind, ms[0].value))] + KnownMembers(k, ms[1..])
  }

  /** Unknown members are invisible: they change neither success nor value nor report. */
  lemma {:induction false} UnknownInvisible(k: Kind, prior: Val, j: Value)
    ensures Decode(k, prior, Known(k, j)) == Decode(k, prior, j)
    decreases k, 1, 0
  {
    match k
    case KArr(e) => if j.JArr? { ElemsInvisible(e, j.elems); }
    case KNil(e) =>
      KnownNull(e, j);
      UnknownInvisible(e, Payload(e, prior), j);
    case KOpt(e) => UnknownInvisible(e, Zero(e), j);
    case KObj(fields) =>
      if j.JObj? {
        MembersInvisible(k, Preset(fields, Slots(fields, prior)), j.members);
        forall i | 0 <= i < |fields| ensures Occurs(fields, i, KnownMembers(k, j.members)) <==>
            Occurs(fields, i, j.members) {
          KnownOccurs(k, i, j.members);
        }
        SameMissing(fields, KnownMembers(k, j.members), j.members, |fields|);
      }
    case _ =>
  }

  lemma {:induction false} KnownNull(k: Kind, j: Value)
    ensures Known(k, j) == JNull <==> j == JNull
    decreases k
  {
    match k
    case KNil(e) => KnownNull(e, j);
    case KOpt(e) => KnownNull(e, j);
    case _ =>
  }

  lemma {:induction false} ElemsInvisible(e: Kind, js: seq<Value>)
    ensures DecodeElems(e, KnownElems(e, js)) == DecodeElems(e, js)
    decreases e, 2, |js|
  {
    if js != [] {
      UnknownInvisible(e, Zero(e), js[0]);
      ElemsInvisible(e, js[1..]);
      assert KnownElems(e, js)[1..] == KnownElems(e, js[1..]);
    }
  }

  lemma {:induction false} MembersInvisible(k: Kind, vals: seq<Val>, ms: seq<Member>)
    requires k.KObj? && |vals| == |k.fields|
    ensures DecodeMembers(k, vals, KnownMembers(k, ms)) == DecodeMembers(k, vals, ms)
    decreases k, 0, |ms|
  {
    if ms != [] {
      var i := Find(k.fields, ms[0].key);
      var known := KnownMembers(k, ms);
      if i < |k.fields| {
        UnknownInvisible(k.fields[i].kind, vals[i], ms[0].value);
        assert known[0].key == ms[0].key && known[1..] == KnownMembers(k, ms[1..]);
        assert DecodeMember(k, vals, known[0]) == DecodeMember(k, vals, ms[0]);
      }
      var step := DecodeMember(k, vals, ms[0]);
      if step.Some? {
        MembersInvisible(k, step.value, ms[1..]);
      }
    }
  }

  lemma {:induction false} KnownOccurs(k: Kind, i: nat, ms: seq<Member>)
    requires k.KObj? && i < |k.fields|
    ensures Occurs(k.fields, i, KnownMembers(k, ms)) <==> Occurs(k.fields, i, ms)
    decreases |ms|
  {
    OccursIsValues(k.fields, i, KnownMembers(k, ms));
    OccursIsValues(k.fields, i, ms);
    if ms != [] {
      KnownOccurs(k, i, ms[1..]);
      OccursIsValues(k.fields, i, KnownMembers(k, ms[1..]));
      OccursIsValues(k.fields, i, ms[1..]);
      if Find(k.fields, ms[0].key) < |k.fields| {
        assert KnownMembers(k, ms)[1..] == KnownMembers(k, ms[1..]);
      }
    }
  }

  lemma {:induction false} KnownAppend(k: Kind, xs: seq<Member>, ys: seq<Member>)
    requires k.KObj?
    ensures KnownMembers(k, xs + ys) == KnownMembers(k, xs) + KnownMembers(k, ys)
    decreases |xs|
  {
    if xs == [] {
      assert xs + ys == ys;
    } else {
      KnownAppend(k, xs[1..], ys);
      assert (xs + ys)[1..] == xs[1..] + ys;
    }
  }

  /** `j'` is `j` with one unknown member put in: at any place of the object, or anywhere
      inside the value of a known member or an array element. */
  ghost predicate Grown(k: Kind, j: Value, j': Value)
    decreases k, j
  {
    match k
    case KArr(e) =>
      j.JArr? && j'.JArr? && |j.elems| == |j'.elems| &&
      exists i :: 0 <= i < |j.elems| && Grown(e, j.elems[i], j'.elems[i]) && j'.elems == j.elems[i := j'.elems[i]]
    case KNil(e) => Grown(e, j, j')
    case KOpt(e) => Grown(e, j, j')
    case KObj(fields) =>
      j.JObj? && j'.JObj? && ((exists p: nat :: PutIn(fields, j.members, j'.members, p)) ||
        (|j.members| == |j'.members| &&
         exists p :: 0 <= p < |j.members| && Find(fields, j.members[p].key) < |fields| &&
           j'.members[p].key == j.members[p].key &&
           Grown(fields[Find(fields, j.members[p].key)].kind, j.members[p].value, j'.members[p].value) &&
           j'.members == j.members[p := j'.members[p]]))
    case _ => false
  }

  predicate PutIn(fields: seq<Field>, ms: seq<Member>, ms': seq<Member>, p: nat) {
    p <= |ms| && |ms'| == |ms| + 1 && Find(fields, ms'[p].key) == |fields| && ms' == ms[..p] + [ms'[p]] + ms[p..]
  }

  lemma {:induction false} GrownKnown(k: Kind, j: Value, j': Value)
    requires Grown(k, j, j')
    ensures Known(k, j') == Known(k, j)
    decreases k
  {
    match k
    case KArr(e) =>
      var i :| 0 <= i < |j.elems| && Grown(e, j.elems[i], j'.elems[i]) && j'.elems == j.elems[i := j'.elems[i]];
      GrownKnown(e, j.elems[i], j'.elems[i]);
      ElemKnown(e, j.elems, i, j'.elems[i]);
    case KNil(e) => GrownKnown(e, j, j');
    case KOpt(e) => GrownKnown(e, j, j');
    case KObj(fields) =>
      var ms, ms' := j.members, j'.members;
      if exists p: nat :: PutIn(fields, ms, ms', p) {
        var p: nat :| PutIn(fields, ms, ms', p);
        PutInKnown(k, ms, ms', p);
      } else {
        var p :| 0 <= p < |ms| && Find(fields, ms[p].key) < |fields| && ms'[p].key == ms[p].key &&
          Grown(fields[Find(fields, ms[p].key)].kind, ms[p].value, ms'[p].value) && ms' == ms[p := ms'[p]];
        GrownKnown(fields[Find(fields, ms[p].key)].kind, ms[p].value, ms'[p].value);
        MemberKnown(k, ms, p, ms'[p]);
      }
  }

  lemma PutInKnown(k: Kind, ms: seq<Member>, ms': seq<Member>, p: nat)
    requires k.KObj? && PutIn(k.fields, ms, ms', p)
    ensures KnownMembers(k, ms') == KnownMembers(k, ms)
  {
    assert ms == ms[..p] + ms[p..];
    KnownAppend(k, ms[..p], ms[p..]);
    KnownAppend(k, ms[..p] + [ms'[p]], ms[p..]);
    KnownAppend(k, ms[..p], [ms'[p]]);
    assert KnownMembers(k, [ms'[p]]) == [];
  }

  lemma {:induction false} ElemKnown(e: Kind, js: seq<Value>, i: nat, j: Value)
    requires i < |js| && Known(e, j) == Known(e, js[i])
    ensures KnownElems(e, js[i := j]) == KnownElems(e, js)
    decreases |js|
  {
    if i > 0 {
      assert js[i := j][1..] == js[1..][i - 1 := j];
      ElemKnown(e, js[1..], i - 1, j);
    } else {
      assert js[i := j][1..] == js[1..];
    }
  }

  lemma {:induction false} MemberKnown(k: Kind, ms: seq<Member>, p: nat, m: Member)
    requires k.KObj? && p < |ms| && m.key == ms[p].key && Find(k.fields, m.key) < |k.fields|
    requires var kind := k.fields[Find(k.fields, m.key)].kind; Known(kind, m.value) == Known(kind, ms[p].value)
    ensures KnownMembers(k, ms[p := m]) == KnownMembers(k, ms)
    decreases |ms|
  {
    if p > 0 {
      assert ms[p := m][1..] == ms[1..][p - 1 := m];
      MemberKnown(k, ms[1..], p - 1, m);
    } else {
      assert ms[p := m][1..] == ms[1..];
    }
  }

  /** Putting unknown members in, with any values, at any position and depth, changes nothing
      about a decode into any receiver. */
  lemma GrowthInvisible(k: Kind, prior: Val, j: Value, j': Value)
    requires Grown(k, j, j')
    ensures Decode(k, prior, j') == Decode(k, prior, j)
  {
    GrownKnown(k, j, j');
    UnknownInvisible(k, prior, j);
    UnknownInvisible(k, prior, j');
  }

  // ---------- repeated members ----------

  predicate HasKey(ms: seq<Member>, key: string) {
    exists p :: 0 <= p < |ms| && ms[p].key == key
  }

  /** Only the last member of each key. */
  function KeepLast(ms: seq<Member>): seq<Member> {
    if ms == [] then []
    else if HasKey(ms[1..], ms[0].key) then KeepLast(ms[1..])
    else [ms[0]] + KeepLast(ms[1..])
  }

  function LastOf(js: seq<Value>): seq<Value> { if js == [] then [] else [js[|js| - 1]] }

  lemma KeyIsField(fields: seq<Field>, ms: seq<Member>, key: string)
    requires Find(fields, key) < |fields|
    ensures HasKey(ms, key) <==> Occurs(fields, Find(fields, key), ms)
  {
  }

  lemma {:induction false} KeepLastValues(fields: seq<Field>, i: nat, ms: seq<Member>)
    requires i < |fields|
    ensures Values(fields, i, KeepLast(ms)) == LastOf(Values(fields, i, ms))
    decreases |ms|
  {
    if ms != [] {
      var rest := ms[1..];
      KeepLastValues(fields, i, rest);
      if Find(fields, ms[0].key) == i {
        KeyIsField(fields, rest, ms[0].key);
        OccursIsValues(fields, i, rest);
      }
      if !HasKey(rest, ms[0].key) {
        assert KeepLast(ms)[1..] == KeepLast(rest);
      }
    }
  }

  lemma {:induction false} DecodeAllLast(k: Kind, p: Val, js: seq<Value>)
    requires Overwrites(k) && forall j :: j in js ==> Decodes(k, j)
    ensures DecodeAll(k, p, js) == DecodeAll(k, p, LastOf(js))
    ensures js != [] ==> Decodes(k, js[|js| - 1]) && DecodeAll(k, p, js) == Some(Decode(k, Zero(k), js[|js| - 1]).v)
    decreases |js|
  {
    if js != [] {
      var last := js[|js| - 1];
      assert js[0] in js && last in js;
      OverwritesReceiver(k, p, Zero(k), js[0]);
      OverwritesReceiver(k, p, Zero(k), last);
      var v := Decode(k, p, js[0]).v;
      assert DecodeAll(k, p, [last]) == DecodeAll(k, Decode(k, p, last).v, []);
      if |js| > 1 {
        DecodeAllLast(k, v, js[1..]);
      } else {
        assert js[1..] == [];
      }
    }
  }

  lemma {:induction false} ValuesDecode(fields: seq<Field>, i: nat, ms: seq<Member>)
    requires i < |fields| && KnownMembersDecode(fields, ms)
    ensures forall j :: j in Values(fields, i, ms) ==> Decodes(fields[i].kind, j)
    decreases |ms|
  {
    if ms != [] {
      assert forall p :: 0 <= p < |ms[1..]| ==> ms[1..][p] == ms[p + 1];
      ValuesDecode(fields, i, ms[1..]);
    }
  }

  /** With overwriting fields the last member of a key wins: dropping the earlier ones
      changes nothing, provided they decode. */
  lemma LastWins(fields: seq<Field>, prior: Val, ms: seq<Member>)
    requires forall i :: 0 <= i < |fields| ==> Overwrites(fields[i].kind)
    requires KnownMembersDecode(fields, ms)
    ensures Decode(KObj(fields), prior, JObj(ms)) == Decode(KObj(fields), prior, JObj(KeepLast(ms)))
  {
    var k, vals := KObj(fields), Preset(fields, Slots(fields, prior));
    var kept := KeepLast(ms);
    forall i | 0 <= i < |fields|
      ensures DecodeAll(fields[i].kind, vals[i], Values(fields, i, ms)) ==
          DecodeAll(fields[i].kind, vals[i], Values(fields, i, kept))
      ensures Occurs(fields, i, ms) <==> Occurs(fields, i, kept)
    {
      KeepLastValues(fields, i, ms);
      ValuesDecode(fields, i, ms);
      DecodeAllLast(fields[i].kind, vals[i], Values(fields, i, ms));
      OccursIsValues(fields, i, ms);
      OccursIsValues(fields, i, kept);
    }
    SameMissing(fields, ms, kept, |fields|);
    SameDecodes(fields, vals, ms, kept);
  }

  /** Members that bring every field to the same value decode alike. */
  lemma SameDecodes(fields: seq<Field>, vals: seq<Val>, ms: seq<Member>, ms': seq<Member>)
    requires |vals| == |fields|
    requires forall i :: 0 <= i < |fields| ==>
               DecodeAll(fields[i].kind, vals[i], Values(fields, i, ms)) ==
                   DecodeAll(fields[i].kind, vals[i], Values(fields, i, ms'))
    ensures DecodeMembers(KObj(fields), vals, ms) == DecodeMembers(KObj(fields), vals, ms')
  {
    FieldByField(fields, vals, ms);
    FieldByField(fields, vals, ms');
    var r, r' := DecodeMembers(KObj(fields), vals, ms), DecodeMembers(KObj(fields), vals, ms');
    if r.Some? {
      assert r.value == r'.value;
    }
  }

  /** What an earlier occurrence can still do is fail: an object decodes exactly when its
      last occurrences do and every dropped one decodes as well. */
  lemma EarlierCanOnlyFail(fields: seq<Field>, prior: Val, ms: seq<Member>)
    requires forall i :: 0 <= i < |fields| ==> Overwrites(fields[i].kind)
    ensures Decode(KObj(fields), prior, JObj(ms)).Done? <==>
            Decode(KObj(fields), prior, JObj(KeepLast(ms))).Done? && KnownMembersDecode(fields, ms)
  {
    SuccessExact(fields, prior, ms);
    if KnownMembersDecode(fields, ms) {
      LastWins(fields, prior, ms);
    }
  }

  /** A receiver that is a struct is decoded in place.  Its last occurrence alone decides
      the result exactly when every field it leaves out still had its zero value. */
  lemma LastAloneExactly(fields: seq<Field>, prior: Val, ms: seq<Member>)
    requires WellFormed(KObj(fields)) && forall i :: 0 <= i < |fields| ==> Overwrites(fields[i].kind)
    requires Decode(KObj(fields), prior, JObj(ms)).Done?
    ensures Decode(KObj(fields), prior, JObj(ms)) == Decode(KObj(fields), Zero(KObj(fields)), JObj(ms)) <==>
            forall i :: 0 <= i < |fields| && !Occurs(fields, i, ms) ==> Slots(fields, prior)[i] == Zero(fields[i].kind)
  {
    var k := KObj(fields);
    var r, r0 := Decode(k, prior, JObj(ms)), Decode(k, Zero(k), JObj(ms));
    forall i | 0 <= i < |fields|
      ensures |r.v.vals| == |fields| && r0.Done? && |r0.v.vals| == |fields|
      ensures Occurs(fields, i, ms) ==> r.v.vals[i] == r0.v.vals[i]
      ensures !Occurs(fields, i, ms) ==> r.v.vals[i] == Slots(fields, prior)[i] && r0.v.vals[i] == Zero(fields[i].kind)
    {
      ReceiverFrame(fields, prior, ms, i);
      SuccessIgnoresReceiver(k, prior, Zero(k), JObj(ms));
      ReceiverFrame(fields, Zero(k), ms, i);
    }
    SuccessIgnoresReceiver(k, prior, Zero(k), JObj(ms));
    if r != r0 {
      assert r.v.vals != r0.v.vals;
    }
  }

  /** In place: a field that occurs is as in a fresh receiver, the others stay. */
  lemma InPlaceSlot(fields: seq<Field>, prior: Val, ms: seq<Member>, i: nat)
    requires WellFormed(KObj(fields)) && i < |fields| && Overwrites(fields[i].kind)
    requires prior.VObj? && |prior.vals| == |fields| && Decodes(KObj(fields), JObj(ms))
    ensures var r, r0 := Decode(KObj(fields), prior, JObj(ms)), Decode(KObj(fields), Zero(KObj(fields)), JObj(ms));
            r.Done? && r.v.VObj? && r0.v.VObj? && |r.v.vals| == |r0.v.vals| == |fields| &&
            r.v.vals[i] == if Occurs(fields, i, ms) then r0.v.vals[i] else prior.vals[i]
  {
    SuccessIgnoresReceiver(KObj(fields), Zero(KObj(fields)), prior, JObj(ms));
    ReceiverFrame(fields, prior, ms, i);
  }

  /** Some of the values `js` has a member for field `i`. */
  predicate OccursIn(fields: seq<Field>, i: nat, js: seq<Value>) {
    exists p :: 0 <= p < |js| && js[p].JObj? && Occurs(fields, i, js[p].members)
  }

  /** A field the object has is not zero after a fresh decode, if it is optional. */
  lemma FreshSlotNotZero(fields: seq<Field>, ms: seq<Member>, i: nat)
    requires WellFormed(KObj(fields)) && i < |fields| && !fields[i].required
    requires Decodes(KObj(fields), JObj(ms)) && Occurs(fields, i, ms)
    ensures Decode(KObj(fields), Zero(KObj(fields)), JObj(ms)).v.vals[i] != Zero(fields[i].kind)
  {
    var vals := Preset(fields, Slots(fields, Zero(KObj(fields))));
    FieldByField(fields, vals, ms);
    OccursIsValues(fields, i, ms);
    DecodedNotZero(fields[i].kind, vals[i], Values(fields, i, ms));
  }

  /** One struct decoded from each of `js` in turn: an optional field that occurs in none of
      them stays, and one that does is not zero in the end. */
  lemma {:induction false} SlotInTurn(fields: seq<Field>, prior: Val, js: seq<Value>, i: nat)
    requires WellFormed(KObj(fields)) && i < |fields| && Overwrites(fields[i].kind) && !fields[i].required
    requires prior.VObj? && |prior.vals| == |fields| && forall j :: j in js ==> Decodes(KObj(fields), j)
    ensures var r := DecodeAll(KObj(fields), prior, js);
            r.Some? && r.value.VObj? && |r.value.vals| == |fields| &&
            (!OccursIn(fields, i, js) ==> r.value.vals[i] == prior.vals[i]) &&
            (OccursIn(fields, i, js) ==> r.value.vals[i] != Zero(fields[i].kind))
    decreases |js|
  {
    if js != [] {
      var k := KObj(fields);
      assert Decodes(k, js[0]);
      var ms := js[0].members;
      InPlaceSlot(fields, prior, ms, i);
      SlotInTurn(fields, Decode(k, prior, js[0]).v, js[1..], i);
      FirstOccurs(fields, i, js);
      if Occurs(fields, i, ms) {
        FreshSlotNotZero(fields, ms, i);
      }
    }
  }

  lemma FirstOccurs(fields: seq<Field>, i: nat, js: seq<Value>)
    requires js != []
    ensures OccursIn(fields, i, js) <==>
            (js[0].JObj? && Occurs(fields, i, js[0].members)) || OccursIn(fields, i, js[1..])
  {
    if OccursIn(fields, i, js[1..]) {
      var p :| 0 <= p < |js[1..]| && js[1..][p].JObj? && Occurs(fields, i, js[1..][p].members);
      assert js[p + 1] == js[1..][p];
    }
    if OccursIn(fields, i, js) {
      var p :| 0 <= p < |js| && js[p].JObj? && Occurs(fields, i, js[p].members);
      assert p > 0 ==> js[1..][p - 1] == js[p];
    }
  }

  lemma LastOccurs(fields: seq<Field>, i: nat, js: seq<Value>, last: Value)
    ensures OccursIn(fields, i, js + [last]) <==>
            OccursIn(fields, i, js) || (last.JObj? && Occurs(fields, i, last.members))
  {
    var all := js + [last];
    assert all[|js|] == last && forall p :: 0 <= p < |js| ==> all[p] == js[p];
  }

  lemma {:induction false} DecodeAllAppend(k: Kind, p: Val, js: seq<Value>, last: Value)
    ensures var r := DecodeAll(k, p, js);
            DecodeAll(k, p, js + [last]) ==
            if r.Some? && Decode(k, r.value, last).Done? then Some(Decode(k, r.value, last).v) else None
    decreases |js|
  {
    var all := js + [last];
    if js == [] {
      assert all[0] == last && all[1..] == [];
    } else {
      assert all[0] == js[0] && all[1..] == js[1..] + [last];
      if Decode(k, p, js[0]).Done? {
        DecodeAllAppend(k, Decode(k, p, js[0]).v, js[1..], last);
      }
    }
  }

  lemma LastIntoEarlier(fields: seq<Field>, js: seq<Value>, last: Value)
    requires WellFormed(KObj(fields)) && forall i :: 0 <= i < |fields| ==> Overwrites(fields[i].kind)
    requires Decodes(KObj(fields), last) && forall j :: j in js ==> Decodes(KObj(fields), j)
    ensures var k := KObj(fields);
            DecodeAll(k, Zero(k), js + [last]).Some? &&
            (DecodeAll(k, Zero(k), js + [last]) == Some(Decode(k, Zero(k), last).v) <==>
             forall i :: 0 <= i < |fields| && OccursIn(fields, i, js) ==> Occurs(fields, i, last.members))
  {
    var k := KObj(fields);
    AllDecode(fields, Zero(k), js);
    var p := DecodeAll(k, Zero(k), js).value;
    DecodeAllAppend(k, Zero(k), js, last);
    SuccessIgnoresReceiver(k, Zero(k), p, last);
    LastAloneExactly(fields, p, last.members);
    SuccessExact(fields, Zero(k), last.members);
    forall i | 0 <= i < |fields| && !Occurs(fields, i, last.members)
      ensures Slots(fields, p)[i] == Zero(fields[i].kind) <==> !OccursIn(fields, i, js)
    {
      SlotInTurn(fields, Zero(k), js, i);
    }
  }

  /** Any number of occurrences of a struct-valued member, decoded in place: the last one alone
      decides exactly when it has every field that any of them has. */
  lemma LastDecidesExactly(fields: seq<Field>, js: seq<Value>)
    requires WellFormed(KObj(fields)) && forall i :: 0 <= i < |fields| ==> Overwrites(fields[i].kind)
    requires js != [] && forall j :: j in js ==> Decodes(KObj(fields), j)
    ensures var k := KObj(fields);
            DecodeAll(k, Zero(k), js).Some? && DecodeAll(k, Zero(k), LastOf(js)).Some? &&
            (DecodeAll(k, Zero(k), js) == DecodeAll(k, Zero(k), LastOf(js)) <==>
             forall i :: 0 <= i < |fields| && OccursIn(fields, i, js) ==> OccursIn(fields, i, LastOf(js)))
  {
    var k, init, last := KObj(fields), js[..|js| - 1], js[|js| - 1];
    assert js == init + [last] && LastOf(js) == [] + [last];
    assert Decodes(k, last) && forall j :: j in init ==> j in js;
    LastIntoEarlier(fields, init, last);
    DecodeAllAppend(k, Zero(k), [], last);
    forall i | 0 <= i < |fields|
      ensures OccursIn(fields, i, LastOf(js)) <==> Occurs(fields, i, last.members)
      ensures OccursIn(fields, i, js) <==> OccursIn(fields, i, init) || Occurs(fields, i, last.members)
    {
      LastOccurs(fields, i, init, last);
      LastOccurs(fields, i, [], last);
    }
  }

  lemma {:induction false} AllDecode(fields: seq<Field>, prior: Val, js: seq<Value>)
    requires prior.VObj? && |prior.vals| == |fields| && forall j :: j in js ==> Decodes(KObj(fields), j)
    ensures var r := DecodeAll(KObj(fields), prior, js); r.Some? && r.value.VObj? && |r.value.vals| == |fields|
    decreases |js|
  {
    if js != [] {
      var k := KObj(fields);
      assert js[0] in js;
      SuccessIgnoresReceiver(k, Zero(k), prior, js[0]);
      AllDecode(fields, Decode(k, prior, js[0]).v, js[1..]);
    }
  }

  lemma {:induction false} SucceedsInTurn(k: Kind, prior: Val, js: seq<Value>)
    ensures DecodeAll(k, prior, js).Some? <==> forall j :: j in js ==> Decodes(k, j)
    decreases |js|
  {
    if js != [] {
      SuccessIgnoresReceiver(k, Zero(k), prior, js[0]);
      if Decode(k, prior, js[0]).Done? {
        SucceedsInTurn(k, Decode(k, prior, js[0]).v, js[1..]);
        assert forall j :: j in js <==> j == js[0] || j in js[1..];
      } else {
        assert js[0] in js;
      }
    }
  }

  /** A decoded optional field is never the zero value of its type. */
  lemma {:induction false} DecodedNotZero(k: Kind, p: Val, js: seq<Value>)
    requires k.KOpt? || k.KArr?
    requires js != [] && DecodeAll(k, p, js).Some?
    ensures DecodeAll(k, p, js).value != Zero(k)
    decreases |js|
  {
    if |js| > 1 {
      DecodedNotZero(k, Decode(k, p, js[0]).v, js[1..]);
    } else {
      assert js[1..] == [];
    }
  }
}
