/** The required-field check at the end of every generated `Decode`: which bits of
    `requiredBitSet` a member sets, and the loop that turns unset required bits into the
    names of the missing fields. */
module RequiredFields {
  import opened Bits
  import opened Json
  import opened Schema

  /** Bit `i` of a bitset of bytes. */
  predicate BitOf(bs: seq<bv8>, i: nat)
    requires i < 8 * |bs|
  {
    BitsOf(bs[i / 8])[i % 8]
  }

  /** The bytes `bs` hold exactly the set of bit indices `marks`. */
  ghost predicate Represents(bs: seq<bv8>, marks: set<nat>) {
    forall i: nat {:trigger BitOf(bs, i)} :: i < 8 * |bs| ==> (BitOf(bs, i) <==> i in marks)
  }

  /** The required fields. */
  ghost function RequiredOf(fields: seq<Field>): set<nat> {
    set i: nat | i < |fields| && fields[i].required
  }

  /** The required fields that the members `ms` fill. */
  ghost function Filled(fields: seq<Field>, ms: seq<Member>): set<nat> {
    set i: nat | i < |fields| && fields[i].required && Occurs(fields, i, ms)
  }

  /** `marks` after one more case of the key switch. */
  ghost function Mark(fields: seq<Field>, marks: set<nat>, i: nat): set<nat> {
    if i < |fields| && fields[i].required then marks + {i} else marks
  }

  /** `var requiredBitSet [bytes]uint8`. */
  method ZeroBits(bytes: nat) returns (bs: seq<bv8>)
    ensures |bs| == bytes && Represents(bs, {})
  {
    bs := seq(bytes, _ => 0);
  }

  /** `requiredBitSet[at] |= 1 << bit`, in the case of the required field `8 * at + bit`. */
  method SetRequired(bs: seq<bv8>, at: nat, bit: nat, ghost fields: seq<Field>, ghost marks: set<nat>)
    returns (r: seq<bv8>)
    requires at < |bs| && bit < 8 && Represents(bs, marks)
    requires 8 * at + bit < |fields| && fields[8 * at + bit].required
    ensures |r| == |bs| && Represents(r, Mark(fields, marks, 8 * at + bit))
  {
    r := bs[at := bs[at] | Shl1(bit)];
    forall i: nat | i < 8 * |bs| ensures BitOf(r, i) <==> i in marks || i == 8 * at + bit {
      assert BitOf(bs, i) <==> i in marks;
      if i / 8 == at {
        SetBit(bs[at], bit, i % 8);
      }
    }
  }

  /** One more member keeps the bitset exact. */
  lemma FilledMember(fields: seq<Field>, ms: seq<Member>, m: Member)
    ensures Filled(fields, ms + [m]) == Mark(fields, Filled(fields, ms), Find(fields, m.key))
  {
    forall i: nat ensures i in Filled(fields, ms + [m]) <==>
        i in Mark(fields, Filled(fields, ms), Find(fields, m.key)) {
      OccursAppend(fields, i, ms, m);
    }
  }

  lemma OccursAppend(fields: seq<Field>, i: nat, ms: seq<Member>, m: Member)
    ensures Occurs(fields, i, ms + [m]) <==> Occurs(fields, i, ms) || Find(fields, m.key) == i
  {
    var all := ms + [m];
    if Occurs(fields, i, ms) {
      var p :| 0 <= p < |ms| && Find(fields, ms[p].key) == i;
      assert all[p] == ms[p];
    }
    assert all[|ms|] == m;
  }

  /** `strconv.Itoa` of a non-negative number. */
  function Itoa(n: nat): string {
    var digit := [(n % 10 + 48) as char];
    if n < 10 then digit else Itoa(n / 10) + digit
  }

  function NameOf(names: seq<string>, i: nat): string {
    if i < |names| then names[i] else Itoa(i)
  }

  /** For every bit: required, and not set. */
  function Lacking(bs: seq<bv8>, masks: seq<bv8>): (r: seq<bool>)
    requires |bs| == |masks|
    ensures |r| == 8 * |bs|
  {
    seq(8 * |bs|, i requires 0 <= i < 8 * |bs| => BitOf(masks, i) && !BitOf(bs, i))
  }

  /** `names` with the names of the fields `base + idx[0]`, `base + idx[1]`, ... appended. */
  function Add(failures: seq<string>, names: seq<string>, base: nat, idx: seq<nat>): seq<string>
    decreases |idx|
  {
    if idx == [] then failures
    else Add(failures + [NameOf(names, base + idx[0])], names, base, idx[1..])
  }

  lemma {:induction false} AddLast(failures: seq<string>, names: seq<string>, base: nat, idx: seq<nat>, i: nat)
    ensures Add(failures, names, base, idx + [i]) == Add(failures, names, base, idx) + [NameOf(names, base + i)]
    decreases |idx|
  {
    var all := idx + [i];
    if idx == [] {
      assert all[1..] == [];
    } else {
      AddLast(failures + [NameOf(names, base + idx[0])], names, base, idx[1..], i);
      assert all[1..] == idx[1..] + [i];
    }
  }

  lemma {:induction false} AddIsMap(names: seq<string>, idx: seq<nat>)
    ensures |Add([], names, 0, idx)| == |idx|
    ensures forall p :: 0 <= p < |idx| ==> Add([], names, 0, idx)[p] == NameOf(names, idx[p])
  {
    if idx != [] {
      var init, last := idx[..|idx| - 1], idx[|idx| - 1];
      AddIsMap(names, init);
      AddLast([], names, 0, init, last);
      assert idx == init + [last];
    }
  }

  /** The report of any bitset is exact: it has a name for each required bit that is not set,
      in strictly increasing order of the bits. */
  lemma ReportExact(bs: seq<bv8>, masks: seq<bv8>, names: seq<string>)
    requires |bs| == |masks|
    ensures var idx, report := Indices(Lacking(bs, masks)), Add([], names, 0, Indices(Lacking(bs, masks)));
            (forall i: nat :: i in idx <==> i < 8 * |bs| && BitOf(masks, i) && !BitOf(bs, i)) &&
            (forall p, q :: 0 <= p < q < |idx| ==> idx[p] < idx[q]) &&
            |report| == |idx| && forall p :: 0 <= p < |idx| ==> report[p] == NameOf(names, idx[p])
  {
    SelectExact(Lacking(bs, masks), |Lacking(bs, masks)|);
    AddIsMap(names, Indices(Lacking(bs, masks)));
  }

  /** The loop over the mask literals: the report names the required bits that are not
      set, in increasing order. */
  method MissingFields(requiredBitSet: seq<bv8>, masks: seq<bv8>, names: seq<string>)
    returns (failures: seq<string>)
    requires |requiredBitSet| == |masks|
    ensures failures == Add([], names, 0, Indices(Lacking(requiredBitSet, masks)))
  {
    failures := [];
    ghost var lacking := Lacking(requiredBitSet, masks);
    var i := 0;
    while i < |masks|
      invariant 0 <= i <= |masks|
      invariant failures == Add([], names, 0, Select(lacking, 8 * i))
    {
      var mask := masks[i];
      var result := (requiredBitSet[i] & mask) ^ mask;
      ByteReport(requiredBitSet, masks, names, i, result);
      if result != 0 {
        failures := MissingInByte(i, result, names, failures);
      }
      i := i + 1;
    }
  }

  /** One byte of the check.  The popcount-bounded loop takes the lowest bit each time, and
      never asks for the trailing zeros of zero. */
  method MissingInByte(i: nat, missing: bv8, names: seq<string>, before: seq<string>)
    returns (failures: seq<string>)
    ensures failures == Add(before, names, 8 * i, Indices(BitsOf(missing)))
  {
    failures := before;
    var result := missing;
    var missed := OnesCount8(result);
    var bitN := 0;
    ghost var left := Indices(BitsOf(missing));
    ghost var report := Add(before, names, 8 * i, left);
    while bitN < missed
      invariant 0 <= bitN <= missed && |left| == missed - bitN
      invariant left == Indices(BitsOf(result))
      invariant Add(failures, names, 8 * i, left) == report
    {
      assert result != 0 by { ZeroByte(result); }
      ghost var more := left;
      var bitIdx;
      bitIdx, result := TakeLowest(result);
      var fieldIdx := i * 8 + bitIdx;
      failures := failures + [NameOf(names, fieldIdx)];
      bitN := bitN + 1;
      left := Indices(BitsOf(result));
      assert more[0] == bitIdx && more[1..] == left;
    }
  }

  lemma BitAt(bs: seq<bv8>, i: nat, b: nat)
    requires i < |bs| && b < 8
    ensures BitOf(bs, 8 * i + b) == BitsOf(bs[i])[b]
  {
    assert (8 * i + b) / 8 == i && (8 * i + b) % 8 == b;
  }

  lemma LackingAt(bs: seq<bv8>, masks: seq<bv8>, i: nat, b: nat, result: bv8)
    requires |bs| == |masks| && i < |bs| && b < 8 && result == (bs[i] & masks[i]) ^ masks[i]
    ensures BitsOf(result)[b] == Lacking(bs, masks)[8 * i + b]
  {
    BitAt(bs, i, b);
    BitAt(masks, i, b);
    LackingBit(bs[i], masks[i], b);
  }

  lemma LackingByte(bs: seq<bv8>, masks: seq<bv8>, i: nat, result: bv8)
    requires |bs| == |masks| && i < |bs| && result == (bs[i] & masks[i]) ^ masks[i]
    ensures BitsOf(result) == Lacking(bs, masks)[8 * i..8 * i + 8]
  {
    var byte, part := BitsOf(result), Lacking(bs, masks)[8 * i..8 * i + 8];
    forall b | 0 <= b < 8 ensures byte[b] == part[b] {
      LackingAt(bs, masks, i, b, result);
    }
  }

  lemma ByteReport(bs: seq<bv8>, masks: seq<bv8>, names: seq<string>, i: nat, result: bv8)
    requires |bs| == |masks| && i < |bs| && result == (bs[i] & masks[i]) ^ masks[i]
    ensures Add([], names, 0, Select(Lacking(bs, masks), 8 * (i + 1)))
            == Add(Add([], names, 0, Select(Lacking(bs, masks), 8 * i)), names, 8 * i, Indices(BitsOf(result)))
    ensures result == 0 ==> Indices(BitsOf(result)) == []
  {
    ZeroByte(result);
    LackingByte(bs, masks, i, result);
    BitsReport(Lacking(bs, masks), BitsOf(result), names, i);
  }

  lemma BitsReport(lacking: seq<bool>, bits: seq<bool>, names: seq<string>, i: nat)
    requires |bits| == 8 && 8 * i + 8 <= |lacking| && bits == lacking[8 * i..8 * i + 8]
    ensures Add([], names, 0, Select(lacking, 8 * (i + 1)))
            == Add(Add([], names, 0, Select(lacking, 8 * i)), names, 8 * i, Indices(bits))
  {
    ByteReportBelow(lacking, bits, names, i, |bits|);
  }

  /** What byte `i` adds to the report up to its bit `n`. */
  lemma {:induction false} ByteReportBelow(lacking: seq<bool>, bits: seq<bool>, names: seq<string>, i: nat, n: nat)
    requires |bits| == 8 && 8 * i + 8 <= |lacking| && n <= 8
    requires bits == lacking[8 * i..8 * i + 8]
    ensures Add([], names, 0, Select(lacking, 8 * i + n))
            == Add(Add([], names, 0, Select(lacking, 8 * i)), names, 8 * i, Select(bits, n))
  {
    if n > 0 {
      ByteReportBelow(lacking, bits, names, i, n - 1);
      if bits[n - 1] {
        AddLast([], names, 0, Select(lacking, 8 * i + n - 1), 8 * i + n - 1);
        AddLast(Add([], names, 0, Select(lacking, 8 * i)), names, 8 * i, Select(bits, n - 1), n - 1);
      }
    }
  }

  function FieldNames(fields: seq<Field>): seq<string> {
    seq(|fields|, i requires 0 <= i < |fields| => fields[i].name)
  }

  /** What the loop reports after the members `ms` are exactly the names of the required
      fields they leave out, and no report needs the numeric fallback. */
  lemma ReportIsMissing(fields: seq<Field>, bs: seq<bv8>, masks: seq<bv8>, ms: seq<Member>)
    requires |fields| <= 8 * |bs| && |masks| == |bs|
    requires Represents(bs, Filled(fields, ms)) && Represents(masks, RequiredOf(fields))
    ensures Add([], FieldNames(fields), 0, Indices(Lacking(bs, masks))) == MissingBelow(fields, ms, |fields|)
    ensures forall i :: i in Indices(Lacking(bs, masks)) ==> i < |fields|
  {
    var lacking := Lacking(bs, masks);
    forall i: nat | i < |lacking|
      ensures lacking[i] <==> i < |fields| && fields[i].required && !Occurs(fields, i, ms)
    {
      assert BitOf(bs, i) <==> i in Filled(fields, ms);
      assert BitOf(masks, i) <==> i in RequiredOf(fields);
    }
    SelectExact(lacking, |lacking|);
    ReportBelow(fields, lacking, ms, |lacking|);
  }

  lemma {:induction false} ReportBelow(fields: seq<Field>, lacking: seq<bool>, ms: seq<Member>, n: nat)
    requires n <= |lacking|
    requires forall i: nat :: i < |lacking| ==>
               (lacking[i] <==> i < |fields| && fields[i].required && !Occurs(fields, i, ms))
    ensures Add([], FieldNames(fields), 0, Select(lacking, n))
            == MissingBelow(fields, ms, if n <= |fields| then n else |fields|)
  {
    if n > 0 {
      ReportBelow(fields, lacking, ms, n - 1);
      if lacking[n - 1] {
        AddLast([], FieldNames(fields), 0, Select(lacking, n - 1), n - 1);
      }
    }
  }
}
