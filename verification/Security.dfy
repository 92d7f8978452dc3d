/** The security requirements of an operation, shared by server and client. */
module Security {
  import opened Bits

  /** The bits of a mask are all there. */
  predicate HasBits(b: bv8, mask: bv8) {
    forall i :: 0 <= i < 8 && Bit(mask, i) ==> Bit(b, i)
  }

  /** Every bit of the requirement is among the satisfied ones. */
  predicate Covers(satisfied: seq<bv8>, requirement: seq<bv8>)
    requires |requirement| <= |satisfied|
  {
    forall i :: 0 <= i < |requirement| ==> HasBits(satisfied[i], requirement[i])
  }

  /** Some listed requirement is covered. */
  predicate Satisfied(satisfied: seq<bv8>, requirements: seq<seq<bv8>>)
    requires forall r :: r in requirements ==> |r| <= |satisfied|
  {
    exists n :: 0 <= n < |requirements| && Covers(satisfied, requirements[n])
  }

  lemma MaskExact(b: bv8, mask: bv8)
    ensures b & mask == mask <==> HasBits(b, mask)
  {
    if b & mask != mask {
      var i := SomeBit((b & mask) ^ mask);
      LackingBit(b, mask, i);
    } else {
      forall i | 0 <= i < 8 && Bit(mask, i) ensures Bit(b, i) {
        LackingBit(b, mask, i);
      }
    }
  }

  /** `satisfied[i]&mask == mask`. */
  method Includes(b: bv8, mask: bv8) returns (ok: bool)
    ensures ok <==> HasBits(b, mask)
  {
    MaskExact(b, mask);
    ok := b & mask == mask;
  }

  /** The labelled loop: true exactly when some requirement is satisfied, for any list. */
  method CheckRequirements(satisfied: seq<bv8>, requirements: seq<seq<bv8>>) returns (ok: bool)
    requires forall r :: r in requirements ==> |r| <= |satisfied|
    ensures ok <==> Satisfied(satisfied, requirements)
  {
    label nextRequirement: for n := 0 to |requirements|
      invariant forall m :: 0 <= m < n ==> !Covers(satisfied, requirements[m])
    {
      var requirement := requirements[n];
      for i := 0 to |requirement|
        invariant forall j :: 0 <= j < i ==> HasBits(satisfied[j], requirement[j])
      {
        var included := Includes(satisfied[i], requirement[i]);
        if !included {
          continue nextRequirement;
        }
      }
      return true;
    }
    return false;
  }

  /** The one requirement of this API, `BasicAuth`. */
  lemma OneBit(satisfied: seq<bv8>, ok: bool)
    requires satisfied == [if ok then 0 | Shl1(0) else 0]
    ensures Satisfied(satisfied, [[0x01]]) <==> ok
  {
    MaskExact(satisfied[0], 0x01);
    assert Covers(satisfied, [[0x01]][0]) <==> HasBits(satisfied[0], 0x01);
  }
}
