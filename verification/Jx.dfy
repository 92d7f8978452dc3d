/** The streaming encoder and decoder of go-faster/jx, at the level of tokens. */
module Jx {
  import opened Json
  import opened Schema
  import opened RequiredFields

  /** A `Decode` result: nil, the report of missing required fields, or any other error. */
  datatype Error = NoError | Required(names: seq<string>) | Invalid

  datatype SkipResult = Skipped | EndOfInput | BadInput

  class Encoder {
    var tokens: seq<Token>

    constructor ()
      ensures tokens == []
    {
      tokens := [];
    }

    method Put(t: Token)
      modifies this
      ensures tokens == old(tokens) + [t]
    {
      tokens := tokens + [t];
    }
  }

  /** A call read a `k` value off the tokens `before` into a receiver that held `prior`,
      as `Schema.DecodeAt` says. */
  ghost predicate Reads(k: Kind, prior: Val, before: seq<Token>, err: Error, v: Val, after: seq<Token>) {
    match DecodeAt(k, prior, before)
    case DoneAt(x, rest) => err == NoError && v == x && after == rest
    case MissingAt(names) => err == Required(names)
    case FailedAt => err == Invalid
  }

  lemma UuidAt(prior: Val, t: seq<Token>)
    ensures DecodeAt(KUuid, prior, t) ==
            if t != [] && t[0].Str? && UuidText(t[0].s) then DoneAt(VStr(ReadUuid(t[0].s)), t[1..]) else FailedAt
    ensures t != [] && t[0].Str? && UuidText(t[0].s) ==> CanonicalUuid(ReadUuid(t[0].s))
  {
    if t != [] && t[0].Str? && UuidText(t[0].s) {
      ReadIsCanonical(t[0].s);
    }
  }

  class Decoder {
    const buf: seq<Token>
    var pos: nat

    constructor (buf: seq<Token>)
      ensures Valid() && Rest() == buf
    {
      this.buf := buf;
      pos := 0;
    }

    predicate Valid()
      reads this
    {
      pos <= |buf|
    }

    function Rest(): seq<Token>
      requires Valid()
      reads this
    {
      buf[pos..]
    }

    /** `d.Next() == t`: the next token, without consuming it. */
    predicate At(t: Token)
      requires Valid()
      reads this
    {
      pos < |buf| && buf[pos] == t
    }

    method Advance()
      requires Valid() && pos < |buf|
      modifies this
      ensures Valid() && Rest() == old(Rest())[1..]
    {
      pos := pos + 1;
    }

    /** `Int`, `Int16`, `Int32`, `Int64`, `UInt16`: an integer of the given range. */
    method Int(lo: int, hi: int, ghost prior: Val) returns (n: int, err: Error)
      requires Valid()
      modifies this
      ensures Valid() && Reads(KInt(lo, hi), prior, old(Rest()), err, VInt(n), Rest())
      ensures lo <= 0 <= hi ==> lo <= n <= hi
    {
      n, err := 0, Invalid;
      if pos < |buf| && buf[pos].Int? && lo <= buf[pos].n <= hi {
        n, err := buf[pos].n, NoError;
        Advance();
      }
    }

    method Str(ghost prior: Val) returns (s: string, err: Error)
      requires Valid()
      modifies this
      ensures Valid() && Reads(KStr, prior, old(Rest()), err, VStr(s), Rest())
    {
      s, err := "", Invalid;
      if pos < |buf| && buf[pos].Str? {
        s, err := buf[pos].s, NoError;
        Advance();
      }
    }

    method Bool(ghost prior: Val) returns (b: bool, err: Error)
      requires Valid()
      modifies this
      ensures Valid() && Reads(KBool, prior, old(Rest()), err, VBool(b), Rest())
    {
      b, err := false, Invalid;
      if pos < |buf| && buf[pos].Bool? {
        b, err := buf[pos].b, NoError;
        Advance();
      }
    }

    /** ogen's `json.DecodeUUID`, which reads what `uuid.Parse` reads. */
    method Uuid(ghost prior: Val) returns (s: string, err: Error)
      requires Valid()
      modifies this
      ensures Valid() && Reads(KUuid, prior, old(Rest()), err, VStr(s), Rest())
      ensures CanonicalUuid(s)
    {
      ZeroIsCanonical();
      UuidAt(prior, Rest());
      s, err := ZERO_UUID, Invalid;
      if pos < |buf| && buf[pos].Str? && UuidText(buf[pos].s) {
        s, err := ReadUuid(buf[pos].s), NoError;
        Advance();
      }
    }

    /** Consumes one balanced value of any kind. */
    method Skip() returns (r: SkipResult)
      requires Valid()
      modifies this
      ensures Valid()
      ensures r == Skipped <==> Parse(old(Rest())).Ok?
      ensures r == Skipped ==> Rest() == Parse(old(Rest())).rest
      ensures r == EndOfInput <==> old(Rest()) == []
      decreases |buf| - pos, 0
    {
      if pos == |buf| {
        return EndOfInput;
      }
      var t := buf[pos];
      if t.Key? || t.Bad? || t.ArrEnd? || t.ObjEnd? {
        return BadInput;
      }
      Advance();
      if t.ArrStart? {
        r := SkipElems();
      } else if t.ObjStart? {
        r := SkipMembers();
      } else {
        r := Skipped;
      }
    }

    method SkipElems() returns (r: SkipResult)
      requires Valid()
      modifies this
      ensures Valid() && r != EndOfInput
      ensures r == Skipped <==> ParseElems(old(Rest())).Ok?
      ensures r == Skipped ==> Rest() == ParseElems(old(Rest())).rest
      decreases |buf| - pos, 1
    {
      while pos < |buf| && buf[pos] != ArrEnd
        invariant Valid() && pos >= old(pos)
        invariant ParseElems(Rest()).Ok? <==> ParseElems(old(Rest())).Ok?
        invariant ParseElems(Rest()).Ok? ==> ParseElems(Rest()).rest == ParseElems(old(Rest())).rest
        decreases |buf| - pos
      {
        r := Skip();
        if r != Skipped {
          return BadInput;
        }
      }
      if pos == |buf| {
        return BadInput;
      }
      Advance();
      r := Skipped;
    }

    method SkipMembers() returns (r: SkipResult)
      requires Valid()
      modifies this
      ensures Valid() && r != EndOfInput
      ensures r == Skipped <==> ParseMembers(old(Rest())).Ok?
      ensures r == Skipped ==> Rest() == ParseMembers(old(Rest())).rest
      decreases |buf| - pos, 1
    {
      while pos < |buf| && buf[pos].Key?
        invariant Valid() && pos >= old(pos)
        invariant ParseMembers(Rest()).Ok? <==> ParseMembers(old(Rest())).Ok?
        invariant ParseMembers(Rest()).Ok? ==> ParseMembers(Rest()).rest == ParseMembers(old(Rest())).rest
        decreases |buf| - pos
      {
        Advance();
        r := Skip();
        if r != Skipped {
          return BadInput;
        }
      }
      if pos == |buf| || buf[pos] != ObjEnd {
        return BadInput;
      }
      Advance();
      r := Skipped;
    }

    /** The head of the `ObjBytes` loop: the next key, or the end of the object. */
    method NextKey() returns (more: bool, key: string, err: Error)
      requires Valid()
      modifies this
      ensures Valid()
      ensures err == Invalid || err == NoError
      ensures err == NoError && more ==> old(Rest()) != [] && old(Rest())[0] == Key(key)
      ensures err == NoError && !more ==> old(Rest()) != [] && old(Rest())[0] == ObjEnd
      ensures err == NoError ==> Rest() == old(Rest())[1..] && |Rest()| < |old(Rest())|
      ensures err == Invalid ==> old(Rest()) == [] || !(old(Rest())[0].Key? || old(Rest())[0].ObjEnd?)
    {
      more, key, err := false, "", Invalid;
      if pos < |buf| && buf[pos].Key? {
        more, key, err := true, buf[pos].name, NoError;
        Advance();
      } else if At(ObjEnd) {
        err := NoError;
        Advance();
      }
    }
  }

  // ---------- the ObjBytes loop ----------

  datatype MemberResult = MemberDone(vals: seq<Val>, rest: seq<Token>) | MemberFailed

  /** One round of the loop: the value of `key` at the head of `t` goes into its field. */
  function MemberAt(fields: seq<Field>, vals: seq<Val>, key: string, t: seq<Token>): (r: MemberResult)
    requires |vals| == |fields|
    ensures r.MemberDone? ==> |r.vals| == |fields| && |r.rest| < |t|
  {
    var i := Find(fields, key);
    if i == |fields| then
      match Parse(t)
      case Fail => MemberFailed
      case Ok(_, rest) => MemberDone(vals, rest)
    else
      match DecodeAt(fields[i].kind, vals[i], t)
      case DoneAt(v, rest) => MemberDone(vals[i := v], rest)
      case _ => MemberFailed
  }

  /** A call of the callback read the member `k` off `before` into a struct that held `prior`. */
  ghost predicate MemberRead(fields: seq<Field>, prior: Val, k: string, before: seq<Token>,
                             err: Error, v: Val, after: seq<Token>)
    requires prior.VObj? && v.VObj? && |prior.vals| == |fields|
  {
    MemberAt(fields, prior.vals, k, before) == if err == NoError then MemberDone(v.vals, after) else MemberFailed
  }

  lemma FieldRead(fields: seq<Field>, prior: Val, k: string, i: nat, before: seq<Token>,
                  err: Error, v: Val, post: Val, after: seq<Token>)
    requires prior.VObj? && post.VObj? && |prior.vals| == |fields| && i == Find(fields, k) < |fields|
    requires Reads(fields[i].kind, prior.vals[i], before, err, v, after)
    requires post.vals == prior.vals[i := v]
    ensures MemberRead(fields, prior, k, before, err, post, after)
  {
  }

  /** What the rest of the loop and the required check come to, when the members `seen`
      have been read into `vals` and `t` is left. */
  ghost function Remaining(fields: seq<Field>, vals: seq<Val>, seen: seq<Member>, t: seq<Token>): At
    requires |vals| == |fields|
  {
    match ParseMembers(t)
    case Fail => FailedAt
    case Ok(ms, rest) =>
      match DecodeMembers(KObj(fields), vals, ms)
      case None => FailedAt
      case Some(vals') =>
        var missing := MissingBelow(fields, seen + ms, |fields|);
        if missing == [] then DoneAt(VObj(vals'), rest) else MissingAt(missing)
  }

  /** The invariant of the loop in every generated `Decode`. */
  ghost predicate Looping(fields: seq<Field>, result: At, vals: seq<Val>, seen: seq<Member>, marks: set<nat>,
      t: seq<Token>) {
    |vals| == |fields| && marks == Filled(fields, seen) && result == Remaining(fields, vals, seen, t)
  }

  lemma Opening(fields: seq<Field>, prior: Val, t: seq<Token>)
    ensures t != [] && t[0] == ObjStart ==>
              Looping(fields, DecodeAt(KObj(fields), prior, t), Preset(fields, Slots(fields, prior)), [], {}, t[1..])
    ensures t == [] || t[0] != ObjStart ==> DecodeAt(KObj(fields), prior, t) == FailedAt
  {
    if t != [] && t[0] == ObjStart && ParseMembers(t[1..]).Ok? {
      var ms := ParseMembers(t[1..]).value;
      assert [] + ms == ms;
    }
  }

  lemma NextMember(fields: seq<Field>, result: At, vals: seq<Val>, seen: seq<Member>, marks: set<nat>, t: seq<Token>)
    requires t != [] && t[0].Key?
    requires Looping(fields, result, vals, seen, marks, t)
    ensures match MemberAt(fields, vals, t[0].name, t[1..])
            case MemberFailed => result == FailedAt
            case MemberDone(vals', rest) =>
              Parse(t[1..]).Ok? &&
              Looping(fields, result, vals', seen + [Member(t[0].name, Parse(t[1..]).value)],
                      Mark(fields, marks, Find(fields, t[0].name)), rest)
  {
    MemberAtTree(fields, vals, t[0].name, t[1..]);
    if Parse(t[1..]).Ok? {
      var m := Member(t[0].name, Parse(t[1..]).value);
      FilledMember(fields, seen, m);
      var rest := Parse(t[1..]).rest;
      if ParseMembers(rest).Ok? {
        var ms := ParseMembers(rest).value;
        assert ParseMembers(t).value == [m] + ms;
        assert ([m] + ms)[1..] == ms;
        assert seen + ([m] + ms) == (seen + [m]) + ms;
      }
    }
  }

  /** The end of every generated `Decode`. */
  method CheckRequired(fields: seq<Field>, requiredBitSet: seq<bv8>, masks: seq<bv8>, ghost seen: seq<Member>)
    returns (err: Error)
    requires |fields| <= 8 * |requiredBitSet| == 8 * |masks|
    requires Represents(requiredBitSet, Filled(fields, seen)) && Represents(masks, RequiredOf(fields))
    ensures var missing := MissingBelow(fields, seen, |fields|);
            err == if missing == [] then NoError else Required(missing)
  {
    var failures := MissingFields(requiredBitSet, masks, FieldNames(fields));
    ReportIsMissing(fields, requiredBitSet, masks, seen);
    err := if |failures| > 0 then Required(failures) else NoError;
  }

  lemma MemberAtTree(fields: seq<Field>, vals: seq<Val>, key: string, t: seq<Token>)
    requires |vals| == |fields|
    ensures Parse(t).Fail? ==> MemberAt(fields, vals, key, t) == MemberFailed
    ensures Parse(t).Ok? ==>
              var vals' := DecodeMember(KObj(fields), vals, Member(key, Parse(t).value));
              MemberAt(fields, vals, key, t) == if vals'.None? then MemberFailed
                  else MemberDone(vals'.value, Parse(t).rest)
  {
  }

  lemma Closing(fields: seq<Field>, result: At, vals: seq<Val>, seen: seq<Member>, marks: set<nat>, t: seq<Token>)
    requires Looping(fields, result, vals, seen, marks, t)
    ensures t != [] && t[0] == ObjEnd ==>
              var missing := MissingBelow(fields, seen, |fields|);
              result == if missing == [] then DoneAt(VObj(vals), t[1..]) else MissingAt(missing)
    ensures t == [] || !(t[0].Key? || t[0].ObjEnd?) ==> result == FailedAt
  {
    assert seen + [] == seen;
  }
}
