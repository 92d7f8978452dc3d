/** JSON as the generated code meets it: a stream of tokens on the wire, a tree of
    values behind it.  Separators (commas, colons, blanks) carry no information once
    text is split into tokens, so a text whose separators are wrong is a stream with
    a `Bad` token at that place. */
module Json {

  datatype Token =
    | ObjStart
    | ObjEnd
    | ArrStart
    | ArrEnd
    | Key(name: string)
    | Null
    | Bool(b: bool)
    | Int(n: int)          // a number without fraction or exponent
    | Frac(text: string)   // any other number
    | Str(s: string)
    | Bad                  // bytes that are no token

  datatype Value =
    | JNull
    | JBool(b: bool)
    | JInt(n: int)
    | JFrac(text: string)
    | JStr(s: string)
    | JArr(elems: seq<Value>)
    | JObj(members: seq<Member>)

  datatype Member = Member(key: string, value: Value)

  datatype Parsed<+T> = Fail | Ok(value: T, rest: seq<Token>)

  /** Reads one value off the front of a stream (RFC 8259, sections 2 to 5). */
  function Parse(t: seq<Token>): (r: Parsed<Value>)
    ensures r.Ok? ==> |r.rest| < |t|
    decreases |t|, 0
  {
    if t == [] then Fail else
    match t[0]
    case Null => Ok(JNull, t[1..])
    case Bool(b) => Ok(JBool(b), t[1..])
    case Int(n) => Ok(JInt(n), t[1..])
    case Frac(x) => Ok(JFrac(x), t[1..])
    case Str(s) => Ok(JStr(s), t[1..])
    case ArrStart =>
      (match ParseElems(t[1..])
       case Fail => Fail
       case Ok(es, rest) => Ok(JArr(es), rest))
    case ObjStart =>
      (match ParseMembers(t[1..])
       case Fail => Fail
       case Ok(ms, rest) => Ok(JObj(ms), rest))
    case _ => Fail
  }

  function ParseElems(t: seq<Token>): (r: Parsed<seq<Value>>)
    ensures r.Ok? ==> |r.rest| < |t|
    decreases |t|, 1
  {
    if t == [] then Fail
    else if t[0] == ArrEnd then Ok([], t[1..])
    else
      match Parse(t)
      case Fail => Fail
      case Ok(v, rest) =>
        match ParseElems(rest)
        case Fail => Fail
        case Ok(vs, rest') => Ok([v] + vs, rest')
  }

  function ParseMembers(t: seq<Token>): (r: Parsed<seq<Member>>)
    ensures r.Ok? ==> |r.rest| < |t|
    decreases |t|, 1
  {
    if t == [] then Fail
    else if t[0] == ObjEnd then Ok([], t[1..])
    else if !t[0].Key? then Fail
    else
      match Parse(t[1..])
      case Fail => Fail
      case Ok(v, rest) =>
        match ParseMembers(rest)
        case Fail => Fail
        case Ok(ms, rest') => Ok([Member(t[0].name, v)] + ms, rest')
  }

  /** The stream that starts with the one printed form of `v` and goes on with `rest`. */
  function Print(v: Value, rest: seq<Token>): seq<Token>
    decreases v, 0
  {
    match v
    case JNull => [Null] + rest
    case JBool(b) => [Bool(b)] + rest
    case JInt(n) => [Int(n)] + rest
    case JFrac(x) => [Frac(x)] + rest
    case JStr(s) => [Str(s)] + rest
    case JArr(es) => [ArrStart] + PrintElems(es, [ArrEnd] + rest)
    case JObj(ms) => [ObjStart] + PrintMembers(ms, [ObjEnd] + rest)
  }

  function PrintElems(es: seq<Value>, rest: seq<Token>): seq<Token>
    decreases es, 1
  {
    if es == [] then rest else Print(es[0], PrintElems(es[1..], rest))
  }

  function PrintMembers(ms: seq<Member>, rest: seq<Token>): seq<Token>
    decreases ms, 1
  {
    if ms == [] then rest
    else [Key(ms[0].key)] + Print(ms[0].value, PrintMembers(ms[1..], rest))
  }

  /** Reading what was printed gives the value back and stops exactly behind it. */
  lemma {:induction false} ParseOfPrint(v: Value, rest: seq<Token>)
    ensures Parse(Print(v, rest)) == Ok(v, rest)
    decreases v, 0
  {
    match v
    case JArr(es) => ParseOfPrintElems(es, rest);
    case JObj(ms) => ParseOfPrintMembers(ms, rest);
    case _ =>
  }

  lemma {:induction false} ParseOfPrintElems(es: seq<Value>, rest: seq<Token>)
    ensures ParseElems(PrintElems(es, [ArrEnd] + rest)) == Ok(es, rest)
    decreases es, 1
  {
    if es != [] {
      ParseOfPrint(es[0], PrintElems(es[1..], [ArrEnd] + rest));
      ParseOfPrintElems(es[1..], rest);
      assert es == [es[0]] + es[1..];
    }
  }

  lemma {:induction false} ParseOfPrintMembers(ms: seq<Member>, rest: seq<Token>)
    ensures ParseMembers(PrintMembers(ms, [ObjEnd] + rest)) == Ok(ms, rest)
    decreases ms, 1
  {
    if ms != [] {
      ParseOfPrint(ms[0].value, PrintMembers(ms[1..], [ObjEnd] + rest));
      ParseOfPrintMembers(ms[1..], rest);
      assert ms == [ms[0]] + ms[1..];
    }
  }

  /** Whatever is read successfully was one printed value followed by the rest:
      with `ParseOfPrint`, streams that start with a value and values correspond. */
  lemma {:induction false} PrintOfParse(t: seq<Token>)
    requires Parse(t).Ok?
    ensures t == Print(Parse(t).value, Parse(t).rest)
    decreases |t|, 0
  {
    assert t == [t[0]] + t[1..];
    if t[0].ArrStart? {
      PrintOfParseElems(t[1..]);
    } else if t[0].ObjStart? {
      PrintOfParseMembers(t[1..]);
    }
  }

  lemma {:induction false} PrintOfParseElems(t: seq<Token>)
    requires ParseElems(t).Ok?
    ensures t == PrintElems(ParseElems(t).value, [ArrEnd] + ParseElems(t).rest)
    decreases |t|, 1
  {
    assert t == [t[0]] + t[1..];
    if !t[0].ArrEnd? {
      PrintOfParse(t);
      PrintOfParseElems(Parse(t).rest);
      assert ParseElems(t).value[1..] == ParseElems(Parse(t).rest).value;
    }
  }

  lemma {:induction false} PrintOfParseMembers(t: seq<Token>)
    requires ParseMembers(t).Ok?
    ensures t == PrintMembers(ParseMembers(t).value, [ObjEnd] + ParseMembers(t).rest)
    decreases |t|, 1
  {
    assert t == [t[0]] + t[1..];
    if !t[0].ObjEnd? {
      PrintOfParse(t[1..]);
      PrintOfParseMembers(Parse(t[1..]).rest);
      assert ParseMembers(t).value[1..] == ParseMembers(Parse(t[1..]).rest).value;
    }
  }
}
