/** The request body of createApplicationVersion, from the client's encoder to the
    server's decoder. */
module Requests {
  import opened Json
  import opened Options
  import opened Schema
  import opened Kinds
  import opened Closers
  import opened Jx
  import opened Versions
  import opened RoundTrips
  import opened Payloads
  import opened Wire
  import opened WireVersions

  /** `Content-Type`, as `mime.ParseMediaType` reads it. */
  datatype ContentType = Unparsable | MediaType(name: string)

  /** The bytes of a body: how many there are, and the tokens they spell. */
  datatype Text = Text(length: nat, tokens: seq<Token>)

  datatype Body = ReadFails | Received(text: Text)

  datatype HttpRequest = HttpRequest(contentType: ContentType, contentLength: int, body: Body)

  datatype RequestError =
    | BadMediaType | BodyRequired | ReadError | DecodeBody(error: Error) | TrailingData | NotValid | InvalidContentType

  /** `encodeCreateApplicationVersionRequest`: the object written out by `VersionJson`, as JSON. */
  method EncodeRequest(v: CreateApplicationVersion) returns (contentType: ContentType, tokens: seq<Token>)
    ensures contentType == MediaType("application/json")
    ensures tokens == Print(VersionJson(v), [])
  {
    contentType := MediaType("application/json");
    var e := new Encoder();
    var req := new CreateApplicationVersionRef(v);
    req.Encode(e);
    tokens := e.tokens;
    CreateVersionTable();
    VersionSent(v);
    EncodedAs(KObj(CREATE_VERSION_FIELDS), CreateApplicationVersionVal(v));
  }

  /** The tokens are one object, whose keys say `v`, with `rest` behind it. */
  ghost predicate Spells(tokens: seq<Token>, v: CreateApplicationVersion, rest: seq<Token>) {
    exists ms :: tokens == Print(JObj(ms), rest) && ReadsVersion(ms, ZERO_CREATE_APPLICATION_VERSION, v)
  }

  /** Some of the required keys are all that is wrong with the object in front. */
  ghost predicate Lacks(tokens: seq<Token>, names: seq<string>) {
    exists ms, rest ::
      tokens == Print(JObj(ms), rest) && names != [] && names == Absent(VERSION_KEYS, ms) && OnlyLacks(ms)
  }

  /** The checks that come before the body is looked at. */
  predicate Arrives(r: HttpRequest) {
    r.contentType == MediaType("application/json") && r.contentLength != 0 && r.body.Received? &&
    r.body.text.length != 0
  }

  /** `decodeCreateApplicationVersionRequest`, with `valid` for the struct's `Validate`.  One
      line for each error, in the order of the checks. */
  method DecodeRequest(r: HttpRequest, valid: CreateApplicationVersion -> bool)
    returns (req: Option<CreateApplicationVersion>, rawBody: Option<Text>, closers: seq<bool>,
             rerr: Option<RequestError>)
    ensures closers == [] && (rerr.None? <==> req.Some?)
    ensures rawBody == if Arrives(r) then Some(r.body.text) else None
    ensures rerr == Some(BadMediaType) <==> r.contentType.Unparsable?
    ensures rerr == Some(InvalidContentType) <==>
            r.contentType.MediaType? && r.contentType.name != "application/json"
    ensures rerr == Some(BodyRequired) <==>
            r.contentType == MediaType("application/json") &&
            (r.contentLength == 0 || (r.body.Received? && r.body.text.length == 0))
    ensures rerr == Some(ReadError) <==>
            r.contentType == MediaType("application/json") && r.contentLength != 0 && r.body.ReadFails?
    ensures forall names ::
              rerr == Some(DecodeBody(Required(names))) <==> Arrives(r) && Lacks(r.body.text.tokens, names)
    ensures rerr == Some(DecodeBody(Invalid)) <==> Arrives(r) && Malformed(r.body.text.tokens)
    ensures rerr != Some(DecodeBody(NoError))
    ensures rerr == Some(TrailingData) <==>
            Arrives(r) && exists v, rest :: rest != [] && Spells(r.body.text.tokens, v, rest)
    ensures rerr == Some(NotValid) <==> Arrives(r) && exists v :: Spells(r.body.text.tokens, v, []) && !valid(v)
    ensures req.Some? <==> Arrives(r) && exists v :: Spells(r.body.text.tokens, v, []) && valid(v)
    ensures req.Some? ==> Spells(r.body.text.tokens, req.value, []) && valid(req.value)
  {
    req, rawBody, closers, rerr := None, None, [], None;
    match r.contentType {
      case Unparsable => rerr := Some(BadMediaType);
      case MediaType(ct) =>
        if ct == "application/json" {
          if r.contentLength == 0 {
            rerr := Some(BodyRequired);
          } else if r.body.ReadFails? {
            rerr := Some(ReadError);
          } else if r.body.text.length == 0 {
            rerr := Some(BodyRequired);
          } else {
            rawBody := Some(r.body.text);
            req, rerr := DecodeBodyTokens(r.body.text.tokens, valid);
          }
        } else {
          rerr := Some(InvalidContentType);
        }
    }
    if rerr.Some? {
      var _ := Close(closers);
    }
  }

  /** Neither a version with anything behind it, nor one that only lacks keys. */
  ghost predicate Malformed(tokens: seq<Token>) {
    (forall v, rest :: !Spells(tokens, v, rest)) && forall names :: !Lacks(tokens, names)
  }

  method DecodeBodyTokens(tokens: seq<Token>, valid: CreateApplicationVersion -> bool)
    returns (req: Option<CreateApplicationVersion>, rerr: Option<RequestError>)
    ensures rerr.None? <==> req.Some?
    ensures rerr.Some? ==> rerr.value.DecodeBody? || rerr.value.TrailingData? || rerr.value.NotValid?
    ensures forall names :: rerr == Some(DecodeBody(Required(names))) <==> Lacks(tokens, names)
    ensures rerr == Some(DecodeBody(Invalid)) <==> Malformed(tokens)
    ensures rerr != Some(DecodeBody(NoError))
    ensures rerr == Some(TrailingData) <==> exists v, rest :: rest != [] && Spells(tokens, v, rest)
    ensures rerr == Some(NotValid) <==> exists v :: Spells(tokens, v, []) && !valid(v)
    ensures req.Some? <==> exists v :: Spells(tokens, v, []) && valid(v)
    ensures req.Some? ==> Spells(tokens, req.value, []) && valid(req.value)
  {
    var d := new Decoder(tokens);
    var request := new CreateApplicationVersionRef(ZERO_CREATE_APPLICATION_VERSION);
    var err := request.Decode(d);
    ghost var s, rest := request.s, d.Rest();
    WhatIsRead(tokens, err, s, rest);
    if err != NoError {
      return None, Some(DecodeBody(err));
    }
    var end := d.Skip();
    if end != EndOfInput {
      return None, Some(TrailingData);
    }
    if !valid(request.s) {
      return None, Some(NotValid);
    }
    return Some(request.s), None;
  }

  /** The outcome of the struct's `Decode`, on the tokens themselves. */
  lemma WhatIsRead(tokens: seq<Token>, err: Error, s: CreateApplicationVersion, rest: seq<Token>)
    requires var zero := CreateApplicationVersionVal(ZERO_CREATE_APPLICATION_VERSION);
             Reads(KObj(CREATE_VERSION_FIELDS), zero, tokens, err, CreateApplicationVersionVal(s), rest)
    ensures err == NoError ==>
            Spells(tokens, s, rest) && forall v, left :: Spells(tokens, v, left) ==> v == s && left == rest
    ensures err != NoError ==> forall v, left :: !Spells(tokens, v, left)
    ensures forall names :: Lacks(tokens, names) <==> err == Required(names)
    ensures err == Invalid <==> Malformed(tokens)
  {
    var zero := ZERO_CREATE_APPLICATION_VERSION;
    forall v, left
      ensures Spells(tokens, v, left) <==> err == NoError && v == s && left == rest
    {
      VersionOnStream(zero, v, tokens, left);
      if err == NoError && CreateApplicationVersionVal(v) == CreateApplicationVersionVal(s) {
        SameVersions(v, s);
      }
    }
    forall names ensures Lacks(tokens, names) <==> err == Required(names) {
      LackingOnStream(tokens, names);
    }
    assert err.Required? ==> Lacks(tokens, err.names);
  }

  lemma LackingOnStream(tokens: seq<Token>, names: seq<string>)
    ensures var zero := CreateApplicationVersionVal(ZERO_CREATE_APPLICATION_VERSION);
            Lacks(tokens, names) <==> DecodeAt(KObj(CREATE_VERSION_FIELDS), zero, tokens) == MissingAt(names)
  {
    var zero := ZERO_CREATE_APPLICATION_VERSION;
    if DecodeAt(KObj(CREATE_VERSION_FIELDS), CreateApplicationVersionVal(zero), tokens) == MissingAt(names) {
      PrintOfParse(tokens);
      VersionLacks(zero, Parse(tokens).value.members, names);
    }
    if Lacks(tokens, names) {
      var ms, rest :|
        tokens == Print(JObj(ms), rest) && names != [] && names == Absent(VERSION_KEYS, ms) && OnlyLacks(ms);
      ParseOfPrint(JObj(ms), rest);
      VersionLacks(zero, ms, names);
    }
  }

  /** What the client sends spells the normal form, and nothing else. */
  lemma VersionArrives(v: CreateApplicationVersion, behind: seq<Token>)
    ensures forall w, rest ::
              Spells(Print(VersionJson(v), []) + behind, w, rest) <==> w == NormVersion(v) && rest == behind
  {
    var k, zero := KObj(CREATE_VERSION_FIELDS), ZERO_CREATE_APPLICATION_VERSION;
    ZeroCreateApplicationVersionVal();
    VersionNorm(v);
    CreateVersionTable();
    VersionSent(v);
    EncodedAs(k, CreateApplicationVersionVal(v));
    StreamRoundTrip(k, CreateApplicationVersionVal(v), behind);
    var t := Print(VersionJson(v), []) + behind;
    WhatIsRead(t, NoError, NormVersion(v), behind);
  }

  /** End to end: what the client encodes for `v` reaches the server as `NormVersion(v)`,
      exactly when that validates, and with anything behind it is rejected. */
  method Exchange(v: CreateApplicationVersion, behind: seq<Token>, length: nat, announced: int,
                  valid: CreateApplicationVersion -> bool)
    returns (req: Option<CreateApplicationVersion>, rerr: Option<RequestError>)
    requires length != 0 && announced != 0
    ensures behind == [] ==> req == if valid(NormVersion(v)) then Some(NormVersion(v)) else None
    ensures behind == [] && !valid(NormVersion(v)) ==> rerr == Some(NotValid)
    ensures behind != [] ==> req == None && rerr == Some(TrailingData)
  {
    var contentType, tokens := EncodeRequest(v);
    var r := HttpRequest(contentType, announced, Received(Text(length, tokens + behind)));
    VersionArrives(v, behind);
    assert Spells(tokens + behind, NormVersion(v), behind);
    var rawBody, closers;
    req, rawBody, closers, rerr := DecodeRequest(r, valid);
  }
}
