/** The client pipeline of createApplicationVersion: its stages, its deferred calls and its
    counters, driven by arbitrary results of everything it calls. */
module Clients {
  import opened Bits
  import opened Security

  /** `securityBasicAuth`: nil, `ErrSkipClientSecurity`, or another error. */
  datatype Auth = AuthDone | AuthSkipped | AuthError

  datatype Inputs = Inputs(pathEncodes: bool, requestBuilds: bool, auth: Auth, responds: bool, decodes: bool)

  datatype Event =
    | Requests                    // requests counter
    | SpanStart
    | Stage(name: string)         // assignment to `stage`
    | Send                        // the HTTP client is called
    | Obtained                    // it returned a response
    | CloseBody
    | RecordError(stage: string)  // span error, and errors counter
    | SpanEnd
    | Duration

  datatype Deferred = RecordDuration | Finish | CloseResponse

  // ---------- the pipeline ----------

  class Client {
    var requests: nat
    var durations: nat
    var errors: nat

    constructor ()
      ensures requests == 0 && durations == 0 && errors == 0
    {
      requests, durations, errors := 0, 0, 0;
    }
  }

  class Call {
    const client: Client
    var stage: string
    var failed: bool          // the named result `err` is not nil
    var trace: seq<Event>
    var deferred: seq<Deferred>

    ghost predicate Valid()
      reads this
    {
      stage == LastStage(trace)
    }

    constructor (client: Client)
      ensures Valid() && this.client == client && trace == [] && deferred == [] && !failed
    {
      this.client := client;
      stage, failed, trace, deferred := "", false, [], [];
    }

    method Emit(e: Event)
      requires Valid() && !e.Stage?
      modifies this`trace
      ensures Valid() && trace == old(trace) + [e]
    {
      trace := trace + [e];
    }

    method Enter(name: string)
      requires Valid()
      modifies this`trace, this`stage
      ensures Valid() && trace == old(trace) + [Stage(name)]
    {
      stage := name;
      trace := trace + [Stage(name)];
    }

    /** The body of `sendCreateApplicationVersion`, up to whichever return. */
    method Send(inp: Inputs)
      requires Valid() && trace == [] && deferred == [] && !failed
      modifies this, client
      ensures Valid() && trace == Body(inp) && failed == Fails(inp)
      ensures deferred == if Responded(inp) then [RecordDuration, Finish, CloseResponse] else [RecordDuration, Finish]
      ensures client.requests == old(client.requests) + 1
      ensures client.durations == old(client.durations) && client.errors == old(client.errors)
    {
      deferred := [RecordDuration];
      Emit(Requests);
      client.requests := client.requests + 1;
      Emit(SpanStart);
      deferred := deferred + [Finish];
      Enter("BuildURL");
      if !inp.pathEncodes {
        failed := true;
        return;
      }
      Enter("EncodeRequest");
      if !inp.requestBuilds {
        failed := true;
        return;
      }
      var ok := Authenticate(inp.auth);
      if !ok {
        failed := true;
        return;
      }
      Exchange(inp);
    }

    /** Security; `ErrSkipClientSecurity` skips it and leaves the requirement open. */
    method Authenticate(auth: Auth) returns (ok: bool)
      requires Valid()
      modifies this`trace, this`stage
      ensures Valid() && trace == old(trace) + [Stage("Security:BasicAuth")] && ok == auth.AuthDone?
    {
      Enter("Security:BasicAuth");
      var satisfied: seq<bv8> := [0];
      match auth {
        case AuthDone => satisfied := [satisfied[0] | Shl1(0)];
        case AuthSkipped =>
        case AuthError => return false;
      }
      ok := CheckRequirements(satisfied, [[0x01]]);
      OneBit(satisfied, auth.AuthDone?);
    }

    method Exchange(inp: Inputs)
      requires Valid() && !failed && Secured(inp)
      requires deferred == [RecordDuration, Finish]
      requires trace == APPROACH
      modifies this
      ensures Valid() && trace == Body(inp) && failed == Fails(inp)
      ensures deferred == if Responded(inp) then [RecordDuration, Finish, CloseResponse] else [RecordDuration, Finish]
    {
      Enter("SendRequest");
      Emit(Event.Send);
      if !inp.responds {
        failed := true;
        return;
      }
      Emit(Obtained);
      deferred := deferred + [CloseResponse];
      Enter("DecodeResponse");
      if !inp.decodes {
        failed := true;
        return;
      }
    }

    method Perform(d: Deferred)
      requires Valid()
      modifies this`trace, client
      ensures Valid() && Ledger(trace, client.durations, client.errors)
                         == old(Effect(Ledger(trace, client.durations, client.errors), d, stage, failed))
      ensures client.requests == old(client.requests)
    {
      match d {
        case RecordDuration =>
          Emit(Duration);
          client.durations := client.durations + 1;
        case Finish =>
          if failed {
            Emit(RecordError(stage));
            client.errors := client.errors + 1;
          }
          Emit(SpanEnd);
        case CloseResponse => Emit(CloseBody);
      }
    }

    /** The return: all deferred calls, the last one first. */
    method Unwind()
      requires Valid()
      modifies this, client
      ensures Ledger(trace, client.durations, client.errors)
              == old(Unwound(Ledger(trace, client.durations, client.errors), deferred, stage, failed))
      ensures client.requests == old(client.requests) && failed == old(failed)
    {
      while deferred != []
        invariant Valid() && stage == old(stage) && failed == old(failed) && client.requests == old(client.requests)
        invariant Unwound(Ledger(trace, client.durations, client.errors), deferred, stage, failed)
                  == old(Unwound(Ledger(trace, client.durations, client.errors), deferred, stage, failed))
        decreases |deferred|
      {
        var d := deferred[|deferred| - 1];
        deferred := deferred[..|deferred| - 1];
        Perform(d);
      }
    }
  }

  /** `sendCreateApplicationVersion`: one call. */
  method SendRequest(client: Client, inp: Inputs) returns (failed: bool, trace: seq<Event>)
    modifies client
    ensures failed <==>
            !inp.pathEncodes || !inp.requestBuilds || inp.auth != AuthDone || !inp.responds || !inp.decodes
    ensures failed == Fails(inp) && trace == Trace(inp)
    ensures client.requests == old(client.requests) + 1
    ensures client.durations == old(client.durations) + 1
    ensures client.errors == old(client.errors) + (if failed then 1 else 0)
  {
    var call := new Call(client);
    call.Send(inp);
    LastStages(inp);
    Unwinding(inp, Ledger(call.trace, client.durations, client.errors));
    call.Unwind();
    failed, trace := call.failed, call.trace;
  }

  // ---------- what a call comes to ----------

  /** The phase the call is in after `events`. */
  function LastStage(events: seq<Event>): string {
    if events == [] then ""
    else
      var last := events[|events| - 1];
      if last.Stage? then last.name else LastStage(events[..|events| - 1])
  }

  predicate Secured(inp: Inputs) { inp.pathEncodes && inp.requestBuilds && inp.auth.AuthDone? }

  predicate Responded(inp: Inputs) { Secured(inp) && inp.responds }

  predicate Fails(inp: Inputs) { !Responded(inp) || !inp.decodes }

  const APPROACH: seq<Event> := [Requests, SpanStart, Stage("BuildURL"), Stage("EncodeRequest"),
      Stage("Security:BasicAuth")]

  function Body(inp: Inputs): seq<Event> {
    if !inp.pathEncodes then APPROACH[..3]
    else if !inp.requestBuilds then APPROACH[..4]
    else if !inp.auth.AuthDone? then APPROACH
    else if !inp.responds then APPROACH + [Stage("SendRequest"), Send]
    else APPROACH + [Stage("SendRequest"), Send, Obtained, Stage("DecodeResponse")]
  }

  /** The phase in which a call ends. */
  function EndStage(inp: Inputs): string {
    if !inp.pathEncodes then "BuildURL"
    else if !inp.requestBuilds then "EncodeRequest"
    else if !inp.auth.AuthDone? then "Security:BasicAuth"
    else if !inp.responds then "SendRequest"
    else "DecodeResponse"
  }

  lemma LastStages(inp: Inputs)
    ensures LastStage(Body(inp)) == EndStage(inp)
  {
    var b := Body(inp);
    if Secured(inp) && !inp.responds {
      assert b[..|b| - 1] == APPROACH + [Stage("SendRequest")];
    }
  }

  function Accounting(inp: Inputs): seq<Event> {
    (if Responded(inp) then [CloseBody] else []) + (if Fails(inp) then [RecordError(EndStage(inp))] else []) +
        [SpanEnd, Duration]
  }

  function Trace(inp: Inputs): seq<Event> { Body(inp) + Accounting(inp) }

  datatype Ledger = Ledger(trace: seq<Event>, durations: nat, errors: nat)

  function Effect(l: Ledger, d: Deferred, stage: string, failed: bool): Ledger {
    match d
    case RecordDuration => l.(trace := l.trace + [Duration], durations := l.durations + 1)
    case Finish =>
      if failed then l.(trace := l.trace + [RecordError(stage), SpanEnd], errors := l.errors + 1)
      else l.(trace := l.trace + [SpanEnd])
    case CloseResponse => l.(trace := l.trace + [CloseBody])
  }

  function Unwound(l: Ledger, ds: seq<Deferred>, stage: string, failed: bool): Ledger
    decreases |ds|
  {
    if ds == [] then l else Unwound(Effect(l, ds[|ds| - 1], stage, failed), ds[..|ds| - 1], stage, failed)
  }

  lemma Unwinding(inp: Inputs, l: Ledger)
    requires l.trace == Body(inp)
    ensures var ds := if Responded(inp) then [RecordDuration, Finish, CloseResponse] else [RecordDuration, Finish];
            Unwound(l, ds, EndStage(inp), Fails(inp)) ==
            Ledger(Trace(inp), l.durations + 1, l.errors + if Fails(inp) then 1 else 0)
  {
    var stage, failed := EndStage(inp), Fails(inp);
    var two := [RecordDuration, Finish];
    var l1 := if Responded(inp) then Effect(l, CloseResponse, stage, failed) else l;
    if Responded(inp) {
      var three := [RecordDuration, Finish, CloseResponse];
      assert three[..2] == two;
      assert Unwound(l, three, stage, failed) == Unwound(l1, two, stage, failed);
    }
    assert two[..1] == [RecordDuration];
    var l2 := Effect(l1, Finish, stage, failed);
    assert Unwound(l1, two, stage, failed) == Unwound(l2, [RecordDuration], stage, failed);
    assert [RecordDuration][..0] == [];
    assert Effect(l2, RecordDuration, stage, failed).trace == Trace(inp);
  }

  // ---------- laws ----------

  /** In every call: one request, one duration at the very end, one end of the span before
      it; the response body is closed once if a response was obtained, after it, and never
      otherwise; and the error is recorded, once, exactly when the call returns one. */
  lemma CallConserves(inp: Inputs)
    ensures var t := Trace(inp);
            forall p :: 0 <= p < |t| ==>
              (t[p].Requests? <==> p == 0) && (t[p].Duration? <==> p == |t| - 1) && (t[p].SpanEnd? <==> p == |t| - 2) &&
              (t[p].RecordError? <==> Fails(inp) && p == |t| - 3) &&
              (t[p].Send? <==> Secured(inp) && p == 6) && (t[p].Obtained? <==> Responded(inp) && p == 7) &&
              (t[p].CloseBody? <==> Responded(inp) && p == if Fails(inp) then |t| - 4 else |t| - 3)
    ensures Send in Trace(inp) <==> Secured(inp)
    ensures Obtained in Trace(inp) <==> Responded(inp)
    ensures CloseBody in Trace(inp) <==> Responded(inp)
  {
    var t, body, tail := Trace(inp), Body(inp), Accounting(inp);
    forall p | 0 <= p < |t|
      ensures t[p] == if p < |body| then body[p] else tail[p - |body|]
    {
    }
    BodyEvents(inp);
    assert Secured(inp) ==> t[6] == Send;
    assert Responded(inp) ==> t[7] == Obtained && t[|body|] == CloseBody && |body| == 9;
  }

  lemma BodyEvents(inp: Inputs)
    ensures forall p :: 0 <= p < |Body(inp)| ==>
              var e := Body(inp)[p];
              !e.Duration? && !e.SpanEnd? && !e.RecordError? && !e.CloseBody? && (e.Requests? <==> p == 0) &&
              (e.Send? <==> Secured(inp) && p == 6) && (e.Obtained? <==> Responded(inp) && p == 7)
  {
  }

  /** What each failure leads to, told from the inputs: the error is recorded with the stage of
      the first step that fails; nothing is sent before authentication has succeeded; and the
      response body is closed exactly when there is one. */
  lemma CallExactly(inp: Inputs)
    ensures var t, ready := Trace(inp), inp.pathEncodes && inp.requestBuilds;
            (RecordError("BuildURL") in t <==> !inp.pathEncodes) &&
            (RecordError("EncodeRequest") in t <==> inp.pathEncodes && !inp.requestBuilds) &&
            (RecordError("Security:BasicAuth") in t <==> ready && inp.auth != AuthDone) &&
            (RecordError("SendRequest") in t <==> ready && inp.auth == AuthDone && !inp.responds) &&
            (RecordError("DecodeResponse") in t <==> ready && inp.auth == AuthDone && inp.responds && !inp.decodes) &&
            (Send in t <==> ready && inp.auth == AuthDone) &&
            (CloseBody in t <==> ready && inp.auth == AuthDone && inp.responds)
    ensures forall stage :: RecordError(stage) in Trace(inp) ==>
              stage in {"BuildURL", "EncodeRequest", "Security:BasicAuth", "SendRequest", "DecodeResponse"}
  {
    CallConserves(inp);
    var t, body, tail := Trace(inp), Body(inp), Accounting(inp);
    assert forall e :: e in t <==> e in body || e in tail;
    forall stage ensures RecordError(stage) in t <==> Fails(inp) && stage == EndStage(inp) {
      BodyEvents(inp);
      var record := if Fails(inp) then [RecordError(EndStage(inp))] else [];
      assert forall e :: e in tail <==>
        (Responded(inp) && e == CloseBody) || e in record || e == SpanEnd || e == Duration;
    }
  }

  /** Nothing is sent unless the security requirement is satisfied, and then only in the
      phase for it. */
  lemma SentOnlyWhenSecured(inp: Inputs, p: nat)
    requires p < |Trace(inp)| && Trace(inp)[p] == Send
    ensures inp.auth.AuthDone? && LastStage(Trace(inp)[..p]) == "SendRequest"
    ensures Stage("Security:BasicAuth") in Trace(inp)[..p]
  {
    var t := Trace(inp);
    assert p == 6 && t[..p] == APPROACH + [Stage("SendRequest")];
  }

  /** The stage on an error is the last phase entered. */
  lemma ErrorNamesLastStage(inp: Inputs, p: nat)
    requires p < |Trace(inp)| && Trace(inp)[p].RecordError?
    ensures Trace(inp)[p].stage == LastStage(Trace(inp)[..p])
  {
    LastStages(inp);
    var t, b := Trace(inp), Body(inp);
    if Responded(inp) {
      assert p == |b| + 1 && t[..p] == b + [CloseBody];
      assert t[..p][..|b|] == b;
    } else {
      assert p == |b| && t[..p] == b;
    }
  }

  function Failures(inps: seq<Inputs>): nat {
    if inps == [] then 0 else Failures(inps[..|inps| - 1]) + if Fails(inps[|inps| - 1]) then 1 else 0
  }

  /** Any sequence of calls: requests and durations count the calls, errors those that
      return one. */
  method SendAll(client: Client, inps: seq<Inputs>) returns (failures: nat)
    modifies client
    ensures failures == Failures(inps) <= |inps|
    ensures client.requests == old(client.requests) + |inps|
    ensures client.durations == old(client.durations) + |inps|
    ensures client.errors == old(client.errors) + failures
  {
    failures := 0;
    for n := 0 to |inps|
      invariant failures == Failures(inps[..n]) <= n
      invariant client.requests == old(client.requests) + n
      invariant client.durations == old(client.durations) + n
      invariant client.errors == old(client.errors) + failures
    {
      var failed, _ := SendRequest(client, inps[n]);
      if failed {
        failures := failures + 1;
      }
      assert inps[..n + 1][..n] == inps[..n];
    }
    assert inps[..|inps|] == inps;
  }
}
