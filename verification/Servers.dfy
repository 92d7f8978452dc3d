/** The server pipeline of createApplicationVersion: one run as a trace of events, driven by
    arbitrary results of everything the handler calls, with its stack of deferred calls. */
module Servers {
  import opened Bits
  import opened Options
  import opened Security
  import opened Closers

  // ---------- what the pipeline is driven by ----------

  /** `securityBasicAuth`: an error, or whether the requirement's bit gets set. */
  datatype Auth = AuthError | AuthDone(ok: bool)

  /** What the user's `ErrorHandler` does with the response writer. */
  datatype Action = SendHeader(code: int) | SendBytes

  /** What the application handler, or the middleware around it, returns. */
  datatype Result = Success | StatusError(code: int) | NotImplemented | OtherError

  /** Writing the body of a response; a write error may be `ErrInternalServerErrorResponse`. */
  datatype WriteResult = Written | WriteFails(internal: bool)

  /** `middleware`: none, or the requests it passes to `next`, one for each call. */
  datatype Inputs<T> = Inputs(auth: Auth, params: bool, body: Option<T>, middleware: Option<seq<T>>,
                              result: Result, newError: int, onError: seq<Action>, write: WriteResult)

  // ---------- what it does ----------

  datatype Event<T> =
    | SpanStart
    | Authenticated(ok: bool)
    | Gate(passed: bool)
    | ParamsDecoded
    | BodyDecoded(request: T)
    | Handler(request: T)
    | Header(code: int)                                     // WriteHeader on the codeRecorder
    | Write                                                 // Write on it
    | SetStatus(failed: bool)                               // a response encoder's span.SetStatus
    | RecordError(stage: string, code: int, failed: bool)   // errors counter; failed: span.SetStatus(Error)
    | Requests(code: int)
    | Duration(code: int)
    | SpanEnd

  datatype Deferred = EndSpan | Metrics | CloseRequest(closers: seq<bool>) | Record(stage: string)

  /** `codeRecorder.status` after `events`. */
  function Recorded<T>(events: seq<Event<T>>): int {
    if events == [] then 0
    else
      var last := events[|events| - 1];
      if last.Header? then last.code else Recorded(events[..|events| - 1])
  }

  // ---------- what a run comes to ----------

  function StatusCode(code: int): int { if code == 0 then 200 else code }

  function ErrorResponse<T>(code: int): seq<Event<T>> {
    [Header(StatusCode(code)), SetStatus(StatusCode(code) >= 400), Write]
  }

  predicate ErrorResponseFails(code: int, write: WriteResult) {
    write.WriteFails? || StatusCode(code) >= 500
  }

  function Actions<T>(actions: seq<Action>): seq<Event<T>> {
    seq(|actions|, i requires 0 <= i < |actions| =>
      match actions[i] case SendHeader(code) => Header(code) case SendBytes => Write)
  }

  /** The application handler is reached. */
  predicate Admitted<T>(inp: Inputs<T>) {
    inp.auth == AuthDone(true) && inp.params && inp.body.Some?
  }

  /** The requests the application handler sees. */
  function Handled<T>(inp: Inputs<T>): seq<T>
    requires inp.body.Some?
  {
    if inp.middleware.Some? then inp.middleware.value else [inp.body.value]
  }

  /** The way to the application handler. */
  function Approach<T>(inp: Inputs<T>): seq<Event<T>>
    requires inp.body.Some?
  {
    [SpanStart, Authenticated(true), Gate(true), ParamsDecoded, BodyDecoded(inp.body.value)]
  }

  function Calls<T>(requests: seq<T>): seq<Event<T>> {
    seq(|requests|, i requires 0 <= i < |requests| => Handler(requests[i]))
  }

  /** The way to the application handler and its calls, as far as the run gets. */
  function Entry<T>(inp: Inputs<T>): seq<Event<T>> {
    if inp.auth.AuthError? then [SpanStart]
    else if !inp.auth.ok then [SpanStart, Authenticated(false), Gate(false)]
    else if !inp.params then [SpanStart, Authenticated(true), Gate(true)]
    else if inp.body.None? then [SpanStart, Authenticated(true), Gate(true), ParamsDecoded]
    else Approach(inp) + Calls(Handled(inp))
  }

  /** Who writes the response: the encoder of error responses with a status, the user's
      error handler, or the encoder of the success response. */
  datatype Responder = ByEncoder(code: int) | ByErrorHandler | BySuccess

  function Answerer<T>(inp: Inputs<T>): Responder {
    if inp.auth != AuthDone(true) then ByEncoder(inp.newError)
    else if !Admitted(inp) || inp.result.NotImplemented? then ByErrorHandler
    else if inp.result.StatusError? then ByEncoder(inp.result.code)
    else if inp.result.OtherError? then ByEncoder(inp.newError)
    else BySuccess
  }

  function Answer<T>(inp: Inputs<T>): seq<Event<T>> {
    match Answerer(inp)
    case ByEncoder(code) => ErrorResponse(code)
    case ByErrorHandler => Actions(inp.onError)
    case BySuccess =>
      [Header(200), SetStatus(false), Write] +
      if inp.write == WriteFails(false) then Actions(inp.onError) else []
  }

  /** The stage `recordError` runs with, if it runs. */
  function Failure<T>(inp: Inputs<T>): Option<string> {
    match Answerer(inp)
    case ByEncoder(code) =>
      if !ErrorResponseFails(code, inp.write) then None
      else if inp.auth.AuthError? then Some("Security:BasicAuth")
      else if !inp.auth.ok then Some("Security")
      else Some("Internal")
    case ByErrorHandler =>
      if !inp.params then Some("DecodeParams") else if inp.body.None? then Some("DecodeRequest") else None
    case BySuccess => if inp.write.WriteFails? then Some("EncodeResponse") else None
  }

  /** The status that all the deferred calls see. */
  function Final<T>(inp: Inputs<T>): int { Recorded(Answer(inp)) }

  function ErrorRecord<T>(stage: string, code: int): Event<T> {
    RecordError(stage, code, code < 100 || code >= 500)
  }

  /** What the deferred calls add. */
  function Accounting<T>(inp: Inputs<T>): seq<Event<T>> {
    (match Failure(inp) case None => [] case Some(stage) => [ErrorRecord(stage, Final(inp))])
    + [Requests(Final(inp)), Duration(Final(inp)), SpanEnd]
  }

  function Trace<T>(inp: Inputs<T>): seq<Event<T>> {
    Entry(inp) + Answer(inp) + Accounting(inp)
  }

  /** The deferred calls when the handler's body returns. */
  function Deferrals<T>(inp: Inputs<T>): seq<Deferred> {
    var base := if Admitted(inp) then [EndSpan, Metrics, CloseRequest([])] else [EndSpan, Metrics];
    match Failure(inp) case None => base case Some(stage) => base + [Record(stage)]
  }

  /** What the deferred calls change: the run's trace and the server's counters, each a list
      of the status codes it was bumped with. */
  datatype Ledger<T> = Ledger(trace: seq<Event<T>>, requests: seq<int>, durations: seq<int>, errors: seq<int>)

  function RecordIn<T>(l: Ledger<T>, stage: string, code: int): Ledger<T> {
    l.(trace := l.trace + [ErrorRecord(stage, code)], errors := l.errors + [code])
  }

  function Effect<T>(l: Ledger<T>, d: Deferred, code: int): Ledger<T> {
    match d
    case EndSpan => l.(trace := l.trace + [SpanEnd])
    case Metrics =>
      l.(trace := l.trace + [Requests(code), Duration(code)], requests := l.requests + [code],
          durations := l.durations + [code])
    case CloseRequest(closers) => if Fails(closers) then RecordIn(l, "CloseRequest", code) else l
    case Record(stage) => RecordIn(l, stage, code)
  }

  /** The deferred calls run last in, first out. */
  function Unwound<T>(l: Ledger<T>, ds: seq<Deferred>, code: int): Ledger<T>
    decreases |ds|
  {
    if ds == [] then l else Unwound(Effect(l, ds[|ds| - 1], code), ds[..|ds| - 1], code)
  }

  /** The codes the errors counter is bumped with in a run. */
  function ErrorCodes<T>(inp: Inputs<T>): seq<int> {
    if Failure(inp).Some? then [Final(inp)] else []
  }

  lemma Unwinding<T>(inp: Inputs<T>, l: Ledger<T>)
    requires l.trace == Entry(inp) + Answer(inp)
    ensures Unwound(l, Deferrals(inp), Final(inp)) ==
            Ledger(Trace(inp), l.requests + [Final(inp)], l.durations + [Final(inp)], l.errors + ErrorCodes(inp))
  {
    var ds, code := Deferrals(inp), Final(inp);
    var l1 := if Failure(inp).Some? then RecordIn(l, Failure(inp).value, code) else l;
    var below := if Admitted(inp) then [EndSpan, Metrics, CloseRequest([])] else [EndSpan, Metrics];
    if Failure(inp).Some? {
      assert ds[..|ds| - 1] == below;
    }
    assert Unwound(l, ds, code) == Unwound(l1, below, code);
    if Admitted(inp) {
      assert below[..2] == [EndSpan, Metrics];
    }
    assert Unwound(l1, below, code) == Unwound(l1, [EndSpan, Metrics], code);
    assert [EndSpan, Metrics][..1] == [EndSpan];
    var l2 := Effect(l1, Metrics, code);
    assert Unwound(l1, [EndSpan, Metrics], code) == Unwound(l2, [EndSpan], code);
    assert [EndSpan][..0] == [];
    assert Unwound(l2, [EndSpan], code) == Effect(l2, EndSpan, code);
    assert Effect(l2, EndSpan, code).trace == Trace(inp);
  }

  lemma EntryHasNoHeader<T>(inp: Inputs<T>)
    ensures forall e :: e in Entry(inp) ==> !e.Header?
  {
  }

  lemma {:induction false} RecordedSuffix<T>(before: seq<Event<T>>, events: seq<Event<T>>)
    requires forall e :: e in before ==> !e.Header?
    ensures Recorded(before + events) == Recorded(events)
    decreases |events|
  {
    var all := before + events;
    if events != [] {
      assert all[..|all| - 1] == before + events[..|events| - 1];
      RecordedSuffix(before, events[..|events| - 1]);
    } else {
      assert all == before;
      NoHeader(before);
    }
  }

  lemma {:induction false} NoHeader<T>(events: seq<Event<T>>)
    requires forall e :: e in events ==> !e.Header?
    ensures Recorded(events) == 0
  {
    if events != [] {
      NoHeader(events[..|events| - 1]);
    }
  }

  // ---------- the pipeline ----------

  class Server {
    var requests: seq<int>
    var durations: seq<int>
    var errors: seq<int>

    constructor ()
      ensures requests == [] && durations == [] && errors == []
    {
      requests, durations, errors := [], [], [];
    }
  }

  class Run<T> {
    const server: Server
    var status: int
    var trace: seq<Event<T>>
    var deferred: seq<Deferred>

    ghost predicate Valid()
      reads this
    {
      status == Recorded(trace)
    }

    constructor (server: Server)
      ensures Valid() && this.server == server && trace == [] && deferred == []
    {
      this.server := server;
      status, trace, deferred := 0, [], [];
    }

    method Emit(e: Event<T>)
      requires Valid() && !e.Header?
      modifies this`trace
      ensures Valid() && trace == old(trace) + [e]
    {
      trace := trace + [e];
    }

    /** `codeRecorder.WriteHeader`. */
    method WriteHeader(code: int)
      requires Valid()
      modifies this`trace, this`status
      ensures Valid() && trace == old(trace) + [Header(code)]
    {
      status := code;
      trace := trace + [Header(code)];
    }

    method Defer(d: Deferred)
      modifies this`deferred
      ensures deferred == old(deferred) + [d]
    {
      deferred := deferred + [d];
    }

    /** `encodeErrorResponse`. */
    method EncodeErrorResponse(response: int, write: WriteResult) returns (failed: bool)
      requires Valid()
      modifies this`trace, this`status
      ensures Valid() && trace == old(trace) + ErrorResponse(response) && failed == ErrorResponseFails(response, write)
    {
      var code := response;
      if code == 0 {
        code := 200;
      }
      WriteHeader(code);
      if code >= 400 {
        Emit(SetStatus(true));
      } else {
        Emit(SetStatus(false));
      }
      Emit(Write);
      if write.WriteFails? {
        return true;
      }
      return code >= 500;
    }

    /** `encodeCreateApplicationVersionResponse`. */
    method EncodeResponse(write: WriteResult) returns (failed: bool)
      requires Valid()
      modifies this`trace, this`status
      ensures Valid() && trace == old(trace) + [Header(200), SetStatus(false), Write] && failed == write.WriteFails?
    {
      WriteHeader(200);
      Emit(SetStatus(false));
      Emit(Write);
      failed := write.WriteFails?;
    }

    /** The user's error handler, with the recording response writer. */
    method ErrorHandler(actions: seq<Action>)
      requires Valid()
      modifies this`trace, this`status
      ensures Valid() && trace == old(trace) + Actions(actions)
    {
      for i := 0 to |actions|
        invariant Valid() && trace == old(trace) + Actions<T>(actions)[..i]
      {
        match actions[i] {
          case SendHeader(code) => WriteHeader(code);
          case SendBytes => Emit(Write);
        }
        assert Actions<T>(actions)[..i + 1] == Actions<T>(actions)[..i] + [Actions<T>(actions)[i]];
      }
      assert Actions<T>(actions)[..|actions|] == Actions<T>(actions);
    }

    /** The body of the handler, up to whichever return. */
    method Serve(inp: Inputs<T>)
      requires Valid() && trace == [] && deferred == []
      modifies this
      ensures Valid() && trace == Entry(inp) + Answer(inp)
      ensures deferred == Deferrals(inp)
    {
      Emit(SpanStart);
      Defer(EndSpan);
      Defer(Metrics);
      var ok := Secure(inp);
      if !ok {
        return;
      }
      ok := DecodeInputs(inp);
      if !ok {
        return;
      }
      CallHandler(inp);
      Respond(inp);
    }

    /** Decoding of parameters and body. */
    method DecodeInputs(inp: Inputs<T>) returns (ok: bool)
      requires Valid() && inp.auth == AuthDone(true)
      requires trace == [SpanStart, Authenticated(true), Gate(true)] && deferred == [EndSpan, Metrics]
      modifies this
      ensures Valid() && ok == Admitted(inp)
      ensures ok ==> trace == Approach(inp) && deferred == [EndSpan, Metrics, CloseRequest([])]
      ensures !ok ==> trace == Entry(inp) + Answer(inp) && deferred == Deferrals(inp)
    {
      if !inp.params {
        Defer(Record("DecodeParams"));
        ErrorHandler(inp.onError);
        return false;
      }
      Emit(ParamsDecoded);
      if inp.body.None? {
        Defer(Record("DecodeRequest"));
        ErrorHandler(inp.onError);
        return false;
      }
      Emit(BodyDecoded(inp.body.value));
      Defer(CloseRequest([]));
      ok := true;
    }

    /** Authentication and the security requirements. */
    method Secure(inp: Inputs<T>) returns (ok: bool)
      requires Valid() && trace == [SpanStart] && deferred == [EndSpan, Metrics]
      modifies this
      ensures Valid() && ok == (inp.auth == AuthDone(true))
      ensures ok ==> trace == [SpanStart, Authenticated(true), Gate(true)] && deferred == [EndSpan, Metrics]
      ensures !ok ==> trace == Entry(inp) + Answer(inp) && deferred == Deferrals(inp)
    {
      var satisfied: seq<bv8> := [0];
      if inp.auth.AuthError? {
        var encodeErr := EncodeErrorResponse(inp.newError, inp.write);
        if encodeErr {
          Defer(Record("Security:BasicAuth"));
        }
        return false;
      }
      Emit(Authenticated(inp.auth.ok));
      if inp.auth.ok {
        satisfied := [satisfied[0] | Shl1(0)];
      }
      ok := CheckRequirements(satisfied, [[0x01]]);
      OneBit(satisfied, inp.auth.ok);
      Emit(Gate(ok));
      if !ok {
        var encodeErr := EncodeErrorResponse(inp.newError, inp.write);
        if encodeErr {
          Defer(Record("Security"));
        }
      }
    }

    /** The application handler, directly or through the middleware. */
    method CallHandler(inp: Inputs<T>)
      requires Valid() && Admitted(inp) && trace == Approach(inp)
      modifies this`trace
      ensures Valid() && trace == Entry(inp)
    {
      if inp.middleware.Some? {
        for n := 0 to |inp.middleware.value|
          invariant Valid()
          invariant trace == old(trace) + Calls(inp.middleware.value[..n])
        {
          Emit(Handler(inp.middleware.value[n]));
        }
        assert inp.middleware.value[..|inp.middleware.value|] == inp.middleware.value;
      } else {
        Emit(Handler(inp.body.value));
      }
    }

    /** What follows the handler's return. */
    method Respond(inp: Inputs<T>)
      requires Valid() && Admitted(inp) && deferred == [EndSpan, Metrics, CloseRequest([])]
      modifies this
      ensures Valid() && trace == old(trace) + Answer(inp)
      ensures deferred == Deferrals(inp)
    {
      if !inp.result.Success? {
        if inp.result.StatusError? {
          var err := EncodeErrorResponse(inp.result.code, inp.write);
          if err {
            Defer(Record("Internal"));
          }
          return;
        }
        if inp.result.NotImplemented? {
          ErrorHandler(inp.onError);
          return;
        }
        var err := EncodeErrorResponse(inp.newError, inp.write);
        if err {
          Defer(Record("Internal"));
        }
        return;
      }
      var err := EncodeResponse(inp.write);
      if err {
        Defer(Record("EncodeResponse"));
        if inp.write != WriteFails(true) {
          ErrorHandler(inp.onError);
        }
      }
    }

    /** `recordError`. */
    method RecordNow(stage: string)
      requires Valid()
      modifies this`trace, server
      ensures Valid() && Totals() == old(RecordIn(Totals(), stage, status))
    {
      Emit(RecordError(stage, status, status < 100 || status >= 500));
      server.errors := server.errors + [status];
    }

    ghost function Totals(): Ledger<T>
      reads this, server
    {
      Ledger(trace, server.requests, server.durations, server.errors)
    }

    /** Runs one deferred call. */
    method Perform(d: Deferred)
      requires Valid()
      modifies this`trace, server
      ensures Valid() && Totals() == old(Effect(Totals(), d, status))
    {
      match d {
        case EndSpan => Emit(SpanEnd);
        case Metrics =>
          Emit(Requests(status));
          Emit(Duration(status));
          server.requests := server.requests + [status];
          server.durations := server.durations + [status];
        case CloseRequest(closers) =>
          var failed := Close(closers);
          if failed {
            RecordNow("CloseRequest");
          }
        case Record(stage) => RecordNow(stage);
      }
    }

    /** The handler's return: all deferred calls, the last one first. */
    method Unwind()
      requires Valid()
      modifies this, server
      ensures Valid() && status == old(status) && Totals() == old(Unwound(Totals(), deferred, status))
    {
      while deferred != []
        invariant Valid() && status == old(status)
        invariant Unwound(Totals(), deferred, status) == old(Unwound(Totals(), deferred, status))
        decreases |deferred|
      {
        var d := deferred[|deferred| - 1];
        deferred := deferred[..|deferred| - 1];
        Perform(d);
      }
    }
  }

  /** `handleCreateApplicationVersionRequest`: one run. */
  method Handle<T>(server: Server, inp: Inputs<T>) returns (trace: seq<Event<T>>)
    modifies server
    ensures trace == Trace(inp)
    ensures server.requests == old(server.requests) + [Final(inp)]
    ensures server.durations == old(server.durations) + [Final(inp)]
    ensures server.errors == old(server.errors) + ErrorCodes(inp)
  {
    var run := new Run<T>(server);
    run.Serve(inp);
    EntryHasNoHeader(inp);
    RecordedSuffix(Entry(inp), Answer(inp));
    Unwinding(inp, run.Totals());
    run.Unwind();
    trace := run.trace;
  }
}
