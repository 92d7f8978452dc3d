/** A createApplicationVersion request on its way from the client's value to the server's
    application handler. */
module Deliveries {
  import opened Options
  import opened Json
  import opened Versions
  import opened Payloads
  import opened Requests
  import opened Servers
  import opened ServerLaws

  /** The client encodes `v`; `behind` is what else is in the body.  The application handler
      is entered exactly when authentication, parameters and validation let it, and nothing is
      behind the object: with `NormVersion(v)`, or through a middleware with whatever that
      passes on.  A run let in by authentication that does not get so far is an error. */
  method Deliver(server: Server, v: CreateApplicationVersion, behind: seq<Token>, length: nat, announced: int,
                 valid: CreateApplicationVersion -> bool, outcome: Inputs<CreateApplicationVersion>)
    returns (trace: seq<Event<CreateApplicationVersion>>)
    requires length != 0 && announced != 0
    modifies server
    ensures var admitted := outcome.auth == AuthDone(true) && outcome.params && behind == [] && valid(NormVersion(v));
            (BodyDecoded(NormVersion(v)) in trace <==> admitted) &&
            (HandlerCalls(trace) == if !admitted then []
                                    else if outcome.middleware.Some? then outcome.middleware.value
                                    else [NormVersion(v)]) &&
            (outcome.auth == AuthDone(true) && !admitted ==> |server.errors| == |old(server.errors)| + 1)
    ensures |server.requests| == |old(server.requests)| + 1
  {
    var req, rerr := Exchange(v, behind, length, announced, valid);
    var inp := outcome.(body := req);
    trace := Handle(server, inp);
    TraceCalls(inp);
    BodyDecodedExactly(inp, NormVersion(v));
  }

  lemma BodyDecodedExactly<T>(inp: Inputs<T>, request: T)
    ensures BodyDecoded(request) in Trace(inp) <==> Admitted(inp) && inp.body == Some(request)
  {
    QuietEvents(inp);
    if Admitted(inp) {
      assert Trace(inp)[4] == BodyDecoded(inp.body.value);
    }
    assert forall e :: e in Trace(inp) <==> e in Entry(inp) || e in Answer(inp) || e in Accounting(inp);
  }
}
