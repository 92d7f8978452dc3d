/** What every run of the server pipeline keeps, and every sequence of runs. */
module ServerLaws {
  import opened Options
  import opened Closers
  import opened Servers

  // ---------- gating ----------

  /** The requests the application handler was entered with. */
  function HandlerCalls<T>(events: seq<Event<T>>): seq<T> {
    if events == [] then []
    else
      var before := HandlerCalls(events[..|events| - 1]);
      var last := events[|events| - 1];
      if last.Handler? then before + [last.request] else before
  }

  lemma {:induction false} NoCalls<T>(events: seq<Event<T>>, more: seq<Event<T>>)
    requires forall e :: e in more ==> !e.Handler?
    ensures HandlerCalls(events + more) == HandlerCalls(events)
    decreases |more|
  {
    var all := events + more;
    if more == [] {
      assert all == events;
    } else {
      assert all[..|all| - 1] == events + more[..|more| - 1];
      NoCalls(events, more[..|more| - 1]);
    }
  }

  lemma {:induction false} CallsAre<T>(events: seq<Event<T>>, requests: seq<T>)
    ensures HandlerCalls(events + Calls(requests)) == HandlerCalls(events) + requests
    decreases |requests|
  {
    var all := events + Calls(requests);
    if requests == [] {
      assert all == events;
    } else {
      var init := requests[..|requests| - 1];
      CallsAre(events, init);
      assert all[..|all| - 1] == events + Calls(init);
      assert HandlerCalls(events) + requests == (HandlerCalls(events) + init) + [requests[|requests| - 1]];
    }
  }

  lemma TraceCalls<T>(inp: Inputs<T>)
    ensures HandlerCalls(Trace(inp)) == if Admitted(inp) then Handled(inp) else []
  {
    QuietEvents(inp);
    NoCalls(Entry(inp) + Answer(inp), Accounting(inp));
    NoCalls(Entry(inp), Answer(inp));
    EntryCalls(inp);
  }

  lemma EntryCalls<T>(inp: Inputs<T>)
    ensures HandlerCalls(Entry(inp)) == if Admitted(inp) then Handled(inp) else []
  {
    if Admitted(inp) {
      CallsAre(Approach(inp), Handled(inp));
      NoCalls([], Approach(inp));
      assert [] + Approach(inp) == Approach(inp);
      assert HandlerCalls(Approach(inp)) == [];
    } else {
      NoCalls([], Entry(inp));
      assert [] + Entry(inp) == Entry(inp);
    }
  }

  /** Which events each part of a trace is made of. */
  lemma QuietEvents<T>(inp: Inputs<T>)
    ensures forall e :: e in Entry(inp) ==> !Responds(e) && !Accounts(e)
    ensures forall e :: e in Answer(inp) ==> Responds(e)
    ensures forall e :: e in Accounting(inp) ==> Accounts(e)
  {
  }

  /** Touches the response. */
  predicate Responds<T>(e: Event<T>) { e.Header? || e.Write? || e.SetStatus? }

  /** Counts, or ends the span. */
  predicate Accounts<T>(e: Event<T>) { e.RecordError? || e.Requests? || e.Duration? || e.SpanEnd? }

  /** The application handler is entered at most once, unless a middleware calls `next` more
      often; and without a middleware it gets the decoded body itself. */
  lemma EnteredOnce<T>(inp: Inputs<T>)
    ensures |HandlerCalls(Trace(inp))| <= 1 <==>
            (Admitted(inp) && inp.middleware.Some? ==> |inp.middleware.value| <= 1)
    ensures inp.middleware.None? ==> HandlerCalls(Trace(inp)) == if Admitted(inp) then [inp.body.value] else []
  {
    TraceCalls(inp);
  }

  /** Every entry to the application handler comes after the security gate let the run
      through, the parameters decoded, and the body decoded, in that order. */
  lemma HandlerGated<T>(inp: Inputs<T>, p: nat)
    requires p < |Trace(inp)| && Trace(inp)[p].Handler?
    ensures exists a, b, c, d :: 0 <= a < b < c < d < p && Trace(inp)[a] == Authenticated(true) &&
              Trace(inp)[b] == Gate(true) && Trace(inp)[c].ParamsDecoded? && Trace(inp)[d].BodyDecoded? &&
              inp.body == Some(Trace(inp)[d].request)
  {
    var t := Trace(inp);
    HandlerInEntry(inp, p);
    assert t[..5] == Approach(inp);
    assert t[1] == Authenticated(true) && t[2] == Gate(true) && t[3].ParamsDecoded?;
    assert t[4] == BodyDecoded(inp.body.value);
  }

  lemma HandlerInEntry<T>(inp: Inputs<T>, p: nat)
    requires p < |Trace(inp)| && Trace(inp)[p].Handler?
    ensures Admitted(inp) && p >= 5
  {
    QuietEvents(inp);
    assert Trace(inp) == Entry(inp) + (Answer(inp) + Accounting(inp));
    assert p < |Entry(inp)| && Entry(inp)[p].Handler?;
  }

  // ---------- deferred accounting ----------

  /** The error records, the counters and the end of the span come after everything that
      touches the response, and all see the same status: the last one written. */
  lemma AccountedLast<T>(inp: Inputs<T>)
    ensures var t := Trace(inp);
            t[|t| - 1].SpanEnd? && t[|t| - 2] == Duration(Recorded(t)) && t[|t| - 3] == Requests(Recorded(t)) &&
            forall p :: 0 <= p < |t| ==>
              (t[p].SpanEnd? <==> p == |t| - 1) && (t[p].Duration? <==> p == |t| - 2) &&
              (t[p].Requests? <==> p == |t| - 3) &&
              (t[p].RecordError? <==> p == |t| - 4 && Failure(inp).Some?) &&
              (t[p].RecordError? ==>
                t[p].code == Recorded(t) && (t[p].failed <==> Recorded(t) < 100 || Recorded(t) >= 500)) &&
              (Responds(t[p]) ==> forall q :: 0 <= q < p ==> !t[q].RecordError? && !t[q].Requests? && !t[q].SpanEnd?)
  {
    var t, head, tail := Trace(inp), Entry(inp) + Answer(inp), Accounting(inp);
    QuietEvents(inp);
    TraceStatus(inp);
    forall p | 0 <= p < |t|
      ensures t[p] == if p < |head| then head[p] else tail[p - |head|]
      ensures p < |head| ==> head[p] in Entry(inp) || head[p] in Answer(inp)
    {
    }
  }

  lemma TraceStatus<T>(inp: Inputs<T>)
    ensures Recorded(Trace(inp)) == Final(inp)
  {
    QuietEvents(inp);
    RecordedSuffix(Entry(inp), Answer(inp));
    HeaderlessSuffix(Entry(inp) + Answer(inp), Accounting(inp));
  }

  lemma {:induction false} HeaderlessSuffix<T>(events: seq<Event<T>>, more: seq<Event<T>>)
    requires forall e :: e in more ==> !e.Header?
    ensures Recorded(events + more) == Recorded(events)
    decreases |more|
  {
    var all := events + more;
    if more == [] {
      assert all == events;
    } else {
      assert all[..|all| - 1] == events + more[..|more| - 1];
      HeaderlessSuffix(events, more[..|more| - 1]);
    }
  }

  ghost predicate Counted<T>(inp: Inputs<T>) { exists e :: e in Trace(inp) && e.RecordError? }

  lemma CountedExactly<T>(inp: Inputs<T>)
    ensures Counted(inp) <==> Failure(inp).Some?
  {
    AccountedLast(inp);
    var t := Trace(inp);
    if Failure(inp).Some? {
      assert t[|t| - 4] in t;
    }
    if Counted(inp) {
      var e :| e in t && e.RecordError?;
      var p :| 0 <= p < |t| && t[p] == e;
    }
  }

  /** The errors counter misses a 5xx response in one case only: the application handler
      answered "not implemented" and the user's error handler wrote the 5xx. */
  lemma UncountedServerErrors<T>(inp: Inputs<T>)
    ensures Final(inp) >= 500 && !Counted(inp) <==>
            Admitted(inp) && inp.result.NotImplemented? &&
            LastCode(inp.onError).Some? && LastCode(inp.onError).value >= 500
  {
    HandlerWire<T>(inp.onError);
    CountedExactly(inp);
    EncoderStatus(inp);
  }

  /** The status after an answer of the encoders. */
  lemma EncoderStatus<T>(inp: Inputs<T>)
    ensures Answerer(inp).ByEncoder? ==> Final(inp) == StatusCode(Answerer(inp).code)
    ensures Answerer(inp).ByErrorHandler? ==> Final(inp) == Recorded(Actions<T>(inp.onError))
    ensures Answerer(inp).BySuccess? && inp.write != WriteFails(false) ==> Final(inp) == 200
  {
    match Answerer(inp)
    case ByEncoder(code) => ThreeEvents<T>(StatusCode(code), StatusCode(code) >= 400);
    case ByErrorHandler =>
    case BySuccess =>
      ThreeEvents<T>(200, false);
      assert [Header(200), SetStatus(false), Write] + [] == [Event<T>.Header(200), SetStatus(false), Write];
  }

  lemma ThreeEvents<T>(code: int, failed: bool)
    ensures Recorded([Event<T>.Header(code), SetStatus(failed), Write]) == code
  {
    var events := [Event<T>.Header(code), SetStatus(failed), Write];
    assert events[..2] == [Event<T>.Header(code), SetStatus(failed)];
    assert events[..2][..1] == [Event<T>.Header(code)];
    assert Recorded(events) == Recorded(events[..2]) == Recorded(events[..2][..1]);
  }

  // ---------- span status ----------

  /** Some call sets the span's status to Error. */
  ghost predicate SpanFails<T>(inp: Inputs<T>) {
    exists e :: e in Trace(inp) && (e == SetStatus(true) || (e.RecordError? && e.failed))
  }

  /** `recordError` ran and saw a final status below 100 or from 500 on. */
  ghost predicate RecordedServerError<T>(inp: Inputs<T>) {
    exists e :: e in Trace(inp) && e.RecordError? && (e.code < 100 || e.code >= 500)
  }

  /** The span is marked as failed exactly when `recordError` saw such a status, except when
      the error encoder answered with a 4xx: then the encoder has marked it as failed, where
      the HTTP conventions want a server's span left unset. */
  lemma SpanStatus<T>(inp: Inputs<T>)
    ensures SpanFails(inp) <==>
            RecordedServerError(inp) || (Answerer(inp).ByEncoder? && 400 <= StatusCode(Answerer(inp).code) < 500)
    ensures RecordedServerError(inp) <==> Failure(inp).Some? && (Final(inp) < 100 || Final(inp) >= 500)
    ensures Answerer(inp).ByEncoder? && 400 <= StatusCode(Answerer(inp).code) < 500 ==> !RecordedServerError(inp)
  {
    AccountedLast(inp);
    TraceStatus(inp);
    EncoderStatus(inp);
    var t := Trace(inp);
    if Failure(inp).Some? {
      assert t[|t| - 4] in t && t[|t| - 4].RecordError?;
    }
    StatusSet(inp);
  }

  lemma StatusSet<T>(inp: Inputs<T>)
    ensures SetStatus(true) in Trace(inp) <==> Answerer(inp).ByEncoder? && StatusCode(Answerer(inp).code) >= 400
  {
    QuietEvents(inp);
    var t, answer := Trace(inp), Answer(inp);
    assert forall e :: e in t ==> e in Entry(inp) || e in answer || e in Accounting(inp);
    if Answerer(inp).ByEncoder? && StatusCode(Answerer(inp).code) >= 400 {
      assert answer[1] == SetStatus(true);
      assert t[|Entry(inp)| + 1] == SetStatus(true);
    }
  }

  /** No call sets the span's status at all. */
  ghost predicate LeftUnset<T>(inp: Inputs<T>) {
    forall e :: e in Trace(inp) ==> !e.SetStatus? && !(e.RecordError? && e.failed)
  }

  /** The rule the handler quotes: in the 1xx, 2xx and 3xx ranges the status is left unset,
      unless there was another error, and then it is Error. */
  ghost predicate QuotedRule<T>(inp: Inputs<T>) {
    100 <= Final(inp) < 400 ==> if Counted(inp) then SpanFails(inp) else LeftUnset(inp)
  }

  /** The rest of that rule for a server: unset in the 4xx range, Error in the 5xx range. */
  ghost predicate ServerRule<T>(inp: Inputs<T>) {
    (400 <= Final(inp) < 500 ==> LeftUnset(inp)) && (Final(inp) >= 500 ==> SpanFails(inp))
  }

  lemma AnswerUnset<T>(inp: Inputs<T>)
    ensures (forall e :: e in Answer(inp) ==> !e.SetStatus?) <==> Answerer(inp).ByErrorHandler?
  {
    if !Answerer(inp).ByErrorHandler? {
      assert Answer(inp)[1].SetStatus? && Answer(inp)[1] in Answer(inp);
    }
  }

  lemma AccountingUnset<T>(inp: Inputs<T>)
    ensures (forall e :: e in Accounting(inp) ==> !(e.RecordError? && e.failed)) <==>
            (Failure(inp).Some? ==> 100 <= Final(inp) < 500)
  {
    if Failure(inp).Some? {
      assert Accounting(inp)[0] == ErrorRecord(Failure(inp).value, Final(inp));
      assert Accounting(inp)[0] in Accounting(inp);
    }
  }

  lemma UnsetExactly<T>(inp: Inputs<T>)
    ensures LeftUnset(inp) <==>
            Answerer(inp).ByErrorHandler? && (Failure(inp).Some? ==> 100 <= Final(inp) < 500)
  {
    QuietEvents(inp);
    AnswerUnset(inp);
    AccountingUnset(inp);
    assert forall e :: e in Trace(inp) <==> e in Entry(inp) || e in Answer(inp) || e in Accounting(inp);
  }

  /** A run meets the quoted rule exactly when its final status is outside those ranges or comes
      from the user's error handler for a handler that is not implemented: every encoder
      sets a status on such an answer, and `recordError` never sets Error for one. */
  lemma QuotedRuleExactly<T>(inp: Inputs<T>)
    ensures QuotedRule(inp) <==> (100 <= Final(inp) < 400 ==> Admitted(inp) && inp.result.NotImplemented?)
  {
    UnsetExactly(inp);
    CountedExactly(inp);
    SpanStatus(inp);
    EncoderStatus(inp);
  }

  /** A run meets the rest exactly when a 4xx comes from the error handler and a 5xx is recorded
      as an error. */
  lemma ServerRuleExactly<T>(inp: Inputs<T>)
    ensures ServerRule(inp) <==>
            (400 <= Final(inp) < 500 ==> Answerer(inp).ByErrorHandler?) && (Final(inp) >= 500 ==> Failure(inp).Some?)
  {
    UnsetExactly(inp);
    SpanStatus(inp);
    EncoderStatus(inp);
  }

  /** For example: a plain success. The encoder sets Ok where the rule wants the status unset. */
  lemma SuccessBreaksRule<T>(body: T, newError: int)
    ensures var inp := Inputs(AuthDone(true), true, Some(body), None, Success, newError, [], Written);
            Final(inp) == 200 && !QuotedRule(inp)
  {
    var inp := Inputs(AuthDone(true), true, Some(body), None, Success, newError, [], Written);
    EncoderStatus(inp);
    QuotedRuleExactly(inp);
  }

  /** For example: the handler answers 404. The span fails, though `recordError` never runs. */
  lemma NotFoundFailsSpan<T>(body: T, newError: int)
    ensures var inp := Inputs(AuthDone(true), true, Some(body), None, StatusError(404), newError, [], Written);
            SpanFails(inp) && !RecordedServerError(inp) && !Counted(inp)
  {
    var inp := Inputs(AuthDone(true), true, Some(body), None, StatusError(404), newError, [], Written);
    SpanStatus(inp);
    CountedExactly(inp);
  }

  /** For example: the handler is not implemented, and the error handler says 501. */
  lemma NotImplementedUncounted<T>(body: T, newError: int)
    ensures var inp := Inputs(AuthDone(true), true, Some(body), None, NotImplemented, newError,
        [SendHeader(501), SendBytes], Written);
            Final(inp) == 501 && !Counted(inp)
  {
    var actions := [SendHeader(501), SendBytes];
    var inp := Inputs(AuthDone(true), true, Some(body), None, NotImplemented, newError, actions, Written);
    CountedExactly(inp);
    EncoderStatus(inp);
    assert Actions<T>(actions)[..1][0] == Header(501);
  }

  // ---------- the status on the wire ----------

  /** net/http sends the first status it is given; writing first sends 200, and so does
      writing nothing at all. */
  function Wire<T>(events: seq<Event<T>>): int {
    if events == [] then 200
    else if events[0].Header? then events[0].code
    else if events[0].Write? then 200
    else Wire(events[1..])
  }

  /** The first status the error handler's actions come to, and the last one they report. */
  function FirstCode(actions: seq<Action>): int {
    if actions == [] || actions[0].SendBytes? then 200 else actions[0].code
  }

  function LastCode(actions: seq<Action>): Option<int> {
    if actions == [] then None
    else
      var last := actions[|actions| - 1];
      if last.SendHeader? then Some(last.code) else LastCode(actions[..|actions| - 1])
  }

  lemma {:induction false} RecordedActions<T>(before: seq<Event<T>>, actions: seq<Action>)
    ensures Recorded(before + Actions(actions)) ==
            if LastCode(actions).Some? then LastCode(actions).value else Recorded(before)
    decreases |actions|
  {
    var all := before + Actions(actions);
    if actions == [] {
      assert all == before;
    } else {
      var init := actions[..|actions| - 1];
      RecordedActions(before, init);
      assert all[..|all| - 1] == before + Actions(init);
    }
  }

  /** The counters report the last status, the client gets the first.  They agree on every
      answer of an encoder; on an answer of the error handler exactly when it reports a status
      and the last one it reports is the one it began with; and after a success that could not
      be written exactly when the last status the error handler reports, if any, is 200. */
  lemma WireExactly<T>(inp: Inputs<T>)
    ensures Final(inp) == Wire(Answer(inp)) <==>
            match Answerer(inp)
            case ByEncoder(_) => true
            case BySuccess => inp.write == WriteFails(false) ==>
              LastCode(inp.onError) == None || LastCode(inp.onError) == Some(200)
            case ByErrorHandler => LastCode(inp.onError) == Some(FirstCode(inp.onError))
  {
    EncoderStatus(inp);
    match Answerer(inp)
    case ByEncoder(code) =>
      assert Answer(inp)[0] == Header(StatusCode(code));
    case ByErrorHandler => HandlerWire<T>(inp.onError);
    case BySuccess =>
      assert Answer(inp)[0] == Header(200);
      if inp.write == WriteFails(false) {
        ThreeEvents<T>(200, false);
        RecordedActions([Event<T>.Header(200), SetStatus(false), Write], inp.onError);
      }
  }

  lemma HandlerWire<T>(actions: seq<Action>)
    ensures Recorded(Actions<T>(actions)) == if LastCode(actions).Some? then LastCode(actions).value else 0
    ensures Wire(Actions<T>(actions)) == FirstCode(actions)
    ensures LastCode(actions).None? ==> FirstCode(actions) == 200
  {
    var none: seq<Event<T>> := [];
    RecordedActions(none, actions);
    assert none + Actions(actions) == Actions(actions);
    if actions != [] && actions[0].SendHeader? {
      assert Actions<T>(actions)[0] == Header(actions[0].code);
      FirstIsSome(actions);
    }
  }

  lemma {:induction false} FirstIsSome(actions: seq<Action>)
    requires actions != [] && actions[0].SendHeader?
    ensures LastCode(actions).Some?
    decreases |actions|
  {
    if |actions| > 1 {
      FirstIsSome(actions[..|actions| - 1]);
    }
  }

  /** For example: the success could not be written, and the error handler says 500. The
      counters then report a 500 for what the client got as a 200. */
  lemma FailedWriteReportsOther<T>(body: T, newError: int)
    ensures var inp := Inputs(AuthDone(true), true, Some(body), None, Success, newError, [SendHeader(500)],
        WriteFails(false));
            Final(inp) == 500 && Wire(Answer(inp)) == 200
  {
    var inp := Inputs(AuthDone(true), true, Some(body), None, Success, newError, [SendHeader(500)], WriteFails(false));
    assert Answer(inp)[3] == Header(500) && |Answer(inp)| == 4;
  }

  // ---------- sequences of runs ----------

  function Finals<T>(inps: seq<Inputs<T>>): seq<int> {
    if inps == [] then [] else Finals(inps[..|inps| - 1]) + [Final(inps[|inps| - 1])]
  }

  function Errors<T>(inps: seq<Inputs<T>>): seq<int> {
    if inps == [] then [] else Errors(inps[..|inps| - 1]) + ErrorCodes(inps[|inps| - 1])
  }

  lemma OneMore<T>(inps: seq<Inputs<T>>, n: nat, requests: seq<int>, errors: seq<int>)
    requires n < |inps|
    ensures requests + Finals(inps[..n + 1]) == (requests + Finals(inps[..n])) + [Final(inps[n])]
    ensures errors + Errors(inps[..n + 1]) == (errors + Errors(inps[..n])) + ErrorCodes(inps[n])
  {
    assert inps[..n + 1][..n] == inps[..n];
  }

  /** Any sequence of requests on one server. */
  method HandleAll<T>(server: Server, inps: seq<Inputs<T>>)
    modifies server
    ensures server.requests == old(server.requests) + Finals(inps)
    ensures server.durations == old(server.durations) + Finals(inps)
    ensures server.errors == old(server.errors) + Errors(inps)
  {
    for n := 0 to |inps|
      invariant server.requests == old(server.requests) + Finals(inps[..n])
      invariant server.durations == old(server.durations) + Finals(inps[..n])
      invariant server.errors == old(server.errors) + Errors(inps[..n])
    {
      OneMore(inps, n, old(server.requests), old(server.errors));
      OneMore(inps, n, old(server.durations), old(server.errors));
      var _ := Handle(server, inps[n]);
    }
    assert inps[..|inps|] == inps;
  }

  /** Conservation: one request and one duration for each run; and for every status code, no
      more errors than requests. */
  lemma {:induction false} Conservation<T>(inps: seq<Inputs<T>>)
    ensures |Finals(inps)| == |inps|
    ensures multiset(Errors(inps)) <= multiset(Finals(inps))
    ensures |Errors(inps)| <= |inps|
  {
    if inps != [] {
      Conservation(inps[..|inps| - 1]);
    }
  }

  /** What a run's deferred calls would be if its request had these closers. */
  function DeferralsWith(closers: seq<bool>, failure: Option<string>): seq<Deferred> {
    [EndSpan, Metrics, CloseRequest(closers)] + if failure.Some? then [Record(failure.value)] else []
  }

  /** At most one error for each request rests on the request decoder's empty list of closers: an
      admitted run would count more errors than requests exactly when a closer failed and the
      run recorded a failure as well. */
  lemma ClosersMatter<T>(l: Ledger<T>, closers: seq<bool>, failure: Option<string>, code: int)
    ensures var after := Unwound(l, DeferralsWith(closers, failure), code);
            |after.requests| == |l.requests| + 1 &&
            |after.errors| - |l.errors| == (if Fails(closers) then 1 else 0) + (if failure.Some? then 1 else 0) &&
            (|after.errors| - |l.errors| > |after.requests| - |l.requests| <==> Fails(closers) && failure.Some?)
  {
    var ds, three := DeferralsWith(closers, failure), [EndSpan, Metrics, CloseRequest(closers)];
    var l1 := if failure.Some? then Effect(l, Record(failure.value), code) else l;
    if failure.Some? {
      assert ds[..3] == three;
    } else {
      assert ds == three;
    }
    assert Unwound(l, ds, code) == Unwound(l1, three, code);
    assert three[..2] == [EndSpan, Metrics] && three[..2][..1] == [EndSpan];
    var l2 := Effect(l1, CloseRequest(closers), code);
    assert Unwound(l1, three, code) == Unwound(l2, three[..2], code);
    assert Unwound(l2, three[..2], code) == Unwound(Effect(l2, Metrics, code), [EndSpan], code);
    assert [EndSpan][..0] == [];
  }
}
