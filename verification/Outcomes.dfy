/** What every run of the server pipeline answers and records, told from its inputs alone. */
module Outcomes {
  import opened Options
  import opened Servers
  import opened ServerLaws

  /** What a trace does to the response, in order. */
  function Response<T>(t: seq<Event<T>>): seq<Event<T>> {
    if t == [] then [] else Response(t[..|t| - 1]) + if Responds(t[|t| - 1]) then [t[|t| - 1]] else []
  }

  /** The stages that errors are recorded with, and the codes. */
  function Stages<T>(t: seq<Event<T>>): seq<(string, int)> {
    if t == [] then []
    else Stages(t[..|t| - 1]) + if t[|t| - 1].RecordError? then [(t[|t| - 1].stage, t[|t| - 1].code)] else []
  }

  lemma {:induction false} InParts<T>(a: seq<Event<T>>, b: seq<Event<T>>)
    ensures Response(a + b) == Response(a) + Response(b) && Stages(a + b) == Stages(a) + Stages(b)
    decreases |b|
  {
    if b == [] {
      assert a + b == a;
    } else {
      assert (a + b)[..|a + b| - 1] == a + b[..|b| - 1];
      InParts(a, b[..|b| - 1]);
    }
  }

  lemma {:induction false} AllResponse<T>(t: seq<Event<T>>)
    requires forall e :: e in t ==> Responds(e)
    ensures Response(t) == t && Stages(t) == []
    decreases |t|
  {
    if t != [] {
      var init, last := t[..|t| - 1], t[|t| - 1];
      assert last in t && t == init + [last];
      AllResponse(init);
    }
  }

  lemma {:induction false} NoResponse<T>(t: seq<Event<T>>)
    requires forall e :: e in t ==> !Responds(e)
    ensures Response(t) == []
    ensures (forall e :: e in t ==> !e.RecordError?) ==> Stages(t) == []
    decreases |t|
  {
    if t != [] {
      var init, last := t[..|t| - 1], t[|t| - 1];
      assert last in t && t == init + [last];
      NoResponse(init);
    }
  }

  lemma OneRecord<T>(stage: string, code: int)
    ensures Stages([ErrorRecord<T>(stage, code)]) == [(stage, code)]
  {
    var t := [ErrorRecord<T>(stage, code)];
    assert t[..0] == [];
    assert Stages(t) == Stages(t[..0]) + [(stage, code)];
  }

  lemma AccountingInParts<T>(inp: Inputs<T>)
    ensures Response(Accounting(inp)) == []
    ensures Stages(Accounting(inp)) == if Failure(inp).Some? then [(Failure(inp).value, Final(inp))] else []
  {
    var counts := [Event<T>.Requests(Final(inp)), Duration(Final(inp)), SpanEnd];
    QuietEvents(inp);
    NoResponse(Accounting(inp));
    NoResponse(counts);
    if Failure(inp).Some? {
      var record := [ErrorRecord<T>(Failure(inp).value, Final(inp))];
      OneRecord<T>(Failure(inp).value, Final(inp));
      InParts(record, counts);
      assert Accounting(inp) == record + counts;
    } else {
      assert Accounting(inp) == counts;
    }
  }

  lemma TraceInParts<T>(inp: Inputs<T>)
    ensures Response(Trace(inp)) == Answer(inp)
    ensures Stages(Trace(inp)) == if Failure(inp).Some? then [(Failure(inp).value, Final(inp))] else []
  {
    QuietEvents(inp);
    InParts(Entry(inp) + Answer(inp), Accounting(inp));
    InParts(Entry(inp), Answer(inp));
    NoResponse(Entry(inp));
    AllResponse(Answer(inp));
    AccountingInParts(inp);
  }

  /** A response encoder at work. */
  ghost predicate Encoded<T>(events: seq<Event<T>>, code: int) {
    events == [Header(code), SetStatus(code >= 400), Write]
  }

  /** The user's error handler at work: its own actions, and nothing else. */
  ghost predicate ErrorHandled<T>(events: seq<Event<T>>, actions: seq<Action>) {
    |events| == |actions| &&
    forall i :: 0 <= i < |actions| ==>
      if actions[i].SendHeader? then events[i] == Header(actions[i].code) else events[i] == Write
  }

  lemma EncoderAnswers<T>(code: int)
    ensures Encoded(ErrorResponse<T>(code), if code == 0 then 200 else code)
  {
  }

  lemma HandlerAnswers<T>(actions: seq<Action>)
    ensures ErrorHandled(Actions<T>(actions), actions)
  {
  }

  lemma SuccessAnswers<T>(inp: Inputs<T>)
    requires Answerer(inp).BySuccess?
    ensures var r := Answer(inp);
            |r| >= 3 && Encoded(r[..3], 200) &&
            ErrorHandled(r[3..], if inp.write == WriteFails(false) then inp.onError else [])
  {
    var sent := [Event<T>.Header(200), SetStatus(false), Write];
    var more := if inp.write == WriteFails(false) then Actions<T>(inp.onError) else [];
    HandlerAnswers<T>(inp.onError);
    assert Answer(inp) == sent + more;
    assert Answer(inp)[..3] == sent && Answer(inp)[3..] == more;
  }

  /** What a run does to the response. */
  lemma AnswersExactly<T>(inp: Inputs<T>)
    ensures var r, ok := Response(Trace(inp)), inp.auth == AuthDone(true);
            (!ok ==> Encoded(r, if inp.newError == 0 then 200 else inp.newError)) &&
            (ok && !inp.params ==> ErrorHandled(r, inp.onError)) &&
            (ok && inp.params && inp.body.None? ==> ErrorHandled(r, inp.onError)) &&
            (ok && inp.params && inp.body.Some? ==>
              match inp.result
              case StatusError(code) => Encoded(r, if code == 0 then 200 else code)
              case OtherError => Encoded(r, if inp.newError == 0 then 200 else inp.newError)
              case NotImplemented => ErrorHandled(r, inp.onError)
              case Success =>
                |r| >= 3 && Encoded(r[..3], 200) &&
                ErrorHandled(r[3..], if inp.write == WriteFails(false) then inp.onError else []))
  {
    TraceInParts(inp);
    match Answerer(inp)
    case ByEncoder(code) => EncoderAnswers<T>(code);
    case ByErrorHandler => HandlerAnswers<T>(inp.onError);
    case BySuccess => SuccessAnswers(inp);
  }

  /** The errors a run records, each with its stage and with the status written last: a failed
      write of any encoded answer, an encoded answer from 500 on, and parameters and bodies
      that do not decode. */
  lemma RecordsExactly<T>(inp: Inputs<T>)
    ensures var s, ok, t := Stages(Trace(inp)), inp.auth == AuthDone(true), Trace(inp);
            (inp.auth.AuthError? ==>
              s == if inp.write.WriteFails? || inp.newError >= 500 then [("Security:BasicAuth", Recorded(t))]
                   else []) &&
            (inp.auth == AuthDone(false) ==>
              s == if inp.write.WriteFails? || inp.newError >= 500 then [("Security", Recorded(t))] else []) &&
            (ok && !inp.params ==> s == [("DecodeParams", Recorded(t))]) &&
            (ok && inp.params && inp.body.None? ==> s == [("DecodeRequest", Recorded(t))]) &&
            (ok && inp.params && inp.body.Some? ==>
              match inp.result
              case StatusError(code) =>
                s == if inp.write.WriteFails? || code >= 500 then [("Internal", Recorded(t))] else []
              case OtherError =>
                s == if inp.write.WriteFails? || inp.newError >= 500 then [("Internal", Recorded(t))] else []
              case NotImplemented => s == []
              case Success => s == if inp.write.WriteFails? then [("EncodeResponse", Recorded(t))] else [])
  {
    TraceInParts(inp);
    TraceStatus(inp);
  }

  /** The status all the counters see, which is the one written last: that of the encoder, or
      the last one the error handler reports, or 0 when it reports none. */
  lemma StatusExactly<T>(inp: Inputs<T>)
    ensures var c, ok, last := Recorded(Trace(inp)), inp.auth == AuthDone(true), LastCode(inp.onError);
            (!ok ==> c == if inp.newError == 0 then 200 else inp.newError) &&
            (ok && (!inp.params || inp.body.None?) ==> c == if last.Some? then last.value else 0) &&
            (ok && inp.params && inp.body.Some? ==>
              match inp.result
              case StatusError(code) => c == if code == 0 then 200 else code
              case OtherError => c == if inp.newError == 0 then 200 else inp.newError
              case NotImplemented => c == if last.Some? then last.value else 0
              case Success => c == if inp.write == WriteFails(false) && last.Some? then last.value else 200)
  {
    TraceStatus(inp);
    EncoderStatus(inp);
    HandlerWire<T>(inp.onError);
    if Answerer(inp).BySuccess? {
      ThreeEvents<T>(200, false);
      RecordedActions([Event<T>.Header(200), SetStatus(false), Write], inp.onError);
    }
  }

  /** The counters: one request with the status written last, and one error for each record. */
  lemma CountersExactly<T>(inp: Inputs<T>)
    ensures Final(inp) == Recorded(Trace(inp)) && |ErrorCodes(inp)| == |Stages(Trace(inp))|
    ensures forall i :: 0 <= i < |ErrorCodes(inp)| ==> ErrorCodes(inp)[i] == Stages(Trace(inp))[i].1
  {
    TraceInParts(inp);
    TraceStatus(inp);
  }

  lemma EntrySteps<T>(inp: Inputs<T>)
    ensures var t, ok := Entry(inp), inp.auth == AuthDone(true);
            t != [] && t[0] == SpanStart && (Gate(true) in t <==> ok) &&
            (Gate(false) in t <==> inp.auth == AuthDone(false)) && (ParamsDecoded in t <==> ok && inp.params) &&
            forall body :: BodyDecoded(body) in t <==> ok && inp.params && inp.body == Some(body)
  {
    if Admitted(inp) {
      var way := Approach(inp);
      assert forall e :: e in Entry(inp) <==> e in way || e in Calls(Handled(inp));
      assert way[2] == Gate(true) && way[3] == ParamsDecoded && way[4] == BodyDecoded(inp.body.value);
    }
  }

  /** How far a run gets: to the security gate, through it, past the parameters, past the body. */
  lemma StepsExactly<T>(inp: Inputs<T>)
    ensures var t, ok := Trace(inp), inp.auth == AuthDone(true);
            t[0] == SpanStart && (Gate(true) in t <==> ok) && (Gate(false) in t <==> inp.auth == AuthDone(false)) &&
            (ParamsDecoded in t <==> ok && inp.params) &&
            forall body :: BodyDecoded(body) in t <==> ok && inp.params && inp.body == Some(body)
  {
    QuietEvents(inp);
    EntrySteps(inp);
    var steps := Entry(inp);
    assert forall e: Event<T> | !Responds(e) && !Accounts(e) :: e in Trace(inp) <==> e in steps;
  }

  /** Which calls are deferred, on the inputs: the request is closed if and only if it decoded. */
  lemma DeferredExactly<T>(inp: Inputs<T>)
    ensures var ds := Deferrals(inp);
            |ds| >= 2 && ds[0] == EndSpan && ds[1] == Metrics &&
            (forall i :: 0 <= i < |ds| ==>
              (ds[i] == CloseRequest([]) <==> i == 2 && inp.auth == AuthDone(true) && inp.params && inp.body.Some?) &&
              (ds[i].Record? <==> i == |ds| - 1 && Stages(Trace(inp)) != [])) &&
            (Stages(Trace(inp)) != [] ==> ds[|ds| - 1] == Record(Stages(Trace(inp))[0].0))
  {
    TraceInParts(inp);
  }
}
