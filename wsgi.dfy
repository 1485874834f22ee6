/** The two WSGI callables the module can install as `application`:
    `Wrapper`, which runs the user's application with its error output sent
    to the log and turns any exception into the generic error page, and
    `ImportErrorApp`, which stands in when the user's application could not
    be imported and reports that failure on every request.

    A WSGI application is a generator here, so a call is modelled by what it
    does when the server drives it to the end: the `start_response` calls
    and the chunks it yields, in order. The user's application is modelled
    by the same kind of trace, ending either normally or in an exception. */
module Wsgi {
  import opened Text
  import opened ErrorLog
  import opened Traceback
  import opened Redirect

  newtype byte = b: int | 0 <= b < 256

  type Bytes = seq<byte>

  datatype Option<T> = None | Some(value: T)

  /** One thing the user's application does while it is being driven. */
  datatype AppStep =
    | Respond(status: string, headers: seq<(string, string)>)  // it calls `start_response`
    | Produce(chunk: Bytes)                                    // its iterable yields a chunk
    | ErrorText(text: string)  // it writes to `sys.stderr` or `environ['wsgi.errors']`

  /** How driving the user's application ends. */
  datatype Ending =
    | Exhausted(hasClose: bool)     // the iterable runs out; it has a `close` method or not
    | CloseRaises(failure: Failure) // it runs out, and its `close` method raises
    | Raises(failure: Failure)      // the call or the iteration raises

  datatype AppRun = AppRun(steps: seq<AppStep>, ending: Ending)

  /** What the server sees: `start_response` calls and yielded chunks. */
  datatype Event =
    | StartResponse(status: string, headers: seq<(string, string)>)
    | Yield(chunk: Bytes)

  const InternalServerError := "500 Internal Server Error"

  const HtmlHeaders := [("Content-type", "text/html")]

  const ImportErrorHelp :=
    "***************************************************\n"
    + "If you're seeing an import error and don't know why,\n"
    + "we have a dedicated help page to help you debug: \n"
    + "https://help.pythonanywhere.com/pages/DebuggingImportError/\n"
    + "***************************************************\n"

  /** The failure path's response: a 500 status, then the rendered error
      page as the one body chunk. */
  function ErrorResponse(page: Bytes): seq<Event>
  {
    [StartResponse(InternalServerError, HtmlHeaders), Yield(page)]
  }

  /** The events the user's application itself causes, passed through. */
  function Passed(steps: seq<AppStep>): seq<Event>
  {
    if steps == [] then [] else StepEvents(steps[0]) + Passed(steps[1..])
  }

  /** The events one step of the application causes. */
  function StepEvents(step: AppStep): seq<Event>
  {
    match step
    case Respond(status, headers) => [StartResponse(status, headers)]
    case Produce(chunk) => [Yield(chunk)]
    case ErrorText(_) => []
  }

  /** The text the user's application writes to its error stream. */
  function ErrorTexts(steps: seq<AppStep>): seq<string>
  {
    if steps == [] then [] else StepTexts(steps[0]) + ErrorTexts(steps[1..])
  }

  /** The text one step of the application writes to its error stream. */
  function StepTexts(step: AppStep): seq<string>
  {
    if step.ErrorText? then [step.text] else []
  }

  /** The chunks the user's application yields. */
  function Produced(steps: seq<AppStep>): seq<Bytes>
  {
    if steps == [] then []
    else (if steps[0].Produce? then [steps[0].chunk] else []) + Produced(steps[1..])
  }

  /** The statuses the user's application passes to `start_response`. */
  function AppStatuses(steps: seq<AppStep>): seq<string>
  {
    if steps == [] then []
    else (if steps[0].Respond? then [steps[0].status] else []) + AppStatuses(steps[1..])
  }

  /** The body chunks among the events. */
  function Bodies(events: seq<Event>): seq<Bytes>
  {
    if events == [] then []
    else (if events[0].Yield? then [events[0].chunk] else []) + Bodies(events[1..])
  }

  /** The statuses among the events. */
  function Statuses(events: seq<Event>): seq<string>
  {
    if events == [] then []
    else (if events[0].StartResponse? then [events[0].status] else []) + Statuses(events[1..])
  }

  /** The exception that reaches the wrapper's `except` clause, if any. */
  function FailureOf(ending: Ending): Option<Failure>
  {
    match ending
    case Exhausted(_) => None
    case CloseRaises(f) => Some(f)
    case Raises(f) => Some(f)
  }

  /** The wrapper calls `close` only after the iterable ran out. */
  predicate CloseCalled(ending: Ending)
  {
    (ending.Exhausted? && ending.hasClose) || ending.CloseRaises?
  }

  /** What the server sees from a wrapped run. */
  function WrapperEvents(run: AppRun, page: Bytes): seq<Event>
  {
    Passed(run.steps)
    + match FailureOf(run.ending)
      case None => []
      case Some(_) => ErrorResponse(page)
  }

  /** What a wrapped run writes to the error log. */
  function WrapperLog(run: AppRun, renderer: Renderer): seq<string>
  {
    ErrorTexts(run.steps)
    + match FailureOf(run.ending)
      case None => []
      case Some(f) => Report(f, renderer)
  }

  class Wrapper {
    const errorLog: ErrorLogFile

    constructor ()
      ensures fresh(errorLog) && errorLog.Valid()
      ensures errorLog.records == [] && errorLog.lineBuffer == "" && errorLog.Written == []
    {
      errorLog := new ErrorLogFile();
    }

    /** `__call__(environ, start_response)`, driven to the end. `sys` is the
        `sys.stderr` slot, `renderer` the traceback renderers and `page` the
        error page rendered from the environment. */
    method Call(run: AppRun, sys: StderrSlot, renderer: Renderer, page: Bytes)
      returns (events: seq<Event>, closed: bool)
      requires errorLog.Valid()
      modifies errorLog, sys
      ensures events == WrapperEvents(run, page)
      ensures closed <==> CloseCalled(run.ending)
      ensures sys.target == old(sys.target)
      ensures errorLog.Valid()
      ensures errorLog.Written == old(errorLog.Written) + WrapperLog(run, renderer)
      ensures errorLog.Settled == old(errorLog.Settled)
      ensures errorLog.Pending == old(errorLog.Pending) + Concat(WrapperLog(run, renderer))
      ensures errorLog.records + [errorLog.lineBuffer] ==
        old(errorLog.records) + Split(old(errorLog.lineBuffer) + Concat(WrapperLog(run, renderer)), '\n')
    {
      var redirect := new RedirectStderr(errorLog);
      var _ := redirect.Enter(sys);
      events := Drive(run.steps, sys);
      closed := false;
      var failure: Option<Failure> := None;
      match run.ending {
        case Exhausted(hasClose) =>
          closed := hasClose;
        case CloseRaises(f) =>
          closed := true;
          failure := Some(f);
        case Raises(f) =>
          failure := Some(f);
      }
      var _ := redirect.Exit(sys);
      if failure.Some? {
        LogTrimmedException(errorLog, failure.value, renderer);
        events := events + ErrorResponse(page);
        ConcatAppend(ErrorTexts(run.steps), Report(failure.value, renderer));
        Associative(old(errorLog.Pending), Concat(ErrorTexts(run.steps)),
                    Concat(Report(failure.value, renderer)));
        Associative(old(errorLog.Written), ErrorTexts(run.steps), Report(failure.value, renderer));
      } else {
        assert WrapperLog(run, renderer) == ErrorTexts(run.steps);
      }
      assert errorLog.Pending == old(errorLog.Pending) + Concat(WrapperLog(run, renderer));
      assert errorLog.records + [errorLog.lineBuffer] == errorLog.Settled + Split(errorLog.Pending, '\n');
      LogGrowth(old(errorLog.records), old(errorLog.lineBuffer), errorLog.records, errorLog.lineBuffer,
                errorLog.Settled, old(errorLog.Pending), Concat(WrapperLog(run, renderer)));
    }

    /** The body of the `with` block: iterate the application to the end,
        passing on what it yields, while `sys.stderr` is the error log and
        so the application's error output goes to the log. */
    method Drive(steps: seq<AppStep>, sys: StderrSlot) returns (events: seq<Event>)
      requires errorLog.Valid() && sys.target == errorLog
      modifies errorLog
      ensures events == Passed(steps)
      ensures errorLog.Valid()
      ensures errorLog.Written == old(errorLog.Written) + ErrorTexts(steps)
      ensures errorLog.Settled == old(errorLog.Settled)
      ensures errorLog.Pending == old(errorLog.Pending) + Concat(ErrorTexts(steps))
      ensures errorLog.records + [errorLog.lineBuffer] ==
        old(errorLog.records) + Split(old(errorLog.lineBuffer) + Concat(ErrorTexts(steps)), '\n')
    {
      events := [];
      var i := 0;
      while i < |steps|
        invariant 0 <= i <= |steps|
        invariant events == Passed(steps[..i])
        invariant errorLog.Valid() && errorLog.Settled == old(errorLog.Settled)
        invariant errorLog.Written == old(errorLog.Written) + ErrorTexts(steps[..i])
        invariant errorLog.Pending == old(errorLog.Pending) + Concat(ErrorTexts(steps[..i]))
      {
        var out := Forward(steps[i]);
        events := events + out;
        StepsAppend(steps, i);
        ConcatAppend(ErrorTexts(steps[..i]), StepTexts(steps[i]));
        Associative(old(errorLog.Pending), Concat(ErrorTexts(steps[..i])), Concat(StepTexts(steps[i])));
        i := i + 1;
      }
      assert steps[..i] == steps;
      LogGrowth(old(errorLog.records), old(errorLog.lineBuffer), errorLog.records, errorLog.lineBuffer,
                errorLog.Settled, old(errorLog.Pending), Concat(ErrorTexts(steps)));
    }

    /** One step of the application, taken while `sys.stderr` is the error
        log: its events are passed on and its error text is written. */
    method Forward(step: AppStep) returns (out: seq<Event>)
      requires errorLog.Valid()
      modifies errorLog
      ensures out == StepEvents(step)
      ensures errorLog.Valid() && errorLog.Settled == old(errorLog.Settled)
      ensures errorLog.Written == old(errorLog.Written) + StepTexts(step)
      ensures errorLog.Pending == old(errorLog.Pending) + Concat(StepTexts(step))
    {
      if step.ErrorText? {
        errorLog.Write(step.text);
        assert Init([step.text]) == [];
      }
      out := StepEvents(step);
    }
  }

  class ImportErrorApp {
    const failure: Failure
    const errorLog: ErrorLogFile

    constructor (failure: Failure)
      ensures this.failure == failure
      ensures fresh(errorLog) && errorLog.Valid()
      ensures errorLog.records == [] && errorLog.lineBuffer == "" && errorLog.Written == []
    {
      this.failure := failure;
      errorLog := new ErrorLogFile();
    }

    /** `__call__(environ, start_response)`: replay the stored failure, write
        the help text, and answer with the error page. */
    method Call(renderer: Renderer, page: Bytes) returns (events: seq<Event>)
      requires errorLog.Valid()
      modifies errorLog
      ensures events == ErrorResponse(page)
      ensures errorLog.Valid() && errorLog.lineBuffer == ""
      ensures errorLog.Written == old(errorLog.Written) + Report(failure, renderer) + [ImportErrorHelp]
      ensures errorLog.Settled == old(errorLog.Settled)
      ensures errorLog.Pending ==
        old(errorLog.Pending) + Concat(Report(failure, renderer) + [ImportErrorHelp])
      ensures errorLog.records ==
        old(errorLog.records)
        + Init(Split(old(errorLog.lineBuffer) + Concat(Report(failure, renderer) + [ImportErrorHelp]), '\n'))
    {
      LogTrimmedException(errorLog, failure, renderer);
      var before := errorLog.lineBuffer;
      errorLog.Write(ImportErrorHelp);
      SplitEndsWithSeparator(before + ImportErrorHelp, '\n');
      events := ErrorResponse(page);
      var text := Concat(Report(failure, renderer) + [ImportErrorHelp]);
      assert Init(Report(failure, renderer) + [ImportErrorHelp]) == Report(failure, renderer);
      Associative(old(errorLog.Pending), Concat(Report(failure, renderer)), ImportErrorHelp);
      assert errorLog.Pending == old(errorLog.Pending) + text;
      assert errorLog.records + [errorLog.lineBuffer] == errorLog.Settled + Split(errorLog.Pending, '\n');
      LogGrowth(old(errorLog.records), old(errorLog.lineBuffer), errorLog.records, errorLog.lineBuffer,
                errorLog.Settled, old(errorLog.Pending), text);
      SplitAppendParts(errorLog.records, errorLog.lineBuffer, old(errorLog.records),
                       Split(old(errorLog.lineBuffer) + text, '\n'));
    }
  }

  /** One more step of the application extends the passed-through events and
      the error text by that step's share. */
  lemma StepsAppend(steps: seq<AppStep>, i: nat)
    requires i < |steps|
    ensures Passed(steps[..i + 1]) == Passed(steps[..i]) + StepEvents(steps[i])
    ensures ErrorTexts(steps[..i + 1]) == ErrorTexts(steps[..i]) + StepTexts(steps[i])
  {
    assert steps[..i + 1] == steps[..i] + [steps[i]];
    assert Passed([steps[i]]) == StepEvents(steps[i]) + Passed([]);
    assert ErrorTexts([steps[i]]) == StepTexts(steps[i]) + ErrorTexts([]);
    PassedConcat(steps[..i], [steps[i]]);
    ErrorTextsConcat(steps[..i], [steps[i]]);
  }

  lemma {:induction false} PassedConcat(a: seq<AppStep>, b: seq<AppStep>)
    ensures Passed(a + b) == Passed(a) + Passed(b)
    decreases |a|
  {
    if a == [] {
      assert a + b == b;
    } else {
      PassedConcat(a[1..], b);
      assert (a + b)[0] == a[0] && (a + b)[1..] == a[1..] + b;
      Associative(StepEvents(a[0]), Passed(a[1..]), Passed(b));
    }
  }

  lemma {:induction false} ErrorTextsConcat(a: seq<AppStep>, b: seq<AppStep>)
    ensures ErrorTexts(a + b) == ErrorTexts(a) + ErrorTexts(b)
    decreases |a|
  {
    if a == [] {
      assert a + b == b;
    } else {
      ErrorTextsConcat(a[1..], b);
      assert (a + b)[0] == a[0] && (a + b)[1..] == a[1..] + b;
      Associative(StepTexts(a[0]), ErrorTexts(a[1..]), ErrorTexts(b));
    }
  }

  lemma {:induction false} BodiesConcat(a: seq<Event>, b: seq<Event>)
    ensures Bodies(a + b) == Bodies(a) + Bodies(b)
    decreases |a|
  {
    if a == [] {
      assert a + b == b;
    } else {
      BodiesConcat(a[1..], b);
      assert (a + b)[0] == a[0] && (a + b)[1..] == a[1..] + b;
      Associative(Bodies([a[0]]), Bodies(a[1..]), Bodies(b));
    }
  }

  lemma {:induction false} StatusesConcat(a: seq<Event>, b: seq<Event>)
    ensures Statuses(a + b) == Statuses(a) + Statuses(b)
    decreases |a|
  {
    if a == [] {
      assert a + b == b;
    } else {
      StatusesConcat(a[1..], b);
      assert (a + b)[0] == a[0] && (a + b)[1..] == a[1..] + b;
      Associative(Statuses([a[0]]), Statuses(a[1..]), Statuses(b));
    }
  }

  /** The wrapper passes the application's own output through untouched:
      the body chunks are exactly those the application yields, and the
      statuses exactly those it passes to `start_response`. */
  lemma {:induction false} PassedIsTransparent(steps: seq<AppStep>)
    ensures Bodies(Passed(steps)) == Produced(steps)
    ensures Statuses(Passed(steps)) == AppStatuses(steps)
    decreases |steps|
  {
    if steps != [] {
      PassedIsTransparent(steps[1..]);
      var head := Passed([steps[0]]);
      assert steps == [steps[0]] + steps[1..];
      PassedConcat([steps[0]], steps[1..]);
      BodiesConcat(head, Passed(steps[1..]));
      StatusesConcat(head, Passed(steps[1..]));
    }
  }

  /** When the application finishes normally, the server gets exactly the
      chunks and statuses the application produced, and `close` is called
      exactly when the iterable has one. */
  lemma WrapperSuccess(run: AppRun, page: Bytes, renderer: Renderer)
    requires run.ending.Exhausted?
    ensures Bodies(WrapperEvents(run, page)) == Produced(run.steps)
    ensures Statuses(WrapperEvents(run, page)) == AppStatuses(run.steps)
    ensures WrapperLog(run, renderer) == ErrorTexts(run.steps)
    ensures CloseCalled(run.ending) == run.ending.hasClose
  {
    PassedIsTransparent(run.steps);
    assert WrapperEvents(run, page) == Passed(run.steps) + [] == Passed(run.steps);
    assert WrapperLog(run, renderer) == ErrorTexts(run.steps) + [] == ErrorTexts(run.steps);
  }

  /** When the application raises, after however many chunks, the server
      gets those chunks and then exactly one more, the error page, preceded
      by one extra `start_response` with the 500 status; the log receives
      the banner, the exception and the trimmed frames; and `close` is not
      called unless it was `close` itself that raised. */
  lemma WrapperFailure(run: AppRun, page: Bytes, renderer: Renderer)
    requires !run.ending.Exhausted?
    ensures Bodies(WrapperEvents(run, page)) == Produced(run.steps) + [page]
    ensures Statuses(WrapperEvents(run, page)) == AppStatuses(run.steps) + [InternalServerError]
    ensures var events := WrapperEvents(run, page);
      && |events| >= 2
      && events[|events| - 2] == StartResponse(InternalServerError, HtmlHeaders)
      && events[|events| - 1] == Yield(page)
    ensures WrapperLog(run, renderer) == ErrorTexts(run.steps) + Report(run.ending.failure, renderer)
    ensures CloseCalled(run.ending) <==> run.ending.CloseRaises?
  {
    PassedIsTransparent(run.steps);
    BodiesConcat(Passed(run.steps), ErrorResponse(page));
    StatusesConcat(Passed(run.steps), ErrorResponse(page));
    var tail := [Yield(page)];
    assert ErrorResponse(page)[1..] == tail && tail[1..] == [];
    assert Bodies(tail) == [page] && Statuses(tail) == [];
    assert Bodies(ErrorResponse(page)) == [] + Bodies(tail);
    assert Statuses(ErrorResponse(page)) == [InternalServerError] + Statuses(tail);
  }

  /** The wrapper does not look at whether the response has started: an
      application that yields a chunk and then raises still gets the 500
      `start_response` call and the error page after that chunk. */
  lemma ErrorPageFollowsSentChunks(run: AppRun, page: Bytes, k: nat)
    requires !run.ending.Exhausted?
    requires k < |run.steps| && run.steps[k].Produce?
    ensures var events := WrapperEvents(run, page);
      exists j :: 0 <= j < |events| - 2 && events[j] == Yield(run.steps[k].chunk)
  {
    var events := WrapperEvents(run, page);
    PassedKeepsChunk(run.steps, k);
    var j :| 0 <= j < |Passed(run.steps)| && Passed(run.steps)[j] == Yield(run.steps[k].chunk);
    assert events[j] == Passed(run.steps)[j];
  }

  /** Every chunk the application yields is passed on. */
  lemma {:induction false} PassedKeepsChunk(steps: seq<AppStep>, k: nat)
    requires k < |steps| && steps[k].Produce?
    ensures Yield(steps[k].chunk) in Passed(steps)
    decreases |steps|
  {
    var rest := steps[1..];
    assert steps == [steps[0]] + rest;
    PassedConcat([steps[0]], rest);
    assert Passed([steps[0]]) == StepEvents(steps[0]);
    if k > 0 {
      PassedKeepsChunk(rest, k - 1);
      assert rest[k - 1] == steps[k];
    }
  }
}
