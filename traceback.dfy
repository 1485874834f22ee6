/** `log_trimmed_exception`: the report written to the error log when the
    application fails. Frames that belong to the wrapper itself or to the
    import machinery are dropped from the traceback before it is rendered.
    The standard library's renderers (`traceback.format_exception_only` and
    `traceback.format_list`) are not modelled: they are arguments. */
module Traceback {
  import opened Text
  import opened ErrorLog

  /** One entry of `traceback.extract_tb`: file name, line number, function. */
  datatype Frame = Frame(filename: string, lineno: int, name: string)

  /** What `sys.exc_info()` captured: the exception's type and message, and
      the frames of its traceback, outermost first. */
  datatype Failure = Failure(kind: string, message: string, frames: seq<Frame>)

  /** The two renderers of the `traceback` module, left abstract. */
  datatype Renderer = Renderer(
    exceptionOnly: (string, string) -> seq<string>,
    formatList: seq<Frame> -> seq<string>)

  const Banner := "Error running WSGI application\n"

  /** A frame stays in the report unless its file name mentions the wrapper
      or `importlib`. */
  predicate Shown(f: Frame)
  {
    !Contains(f.filename, "/user_wsgi_wrapper") && !Contains(f.filename, "importlib")
  }

  /** The list comprehension that trims the traceback: the shown frames, in
      their original order. */
  function TrimFrames(frames: seq<Frame>): seq<Frame>
  {
    if frames == [] then []
    else if Shown(frames[0]) then [frames[0]] + TrimFrames(frames[1..])
    else TrimFrames(frames[1..])
  }

  /** `xs` can be obtained from `ys` by deleting elements. */
  predicate IsSubsequence<T(==)>(xs: seq<T>, ys: seq<T>)
  {
    if xs == [] then true
    else if ys == [] then false
    else if xs[0] == ys[0] then IsSubsequence(xs[1..], ys[1..])
    else IsSubsequence(xs, ys[1..])
  }

  /** The three chunks written to the error log for a failure. */
  function Report(failure: Failure, renderer: Renderer): seq<string>
  {
    [Banner,
     Join(renderer.exceptionOnly(failure.kind, failure.message), "\n"),
     Join(renderer.formatList(TrimFrames(failure.frames)), "\n")]
  }

  /** Every frame left in the report is shown: none belongs to the wrapper
      or to the import machinery. */
  lemma {:induction false} TrimmedFramesAreShown(frames: seq<Frame>)
    ensures forall i :: 0 <= i < |TrimFrames(frames)| ==> Shown(TrimFrames(frames)[i])
    decreases |frames|
  {
    if frames != [] {
      TrimmedFramesAreShown(frames[1..]);
    }
  }

  /** Trimming keeps every shown frame as often as it occurs, and no other. */
  lemma {:induction false} TrimKeepsShownFrames(frames: seq<Frame>, f: Frame)
    ensures multiset(TrimFrames(frames))[f] == if Shown(f) then multiset(frames)[f] else 0
    decreases |frames|
  {
    if frames != [] {
      TrimKeepsShownFrames(frames[1..], f);
      assert frames == [frames[0]] + frames[1..];
    }
  }

  /** Trimming only deletes: the kept frames are in their original order. */
  lemma {:induction false} TrimIsSubsequence(frames: seq<Frame>)
    ensures IsSubsequence(TrimFrames(frames), frames)
    decreases |frames|
  {
    if frames != [] {
      TrimIsSubsequence(frames[1..]);
      if !Shown(frames[0]) {
        SubsequenceOfTail(TrimFrames(frames), frames);
      }
    }
  }

  /** A subsequence of the tail is a subsequence of the whole. */
  lemma {:induction false} SubsequenceOfTail<T>(xs: seq<T>, ys: seq<T>)
    requires |ys| > 0 && IsSubsequence(xs, ys[1..])
    ensures IsSubsequence(xs, ys)
    decreases |ys|, |xs|
  {
    if xs != [] && xs[0] == ys[0] {
      SubsequenceDropHead(xs, ys[1..]);
    }
  }

  /** Dropping the first element keeps a subsequence a subsequence. */
  lemma {:induction false} SubsequenceDropHead<T>(xs: seq<T>, ys: seq<T>)
    requires |xs| > 0 && IsSubsequence(xs, ys)
    ensures IsSubsequence(xs[1..], ys)
    decreases |ys|, |xs|
  {
    if xs[0] == ys[0] {
      SubsequenceOfTail(xs[1..], ys);
    } else {
      SubsequenceDropHead(xs, ys[1..]);
      SubsequenceOfTail(xs[1..], ys);
    }
  }

  /** The report's frame list is empty exactly when no frame is shown; in
      particular a traceback with a user frame keeps at least one. */
  lemma {:induction false} TrimEmptyIff(frames: seq<Frame>)
    ensures TrimFrames(frames) == [] <==> forall i :: 0 <= i < |frames| ==> !Shown(frames[i])
    decreases |frames|
  {
    if frames != [] {
      TrimEmptyIff(frames[1..]);
      assert forall i :: 1 <= i < |frames| ==> frames[i] == frames[1..][i - 1];
    }
  }

  /** Trimming a trimmed traceback changes nothing. */
  lemma {:induction false} TrimIdempotent(frames: seq<Frame>)
    ensures TrimFrames(TrimFrames(frames)) == TrimFrames(frames)
    decreases |frames|
  {
    if frames != [] {
      TrimIdempotent(frames[1..]);
      if Shown(frames[0]) {
        assert ([frames[0]] + TrimFrames(frames[1..]))[1..] == TrimFrames(frames[1..]);
      }
    }
  }

  /** Trimming works frame by frame: trimming two pieces of a traceback and
      putting them together is trimming the whole. */
  lemma {:induction false} TrimConcat(a: seq<Frame>, b: seq<Frame>)
    ensures TrimFrames(a + b) == TrimFrames(a) + TrimFrames(b)
    decreases |a|
  {
    if a == [] {
      assert a + b == b;
    } else {
      TrimConcat(a[1..], b);
      assert (a + b)[0] == a[0] && (a + b)[1..] == a[1..] + b;
      if Shown(a[0]) {
        assert [a[0]] + (TrimFrames(a[1..]) + TrimFrames(b))
          == [a[0]] + TrimFrames(a[1..]) + TrimFrames(b);
      }
    }
  }

  /** `log_trimmed_exception(error_log_file, exc_info)`: three `write` calls,
      the banner, the rendered exception and the rendered trimmed frames. */
  method LogTrimmedException(log: ErrorLogFile, failure: Failure, renderer: Renderer)
    requires log.Valid()
    modifies log
    ensures log.Valid()
    ensures log.Written == old(log.Written) + Report(failure, renderer)
    ensures log.Pending == old(log.Pending) + Concat(Report(failure, renderer))
    ensures log.Settled == old(log.Settled)
    ensures log.records + [log.lineBuffer] ==
      old(log.records) + Split(old(log.lineBuffer) + Concat(Report(failure, renderer)), '\n')
  {
    log.Write(Banner);
    var tb := TrimFrames(failure.frames);
    var summary := Join(renderer.exceptionOnly(failure.kind, failure.message), "\n");
    var trace := Join(renderer.formatList(tb), "\n");
    log.Write(summary);
    log.Write(trace);
    ConcatThree(Banner, summary, trace);
    Associative(old(log.Pending), Banner, summary);
    Associative(old(log.Pending), Banner + summary, trace);
    assert log.Pending == old(log.Pending) + Concat(Report(failure, renderer));
    assert log.records + [log.lineBuffer] == log.Settled + Split(log.Pending, '\n');
    LogGrowth(old(log.records), old(log.lineBuffer), log.records, log.lineBuffer,
              log.Settled, old(log.Pending), Concat(Report(failure, renderer)));
  }

  lemma ConcatThree(a: string, b: string, c: string)
    ensures Concat([a, b, c]) == a + b + c
  {
    assert Concat([a]) == a by { assert Init([a]) == []; }
    assert Concat([a, b]) == a + b by { assert Init([a, b]) == [a]; }
    assert Init([a, b, c]) == [a, b];
  }
}
