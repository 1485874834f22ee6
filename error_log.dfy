/** `ErrorLogFile`: the file-like object installed as `sys.stderr` and as
    `environ['wsgi.errors']`. It turns arbitrary chunks of text into whole
    lines, logging each complete line at error level and holding the
    unterminated tail back until more text arrives. The logger is modelled
    by the sequence of messages passed to `logger.error`. */
module ErrorLog {
  import opened Text

  class ErrorLogFile {
    /** The text after the last newline seen, not yet logged. */
    var lineBuffer: string
    /** Every message passed to `logger.error`, in order. */
    var records: seq<string>

    /** Every chunk passed to `write`, in order. */
    ghost var Written: seq<string>
    /** The text passed to `write` since the buffer was last emptied by
        `writelines` (or since construction). */
    ghost var Pending: string
    /** The messages logged before `Pending` began. */
    ghost var Settled: seq<string>

    /** The logged lines and the buffer are exactly the split of the pending
        text, after what was settled: no text is lost, none is logged
        twice, and the buffer never holds a newline. */
    ghost predicate Valid()
      reads this
    {
      && records + [lineBuffer] == Settled + Split(Pending, '\n')
      && '\n' !in lineBuffer
    }

    constructor ()
      ensures Valid()
      ensures lineBuffer == "" && records == []
      ensures Written == [] && Pending == "" && Settled == []
    {
      lineBuffer := "";
      records := [];
      Written := [];
      Pending := "";
      Settled := [];
    }

    /** `flush()`: forwards to the logger's handlers, whose flush sends
        nothing; the buffered partial line stays where it is. */
    method Flush()
      ensures lineBuffer == old(lineBuffer) && records == old(records)
    {
    }

    /** `isatty()`: the log is never a terminal. */
    method IsATty() returns (r: bool)
      ensures !r
    {
      r := false;
    }

    /** `write(chunk)`: split the buffer followed by the chunk on newlines,
        log every piece but the last, keep the last as the new buffer. */
    method Write(chunk: string)
      requires Valid()
      modifies this
      ensures Valid()
      ensures var lines := Split(old(lineBuffer) + chunk, '\n');
        records == old(records) + Init(lines) && lineBuffer == Last(lines)
      ensures Written == old(Written) + [chunk]
      ensures Pending == old(Pending) + chunk && Settled == old(Settled)
    {
      var lines := Split(lineBuffer + chunk, '\n');
      var i := 0;
      while i < |lines| - 1
        invariant 0 <= i <= |lines| - 1
        invariant records == old(records) + lines[..i]
        invariant lineBuffer == old(lineBuffer)
        invariant Written == old(Written) && Pending == old(Pending) && Settled == old(Settled)
      {
        records := records + [lines[i]];
        i := i + 1;
      }
      lineBuffer := lines[|lines| - 1];
      Flush();
      Written := Written + [chunk];
      Pending := Pending + chunk;
      WriteKeepsInvariant(old(records), old(lineBuffer), Settled, old(Pending), chunk);
      SplitSeparatorFree(old(lineBuffer) + chunk, '\n');
    }

    /** `writelines(seq)`: every element is logged as a line of its own, the
        first one behind whatever the buffer held, and the buffer is emptied
        as soon as one element has been logged. */
    method WriteLines(lines: seq<string>)
      requires Valid()
      modifies this
      ensures Valid()
      ensures lines == [] ==> records == old(records) && lineBuffer == old(lineBuffer)
      ensures lines != [] ==>
        && records == old(records) + [old(lineBuffer) + lines[0]] + lines[1..]
        && lineBuffer == ""
      ensures lines == [] ==> Pending == old(Pending) && Settled == old(Settled)
      ensures lines != [] ==> Settled == records && Pending == ""
      ensures Written == old(Written)
    {
      var i := 0;
      while i < |lines|
        invariant 0 <= i <= |lines|
        invariant i == 0 ==> records == old(records) && lineBuffer == old(lineBuffer)
        invariant i > 0 ==>
          records == old(records) + [old(lineBuffer) + lines[0]] + lines[1..i] && lineBuffer == ""
        invariant Written == old(Written) && Pending == old(Pending) && Settled == old(Settled)
      {
        records := records + [lineBuffer + lines[i]];
        lineBuffer := "";
        assert "" + lines[i] == lines[i];
        i := i + 1;
      }
      Flush();
      if lines != [] {
        Settled := records;
        Pending := "";
      }
    }
  }

  /** The chunks one after another. */
  function Concat(chunks: seq<string>): string
  {
    if chunks == [] then "" else Concat(Init(chunks)) + Last(chunks)
  }

  /** A fresh log fed a run of `write` calls: the logged lines followed by
      the buffer are exactly the split of all the text written, whatever
      the chunk boundaries were. */
  method SuccessiveWrites(chunks: seq<string>) returns (log: ErrorLogFile)
    ensures fresh(log) && log.Valid() && log.Written == chunks
    ensures log.records + [log.lineBuffer] == Split(Concat(chunks), '\n')
  {
    log := new ErrorLogFile();
    var i := 0;
    while i < |chunks|
      invariant 0 <= i <= |chunks|
      invariant log.Valid() && log.Settled == []
      invariant log.Written == chunks[..i] && log.Pending == Concat(chunks[..i])
    {
      log.Write(chunks[i]);
      assert Init(chunks[..i + 1]) == chunks[..i] && Last(chunks[..i + 1]) == chunks[i];
      assert chunks[..i] + [chunks[i]] == chunks[..i + 1];
      i := i + 1;
    }
    assert chunks[..i] == chunks;
  }

  /** Putting two runs of chunks together puts their text together. */
  lemma {:induction false} ConcatAppend(a: seq<string>, b: seq<string>)
    ensures Concat(a + b) == Concat(a) + Concat(b)
    decreases |b|
  {
    if b == [] {
      assert a + b == a;
    } else {
      ConcatAppend(a, Init(b));
      assert Init(a + b) == a + Init(b) && Last(a + b) == Last(b);
    }
  }

  /** When `text` has been added to the pending text with nothing settled in
      between, the logged lines and the buffer are the old logged lines
      followed by the split of the old buffer continued by `text`. */
  lemma LogGrowth(records: seq<string>, buffer: string, records': seq<string>, buffer': string,
                  settled: seq<string>, pending: string, text: string)
    requires records + [buffer] == settled + Split(pending, '\n')
    requires records' + [buffer'] == settled + Split(pending + text, '\n')
    ensures records' + [buffer'] == records + Split(buffer + text, '\n')
  {
    var before := Split(pending, '\n');
    SplitConcat(pending, text, '\n');
    Regroup(records, buffer, settled, before, Split(pending + text, '\n'),
            Split(Last(before) + text, '\n'), records', buffer');
  }

  /** The sequence bookkeeping behind `LogGrowth`: the last element of the
      old whole is replaced by a continuation. */
  lemma Regroup<T>(r: seq<T>, x: T, s: seq<T>, before: seq<T>, whole: seq<T>, after: seq<T>,
                   r': seq<T>, x': T)
    requires |before| >= 1 && r + [x] == s + before
    requires whole == Init(before) + after && r' + [x'] == s + whole
    ensures x == Last(before) && r' + [x'] == r + after
  {
    SplitAppendParts(r, x, s, before);
    assert s + (Init(before) + after) == s + Init(before) + after;
  }

  /** The step that keeps `Valid` across a `write`. */
  lemma WriteKeepsInvariant(records: seq<string>, buffer: string, settled: seq<string>,
                            pending: string, chunk: string)
    requires records + [buffer] == settled + Split(pending, '\n')
    ensures var lines := Split(buffer + chunk, '\n');
      records + Init(lines) + [Last(lines)] == settled + Split(pending + chunk, '\n')
  {
    var before := Split(pending, '\n');
    SplitAppendParts(records, buffer, settled, before);
    SplitConcat(pending, chunk, '\n');
    var lines := Split(Last(before) + chunk, '\n');
    RejoinParts(records, settled, Init(before), lines);
  }

  /** Comparing the last elements and the rest of two equal sequences. */
  lemma SplitAppendParts<T>(r: seq<T>, x: T, s: seq<T>, t: seq<T>)
    requires |t| >= 1 && r + [x] == s + t
    ensures x == Last(t) && r == s + Init(t)
  {
    var n := |r|;
    assert x == (r + [x])[n] == (s + t)[n];
    assert r == (r + [x])[..n] == (s + t)[..n];
  }

  lemma RejoinParts<T>(r: seq<T>, s: seq<T>, t: seq<T>, u: seq<T>)
    requires |u| >= 1 && r == s + t
    ensures r + Init(u) + [Last(u)] == s + (t + u)
  {
    assert Init(u) + [Last(u)] == u;
  }
}
