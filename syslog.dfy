/** `MultiLineSyslogHandler`: a syslog handler that never hands the
    line-oriented collector a message with an embedded newline. Each record
    is stamped with the time, split into physical lines, and every line is
    sent as its own message behind the fixed syslog header. The socket is
    not modelled: what is sent is appended to `sent`. */
module Syslog {
  import opened Text
  import opened Timestamp

  /** `u"{}: {}".format(format_with_millis(now), message)`. */
  function Stamped(now: DateTime, message: string): string
    requires now.Valid()
  {
    FormatWithMillis(now) + ": " + message
  }

  /** The messages sent for the given physical lines, in order. */
  function Framed(header: string, lines: seq<string>): (r: seq<string>)
    ensures |r| == |lines|
    ensures forall i :: 0 <= i < |lines| ==> r[i] == header + " " + lines[i]
  {
    if lines == [] then []
    else [header + " " + lines[0]] + Framed(header, lines[1..])
  }

  /** The messages one `emit` sends for a record whose formatted text is
      `message`, logged at moment `now`. */
  function Datagrams(header: string, now: DateTime, message: string): seq<string>
    requires now.Valid()
  {
    Framed(header, Split(Stamped(now, message), '\n'))
  }

  class MultiLineSyslogHandler {
    /** The `"<host> user_wsgi_wrapper <domain>"` header, fixed at setup. */
    const header: string
    /** Every message handed to the underlying syslog transport, in order. */
    var sent: seq<string>

    constructor (header: string)
      ensures this.header == header && sent == []
    {
      this.header := header;
      sent := [];
    }

    /** `emit(record)`, where `message` is the record formatted by the
        handler's `'%(message)s'` formatter and `now` is the moment read
        from the clock. */
    method Emit(message: string, now: DateTime)
      requires now.Valid()
      modifies this
      ensures sent == old(sent) + Datagrams(header, now, message)
    {
      var lines := Split(Stamped(now, message), '\n');
      var i := 0;
      while i < |lines|
        invariant 0 <= i <= |lines|
        invariant sent == old(sent) + Framed(header, lines[..i])
      {
        sent := sent + [header + " " + lines[i]];
        assert Framed(header, lines[..i + 1]) == Framed(header, lines[..i]) + [header + " " + lines[i]] by {
          FramedAppend(header, lines[..i], lines[i]);
          assert lines[..i + 1] == lines[..i] + [lines[i]];
        }
        i := i + 1;
      }
      assert lines[..|lines|] == lines;
    }
  }

  lemma {:induction false} FramedAppend(header: string, lines: seq<string>, line: string)
    ensures Framed(header, lines + [line]) == Framed(header, lines) + [header + " " + line]
    decreases |lines|
  {
    if lines != [] {
      FramedAppend(header, lines[1..], line);
      assert (lines + [line])[1..] == lines[1..] + [line];
    }
  }

  /** One record becomes exactly one message per newline in its text, plus
      one. */
  lemma DatagramCount(header: string, now: DateTime, message: string)
    requires now.Valid()
    ensures |Datagrams(header, now, message)| == Count(message, '\n') + 1
  {
    FormatWithMillisLayout(now);
    var prefix := FormatWithMillis(now) + ": ";
    assert '\n' !in prefix;
    SplitPrefix(prefix, message, '\n');
    SplitCount(message, '\n');
  }

  /** Every message is the header, a space and one physical line of the
      stamped record; no message carries a newline after its header; the
      first line alone carries the `"<timestamp>: "` prefix, and the lines
      after it are the record's own lines, unchanged. */
  lemma DatagramShape(header: string, now: DateTime, message: string)
    requires now.Valid()
    ensures var d := Datagrams(header, now, message);
      var lines := Split(message, '\n');
      && |d| == |lines|
      && d[0] == header + " " + FormatWithMillis(now) + ": " + lines[0]
      && (forall i :: 1 <= i < |d| ==> d[i] == header + " " + lines[i])
      && (forall i :: 0 <= i < |d| ==> '\n' !in d[i][|header| + 1..])
  {
    FormatWithMillisLayout(now);
    var prefix := FormatWithMillis(now) + ": ";
    assert '\n' !in prefix;
    SplitPrefix(prefix, message, '\n');
    var all := Split(Stamped(now, message), '\n');
    SplitSeparatorFree(Stamped(now, message), '\n');
    var d := Datagrams(header, now, message);
    forall i | 0 <= i < |d|
      ensures '\n' !in d[i][|header| + 1..]
    {
      assert d[i][|header| + 1..] == all[i];
    }
  }

  /** Nothing is lost by the framing: stripping the header from every
      message and joining the lines with newlines gives back the stamped
      record. */
  lemma DatagramsRecoverRecord(header: string, now: DateTime, message: string)
    requires now.Valid()
    ensures var d := Datagrams(header, now, message);
      Join(seq(|d|, i requires 0 <= i < |d| => d[i][|header| + 1..]), "\n")
        == FormatWithMillis(now) + ": " + message
  {
    var d := Datagrams(header, now, message);
    var all := Split(Stamped(now, message), '\n');
    var payloads := seq(|d|, i requires 0 <= i < |d| => d[i][|header| + 1..]);
    assert payloads == all;
    JoinSplit(Stamped(now, message), '\n');
  }
}
