# user_wsgi_wrapper, modelled in Dafny

This project models the fault-isolating WSGI wrapper `bin/user_wsgi_wrapper.py`,
which a hosting platform puts around every user web application. The wrapper
does four things:

- It sends whatever the application writes to its error stream (`sys.stderr`
  and `environ['wsgi.errors']`) to a logger, one complete line at a time
  (`ErrorLogFile`).
- It ships every log record to syslog with one message per physical line. Each
  message carries a fixed header, and the first line also carries a
  millisecond timestamp (`MultiLineSyslogHandler`, `format_with_millis`).
- When the application raises, it logs a banner, the exception and a traceback
  with its own and the import machinery's frames removed
  (`log_trimmed_exception`). It then answers with a 500 status and a fixed
  error page (`Wrapper.__call__`).
- When the application could not even be imported, it replays that failure
  and a help text on every request (`ImportErrorApp.__call__`).

Modules, one file each:

- `Text` (`text.dfy`): Python's `str.split` with a one-character separator,
  `str.join`, `str.count` and substring `in`, with the split/join round trips.
- `Timestamp` (`timestamp.dfy`): `format_with_millis` over the fields of a
  `datetime`.
- `Syslog` (`syslog.dfy`): `MultiLineSyslogHandler` as a class whose sent
  messages are a sequence field.
- `ErrorLog` (`error_log.dfy`): `ErrorLogFile` as a class with the line buffer
  and the logged messages as fields. Ghost fields record every chunk written,
  so the invariant "nothing lost, nothing logged twice" can be stated.
- `Traceback` (`traceback.dfy`): the frame filter and `log_trimmed_exception`.
- `Redirect` (`redirect.dfy`): the fallback `redirect_stderr` context manager
  over a `sys.stderr` slot object.
- `Wsgi` (`wsgi.dfy`): `Wrapper` and `ImportErrorApp`.

The user application is modelled as a trace. It is a sequence of steps
(`start_response` calls, yielded chunks, writes to its error stream) followed
by an ending: it runs out, its `close` raises, or it raises.

Two behaviours of `Wrapper.__call__` that a reader might not expect:

- It never checks whether the application already called `start_response`.
  After an application that called it and then raised, with or without a
  chunk already yielded, the wrapper calls `start_response` a second time
  with the 500 status and then yields the error page
  (`Wsgi.ErrorPageFollowsSentChunks`). PEP 3333 allows a second
  `start_response` call only with the `exc_info` argument, and the wrapper
  passes none, so a server that follows PEP 3333 raises at that call. The
  exception is raised inside the `except` clause, where no handler covers it,
  so the response ends without the error page. The model assumes
  `start_response` returns (see "## Left out").
- `close()` is called only after the iterable ran out normally, not in a
  `finally`. A `close()` that raises takes the error path like any other
  exception.

## Model

| member | source | states |
|---|---|---|
| Text.Split | bin/user_wsgi_wrapper.py:112 | `str.split` on one character always gives at least one piece; `JoinSplit`, `SplitJoin`, `SplitCount` and `SplitSeparatorFree` pin it down |
| Text.Join | bin/user_wsgi_wrapper.py:184-185 | `sep.join(parts)`: the parts with the separator between neighbours; `JoinSplit` and `SplitJoin` tie it to `Split` |
| Text.Contains | bin/user_wsgi_wrapper.py:183 | the substring test holds exactly when the substring occurs at some index |
| Text.SplitCount | bin/user_wsgi_wrapper.py:112 | splitting on a character gives one piece more than there are occurrences of it |
| Text.JoinSplit | bin/user_wsgi_wrapper.py:163-166 | joining the split pieces with the separator gives back the text, so splitting loses and duplicates nothing |
| Text.SplitJoin | bin/user_wsgi_wrapper.py:163 | separator-free pieces joined by the separator split back into exactly those pieces |
| Text.SplitSeparatorFree | bin/user_wsgi_wrapper.py:163-166 | no piece of a split holds the separator |
| Text.SplitConcat | bin/user_wsgi_wrapper.py:163 | splitting a concatenation keeps the complete pieces of the first part and re-splits its tail together with the second part |
| Text.SplitEndsWithSeparator | bin/user_wsgi_wrapper.py:163-166 | text ending in the separator leaves an empty last piece |
| Text.SplitPrefix | bin/user_wsgi_wrapper.py:109-112 | a separator-free prefix only lengthens the first piece |
| Timestamp.Millis | bin/user_wsgi_wrapper.py:97 | the truncated quotient of the microseconds by 1000 lies in 0..999 and is the whole number of milliseconds |
| Timestamp.DigitsValue | bin/user_wsgi_wrapper.py:96 | the decimal digits of a number read back as that number |
| Timestamp.ZeroPadValue | bin/user_wsgi_wrapper.py:96 | the zero-padded text reads back as the number it pads |
| Timestamp.FormatWithMillisLayout | bin/user_wsgi_wrapper.py:95-98 | the timestamp is 23 characters without a newline: the date, a space, the clock time, a comma, and exactly three digits that read back as the microseconds divided by 1000 |
| Timestamp.FormatWithMillis | bin/user_wsgi_wrapper.py:95-98 | the date, a space, the clock time, a comma and the milliseconds padded to three digits; `FormatWithMillisLayout` gives its layout |
| Syslog.MultiLineSyslogHandler.constructor | bin/user_wsgi_wrapper.py:103-105 | the handler keeps the header and has sent nothing |
| Syslog.MultiLineSyslogHandler.Emit | bin/user_wsgi_wrapper.py:108-125 | one message per physical line of the stamped record is appended, in order, each being the header, a space and the line |
| Syslog.DatagramCount | bin/user_wsgi_wrapper.py:109-125 | one record gives exactly one message per newline in its text, plus one |
| Syslog.DatagramShape | bin/user_wsgi_wrapper.py:109-125 | only the first message carries the timestamp prefix, the others carry the record's own lines unchanged, and no message has a newline after its header |
| Syslog.DatagramsRecoverRecord | bin/user_wsgi_wrapper.py:109-125 | stripping the headers and joining with newlines gives back the stamped record |
| Syslog.Datagrams | bin/user_wsgi_wrapper.py:109-125 | the messages for one record: the header, a space and each physical line of the stamped record; `DatagramCount`, `DatagramShape` and `DatagramsRecoverRecord` pin it down |
| ErrorLog.ErrorLogFile.constructor | bin/user_wsgi_wrapper.py:151-154 | the buffer is empty, nothing is logged, and the invariant holds |
| ErrorLog.ErrorLogFile.Flush | bin/user_wsgi_wrapper.py:157-159 | flushing changes neither the buffer nor what was logged |
| ErrorLog.ErrorLogFile.IsATty | bin/user_wsgi_wrapper.py:177-178 | the log is never a terminal |
| ErrorLog.ErrorLogFile.Write | bin/user_wsgi_wrapper.py:162-167 | every piece of the split of buffer plus chunk except the last is logged in order, the last becomes the buffer, and the no-loss invariant is kept |
| ErrorLog.ErrorLogFile.WriteLines | bin/user_wsgi_wrapper.py:170-174 | each element is logged as its own line, the first behind the old buffer; the buffer is emptied when there is an element and untouched otherwise; after a non-empty list the invariant restarts from the records with no pending text, after an empty one the pending text is unchanged |
| ErrorLog.WriteKeepsInvariant | bin/user_wsgi_wrapper.py:162-166 | the logged lines plus the buffer stay the split of all pending text across a write |
| ErrorLog.SuccessiveWrites | bin/user_wsgi_wrapper.py:151-167 | after any run of writes into a fresh log, the logged lines followed by the buffer are the split of all the text written, whatever the chunk boundaries |
| ErrorLog.ConcatAppend | bin/user_wsgi_wrapper.py:162-167 | the text of two runs of writes is the text of the first followed by that of the second |
| ErrorLog.LogGrowth | bin/user_wsgi_wrapper.py:162-167 | once some text has been written with no `writelines` in between, the logged lines and the buffer are the old logged lines followed by the split of the old buffer continued by that text |
| Traceback.TrimFrames | bin/user_wsgi_wrapper.py:183 | the list comprehension: the frames whose file name mentions neither the wrapper nor importlib, in order; the `Trim…` lemmas below pin it down |
| Traceback.Report | bin/user_wsgi_wrapper.py:182-187 | the three chunks written for a failure: the banner, the exception summary joined with newlines, and the trimmed frames rendered and joined with newlines |
| Traceback.TrimmedFramesAreShown | bin/user_wsgi_wrapper.py:183 | no kept frame's file name mentions the wrapper or importlib |
| Traceback.TrimKeepsShownFrames | bin/user_wsgi_wrapper.py:183 | every frame that is shown is kept as often as it occurs, and no other frame is kept |
| Traceback.TrimIsSubsequence | bin/user_wsgi_wrapper.py:183 | the kept frames are in their original order |
| Traceback.TrimEmptyIff | bin/user_wsgi_wrapper.py:183 | the kept list is empty exactly when no frame is shown |
| Traceback.TrimIdempotent | bin/user_wsgi_wrapper.py:183 | filtering an already filtered traceback changes nothing |
| Traceback.TrimConcat | bin/user_wsgi_wrapper.py:183 | filtering works frame by frame over a concatenation |
| Traceback.LogTrimmedException | bin/user_wsgi_wrapper.py:181-187 | exactly three writes go to the log, the banner, the joined exception summary and the joined trimmed frame list; the logged lines and the buffer are the old logged lines followed by the split of the old buffer continued by those three chunks |
| Redirect.RedirectStderr.constructor | bin/user_wsgi_wrapper.py:15-19 | the manager keeps its new target and starts with no saved targets |
| Redirect.RedirectStderr.Enter | bin/user_wsgi_wrapper.py:21-24 | the current stream is pushed on the saved stack, the new target is installed and returned |
| Redirect.RedirectStderr.Exit | bin/user_wsgi_wrapper.py:26-27 | the most recently saved stream is popped back into the slot; leaving with an empty stack raises and changes nothing |
| Redirect.ReentrantRedirection | bin/user_wsgi_wrapper.py:17-27 | entering one manager twice and leaving it twice, from any stack of open entries, restores the original stream and leaves the stack as it was |
| Wsgi.Wrapper.constructor | bin/user_wsgi_wrapper.py:193-195 | the wrapper gets a fresh, empty error log |
| Wsgi.Wrapper.Call | bin/user_wsgi_wrapper.py:198-215 | the events are the application's own followed by the 500 response exactly on failure; close is called exactly after normal exhaustion with a close method or when close raised; the stderr slot is restored; the log is written the application's error text and then the failure report, so the logged lines and the buffer are the old logged lines followed by the split of the old buffer continued by that text |
| Wsgi.Wrapper.Drive | bin/user_wsgi_wrapper.py:201-204 | while stderr is redirected, the application's events are passed on in order and its error text is written to the log, so the logged lines and the buffer are the old ones continued by that text |
| Wsgi.WrapperEvents | bin/user_wsgi_wrapper.py:200-215 | what the server sees: the application's own events, then the 500 `start_response` and the error page exactly when a failure reached the `except` clause; `WrapperSuccess`, `WrapperFailure` and `ErrorPageFollowsSentChunks` pin it down |
| Wsgi.WrapperLog | bin/user_wsgi_wrapper.py:199-208 | what is written to the error log: the application's error text, then the failure report exactly on failure |
| Wsgi.Wrapper.Forward | bin/user_wsgi_wrapper.py:202-204 | one step of the application while stderr is redirected: its events are passed on and its error text is written to the log |
| Wsgi.PassedIsTransparent | bin/user_wsgi_wrapper.py:203-204 | the forwarded body chunks are exactly the application's chunks, and the statuses exactly its own |
| Wsgi.PassedKeepsChunk | bin/user_wsgi_wrapper.py:203-204 | every chunk the application yields is forwarded |
| Wsgi.WrapperSuccess | bin/user_wsgi_wrapper.py:200-206 | on normal completion the output is exactly the application's chunks and statuses, only its own error text is logged, and close is called exactly when present |
| Wsgi.WrapperFailure | bin/user_wsgi_wrapper.py:200-215 | on failure the output is the application's chunks plus exactly one error page, preceded by one 500 start_response; the report is logged, and close is called only if it was close that raised |
| Wsgi.ErrorPageFollowsSentChunks | bin/user_wsgi_wrapper.py:203-210 | a chunk already sent before the failure is still followed by the 500 status and the error page |
| Wsgi.ImportErrorApp.constructor | bin/user_wsgi_wrapper.py:220-222 | the stand-in keeps the import failure and gets a fresh, empty error log |
| Wsgi.ImportErrorApp.Call | bin/user_wsgi_wrapper.py:225-234 | every call writes the report of the stored failure and then the help text, so the logged lines are the old ones followed by every complete line of the old buffer continued by that text, and the buffer is left empty because the help text ends in a newline; it answers with the 500 status and the one error page chunk |

## Left out

- The syslog transport (`SysLogHandler.emit`, the priority prefix, the socket to `log.server`) is not modelled. A sent message is appended to `MultiLineSyslogHandler.sent`.
- `setup_logging` is not modelled. That covers the host name, `HOST_NAME`, the header format, the level and the `'%(message)s'` formatter. The header is a constructor argument, and the record's formatted text is the `message` argument of `Emit`.
- The logger behind `ErrorLogFile` is not modelled. Each `logger.error` call appends its message to `records`. The handlers' own `flush` is not modelled; it sends nothing, so `Flush` changes nothing.
- `datetime.now()` and `started_at` are not modelled. The moment is an argument.
- `%Y` for years below 1000 is written with four zero-padded digits. Python's output there depends on the platform's `strftime`.
- `traceback.extract_tb`, `format_exception_only` and `format_list` are not modelled. Frames are given as values and the two renderers as function arguments (`Renderer`).
- The content of `SERVER_ERROR_MESSAGE` and the `os.environ` values substituted into it are not modelled. The encoded page is the `page` argument.
- `load_wsgi_application`, `import_module` and the module-level choice between `Wrapper` and `ImportErrorApp` are dynamic loading and are not modelled.
- The Python 2/3 `contextlib` import fallback and the unused `skip_next` field are not modelled.
- Wsgi.Wrapper.Call: the assignment `environ['wsgi.errors'] = ...` is not modelled as a dictionary update. Writes through either stream are `ErrorText` steps that reach the log.
- Wsgi.Wrapper.Call: the application's calls to `writelines` on its error stream are not modelled. Only `write` is a step.
- Wsgi.Wrapper.Call: suspension is not modelled. While the generator is suspended between chunks, `sys.stderr` stays redirected. The model drives the generator to its end in one call.
- Wsgi.Wrapper.Call: exceptions outside `Exception` are not modelled. That covers `GeneratorExit` when the server abandons the response.
- Wsgi.Wrapper.Call: `start_response` is assumed to return. A server that raises at the wrapper's 500 call ends the response with that exception and without the error page. PEP 3333 servers do this whenever the application already called `start_response`, whether or not a chunk was sent.
- The thread-safety of the process-wide `sys.stderr` slot is a concurrency matter and is not modelled.
- `bin/run_scheduled_task.py` and `bin/pythonanywhere_runner.py` are process-launch and interpreter plumbing and are not part of this model.
