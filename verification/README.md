# Log synchronisation of the `four` web console

`four/console.py` runs a small HTTP console. Code a user submits is echoed into a bounded,
versioned server-side log (`_History`). The browser page keeps a mirror of the log's tail and
polls `/history` for it. Each poll asks for at most `len` bytes from the mirror's end offset in
the mirror's epoch. The server answers with a body made of three decimal header lines
(`version`, `start`, `begin`) followed by the raw bytes. The page's script (`updateHistory`)
scans that header and merges the bytes into its mirror. A small back-off state machine
(`historyDaemon` / `resetHistoryDaemonTimer`) spaces the polls.

This project models those pieces in Dafny and proves their properties:

- `basics.dfy` (`Basics`): bytes, the newline byte, `Option`, `Min`/`Max`.
- `numerals.dfy` (`Numerals`): the server's `str(n).encode()` as `Decimal` and the script's
  `parseInt(text, 10)` as `ParseInt`, with the round trip between them.
- `history.dfy` (`HistoryLog`): the class `History` for `_History`, with a ghost `evicted`
  prefix. `Appended()` = `evicted + value` is everything appended since the last reset, and
  `Valid()` says `start` counts the evicted bytes and `value` holds as many of the appended
  bytes as the capacity allows. Also here: `ExecAndUpdate` for the submission handler, and
  the zero-capacity finding.
- `framing.dfy` (`Framing`): the response body (`Frame`), the script's header scan as a
  specification (`ScanHeader`) and as the nested index loop the script runs (`ParseHeader`),
  and the framing round trip.
- `window.dfy` (`SyncWindow`): the window `handle_history` cuts out of a snapshot, and the
  whole request as a method on a `History`.
- `client.dfy` (`SyncClient`): the class `Client` holding the script's globals. It has the
  merge (`UpdateHistory`), the poll interval, and end-to-end lemmas that connect the server
  window to the client merge.

## Model

| member | source | states |
|---|---|---|
| HistoryLog.History.constructor | four/console.py:17-25 | capacity is `max(len, 0)`; version 0, start 0, empty buffer; the invariant holds |
| HistoryLog.History.ResetNoLock | four/console.py:23-25 | start 0 and an empty buffer; nothing appended in the epoch; the invariant holds |
| HistoryLog.History.Get | four/console.py:27-29 | returns the `(version, start, value)` triple; `value` is exactly the appended bytes from offset `start` to the end; it is never longer than the capacity |
| HistoryLog.History.Append | four/console.py:31-44 | the invariant is kept. The epoch's bytes grow by exactly the chunk, preceded by `\n` only when `sep` is set and the buffer was non-empty. `value` becomes the last min(capacity, n) bytes of old `value` plus that chunk. `start + |value|` grows by the chunk's length. `start` never decreases and `version` is unchanged. At capacity 0 it keeps no bytes, the corrected policy of "## Findings" |
| HistoryLog.Separated | four/console.py:33-34 | what `append` adds: the chunk, preceded by exactly one `\n` when `sep` is set and the buffer is non-empty, and by nothing otherwise |
| HistoryLog.History.Evict | four/console.py:36-44 | the three eviction branches: the same new state as `Append`, for a chunk whose separator is already added |
| HistoryLog.Evicted | four/console.py:36-44 | each eviction branch keeps exactly the last min(capacity, n) bytes of old `value` plus the chunk |
| HistoryLog.EvictedState | four/console.py:36-44 | the dropped bytes, moved onto the evicted prefix, keep the invariant and every appended byte in order; `start` moves forward by exactly their number |
| HistoryLog.History.Reset | four/console.py:46-49 | start 0 and an empty buffer, a new empty epoch, and `version` bumped by exactly 1 |
| HistoryLog.ExecAndUpdate | four/console.py:98-102 | the epoch grows by the code plus `\n` (with a separator when the buffer was non-empty), then by the result plus `\n` only when the result is non-empty; the invariant holds |
| HistoryLog.NegativeSlice | four/console.py:38 | Python's `s[-k:]`: the last `k` bytes for `0 < k <= len(s)`, and all of `s` both for `k == 0` and for `k >= len(s)` |
| HistoryLog.AppendAsWritten | four/console.py:36-44 | the three eviction branches exactly as written, Python slicing included. `start` never decreases, and the new buffer ends with as much of the chunk as it holds. At capacity 0 a non-empty chunk is kept whole |
| HistoryLog.ZeroCapacityBreaksOffsets | four/console.py:36-38 | with capacity 0, appending one byte yields a one-byte buffer whose end offset moved by two |
| HistoryLog.AppendAsWrittenAgrees | four/console.py:36-44 | for every capacity of at least 1, the code as written keeps the same suffix and moves the end offset by the chunk length, as the corrected `Append` does |
| Numerals.Decimal | four/console.py:176-178 | `str(n)`: at least one digit, all digits, no newline, and no leading zero: a numeral longer than one digit does not start with `0` |
| Numerals.DecimalValue | four/console.py:176-178 | the digits of `str(n)` have value `n` |
| Numerals.ParseInt | four/console.py:304 | `parseInt(text, 10)` on ASCII text: skip white space, an optional sign, the longest digit run, NaN (`None`) when that run is empty. Empty text is NaN, and a negative number needs a `-` in the text. The lemmas below state the rest |
| Numerals.Signed | four/console.py:304 | a digit run after its sign: NaN exactly when the run is empty; non-negative without a minus and non-positive with one |
| Numerals.ParseDigitsThenRest | four/console.py:304 | `parseInt` reads the leading digits' value and ignores whatever non-digit follows |
| Numerals.ParseNegative | four/console.py:304 | `parseInt` of a minus sign before digits gives the negated value |
| Numerals.ParseSkipsSpaces | four/console.py:304 | leading white space does not change what `parseInt` reads |
| Numerals.ParseNeedsDigit | four/console.py:304 | `parseInt` gives a number only when the text contains a digit; otherwise NaN (`None`) |
| Numerals.ParseDecimal | four/console.py:176-178 | `parseInt(str(n))` is `n` |
| Numerals.DigitRun | four/console.py:304 | the longest all-digit prefix: it stops at the first non-digit, and takes everything when all are digits |
| Framing.Frame | four/console.py:176-179 | the response body: `str(version)`, `str(start)` and `str(begin)`, each followed by `\n`, then the part byte for byte. `FrameRoundTrip` is its inverse |
| Framing.NewlineFrom | four/console.py:301-302 | the first newline at or after `i`, or the end of the data |
| Framing.NextNewline | four/console.py:301-312 | the inner search loop finds exactly `NewlineFrom(data, i)` |
| Framing.ScanLine | four/console.py:301-312 | one header line read from `last`: when a newline follows, the line is the bytes up to the first one (`NewlineFrom`) and the scan resumes just past it; with no newline left, the line is missing and the scan stays at `last` |
| Framing.ParseHeader | four/console.py:296-315 | the nested loop over `i`/`last` computes exactly the three fields and the part that `ScanHeader` specifies |
| Framing.ScanLineAt | four/console.py:301-312 | where the data continues with a newline-free line and a newline, the scan reads that line |
| Framing.FrameLines | four/console.py:176-179 | the scan of a framed body finds the three numerals as its lines and stops right before the part |
| Framing.FrameRoundTrip | four/console.py:176-179 | scanning the framed body gives back the three numbers and exactly the part, even when the part contains newlines |
| SyncWindow.HistoryWindow | four/console.py:164-174 | `begin` lies in `[start, start + |value|]`. On a version mismatch it equals `start`; otherwise it is the request's `begin` clamped into that range. The part is `min(len, bytes left)` long and holds the retained bytes from `begin` on |
| SyncWindow.HandleHistory | four/console.py:159-179 | the body is the frame of the window computed from one consistent snapshot |
| SyncWindow.WindowIsHistoryRange | four/console.py:164-174 | the part is exactly the epoch's bytes at the absolute offsets `[begin, begin + |part|)` |
| SyncClient.Acceptable | four/console.py:317-318 | the validity check: all three fields present, none negative, and `begin >= start`; a missing field or NaN fails it, because every comparison with them is false |
| SyncClient.AcceptableIsFramed | four/console.py:317-318 | conversely, every header that passes the check is exactly what framing its own numbers and part reads back as |
| SyncClient.Client.constructor | four/console.py:235-240 | the mirror starts as epoch 0, offset 0, no bytes; the interval starts at 0 |
| SyncClient.Client.UpdateHistory | four/console.py:293-358 | a status other than 200 returns 1 and changes nothing; otherwise the scanned header is merged as `Reconciled` says. The result is -1 exactly when the mirror changed |
| SyncClient.Client.MergeResponse | four/console.py:317-357 | for each case (invalid header, stale epoch, new epoch, same epoch), the return value and new mirror that `Reconciled` prescribes |
| SyncClient.MergeFromTrim | four/console.py:323-348 | trimming the evicted bytes, then appending only the part past the trimmed end (when it reaches that end), is the same-epoch merge |
| SyncClient.SameEpochForward | four/console.py:323-348 | within an epoch neither the start nor the end offset of the mirror decreases; a response that starts past the end appends nothing; the epoch never goes back |
| SyncClient.MergeKeepsConsistent | four/console.py:323-348 | merging bytes the epoch really holds keeps the mirror equal to the epoch's bytes at its offsets |
| SyncClient.SyncStep | four/console.py:164-174 | one poll from the mirror's end in a steady epoch leaves a faithful mirror that reaches `len` bytes further (from the first retained byte if it had fallen behind), or the end of the log |
| SyncClient.ServerResponsesAcceptable | four/console.py:317-318 | every body the server frames passes the script's validity check and is read back unchanged |
| SyncClient.NewEpochAdopted | four/console.py:349-357 | after a reset, the answer to an old-epoch client starts at the new epoch's first retained byte, so the client adopts it wholesale |
| SyncClient.Client.ResetHistoryDaemonTimer | four/console.py:360-361 | the interval goes back to 0 |
| SyncClient.Client.HistoryDaemon | four/console.py:366-374 | one timer firing sets the interval to `NextInterval` of the old one |
| SyncClient.Client.OnHistoryLoaded | four/console.py:377-381 | the completion handler returns what `updateHistory` answered. On a status other than 200 the answer is 1 and the mirror is unchanged; otherwise the scanned response is merged as `Reconciled` says. The interval is reset to 0 exactly when the answer is negative, which happens exactly when the mirror changed, and is unchanged otherwise |
| SyncClient.NextInterval | four/console.py:367-374 | below 5000 the interval strictly grows and never passes 5000; from 5000 on it stays at 5000 |
| SyncClient.ScheduleSteps | four/console.py:367-374 | from 0: steps of 100 up to 400, steps of 200 up to 1000, then steps of 500 capped at 5000 |
| SyncClient.ScheduleSettles | four/console.py:367-374 | the interval strictly grows for the first 15 idle polls and is 5000 from then on |

## Left out

- The `threading.Lock` of `_History` is not modelled. Every `History` method is one atomic step.
- Concurrency in general is not modelled: the executor thread, overlapping polls and timer
  interleavings.
- `_Executor`'s `ast`/`compile`/`exec`/`eval`/`traceback` machinery is not modelled. The
  result of running the code is the `result` parameter of `ExecAndUpdate`, already encoded
  as UTF-8 bytes.
- HTTP plumbing is not modelled: routing, query parsing with `int(...)`, the `auth` check,
  headers, `wfile` writes, `handle_code`/`handle_clear` and server start-up.
  `HandleHistory` takes the three query numbers as parameters.
- SyncWindow.HandleHistory: `len` is a natural number. A negative `len` query makes Python
  slice from the end, which the model does not capture.
- The browser's DOM, `TextDecoder` rendering, `XMLHttpRequest`, the 30 s timeouts and
  `setTimeout`/`clearTimeout` are not modelled. The poll interval is kept as a number, and
  `getHistory`'s request (`len=32768`, the mirror's end offset) appears only as the parameters
  of `SyncStep`.
- Numerals.ParseInt reads the header bytes directly. The UTF-8 decoding before `parseInt` is
  not modelled, nor are its non-ASCII white space and the double-precision rounding of very
  long numerals.
- The script slices `historyData.buffer` and `part.buffer` rather than the views. Every view
  the script builds covers its whole buffer, so the model slices the sequences themselves.
- `updateHistory`'s body is split into `UpdateHistory` and `MergeResponse`, its header loop is
  `ParseHeader`, and the inner search loop is `NextNewline`. The eviction half of `append` is
  `History.Evict`. For every capacity of at least 1 the behaviour is unchanged.
- HistoryLog.History.Append: at capacity 0 it follows the corrected policy and keeps no bytes,
  where the code as written keeps the whole chunk (see "## Findings"); `HistoryLog.AppendAsWritten`
  models the code as written, and `HistoryLog.AppendAsWrittenAgrees` proves the two agree for
  every capacity of at least 1.
- `four/reprint.py` is not part of this model. It is file and console I/O.

## Findings

| source | as written | input that shows it | evidently intended | confidence | as-written member | corrected member |
|---|---|---|---|---|---|---|
| four/console.py:36-38 | with capacity 0 (`len <= 0` gives `self.len = 0`), `value[-self.len:]` is `value[-0:]`, the whole chunk | `_History(0)`, then `append(b'\n')`: `start` becomes 1 and `value` is `b'\n'`, so the end offset is 2 after one byte and the buffer exceeds the capacity | keep the last `self.len` bytes, i.e. none for capacity 0 | not executed | HistoryLog.AppendAsWritten, HistoryLog.ZeroCapacityBreaksOffsets | HistoryLog.History.Append |
