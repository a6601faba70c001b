# Real-Time Log Viewer: the tail-and-fan-out engine in Dafny

This project models the engine of a small web service that streams a growing
log file, `log.txt`, to browsers as server-sent events. It shows four variants
of the same idea:

- **Snapshot:** a new client is first sent the last ten lines of the log. The
  lines are found by reading the file backwards in blocks of 1024 bytes
  (`read_last_n_lines`, module `TailRead`).
- **Approach 2, polling per client:** each client keeps its own file offset.
  It repeatedly reads from that offset to the end of the file and is sent the
  new text, stripped (modules `DeltaRead` and `PollingPerClient`).
- **Approach 3, server-side polling:** the offset `last_pos_3` is shared by
  all clients, and so is the list `clients_3` of per-client queues. A poll
  puts the new text into every listed queue, and each client sends the front
  of its own queue (modules `Fanout` and `ServerPolling`).
- **Approach 4, event-driven:** a file-system watcher calls `on_modified`. For
  the log file, the handler puts the file's last line, stripped, into every
  queue in `clients_4` (modules `Fanout` and `EventDriven`).
- **Framing:** every payload is framed as `data: <payload>` followed by a
  blank line. Module `EventStream` models both that framing and the client
  side's event-stream parsing, per section 9.2.6 of the WHATWG HTML Living
  Standard (data fields only).

The file is a `string`. An offset is an index into it. A seek followed by a
read is a slice. The registry is a list of queue identities plus a map from
identity to queue contents. Every step is one atomic, sequential state
transition.

The code has no partial-line hold-back, no truncation reset and no bounded
mailboxes; none is modelled. A read always runs to the end of the file, a seek
past the end reads nothing, and the queues are unbounded.

Files:

- `wrappers.dfy`: `Option` and `Result`.
- `text.dfy`: line splitting (`readlines`, `splitlines`, `split("\n")`), joining and `str.strip`.
- `tail.dfy`: `read_last_n_lines`.
- `delta.dfy`: the offset-based delta read.
- `fanout.dfy`: the subscriber registry.
- `eventstream.dfy`: framing and parsing.
- `approach2.dfy`, `approach3.dfy` and `approach4.dfy`: the three streaming endpoints.

## Model

| member | source | states |
|---|---|---|
| TailRead.ReadLastNLines | log_viewer_implementations.py:23-34 | For `N >= 1`, the backward block scan returns exactly the last `N` lines of the whole file, in order and joined by line feeds, although it reads only a block-aligned suffix. A file with at most `N` lines comes back whole. `N == 0` returns every line of the single block read (Python's `[-0:]`). A negative `N` returns nothing. |
| TailRead.BlockSuffixHasLastLines | log_viewer_implementations.py:29-34 | Once a suffix of the file holds more than `N` lines, its last `N` lines are the last `N` lines of the whole file, because the possibly cut first line is never among them. |
| TailRead.SnapshotBound | log_viewer_implementations.py:34 | The snapshot never holds more than `N` lines. |
| TailRead.PyTailSlice | log_viewer_implementations.py:34 | Python's `xs[-n:]`: the last `n` elements for `n >= 1`, and every element for `n == 0`. |
| Text.Lines | log_viewer_implementations.py:29 | `splitlines()`: no line contains a line feed, and the empty text is the only one with no lines. |
| Text.JoinLines | log_viewer_implementations.py:34 | Joining the lines with line feeds gives back the text, minus one final line feed. |
| Text.KeepEnds | log_viewer_implementations.py:121 | `readlines()`: the pieces concatenate to the text, and every piece except the last ends with a line feed. |
| Text.KeepEndsChomp | log_viewer_implementations.py:121 | `readlines()` and `splitlines()` give the same number of lines, and each line of the latter is the former's line without its terminator. |
| Text.Strip | log_viewer_implementations.py:69 | `str.strip()`: the result is the text between a whitespace-only prefix and a whitespace-only suffix, with no whitespace at either end of the result. Whitespace is Python's `str.isspace` set. |
| Text.StripIdempotent | log_viewer_implementations.py:102 | Stripping twice is stripping once. |
| Text.StripChomp | log_viewer_implementations.py:121 | Stripping a line ignores whether its terminator was removed first. |
| DeltaRead.ReadFrom | log_viewer_implementations.py:65-70 | Seek to the offset and read to the end. Nothing is read exactly when no text lies beyond the offset, and then the offset stays. Otherwise the text read is non-empty, completes the file after the offset, and the offset moves to the end. |
| DeltaRead.PollAgainIsNoop | log_viewer_implementations.py:96-100 | Polling again with no write in between reads nothing and keeps the offset. |
| DeltaRead.PollAllReadsAppended | log_viewer_implementations.py:64-71 | On a growing log, successive polls read every character after the starting offset exactly once: the non-empty chunks concatenate to the appended text, and the offset ends at the end of the file. |
| Fanout.Empty | log_viewer_implementations.py:78 | `clients_3 = []` and `clients_4 = []` start as valid empty registries. |
| Fanout.Subscribe | log_viewer_implementations.py:134-135 | Subscribing lists one fresh, empty queue last. The other queues keep their contents, and the registry stays valid. |
| Fanout.PutAll | log_viewer_implementations.py:122-123 | `for q in clients: q.put_nowait(item)`: each queue receives one copy per listing, and all other queues stay unchanged. |
| Fanout.Publish | log_viewer_implementations.py:101-102 | Every listed queue gets the item at its back exactly once. Unlisted queues and the list are unchanged. |
| Fanout.Take | log_viewer_implementations.py:143 | `queue.get()` takes the front item of the client's own queue, or waits when the queue is empty. No other queue changes. |
| Fanout.RemoveFirst | log_viewer_implementations.py:146 | `list.remove` deletes the first occurrence only. |
| Fanout.Leave | log_viewer_implementations.py:145-146 | Removal succeeds exactly when the queue is listed (`ValueError` otherwise). Afterwards the queue is unlisted, the listing is `list.remove`'s (the other listings keep their order), and no queue's contents change. |
| Fanout.RemoveFirstDistinct | log_viewer_implementations.py:107 | Removing from a list without repetitions leaves a list without repetitions that no longer holds the queue. |
| Fanout.Apply | log_viewer_implementations.py:86-87 | Every registry operation keeps the registry valid. A queue that has left is never listed again. |
| Fanout.StepIsFifo | log_viewer_implementations.py:143-144 | Across one operation, what a queue held plus what was put into it equals what its client took plus what the queue now holds. |
| Fanout.QueueIsFifo | log_viewer_implementations.py:103-104 | Over any sequence of operations, whatever the other clients do, a client takes the items put into its queue while it was listed, in the order they were put: none lost, duplicated or reordered. |
| Fanout.LeftQueueGetsNothing | log_viewer_implementations.py:106-107 | Once a queue has left the list, no publish puts anything into it again. |
| EventStream.FramePayloadRoundTrip | log_viewer_implementations.py:144 | Corrected: with one `data:` line per payload line, one framed payload parses back to itself. |
| EventStream.StreamRoundTrip | log_viewer_implementations.py:104 | Corrected: with one `data:` line per payload line, a stream of framed payloads parses back to the payloads, in order. |
| EventStream.ClientStream | log_viewer_implementations.py:137-144 | Corrected: with one `data:` line per payload line, a streaming client receives the snapshot, then each later payload, as separate events in that order. |
| EventStream.FrameSingleLine | log_viewer_implementations.py:46 | On a payload without line feeds, `f"data: {payload}\n\n"` is the line-per-field frame and parses back to the payload. |
| EventStream.FrameKeepsFirstLine | log_viewer_implementations.py:62 | `f"data: {payload}\n\n"` with a multi-line payload reaches the client as its first line only, whenever the receiver ignores every later line: a line that starts with a colon, or whose text before its first colon is not `data` (a line without a colon, or one starting with a timestamp such as `12:00:01`). A later line that itself starts with `data:` is not covered, and is in fact received. |
| EventStream.TwoLineSnapshotLosesSecond | log_viewer_implementations.py:62 | A two-line snapshot `L1\nL2` is received as the single event `L1`. |
| PollingPerClient.PayloadsAsWritten | log_viewer_implementations.py:57 | With the offset starting at 0, the first poll sends the whole file, stripped. |
| PollingPerClient.AsWrittenRepeatsSnapshot | log_viewer_implementations.py:57-69 | A log holding one line `x` is sent to the client twice: as `x` in the snapshot and as `x` stripped by the first poll, which is `x` again for a line without surrounding blanks. |
| PollingPerClient.SessionDeliversAppended | log_viewer_implementations.py:59-71 | Corrected: with the offset starting at the end of the file the snapshot was read from, on a growing log what a client is sent after the snapshot is the text appended after the snapshot, cut in order into non-empty chunks, each stripped. Nothing from before the snapshot is sent again, and nothing is lost or sent twice. |
| PollingPerClient.QuietLogSendsOnlySnapshot | log_viewer_implementations.py:64-71 | Corrected: with the offset starting at the end of the file the snapshot was read from and no write after the snapshot, nothing follows the snapshot, however many times the client polls. |
| ServerPolling.InitialAsWritten | log_viewer_implementations.py:78-79 | The server starts with no clients and the shared offset at 0. |
| ServerPolling.Initial | log_viewer_implementations.py:79 | The corrected server starts with no clients and the shared offset at the end of the file, so the first poll reads nothing old. |
| ServerPolling.Connect | log_viewer_implementations.py:86-87 | A connecting client lists one fresh, empty queue last. |
| ServerPolling.Poll | log_viewer_implementations.py:96-102 | When text lies beyond the shared offset, every listed queue gets that text stripped and the offset moves to the end of the file. Otherwise nothing changes. |
| ServerPolling.Iterate | log_viewer_implementations.py:94-104 | One pass of a client's loop polls, then sends the front of the client's own queue, which loses that item. The offset and every other queue end as the poll left them. An empty queue sends the freshly read text. A client that gets nothing leaves the state as the poll left it. |
| ServerPolling.IterateIsPublishThenTake | log_viewer_implementations.py:94-104 | One pass of a client's loop is, on the registry, the poll's publish (if any) followed by that client's take, and what the client sends is what the take receives. So the first-in first-out properties of registry runs hold for the server's clients. |
| ServerPolling.Disconnect | log_viewer_implementations.py:106-107 | Cancellation unlists the client's queue (`ValueError` if it is not listed). Queue contents and the offset stay. |
| ServerPolling.PollEachFansOut | log_viewer_implementations.py:94-102 | Across any run of polls, every listed queue receives exactly the payloads a single reader polling from the shared offset would send, in order. Unlisted queues receive nothing. |
| ServerPolling.ServerDeliversAppended | log_viewer_implementations.py:94-104 | Corrected: over any run of polls, a server started at the end of the log gives every listed client whose queue was empty stripped chunks that concatenate to exactly the text appended since start-up. Whether the polls happen at all is not stated; see "Left out". |
| ServerPolling.AsWrittenFirstPollSendsHistory | log_viewer_implementations.py:79 | With the shared offset starting at 0, the first poll puts the whole file into every listed queue. |
| EventDriven.LastLine | log_viewer_implementations.py:120-121 | `readlines()[-1].strip()` is the last line of the file, stripped. On an empty file it raises `IndexError`. |
| EventDriven.LogFilePathIsBaseName | log_viewer_implementations.py:119 | The corrected filter accepts a path exactly when the path's last component is `log.txt`. |
| EventDriven.CorrectedFilterIsNarrower | log_viewer_implementations.py:119 | Every path the corrected filter accepts, `endswith(LOG_FILE)` accepts too. |
| EventDriven.AsWrittenAcceptsOtherFile | log_viewer_implementations.py:119 | For any file name without a slash that is longer than `log.txt` and ends in it (`catalog.txt`, say), `./<name>` passes `endswith("log.txt")` although its last component is not `log.txt`, and the corrected filter rejects it. |
| EventDriven.Notify | log_viewer_implementations.py:120-123 | Past the filter, every listed queue gets the log's stripped last line and no other queue changes. An empty log raises `IndexError`. |
| EventDriven.OnModified | log_viewer_implementations.py:118-123 | Corrected: with a filter on the last path component, an event for any file other than `log.txt` changes nothing. An event for the log runs the handler body. |
| EventDriven.OnModifiedAsWritten | log_viewer_implementations.py:118-123 | An event whose path ends in `log.txt` runs the handler body, and any other event changes nothing. Whenever the path's last component is `log.txt`, or the path does not end in `log.txt` at all, the result equals the corrected handler's. So the two differ only on paths such as `./catalog.txt`. |
| EventDriven.AsWrittenRepublishesOnOtherFile | log_viewer_implementations.py:118-123 | A change to `./<name>` for any such name (`./catalog.txt`, say) makes the code as written put another copy of the log's last line into every listed queue, while the corrected handler leaves the registry unchanged. |

## Left out

- Approach 1 (lines 39-47) sends a fresh snapshot every second. It is the snapshot of `TailRead` in the frame of `EventStream` and has no member of its own.
- FastAPI routing and `StreamingResponse`, the watchdog `Observer` start-up (lines 125-127) and every `asyncio.sleep` are left out. They are transport and timing.
- Concurrency is not modelled: the scheduling of coroutines, the watchdog thread, and suspension in `await queue.get()`. An empty queue is reported as "waiting" (`Take` returns `None`). Cancellation is the explicit `Leave`/`Disconnect` step.
- Text.Lines: splits at line feeds only. Python's `bytes.splitlines` also splits at a carriage return and at CR LF, and text-mode reads translate line endings. Logs are taken to use line feeds only.
- The UTF-8 decode of line 34 is the identity, and byte offsets are character offsets. `tell()` cookies are plain positions.
- EventStream.Parse: models only the `data` field and line-feed line endings of the event-stream format. The `event`, `id` and `retry` fields, a leading byte-order mark and CR line endings are left out. The model's receiver does not end a line at a carriage return, so the round trips say nothing about payloads that hold one. The program's payloads hold none: text-mode reads translate CR to LF, and `bytes.splitlines` splits at CR.
- Queues are unbounded sequences, as `asyncio.Queue()` is unbounded.
- A missing or unreadable `log.txt` is not modelled. The `open(...)` calls at lines 24, 65, 96 and 120 then raise `FileNotFoundError` or `OSError`, but the model's file is always a string, possibly empty.
- In approach 3, polls happen only inside a client's loop (line 96). A client whose poll reads nothing then waits at `await queue.get()` (line 103), and only another client's poll can wake it. On a quiet log every client ends up waiting, so no poll runs again: later appends reach no one until a new client connects. The model lets polls happen at any time, so `ServerPolling.ServerDeliversAppended` and `ServerPolling.PollEachFansOut` hold over any run of polls, but nothing states that those polls ever run.
- Exceptions raised in the watchdog thread (`IndexError` on an empty log) are returned as `Failure`. Their propagation is not modelled.
- In approach 3, text appended between the shared offset's last move and a new client's snapshot is sent to that client twice. This race between joining and polling is not modelled.

## Findings

| source | as written | input that shows it | evidently intended | confidence | as-written member | corrected member |
|---|---|---|---|---|---|---|
| log_viewer_implementations.py:57 | the per-client offset `last_pos` starts at 0 | a log holding the line `a`: the client gets `a` in the snapshot and `a` again from its first poll | resume reading where the snapshot ended, so only text appended after it is sent | high; not executed | PollingPerClient.AsWrittenRepeatsSnapshot | PollingPerClient.SessionDeliversAppended |
| log_viewer_implementations.py:79 | the shared offset `last_pos_3` starts at 0 | any non-empty log at the first poll: every client's queue receives the whole file after its snapshot | start at the end of the file, so only new text is broadcast | high; not executed | ServerPolling.AsWrittenFirstPollSendsHistory | ServerPolling.ServerDeliversAppended |
| log_viewer_implementations.py:119 | `event.src_path.endswith(LOG_FILE)` | a write to `./catalog.txt` in the watched directory re-sends the log's last line to every client | react only to the file named `log.txt` | medium; not executed | EventDriven.AsWrittenRepublishesOnOtherFile | EventDriven.LogFilePathIsBaseName |
| log_viewer_implementations.py:62 | `f"data: {payload}\n\n"` with a payload that spans lines | the snapshot `L1\nL2` is received as the single event `L1`, because the receiver ignores the line `L2`. The same loss hits the multi-line poll payloads sent at lines 69 and 102-104 | one `data:` line per payload line, so the client receives every payload whole | high; not executed | EventStream.TwoLineSnapshotLosesSecond | EventStream.StreamRoundTrip |
