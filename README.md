# pygdbmi's GdbController, modelled in Dafny

This project models the core of `pygdbmi/gdbcontroller.py`. That file holds the `GdbController` object, which runs gdb with the
machine interface (MI) and turns its output into records. The model covers four parts:

- **Stream reassembly** (`_buffer_incomplete_responses`). A read from gdb's stdout or stderr may end in the middle of a record.
  The unterminated tail is carried over and put in front of the next read. The only bytes handed on are those that end in a line break.
- **Record extraction** (`_get_responses_list`). The controller keeps one carry-over per stream (`_incomplete_output`).
  It splits the ready bytes at line breaks and drops blank lines. It skips the `(gdb)` prompt line, parses every other line and
  tags each record with the stream it came from.
- **The read loops** of `_get_responses_unix` and `_get_responses_windows`, and their stopping rules. Also the timeout outcome
  of `get_gdb_response`.
- **The controller's bookkeeping**:
  - the process check (`verify_valid_gdb_subprocess`);
  - command normalisation and the timeout clamp in `write`;
  - the lock around a read;
  - `exit`.

The modules, in dependency order:

- `Wrappers` and `GdbErrors`: `Option`/`Result`, and the exceptions the controller raises.
- `Lines`: Python's `split`, `join` and `filter` on sequences, with their laws.
- `Reassembly`: bytes, the carry-over and `_buffer_incomplete_responses`.
- `Records`: the decoder, records and what the ready bytes of one stream yield.
- `Streams`: the per-stream carry-overs and what feeding one chunk or many chunks yields.
- `Commands`: the timeout clamp and command normalisation of `write`.
- `ReadLoop`: one pass of either read loop, the loop itself, its stopping rules and the timeout outcome.
- `Controller`: the `GdbController` class, whose methods update its fields as the Python methods do. Each read and write
  method is proved equal to the functions above; `exit` states its new state directly.

The operating system is an input. Three things are given as data:

- the descriptors `select` reports ready;
- what each read of a pipe returns, or that it raised, one `Pass` per turn of the `while True` loop;
- whether the deadline had passed when a pass ended.

The answers of `poll()` are given the same way: `write` asks once and `get_gdb_response` asks again, so each call has its own
answer. Whether stdin became writable is given too. A finite list of passes that runs out before
the loop breaks gives `StillWaiting`, because the Python call would still be waiting. `gdbmiparser.parse_response` and
`response_is_finished` are not part of this model. They are a `Decoder`: a pair of arbitrary functions. Every property holds for
every such pair.

Where the documentation and the code disagree, the model follows the code:

- The docstring of `get_gdb_response` says that when the lock cannot be obtained, nothing is read and an empty list is returned.
  The code calls `multiprocessing.Lock.acquire(1)`, whose first argument is `block`, so it waits for as long as the lock is held.
  The model answers `StillWaiting([])` when the lock is already held.
- `write` documents the timeout as an `int` that "must be >= 0". The code accepts any number and replaces a negative one with 0.
  The model uses `real`.

## Model

| member | source | states |
|---|---|---|
| Lines.Split | pygdbmi/gdbcontroller.py:325 | `split('\n')` always yields at least one piece (the pieces themselves are stated by the next rows) |
| Lines.SplitPieces | pygdbmi/gdbcontroller.py:325 | no piece of `split('\n')` contains a line break |
| Lines.JoinSplit | pygdbmi/gdbcontroller.py:325 | joining the pieces of a split with the separator gives back the original bytes |
| Lines.SplitJoin | pygdbmi/gdbcontroller.py:133 | splitting the `'\n'.join` of separator-free pieces gives back exactly those pieces |
| Lines.SplitAround | pygdbmi/gdbcontroller.py:325 | splitting `a + sep + b` gives the pieces of `a` followed by the pieces of `b` |
| Lines.SplitWithoutSep | pygdbmi/gdbcontroller.py:325 | bytes without a separator split into themselves alone |
| Lines.Join | pygdbmi/gdbcontroller.py:133 | no pieces join to nothing; a join begins with the first piece and holds a separator as soon as there are two pieces |
| Lines.JoinLast | pygdbmi/gdbcontroller.py:133 | a join ends as its last piece does |
| Lines.Filter | pygdbmi/gdbcontroller.py:325 | `filter` never yields more elements than it is given |
| Lines.FilterKeeps | pygdbmi/gdbcontroller.py:325 | `filter` keeps exactly the elements that satisfy the test |
| Lines.FilterAppend | pygdbmi/gdbcontroller.py:325 | `filter` distributes over concatenation, so it keeps the order of what it keeps |
| Lines.FilterExtend | pygdbmi/gdbcontroller.py:328-336 | filtering one more element appends it exactly when the test holds, which is the step of the parse loop |
| Reassembly.Truthy | pygdbmi/gdbcontroller.py:366-367 | a truthy byte string is present, and `b''` is false like `None` |
| Reassembly.Text | pygdbmi/gdbcontroller.py:366-368 | the bytes `x or b''` stands for: those of a present string, and empty exactly when the value is false |
| Reassembly.Cut | pygdbmi/gdbcontroller.py:375-378 | the cut lies just after a line break (or at 0), and no line break follows it |
| Reassembly.CutUnique | pygdbmi/gdbcontroller.py:375-378 | any split into whole lines followed by a tail without a line break is the cut |
| Reassembly.CutAfterWholeLines | pygdbmi/gdbcontroller.py:375-378 | whole lines in front of `b` shift its cut by their length and leave its tail unchanged |
| Reassembly.LastNewline | pygdbmi/gdbcontroller.py:376 | `rindex(b'\n')` is the position of a line break with none after it |
| Reassembly.Reassemble | pygdbmi/gdbcontroller.py:350-380 | byte conservation: the ready bytes followed by the new carry-over equal the old carry-over followed by the chunk |
| Reassembly.SplitCombined | pygdbmi/gdbcontroller.py:371-380 | the second half of the function loses no byte of the combined buffer |
| Reassembly.ReassembleIdle | pygdbmi/gdbcontroller.py:366-380 | an empty or `None` chunk gives `(chunk, buf)` with the carry-over unchanged |
| Reassembly.ReassembleShape | pygdbmi/gdbcontroller.py:366-378 | no line break: nothing is ready and everything is carried. Otherwise the ready bytes end in a line break and the carry-over holds none. Bytes ending in a line break leave nothing carried |
| Reassembly.SplitCombinedShape | pygdbmi/gdbcontroller.py:371-378 | the same three cases, stated of the combined buffer |
| Reassembly.ReassembleSplitsAtLastNewline | pygdbmi/gdbcontroller.py:366-380 | the ready bytes are exactly everything up to the last line break of carry-over plus chunk, and the carry-over is exactly the rest |
| Reassembly.CutOfWholeLines | pygdbmi/gdbcontroller.py:375-378 | whole lines followed by a tail without a line break are split exactly at the cut |
| Reassembly.ReadyIsWholeLines | pygdbmi/gdbcontroller.py:366-380 | the ready bytes are empty or end in a line break |
| Reassembly.CutIsWholeLines | pygdbmi/gdbcontroller.py:375-378 | what precedes the cut ends on a line boundary |
| Reassembly.ReassemblePreservesCarry | pygdbmi/gdbcontroller.py:366-380 | a carry-over that is `None`, or non-empty without a line break, stays so |
| Reassembly.ValidCarryByText | pygdbmi/gdbcontroller.py:366-380 | two well-formed carry-overs holding the same bytes are equal, so `None` and `b''` never both occur |
| Records.NonBlank | pygdbmi/gdbcontroller.py:325 | `filter(lambda x: x, ...)` keeps exactly the non-empty lines |
| Records.ReadyLines | pygdbmi/gdbcontroller.py:325-329 | no line that is parsed is blank or the prompt sentinel |
| Records.Tag | pygdbmi/gdbcontroller.py:328-336 | one record per line, in the order of the lines, each the parse of its line tagged with the stream |
| Records.ReadyLinesAre | pygdbmi/gdbcontroller.py:325-333 | the lines that are parsed are exactly the non-blank, non-prompt pieces between line breaks, and none holds a line break |
| Records.RecordsOf | pygdbmi/gdbcontroller.py:332-336 | every record carries the `stream` key of the stream it was read from |
| Records.TagAppend | pygdbmi/gdbcontroller.py:328-336 | parsing and tagging two runs of lines gives the records of the first followed by those of the second |
| Records.RecordsOfNothing | pygdbmi/gdbcontroller.py:322-323 | no ready bytes give no records |
| Records.RecordsAppend | pygdbmi/gdbcontroller.py:325-339 | the records of whole lines followed by more bytes are those of the lines followed by those of the rest |
| Records.RecordsOfOneLine | pygdbmi/gdbcontroller.py:325-336 | one record line followed by a prompt line yields exactly the record parsed from the first line |
| Streams.FeedStream | pygdbmi/gdbcontroller.py:320-339 | one call changes only `_incomplete_output[stream]`, adding the key if missing, and tags every record with `stream` |
| Streams.Lookup | pygdbmi/gdbcontroller.py:320 | `.get(stream)`: the stored carry-over, or `None` for a stream never seen |
| Streams.FeedAll | pygdbmi/gdbcontroller.py:320-339 | repeated calls on one stream add no key but `stream`, leave every other stream's carry-over as it was, and tag every record with `stream` |
| Streams.FeedStreamPreservesCarries | pygdbmi/gdbcontroller.py:320 | every carry-over stays well-formed |
| Streams.PartialThenRemainder | pygdbmi/tests/test_app.py:116-133 | a partial record yields no records and is kept as the carry-over. The rest of its line and a prompt line then yield exactly its record, tagged with the stream, and leave nothing carried |
| Streams.FeedAllKeepsOtherStreams | pygdbmi/gdbcontroller.py:320 | feeding one stream never changes another stream's carry-over |
| Streams.WholeLinesFirst | pygdbmi/gdbcontroller.py:320-339 | whole lines in front of more bytes contribute their records first and do not change the tail |
| Streams.FeedAllIsWholeFeed | pygdbmi/gdbcontroller.py:320-339 | chunks fed one by one yield the records of every complete line of carry-over plus chunks, and carry exactly what follows the last line break |
| Streams.ChunkingInvariance | pygdbmi/tests/test_app.py:135-165 | two chunkings of the same bytes yield the same ordered records and the same carry-over for every stream |
| Streams.PiecewiseIsWhole | pygdbmi/tests/test_app.py:144-155 | feeding chunks one by one yields the same records as feeding their bytes at once |
| Streams.TerminatedStreamLeavesNoCarry | pygdbmi/tests/test_app.py:164-165 | a stream whose bytes end in a line break leaves `None` as its carry-over |
| Commands.ClampTimeout | pygdbmi/gdbcontroller.py:123-125 | a negative timeout becomes 0 and any other is kept |
| Commands.FirstOther | pygdbmi/gdbcontroller.py:132-133 | the first element of a list command that is not a str, every element before it being a str; none exactly when all are str |
| Commands.JoinedItemsSplit | pygdbmi/gdbcontroller.py:132-133 | a non-empty list of one-line str elements, joined by line breaks, splits back into its elements |
| Commands.Joined | pygdbmi/gdbcontroller.py:130-133 | a str is sent as it is; a list of one-line str elements joins into text that splits back into those elements |
| Commands.Normalize | pygdbmi/gdbcontroller.py:130-143 | TypeError exactly for a type other than str or list, or for a list holding an element that is not a str, named by the type of the first such element. Otherwise the text ends in a line break, starts with the command text (a list joined by line breaks) and is at most one byte longer; a text already ending in a line break is kept |
| Commands.NormalizeIdempotent | pygdbmi/gdbcontroller.py:140-143 | a normalised command sent again is sent unchanged |
| Commands.TerminatedJoinSplits | pygdbmi/gdbcontroller.py:133-143 | one-line texts, the last non-empty, joined by line breaks do not end in one, so a line break is appended, and the result splits into the texts and an empty tail |
| Commands.BatchRoundTrip | pygdbmi/gdbcontroller.py:132-143 | a list of one-line commands, the last non-empty, is sent as exactly those lines, each followed by a line break |
| ReadLoop.Absorb | pygdbmi/gdbcontroller.py:285 | `responses.extend(...)` only appends |
| ReadLoop.UnixPass | pygdbmi/gdbcontroller.py:268-288 | a pass only appends records; a read that raises ends it quietly, since one `try` encloses the whole `for` |
| ReadLoop.UnixPassStep | pygdbmi/gdbcontroller.py:271-285 | what a pass yields from a stdout or stderr descriptor on depends only on the records and carry-overs one `_get_responses_list` call on its chunk leaves; this is the step `ReadDescriptor` advances by |
| ReadLoop.UnixPassReadFails | pygdbmi/gdbcontroller.py:268-288 | a stdout or stderr read that raises ends the pass without an error, and no descriptor after it is read |
| ReadLoop.UnixPassUnknown | pygdbmi/gdbcontroller.py:281-283 | a descriptor other than stdout or stderr ends the pass with that descriptor, and no descriptor after it is read |
| ReadLoop.FirstUnknownFinds | pygdbmi/gdbcontroller.py:268-288 | an unknown descriptor is found exactly when one is ready with no raising read before it, and only such a descriptor is found |
| ReadLoop.UnixPassBad | pygdbmi/gdbcontroller.py:268-288 | whatever the reads return, a pass stops on the first unknown descriptor unless a read before it raised |
| ReadLoop.UnixPassRaises | pygdbmi/gdbcontroller.py:268-288 | a pass raises exactly when a ready descriptor is neither stdout nor stderr and no read before it raised, and then on such a descriptor |
| ReadLoop.ReadInto | pygdbmi/gdbcontroller.py:226-236 | a Windows read that raises is skipped and changes nothing; any other is one `_get_responses_list` step |
| ReadLoop.WindowsPass | pygdbmi/gdbcontroller.py:224-236 | a Windows pass reads stdout and then stderr; it only appends records and leaves the carry-over of every other stream as it was; a read that raises does not stop the other |
| ReadLoop.OnePass | pygdbmi/gdbcontroller.py:224-285 | a pass on either platform only appends records, and only a Unix pass can stop on a descriptor |
| ReadLoop.Stops | pygdbmi/gdbcontroller.py:238-307 | the stopping rule: a blocking call breaks once it does not wait for a result or has one, on Unix exactly then and on Windows exactly then or past the deadline; without a blocking call only the deadline breaks, or a zero timeout on Unix; on Windows the deadline always breaks |
| ReadLoop.ResultReceived | pygdbmi/gdbcontroller.py:293-296 | the scan reports a result exactly when some accumulated record has `type == 'result'` |
| ReadLoop.Loop | pygdbmi/gdbcontroller.py:223-307 | the `while True` loop: when it breaks it does so after a pass it ran and the stopping rule held then; when the given passes run out, the rule did not hold after the last of them |
| ReadLoop.RunFrom | pygdbmi/gdbcontroller.py:223-307 | the platform's loop only appends records, and raises only on Unix, on a ready descriptor that is neither stdout nor stderr |
| ReadLoop.LoopGoesOn | pygdbmi/gdbcontroller.py:267-307 | after a pass that neither raises nor breaks, the loop's outcome is that of the loop from the next pass on the new state; this is the step the read methods' loop invariants advance by |
| ReadLoop.PassOfExtends | pygdbmi/gdbcontroller.py:223-285 | every pass on either platform only appends records |
| ReadLoop.LoopExtends | pygdbmi/gdbcontroller.py:223-307 | the loop only appends records |
| ReadLoop.TaggedAppend | pygdbmi/gdbcontroller.py:285 | appending records of stdout or stderr keeps every record tagged with one of them |
| ReadLoop.AbsorbKeepsTagged | pygdbmi/gdbcontroller.py:274-285 | reading stdout or stderr keeps every record tagged with one of the two |
| ReadLoop.AbsorbKeepsWellFormed | pygdbmi/gdbcontroller.py:274-285 | reading keeps records tagged and carry-overs well-formed |
| ReadLoop.UnixPassKeepsWellFormed | pygdbmi/gdbcontroller.py:269-285 | a Unix pass keeps records tagged and carry-overs well-formed |
| ReadLoop.PassOfKeepsWellFormed | pygdbmi/gdbcontroller.py:224-285 | a pass on either platform keeps records tagged and carry-overs well-formed |
| ReadLoop.LoopKeepsWellFormed | pygdbmi/gdbcontroller.py:223-309 | however the loop ends, its records are tagged stdout or stderr and its carry-overs are well-formed |
| ReadLoop.LoopFailsOnlyOnUnknown | pygdbmi/gdbcontroller.py:281-283 | the loop raises only on a descriptor a pass can raise on |
| ReadLoop.PassOfFailsOnlyOnUnknown | pygdbmi/gdbcontroller.py:281-283 | a Windows pass never raises, and a Unix pass raises only on a ready unknown descriptor |
| ReadLoop.LoopStopsAtFirstChance | pygdbmi/gdbcontroller.py:290-307 | the loop breaks after the first pass whose stopping rule holds. The rule held after no earlier pass, and if the passes run out it held after none |
| ReadLoop.LeavesAfterFirstPass | pygdbmi/gdbcontroller.py:290-304 | blocking without `wait_for_result`, or non-blocking with a zero timeout on Unix, leaves after the first pass |
| ReadLoop.WaitForResultRule | pygdbmi/gdbcontroller.py:290-301 | with `blocking_call` and `wait_for_result` on Unix, the loop leaves exactly when a result record has been accumulated |
| ReadLoop.WindowsWaitRuleOf | pygdbmi/gdbcontroller.py:238-253 | the Windows rule below, for any pass function |
| ReadLoop.WindowsWaitRule | pygdbmi/gdbcontroller.py:238-253 | with `blocking_call` and `wait_for_result` on Windows, the loop leaves after a pass by which a result record has accumulated or the deadline has passed; after every earlier pass neither had happened, and if the passes run out neither happened after any of them |
| ReadLoop.DeadlineRuleOf | pygdbmi/gdbcontroller.py:252-307 | the deadline rule below, for any pass function |
| ReadLoop.DeadlineRule | pygdbmi/gdbcontroller.py:252-307 | without `blocking_call` (and, on Unix, a non-zero timeout) the loop leaves after the first pass past the deadline and not before |
| ReadLoop.UnknownDescriptorRaises | pygdbmi/gdbcontroller.py:268-288 | on Unix a ready unknown descriptor with no raising read before it in the first pass makes the loop raise with such a descriptor |
| ReadLoop.Respond | pygdbmi/gdbcontroller.py:214-217 | GdbTimeoutError exactly when the list is empty and `raise_error_on_timeout` is set; otherwise the list is returned |
| ReadLoop.Conclude | pygdbmi/gdbcontroller.py:212-217 | once the loop is left: still waiting exactly while it has not left, ValueError exactly when it met an unknown descriptor, GdbTimeoutError exactly when it broke with no records and raising was asked for, and otherwise the records |
| ReadLoop.ZeroTimeoutWithNothingReady | pygdbmi/gdbcontroller.py:261-304 | non-blocking with zero timeout and nothing ready returns `[]` at once, or raises GdbTimeoutError when asked to, and keeps the carry-overs |
| Controller.CheckProcess | pygdbmi/gdbcontroller.py:90-96 | NoGdbProcessError exactly when there is no process or `poll()` reports an exit code, and with that code |
| Controller.GdbResponse | pygdbmi/gdbcontroller.py:198-217 | a failed check changes nothing. With the lock free, it stays held only while still waiting. A timeout error reports the clamped timeout and needs `raise_error_on_timeout`. A ValueError names a ready unknown descriptor, on Unix only. A blocking Unix call whose `select` reports nothing is still waiting, holding the lock, and nothing is returned or raised from a blocking Unix read unless `select` reported a descriptor. A returned list is non-empty unless no raise was asked for, and tagged stdout/stderr. Carry-overs stay well-formed |
| Controller.GdbController.constructor | pygdbmi/gdbcontroller.py:80-88 | a new controller has a process, both carry-overs `None` and the lock free |
| Controller.GdbController.VerifyValidGdbSubprocess | pygdbmi/gdbcontroller.py:90-96 | its answer is the process check |
| Controller.GdbController.GetResponsesList | pygdbmi/gdbcontroller.py:311-339 | the returned records and the new `_incomplete_output` are those of one call of FeedStream |
| Controller.GdbController.ParseLines | pygdbmi/gdbcontroller.py:328-339 | the loop parses the non-prompt lines, in order, each tagged with the stream |
| Controller.GdbController.ReadEvents | pygdbmi/gdbcontroller.py:268-288 | one pass over the ready descriptors gives the records and carry-overs of UnixPass, and reports the unknown descriptor it stopped on, if it was not ended by a read that raised |
| Controller.GdbController.ReadDescriptor | pygdbmi/gdbcontroller.py:271-285 | reading one stdout or stderr descriptor advances UnixPass by one descriptor |
| Controller.GdbController.GetResponsesUnix | pygdbmi/gdbcontroller.py:256-309 | the run is the Unix read loop, and the carry-overs are those it leaves. The lock is released exactly on the unknown-descriptor path |
| Controller.GdbController.ReadStream | pygdbmi/gdbcontroller.py:226-236 | one `try` block of a Windows pass leaves the records and carry-overs of ReadInto |
| Controller.GdbController.GetResponsesWindows | pygdbmi/gdbcontroller.py:219-254 | the run is the Windows read loop, which never raises, and the carry-overs are those it leaves |
| Controller.GdbController.GetGdbResponse | pygdbmi/gdbcontroller.py:173-217 | reply, carry-overs and lock are those GdbResponse gives for the old state |
| Controller.GdbController.Write | pygdbmi/gdbcontroller.py:98-171 | a failed process check (on the `poll()` answer at the start of `write`) or a bad command raises and changes nothing. A blocking Unix call whose stdin is not writable is still waiting and changes nothing. Otherwise the normalised text is written when stdin is writable (always on Windows), and then either read as `get_gdb_response`, which asks `poll()` again, with the clamped timeout, or `[]` is returned |
| Controller.GdbController.Exit | pygdbmi/gdbcontroller.py:341-347 | afterwards there is no process; `terminate()` was called once if there was one, and never otherwise |
| Controller.WriteThenGdbExits | pygdbmi/gdbcontroller.py:122-198 | gdb running when `write` checks and finished when `get_gdb_response` checks: the command is written, and NoGdbProcessError reports the exit code, with the carry-overs and the lock unchanged |
| Controller.ExitThenWrite | pygdbmi/tests/test_app.py:99-110 | after `exit`, a second `exit` terminates nothing more and `write` raises NoGdbProcessError without writing or reading |

## Left out

- Process start-up: `find_executable`, `subprocess.Popen` and the `ValueError`s for a bad gdb path. They are operating-system
  calls. The constructor starts from "a process is attached", with the two descriptors as parameters.
- `_make_non_blocking`: `fcntl` and Win32 calls with no logic to model.
- `select.select`, the pipe reads, writes and flushes. Their results are inputs: the ready descriptors, one chunk per read per pass,
  and `stdinReady` for the write side. A `select` without a timeout (with `blocking_call` on Unix) that has reported nothing yet
  leaves the call still waiting. What is written to stdin is recorded in `written`, not sent.
- `poll()` and `terminate()`. `poll()` is an input, one answer for `write`'s check and one for `get_gdb_response`'s. `terminate()` is counted in `terminations`.
- `time.time()`. A wall-clock deadline becomes the `expired` flag of each pass. Because the passes are a finite list, a loop
  that would still be running after the last given pass ends as `StillWaiting`.
- The `multiprocessing.Lock` is the boolean `mutexHeld`. Concurrency between threads is not modelled.
- `gdbmiparser.parse_response` and `response_is_finished`: they are not part of this model. They are arbitrary total functions
  held by the `Decoder`, so a decoder that raises is not modelled. In Python such an exception would leave `get_gdb_response`
  with the lock still held, since nothing between the acquire and the release catches it. It would also leave the stream's
  carry-over already updated by the reassembly.
- The default arguments of `write` and `get_gdb_response` (a 1-second timeout, raising on timeout, reading the response, not
  blocking, not waiting for a result). They are not modelled separately: every value of every argument is covered.
- The UTF-8 `.decode()` before splitting. It is the identity here: lines stay byte strings.
- `print`/`pprint` output and the `verbose` flag.
- The cause of an OSError in `flush()` or `read()`. Under Python 3, `IOError` is `OSError`, so `except IOError` catches any of
  them. The model takes as given which reads raised (`Pass.failed`): on Windows such a read is skipped, and on Unix it ends the
  pass. The comment at pygdbmi/gdbcontroller.py:287 says this happens only under Python 2.7; the model follows the code instead.
- The `developer error` print in `write` for a writable descriptor other than stdin. `write_list` holds only stdin, so that branch
  cannot be reached.
- The Unix result scan has no `break`, while the Windows one has one. The outcome is the same, so both use `ResultReceived`.
- Controller.GdbController.GetResponsesList: the method requires `Valid()`, a condition on the controller's state only (both
  streams have an entry and every carry-over is well-formed), which every controller keeps from its constructor on. Any stream
  name is accepted, `'teststream'` included.
