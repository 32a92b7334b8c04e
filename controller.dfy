/**
 * The `GdbController` object: its process slot, the per-stream carry-overs, the lock around
 * reads, and the operations `verify_valid_gdb_subprocess`, `write`, `get_gdb_response`,
 * `_get_responses_unix`, `_get_responses_windows`, `_get_responses_list` and `exit`.
 */
module Controller {
  import opened Wrappers
  import opened GdbErrors
  import opened Lines
  import opened Reassembly
  import opened Records
  import opened Streams
  import opened Commands
  import opened ReadLoop

  /** The options of `get_gdb_response` (and the reading half of `write`). */
  datatype Request = Request(timeoutSec: real, raiseOnTimeout: bool, blocking: bool, waitForResult: bool)

  /**
   * What the operating system answers during one `get_gdb_response` call: `poll()` on the child
   * (`None` while it runs), the descriptors `select` reports ready, and what each pass of the
   * loop reads.
   */
  datatype Observed = Observed(poll: Option<int>, events: seq<int>, passes: seq<Pass>)

  /** `verify_valid_gdb_subprocess`: there must be a process, and it must not have exited. */
  function CheckProcess(attached: bool, poll: Option<int>): (r: Option<Error>)
    ensures r.None? <==> attached && poll.None?
    ensures !attached ==> r == Some(NoGdbProcess(NotAttached))
    ensures attached && poll.Some? ==> r == Some(NoGdbProcess(AlreadyFinished(poll.value)))
  {
    if !attached then Some(NoGdbProcess(NotAttached))
    else if poll.Some? then Some(NoGdbProcess(AlreadyFinished(poll.value)))
    else None
  }

  /** The reply of a read, the carry-overs it leaves, and whether the lock is still held. */
  datatype Effect = Effect(reply: Reply, incomplete: Incomplete, mutexHeld: bool)

  /**
   * `get_gdb_response`: check the process, clamp the timeout, take the lock, run the platform's
   * read loop from an empty list (only the Unix loop consults `select`), release the lock and
   * apply the timeout rule. The lock is not reentrant: taking it while it is held blocks, and
   * the call is still waiting. With `blocking_call` the Unix `select` has no timeout: while it
   * reports nothing ready, the call is still waiting too.
   */
  function GdbResponse(plat: Platform, dec: Decoder, fds: Fds, attached: bool, held: bool, inc: Incomplete, req: Request, obs: Observed): (e: Effect)
    ensures CheckProcess(attached, obs.poll).Some? ==> e == Effect(Raised(CheckProcess(attached, obs.poll).value), inc, held)
    ensures CheckProcess(attached, obs.poll).None? && !held ==> (e.mutexHeld <==> e.reply.StillWaiting?)
    ensures CheckProcess(attached, obs.poll).None? && !held && plat == Unix && req.blocking && obs.events == [] ==>
      e == Effect(StillWaiting([]), inc, true)
    ensures plat == Unix && req.blocking && !e.reply.StillWaiting? && CheckProcess(attached, obs.poll).None? ==> obs.events != []
    ensures e.reply.Raised? && e.reply.error.GdbTimeout? ==> req.raiseOnTimeout && e.reply.error.timeoutSec == ClampTimeout(req.timeoutSec)
    ensures e.reply.Raised? && e.reply.error.UnexpectedFileno? ==>
      plat == Unix && e.reply.error.fd in obs.events && e.reply.error.fd != fds.stdout && e.reply.error.fd != fds.stderr
    ensures e.reply.Returned? ==> e.reply.records != [] || !req.raiseOnTimeout
    ensures e.reply.Returned? ==> forall i :: 0 <= i < |e.reply.records| ==> e.reply.records[i].stream in {"stdout", "stderr"}
    ensures CarriesValid(inc) ==> CarriesValid(e.incomplete)
  {
    var check := CheckProcess(attached, obs.poll);
    if check.Some? then Effect(Raised(check.value), inc, held)
    else if held then Effect(StillWaiting([]), inc, held)
    else if plat == Unix && req.blocking && obs.events == [] then Effect(StillWaiting([]), inc, true)
    else
      var t := ClampTimeout(req.timeoutSec);
      var st := LoopState([], inc);
      var events := if plat == Unix then obs.events else [];
      var next := PassOf(plat, dec, fds, events);
      var mode := Mode(t, req.blocking, req.waitForResult);
      var run := RunFrom(plat, dec, fds, mode, events, obs.passes, st, 0);
      assert WellFormed(run.st, CarriesValid(inc)) by {
        PassOfKeepsWellFormed(plat, dec, fds, events, CarriesValid(inc));
        LoopKeepsWellFormed(next, plat, mode, obs.passes, st, 0, CarriesValid(inc));
      }
      assert run.Failed? ==> run.fd in Unknown(plat, fds, events) by {
        PassOfFailsOnlyOnUnknown(plat, dec, fds, events);
        LoopFailsOnlyOnUnknown(next, plat, mode, obs.passes, st, 0, Unknown(plat, fds, events));
      }
      Effect(Conclude(run, req.raiseOnTimeout, t), run.st.incomplete, run.Exhausted?)
  }

  class GdbController {
    /** `gdbmiparser.parse_response` and `gdbmiparser.response_is_finished`. */
    const decoder: Decoder
    /** `USING_WINDOWS`. */
    const platform: Platform
    /** `stdout_fileno` and `stderr_fileno`, the descriptors of `read_list`. */
    const fds: Fds
    /** Whether `gdb_process` holds a process object (it is set to `None` by `exit`). */
    var attached: bool
    /** `_incomplete_output`. */
    var incomplete: Incomplete
    /** Whether `mutex` is held. */
    var mutexHeld: bool
    /** Every command text written to gdb's stdin so far, in order. */
    var written: seq<string>
    /** How many times `terminate()` was called on the process. */
    var terminations: nat

    /** The carry-overs are ones the reassembler can leave behind, and both streams have an entry. */
    ghost predicate Valid()
      reads this
    {
      CarriesValid(incomplete) && "stdout" in incomplete && "stderr" in incomplete
    }

    /** A controller attached to a freshly started gdb, with nothing buffered and the lock free. */
    constructor (dec: Decoder, plat: Platform, outFd: int, errFd: int)
      ensures Valid()
      ensures decoder == dec && platform == plat && fds == Fds(outFd, errFd)
      ensures attached && incomplete == map["stdout" := None, "stderr" := None]
      ensures !mutexHeld && written == [] && terminations == 0
    {
      decoder := dec;
      platform := plat;
      fds := Fds(outFd, errFd);
      attached := true;
      incomplete := map["stdout" := None, "stderr" := None];
      mutexHeld := false;
      written := [];
      terminations := 0;
    }

    /** `verify_valid_gdb_subprocess`, given what `poll()` answers. */
    method VerifyValidGdbSubprocess(poll: Option<int>) returns (err: Option<Error>)
      ensures err == CheckProcess(attached, poll)
    {
      err := CheckProcess(attached, poll);
    }

    /**
     * `_get_responses_list`: reassemble the chunk with the stream's carry-over, then parse each
     * non-blank ready line that is not the prompt sentinel, tagging it with the stream.
     */
    method GetResponsesList(rawOutput: Option<Bytes>, stream: string) returns (responses: seq<Response>)
      requires Valid()
      modifies this`incomplete
      ensures Valid()
      ensures Step(responses, incomplete) == FeedStream(decoder, old(incomplete), stream, rawOutput)
    {
      ghost var want := FeedStream(decoder, incomplete, stream, rawOutput);
      FeedStreamPreservesCarries(decoder, incomplete, stream, rawOutput);
      var sp := Reassemble(rawOutput, Lookup(incomplete, stream));
      incomplete := incomplete[stream := sp.carry];
      assert incomplete == want.incomplete;
      responses := [];
      if !Truthy(sp.ready) {
        RecordsOfNothing(decoder, stream);
        return;
      }
      var lines := NonBlank(Split(sp.ready.value, NL));
      assert want.records == Tag(decoder, Filter(Unfinished(decoder), lines), stream);
      responses := ParseLines(lines, stream);
    }

    /**
     * The loop of `_get_responses_list`: parse each line in order, skipping the prompt
     * sentinel, and tag each record with `stream`.
     */
    method ParseLines(lines: seq<Bytes>, stream: string) returns (responses: seq<Response>)
      ensures responses == Tag(decoder, Filter(Unfinished(decoder), lines), stream)
    {
      responses := [];
      var i := 0;
      while i < |lines|
        invariant 0 <= i <= |lines|
        invariant responses == Tag(decoder, Filter(Unfinished(decoder), lines[..i]), stream)
      {
        FilterExtend(Unfinished(decoder), lines, i);
        if !decoder.isFinished(lines[i]) {
          TagAppend(decoder, Filter(Unfinished(decoder), lines[..i]), [lines[i]], stream);
          responses := responses + [Response(decoder.parse(lines[i]), stream)];
        }
        i := i + 1;
      }
      assert lines[..i] == lines;
    }

    /**
     * One pass of `_get_responses_unix`: read each descriptor `select` reported, in order, and
     * extend `responses` with what it yields; stop at the first descriptor that is neither
     * stdout nor stderr and report it, or quietly at the first read that raises.
     */
    method ReadEvents(events: seq<int>, p: Pass, responses: seq<Response>) returns (extended: seq<Response>, bad: Option<int>)
      requires Valid()
      modifies this`incomplete
      ensures Valid()
      ensures PassResult(LoopState(extended, incomplete), bad) == UnixPass(decoder, fds, events, p, LoopState(responses, old(incomplete)), 0)
    {
      ghost var target := UnixPass(decoder, fds, events, p, LoopState(responses, incomplete), 0);
      extended := responses;
      var j := 0;
      while j < |events|
        invariant j <= |events| && Valid()
        invariant target == UnixPass(decoder, fds, events, p, LoopState(extended, incomplete), j)
      {
        if events[j] != fds.stdout && events[j] != fds.stderr {
          UnixPassUnknown(decoder, fds, events, p, LoopState(extended, incomplete), j);
          return extended, Some(events[j]);
        }
        if j in p.failed {
          UnixPassReadFails(decoder, fds, events, p, LoopState(extended, incomplete), j);
          return extended, None;
        }
        extended := ReadDescriptor(events, p, j, extended);
        j := j + 1;
      }
      bad := None;
    }

    /** Read the `j`-th ready descriptor, stdout or stderr, and add what it yields to `responses`. */
    method ReadDescriptor(events: seq<int>, p: Pass, j: nat, responses: seq<Response>) returns (extended: seq<Response>)
      requires Valid() && j < |events| && (events[j] == fds.stdout || events[j] == fds.stderr) && j !in p.failed
      modifies this`incomplete
      ensures Valid()
      ensures UnixPass(decoder, fds, events, p, LoopState(responses, old(incomplete)), j) == UnixPass(decoder, fds, events, p, LoopState(extended, incomplete), j + 1)
    {
      var stream := if events[j] == fds.stdout then "stdout" else "stderr";
      ghost var before := LoopState(responses, incomplete);
      var more := GetResponsesList(ChunkAt(p, j), stream);
      UnixPassStep(decoder, fds, events, p, before, j, stream, more, incomplete);
      extended := responses + more;
    }

    /**
     * `_get_responses_unix`: `select` has reported `events` once; each pass reads every ready
     * descriptor in order, raising (after releasing the lock) on one it does not own, then
     * applies the stopping rule.
     */
    method GetResponsesUnix(mode: Mode, events: seq<int>, passes: seq<Pass>) returns (run: Run)
      requires Valid() && platform == Unix
      modifies this`incomplete, this`mutexHeld
      ensures Valid()
      ensures run == RunFrom(Unix, decoder, fds, mode, events, passes, LoopState([], old(incomplete)), 0)
      ensures incomplete == run.st.incomplete
      ensures mutexHeld == (old(mutexHeld) && !run.Failed?)
    {
      ghost var target := RunFrom(Unix, decoder, fds, mode, events, passes, LoopState([], incomplete), 0);
      var responses: seq<Response> := [];
      var k := 0;
      while k < |passes|
        invariant k <= |passes| && Valid() && mutexHeld == old(mutexHeld)
        invariant target == RunFrom(Unix, decoder, fds, mode, events, passes, LoopState(responses, incomplete), k)
      {
        ghost var start := LoopState(responses, incomplete);
        var bad;
        responses, bad := ReadEvents(events, passes[k], responses);
        assert PassOf(Unix, decoder, fds, events)(passes[k], start) == PassResult(LoopState(responses, incomplete), bad);
        if bad.Some? {
          mutexHeld := false;
          return Failed(LoopState(responses, incomplete), bad.value);
        }
        var stop;
        if mode.blocking {
          var received := true;
          if mode.waitForResult {
            received := ResultReceived(responses);
          }
          stop := received;
        } else if mode.timeoutSec == 0.0 {
          stop := true;
        } else {
          stop := passes[k].expired;
        }
        if stop {
          return Stopped(LoopState(responses, incomplete), k + 1);
        }
        LoopGoesOn(PassOf(Unix, decoder, fds, events), Unix, mode, passes, start, k);
        k := k + 1;
      }
      run := Exhausted(LoopState(responses, incomplete));
    }

    /**
     * One `try` block of a Windows pass: read `stream` and add what it yields to `responses`,
     * or, when the read raises, change nothing.
     */
    method ReadStream(p: Pass, j: nat, stream: string, responses: seq<Response>) returns (extended: seq<Response>)
      requires Valid() && stream in {"stdout", "stderr"}
      modifies this`incomplete
      ensures Valid()
      ensures LoopState(extended, incomplete) == ReadInto(decoder, LoopState(responses, old(incomplete)), stream, p, j)
    {
      extended := responses;
      if j !in p.failed {
        var more := GetResponsesList(ChunkAt(p, j), stream);
        extended := responses + more;
      }
    }

    /**
     * `_get_responses_windows`: each pass reads stdout, then stderr, skipping a read that raises,
     * then applies the stopping rule.
     */
    method GetResponsesWindows(mode: Mode, passes: seq<Pass>) returns (run: Run)
      requires Valid() && platform == Windows
      modifies this`incomplete
      ensures Valid()
      ensures run == RunFrom(Windows, decoder, fds, mode, [], passes, LoopState([], old(incomplete)), 0)
      ensures incomplete == run.st.incomplete
      ensures !run.Failed?
    {
      ghost var target := RunFrom(Windows, decoder, fds, mode, [], passes, LoopState([], incomplete), 0);
      var responses: seq<Response> := [];
      var k := 0;
      assert target == RunFrom(Windows, decoder, fds, mode, [], passes, LoopState(responses, incomplete), k);
      while k < |passes|
        invariant k <= |passes| && Valid()
        invariant target == RunFrom(Windows, decoder, fds, mode, [], passes, LoopState(responses, incomplete), k)
      {
        ghost var start := LoopState(responses, incomplete);
        responses := ReadStream(passes[k], 0, "stdout", responses);
        responses := ReadStream(passes[k], 1, "stderr", responses);
        assert PassOf(Windows, decoder, fds, [])(passes[k], start) == PassResult(LoopState(responses, incomplete), None);
        var stop := false;
        if mode.blocking {
          var received := true;
          if mode.waitForResult {
            received := ResultReceived(responses);
          }
          stop := received;
        }
        if stop || passes[k].expired {
          run := Stopped(LoopState(responses, incomplete), k + 1);
          return;
        }
        LoopGoesOn(PassOf(Windows, decoder, fds, []), Windows, mode, passes, start, k);
        k := k + 1;
        assert target == RunFrom(Windows, decoder, fds, mode, [], passes, LoopState(responses, incomplete), k);
      }
      run := Exhausted(LoopState(responses, incomplete));
    }

    /** `get_gdb_response`. */
    method GetGdbResponse(req: Request, obs: Observed) returns (reply: Reply)
      requires Valid()
      modifies this`incomplete, this`mutexHeld
      ensures Valid()
      ensures Effect(reply, incomplete, mutexHeld) == GdbResponse(platform, decoder, fds, attached, old(mutexHeld), old(incomplete), req, obs)
    {
      var err := VerifyValidGdbSubprocess(obs.poll);
      if err.Some? {
        return Raised(err.value);
      }
      var t := ClampTimeout(req.timeoutSec);
      if mutexHeld {
        return StillWaiting([]);
      }
      mutexHeld := true;
      if platform == Unix && req.blocking && obs.events == [] {
        return StillWaiting([]);
      }
      var mode := Mode(t, req.blocking, req.waitForResult);
      var run;
      if platform == Windows {
        run := GetResponsesWindows(mode, obs.passes);
      } else {
        run := GetResponsesUnix(mode, obs.events, obs.passes);
      }
      if run.Exhausted? {
        return StillWaiting(run.st.responses);
      }
      mutexHeld := false;
      reply := Conclude(run, req.raiseOnTimeout, t);
    }

    /**
     * `write`: check the process, clamp the timeout, normalise the command, write it when the
     * `select` on stdin reports it writable (always on Windows), then read the response if asked
     * to. `writePoll` is what `poll()` answers at the start of `write`; the read asks again
     * (`obs.poll`), so gdb may exit in between, for instance on `-gdb-exit`. With `blocking_call`
     * the Unix `select` on stdin has no timeout: until stdin is writable the call is still waiting.
     */
    method Write(cmd: Command, req: Request, readResponse: bool, writePoll: Option<int>, stdinReady: bool, obs: Observed) returns (reply: Reply)
      requires Valid()
      modifies this`incomplete, this`mutexHeld, this`written
      ensures Valid()
      ensures CheckProcess(attached, writePoll).Some? ==>
        reply == Raised(CheckProcess(attached, writePoll).value) && unchanged(this)
      ensures CheckProcess(attached, writePoll).None? && Normalize(cmd).Failure? ==>
        reply == Raised(Normalize(cmd).error) && unchanged(this)
      ensures CheckProcess(attached, writePoll).None? && Normalize(cmd).Success? && platform == Unix && req.blocking && !stdinReady ==>
        reply == StillWaiting([]) && unchanged(this)
      ensures CheckProcess(attached, writePoll).None? && Normalize(cmd).Success? && !(platform == Unix && req.blocking && !stdinReady) ==>
        && written == old(written) + (if platform == Windows || stdinReady then [Normalize(cmd).value] else [])
        && Effect(reply, incomplete, mutexHeld) ==
          if readResponse then
            GdbResponse(platform, decoder, fds, attached, old(mutexHeld), old(incomplete),
                        Request(ClampTimeout(req.timeoutSec), req.raiseOnTimeout, req.blocking, req.waitForResult), obs)
          else Effect(Returned([]), old(incomplete), old(mutexHeld))
    {
      var err := VerifyValidGdbSubprocess(writePoll);
      if err.Some? {
        return Raised(err.value);
      }
      var t := ClampTimeout(req.timeoutSec);
      var text := Normalize(cmd);
      if text.Failure? {
        return Raised(text.error);
      }
      if platform == Unix && req.blocking && !stdinReady {
        return StillWaiting([]);
      }
      if platform == Windows || stdinReady {
        written := written + [text.value];
      }
      if readResponse {
        reply := GetGdbResponse(Request(t, req.raiseOnTimeout, req.blocking, req.waitForResult), obs);
      } else {
        reply := Returned([]);
      }
    }

    /** `exit`: terminate the process if there is one, and drop it. */
    method Exit()
      modifies this`attached, this`terminations
      ensures !attached
      ensures terminations == old(terminations) + (if old(attached) then 1 else 0)
    {
      if attached {
        terminations := terminations + 1;
      }
      attached := false;
    }
  }

  /** After `exit`, a second `exit` terminates nothing and every `write` raises NoGdbProcessError. */
  method ExitThenWrite(c: GdbController, cmd: Command, req: Request, readResponse: bool, writePoll: Option<int>, stdinReady: bool, obs: Observed) returns (reply: Reply)
    requires c.Valid()
    modifies c
    ensures !c.attached && c.terminations == old(c.terminations) + (if old(c.attached) then 1 else 0)
    ensures reply == Raised(NoGdbProcess(NotAttached))
    ensures c.written == old(c.written) && c.incomplete == old(c.incomplete)
  {
    c.Exit();
    c.Exit();
    reply := c.Write(cmd, req, readResponse, writePoll, stdinReady, obs);
  }

  /**
   * `poll()` may report the process running when `write` checks it and finished when the read
   * checks again: the command is written and the read raises NoGdbProcessError with the code.
   */
  method WriteThenGdbExits(c: GdbController, cmd: Command, req: Request, stdinReady: bool, code: int, events: seq<int>, passes: seq<Pass>) returns (reply: Reply)
    requires c.Valid() && c.attached && Normalize(cmd).Success?
    requires c.platform == Windows || stdinReady
    modifies c
    ensures reply == Raised(NoGdbProcess(AlreadyFinished(code)))
    ensures c.written == old(c.written) + [Normalize(cmd).value]
    ensures c.incomplete == old(c.incomplete) && c.mutexHeld == old(c.mutexHeld)
  {
    reply := c.Write(cmd, req, true, None, stdinReady, Observed(Some(code), events, passes));
  }
}
