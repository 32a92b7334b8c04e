/**
 * The read loop of `_get_responses_unix` and `_get_responses_windows`, over what the operating
 * system reports: the descriptors `select` found ready, what each read returned on each pass,
 * and whether the deadline had passed when a pass ended. Also the timeout outcome of
 * `get_gdb_response`.
 */
module ReadLoop {
  import opened Wrappers
  import opened Reassembly
  import opened Records
  import opened Streams
  import opened GdbErrors

  datatype Platform = Unix | Windows

  /** The caller's options: `timeout_sec` (already clamped), `blocking_call`, `wait_for_result`. */
  datatype Mode = Mode(timeoutSec: real, blocking: bool, waitForResult: bool)

  /**
   * What one pass of the loop observes: on Unix the chunk read from each ready descriptor, in
   * the order `select` listed them; on Windows the chunks read from stdout and then stderr. A
   * missing chunk is a read that found nothing (`None`). `failed` holds the positions of the
   * reads whose `flush()` or `read()` raised an OSError, which `except IOError` catches (the two
   * names are one class in Python 3). `expired` says whether `time.time()` was past the
   * deadline when the pass ended.
   */
  datatype Pass = Pass(chunks: seq<Option<Bytes>>, failed: set<nat>, expired: bool)

  /** The descriptors of gdb's stdout and stderr pipes. */
  datatype Fds = Fds(stdout: int, stderr: int)

  /** The records accumulated so far and the carry-overs. */
  datatype LoopState = LoopState(responses: seq<Response>, incomplete: Incomplete)

  function ChunkAt(p: Pass, j: nat): Option<Bytes>
  {
    if j < |p.chunks| then p.chunks[j] else None
  }

  /** `responses.extend(self._get_responses_list(raw_output, stream))`. */
  function Absorb(dec: Decoder, st: LoopState, stream: string, chunk: Option<Bytes>): (s: LoopState)
    ensures st.responses <= s.responses
  {
    var f := FeedStream(dec, st.incomplete, stream, chunk);
    LoopState(st.responses + f.records, f.incomplete)
  }

  /** The state after a pass, and the descriptor that stopped it, if any. */
  datatype PassResult = PassResult(st: LoopState, bad: Option<int>)

  /**
   * The rest of one Unix pass from event `j` on: each ready descriptor is read and fed to its
   * stream; the first descriptor that is neither stdout nor stderr ends the pass with an error.
   * One `try` encloses the whole pass, so a read that raises ends it quietly: the descriptors
   * after it are not read this time.
   */
  function UnixPass(dec: Decoder, fds: Fds, events: seq<int>, p: Pass, st: LoopState, j: nat): (r: PassResult)
    requires j <= |events|
    ensures st.responses <= r.st.responses
    decreases |events| - j
  {
    if j == |events| then PassResult(st, None)
    else if events[j] != fds.stdout && events[j] != fds.stderr then PassResult(st, Some(events[j]))
    else if j in p.failed then PassResult(st, None)
    else if events[j] == fds.stdout then UnixPass(dec, fds, events, p, Absorb(dec, st, "stdout", ChunkAt(p, j)), j + 1)
    else UnixPass(dec, fds, events, p, Absorb(dec, st, "stderr", ChunkAt(p, j)), j + 1)
  }

  /** Reading one stdout or stderr descriptor and feeding its chunk is one step of a pass. */
  lemma UnixPassStep(dec: Decoder, fds: Fds, events: seq<int>, p: Pass, st: LoopState, j: nat, stream: string, more: seq<Response>, inc: Incomplete)
    requires j < |events| && (events[j] == fds.stdout || events[j] == fds.stderr) && j !in p.failed
    requires stream == if events[j] == fds.stdout then "stdout" else "stderr"
    requires Step(more, inc) == FeedStream(dec, st.incomplete, stream, ChunkAt(p, j))
    ensures UnixPass(dec, fds, events, p, st, j) == UnixPass(dec, fds, events, p, LoopState(st.responses + more, inc), j + 1)
  {
  }

  /** A descriptor that is neither stdout nor stderr ends the pass with it, reading nothing more. */
  lemma UnixPassUnknown(dec: Decoder, fds: Fds, events: seq<int>, p: Pass, st: LoopState, j: nat)
    requires j < |events| && events[j] != fds.stdout && events[j] != fds.stderr
    ensures UnixPass(dec, fds, events, p, st, j) == PassResult(st, Some(events[j]))
  {
  }

  /** A read of stdout or stderr that raises ends the pass without an error, reading nothing more. */
  lemma UnixPassReadFails(dec: Decoder, fds: Fds, events: seq<int>, p: Pass, st: LoopState, j: nat)
    requires j < |events| && (events[j] == fds.stdout || events[j] == fds.stderr) && j in p.failed
    ensures UnixPass(dec, fds, events, p, st, j) == PassResult(st, None)
  {
  }

  /**
   * The first ready descriptor from event `j` on that is neither stdout nor stderr, if no read
   * before it raised.
   */
  function FirstUnknown(fds: Fds, events: seq<int>, failed: set<nat>, j: nat): Option<int>
    requires j <= |events|
    decreases |events| - j
  {
    if j == |events| then None
    else if events[j] != fds.stdout && events[j] != fds.stderr then Some(events[j])
    else if j in failed then None
    else FirstUnknown(fds, events, failed, j + 1)
  }

  /**
   * FirstUnknown finds a descriptor exactly when some descriptor is neither stdout nor stderr
   * and no read before it raised, and it finds only such a descriptor.
   */
  lemma {:induction false} FirstUnknownFinds(fds: Fds, events: seq<int>, failed: set<nat>, j: nat)
    requires j <= |events|
    ensures FirstUnknown(fds, events, failed, j).None? <==>
      forall k :: j <= k < |events| && events[k] != fds.stdout && events[k] != fds.stderr ==> exists i :: j <= i < k && i in failed
    ensures var u := FirstUnknown(fds, events, failed, j);
      u.Some? ==> u.value in events[j..] && u.value != fds.stdout && u.value != fds.stderr
    decreases |events| - j
  {
    if j < |events| {
      FirstUnknownFinds(fds, events, failed, j + 1);
      assert events[j] == events[j..][0];
      assert forall x :: x in events[j + 1..] ==> x in events[j..];
      if (events[j] == fds.stdout || events[j] == fds.stderr) && j in failed {
        assert forall k :: j <= k < |events| && events[k] != fds.stdout && events[k] != fds.stderr ==> j <= j < k && j in failed;
      }
    }
  }

  /**
   * Whatever is read, a Unix pass stops on the first descriptor that is neither stdout nor
   * stderr, unless a read before it raised.
   */
  lemma {:induction false} UnixPassBad(dec: Decoder, fds: Fds, events: seq<int>, p: Pass, st: LoopState, j: nat)
    requires j <= |events|
    ensures UnixPass(dec, fds, events, p, st, j).bad == FirstUnknown(fds, events, p.failed, j)
    decreases |events| - j
  {
    if j == |events| || (events[j] != fds.stdout && events[j] != fds.stderr) || j in p.failed {
    } else if events[j] == fds.stdout {
      UnixPassBad(dec, fds, events, p, Absorb(dec, st, "stdout", ChunkAt(p, j)), j + 1);
    } else {
      UnixPassBad(dec, fds, events, p, Absorb(dec, st, "stderr", ChunkAt(p, j)), j + 1);
    }
  }

  /**
   * A Unix pass raises exactly when some remaining ready descriptor is neither stdout nor
   * stderr and no read before it raised, and then on such a descriptor.
   */
  lemma UnixPassRaises(dec: Decoder, fds: Fds, events: seq<int>, p: Pass, st: LoopState, j: nat)
    requires j <= |events|
    ensures var r := UnixPass(dec, fds, events, p, st, j);
      r.bad.None? <==> forall k :: j <= k < |events| && events[k] != fds.stdout && events[k] != fds.stderr ==> exists i :: j <= i < k && i in p.failed
    ensures var r := UnixPass(dec, fds, events, p, st, j);
      r.bad.Some? ==> r.bad.value in events[j..] && r.bad.value != fds.stdout && r.bad.value != fds.stderr
  {
    UnixPassBad(dec, fds, events, p, st, j);
    FirstUnknownFinds(fds, events, p.failed, j);
  }

  /**
   * The `j`-th read of a Windows pass, from `stream`, in its own `try`: a read that raises is
   * skipped and changes nothing.
   */
  function ReadInto(dec: Decoder, st: LoopState, stream: string, p: Pass, j: nat): (s: LoopState)
    ensures j in p.failed ==> s == st
    ensures j !in p.failed ==> s == Absorb(dec, st, stream, ChunkAt(p, j))
  {
    if j in p.failed then st else Absorb(dec, st, stream, ChunkAt(p, j))
  }

  /**
   * One Windows pass: read stdout, then stderr. It only adds records, and leaves the carry-over
   * of every other stream as it was; a read that raises does not keep the other from running.
   */
  function WindowsPass(dec: Decoder, p: Pass, st: LoopState): (s: LoopState)
    ensures st.responses <= s.responses
    ensures forall other :: other in st.incomplete && other != "stdout" && other != "stderr" ==>
      other in s.incomplete && s.incomplete[other] == st.incomplete[other]
    ensures 0 in p.failed ==> s == ReadInto(dec, st, "stderr", p, 1)
    ensures 1 in p.failed ==> s == ReadInto(dec, st, "stdout", p, 0)
  {
    ReadInto(dec, ReadInto(dec, st, "stdout", p, 0), "stderr", p, 1)
  }

  /** One pass of the platform's loop: it only adds records, and only a Unix pass can stop on a descriptor. */
  function OnePass(plat: Platform, dec: Decoder, fds: Fds, events: seq<int>, p: Pass, st: LoopState): (r: PassResult)
    ensures st.responses <= r.st.responses
    ensures plat == Windows ==> r.bad.None?
  {
    match plat
    case Unix => UnixPass(dec, fds, events, p, st, 0)
    case Windows => PassResult(WindowsPass(dec, p, st), None)
  }

  /** Some accumulated record has `type == 'result'`. */
  predicate HasResult(rs: seq<Response>)
  {
    exists i :: 0 <= i < |rs| && rs[i].parsed.kind == ResultRecord
  }

  /**
   * Whether the loop breaks after a pass, given the records accumulated so far. A blocking call
   * that does not wait for a result, or that has a result record, breaks; without a blocking
   * call only the deadline (or a zero timeout on Unix) breaks; on Windows the deadline always does.
   */
  predicate Stops(plat: Platform, mode: Mode, rs: seq<Response>, expired: bool)
    ensures mode.blocking && (!mode.waitForResult || HasResult(rs)) ==> Stops(plat, mode, rs, expired)
    ensures !mode.blocking ==> (Stops(plat, mode, rs, expired) <==> expired || (plat == Unix && mode.timeoutSec == 0.0))
    ensures plat == Windows && expired ==> Stops(plat, mode, rs, expired)
    ensures plat == Unix && mode.blocking ==> (Stops(plat, mode, rs, expired) <==> !mode.waitForResult || HasResult(rs))
    ensures plat == Windows && mode.blocking ==> (Stops(plat, mode, rs, expired) <==> !mode.waitForResult || HasResult(rs) || expired)
  {
    match plat
    case Unix =>
      if mode.blocking then !mode.waitForResult || HasResult(rs)
      else mode.timeoutSec == 0.0 || expired
    case Windows =>
      (mode.blocking && (!mode.waitForResult || HasResult(rs))) || expired
  }

  /** The scan for a record whose `type` is `'result'`, stopping at the first one. */
  method ResultReceived(responses: seq<Response>) returns (found: bool)
    ensures found <==> HasResult(responses)
  {
    found := false;
    var i := 0;
    while i < |responses|
      invariant 0 <= i <= |responses|
      invariant !found ==> forall k :: 0 <= k < i ==> responses[k].parsed.kind != ResultRecord
      invariant found ==> HasResult(responses)
    {
      if responses[i].parsed.kind == ResultRecord {
        found := true;
        break;
      }
      i := i + 1;
    }
  }

  /**
   * How the loop ends: it breaks after pass number `passes`; it raises on an unknown descriptor;
   * or the given passes run out before it breaks (the call would still be waiting).
   */
  datatype Run = Stopped(st: LoopState, passes: nat) | Failed(st: LoopState, fd: int) | Exhausted(st: LoopState)

  /** What one pass does to the state, as a value the loop below is parameterised by. */
  type PassFn = (Pass, LoopState) -> PassResult

  function PassOf(plat: Platform, dec: Decoder, fds: Fds, events: seq<int>): PassFn
  {
    (p: Pass, st: LoopState) => OnePass(plat, dec, fds, events, p, st)
  }

  /**
   * The `while True` loop from pass `done` on, for any pass function: run a pass, raise if it
   * met an unknown descriptor, break if the stopping rule holds, else go on.
   */
  function Loop(next: PassFn, plat: Platform, mode: Mode, passes: seq<Pass>, st: LoopState, done: nat): (r: Run)
    requires done <= |passes|
    ensures r.Stopped? ==> done < r.passes <= |passes| && Stops(plat, mode, r.st.responses, passes[r.passes - 1].expired)
    ensures r.Exhausted? ==> done == |passes| || !Stops(plat, mode, r.st.responses, passes[|passes| - 1].expired)
    decreases |passes| - done
  {
    if done == |passes| then Exhausted(st)
    else
      var pr := next(passes[done], st);
      if pr.bad.Some? then Failed(pr.st, pr.bad.value)
      else if Stops(plat, mode, pr.st.responses, passes[done].expired) then Stopped(pr.st, done + 1)
      else Loop(next, plat, mode, passes, pr.st, done + 1)
  }

  /**
   * The read loop of `_get_responses_unix` / `_get_responses_windows` from pass `done` on. It
   * only adds records, and raises only on Unix, on a ready descriptor that is neither stdout
   * nor stderr.
   */
  function RunFrom(plat: Platform, dec: Decoder, fds: Fds, mode: Mode, events: seq<int>, passes: seq<Pass>, st: LoopState, done: nat): (r: Run)
    requires done <= |passes|
    ensures st.responses <= r.st.responses
    ensures r.Failed? ==> plat == Unix && r.fd in events && r.fd != fds.stdout && r.fd != fds.stderr
  {
    var next := PassOf(plat, dec, fds, events);
    PassOfExtends(plat, dec, fds, events);
    LoopExtends(next, plat, mode, passes, st, done);
    PassOfFailsOnlyOnUnknown(plat, dec, fds, events);
    LoopFailsOnlyOnUnknown(next, plat, mode, passes, st, done, Unknown(plat, fds, events));
    Loop(next, plat, mode, passes, st, done)
  }

  /** A pass that neither raises nor stops hands the loop on to the next pass. */
  lemma LoopGoesOn(next: PassFn, plat: Platform, mode: Mode, passes: seq<Pass>, st: LoopState, done: nat)
    requires done < |passes|
    requires next(passes[done], st).bad.None? && !Stops(plat, mode, next(passes[done], st).st.responses, passes[done].expired)
    ensures Loop(next, plat, mode, passes, st, done) == Loop(next, plat, mode, passes, next(passes[done], st).st, done + 1)
  {
  }

  /** With only the first `k` passes available, the loop would still be waiting after pass `k`. */
  ghost predicate WaitedThrough(next: PassFn, plat: Platform, mode: Mode, passes: seq<Pass>, st: LoopState, done: nat, k: nat)
    requires done < k <= |passes|
  {
    var q := Loop(next, plat, mode, passes[..k], st, done);
    q.Exhausted? && !Stops(plat, mode, q.st.responses, passes[k - 1].expired)
  }

  /** A pass function that only ever adds records. */
  ghost predicate Extends(next: PassFn)
  {
    forall p: Pass, st: LoopState :: st.responses <= next(p, st).st.responses
  }

  lemma PassOfExtends(plat: Platform, dec: Decoder, fds: Fds, events: seq<int>)
    ensures Extends(PassOf(plat, dec, fds, events))
  {
    forall p: Pass, st: LoopState ensures st.responses <= PassOf(plat, dec, fds, events)(p, st).st.responses {
      assert PassOf(plat, dec, fds, events)(p, st) == OnePass(plat, dec, fds, events, p, st);
    }
  }

  /** The loop only ever adds records. */
  lemma {:induction false} LoopExtends(next: PassFn, plat: Platform, mode: Mode, passes: seq<Pass>, st: LoopState, done: nat)
    requires done <= |passes|
    requires Extends(next)
    ensures st.responses <= Loop(next, plat, mode, passes, st, done).st.responses
    decreases |passes| - done
  {
    if done < |passes| {
      var pr := next(passes[done], st);
      if pr.bad.None? && !Stops(plat, mode, pr.st.responses, passes[done].expired) {
        LoopExtends(next, plat, mode, passes, pr.st, done + 1);
      }
    }
  }

  /** Every record is tagged with one of gdb's two streams. */
  ghost predicate Tagged(rs: seq<Response>)
  {
    forall i :: 0 <= i < |rs| ==> rs[i].stream in {"stdout", "stderr"}
  }

  /** Every record is tagged with one of gdb's two streams and, when `carries` is set, every carry-over is well-formed. */
  ghost predicate WellFormed(st: LoopState, carries: bool)
  {
    (carries ==> CarriesValid(st.incomplete)) && Tagged(st.responses)
  }

  /** Appending records all tagged with one of the two streams keeps every record tagged. */
  lemma TaggedAppend(rs: seq<Response>, more: seq<Response>, stream: string)
    requires Tagged(rs) && stream in {"stdout", "stderr"}
    requires forall i :: 0 <= i < |more| ==> more[i].stream == stream
    ensures Tagged(rs + more)
  {
    forall i | 0 <= i < |rs + more| ensures (rs + more)[i].stream in {"stdout", "stderr"} {
      if i >= |rs| {
        assert (rs + more)[i] == more[i - |rs|];
      }
    }
  }

  /** Records read from stdout or stderr keep every record tagged with one of the two. */
  lemma AbsorbKeepsTagged(dec: Decoder, st: LoopState, stream: string, chunk: Option<Bytes>)
    requires Tagged(st.responses) && stream in {"stdout", "stderr"}
    ensures Tagged(Absorb(dec, st, stream, chunk).responses)
  {
    var f := FeedStream(dec, st.incomplete, stream, chunk);
    TaggedAppend(st.responses, f.records, stream);
  }

  lemma AbsorbKeepsWellFormed(dec: Decoder, st: LoopState, stream: string, chunk: Option<Bytes>, carries: bool)
    requires WellFormed(st, carries) && stream in {"stdout", "stderr"}
    ensures WellFormed(Absorb(dec, st, stream, chunk), carries)
  {
    if carries {
      FeedStreamPreservesCarries(dec, st.incomplete, stream, chunk);
    }
    AbsorbKeepsTagged(dec, st, stream, chunk);
  }

  lemma ReadIntoKeepsWellFormed(dec: Decoder, st: LoopState, stream: string, p: Pass, j: nat, carries: bool)
    requires WellFormed(st, carries) && stream in {"stdout", "stderr"}
    ensures WellFormed(ReadInto(dec, st, stream, p, j), carries)
  {
    if j !in p.failed {
      AbsorbKeepsWellFormed(dec, st, stream, ChunkAt(p, j), carries);
    }
  }

  lemma {:induction false} UnixPassKeepsWellFormed(dec: Decoder, fds: Fds, events: seq<int>, p: Pass, st: LoopState, j: nat, carries: bool)
    requires j <= |events| && WellFormed(st, carries)
    ensures WellFormed(UnixPass(dec, fds, events, p, st, j).st, carries)
    decreases |events| - j
  {
    if j == |events| || (events[j] != fds.stdout && events[j] != fds.stderr) || j in p.failed {
    } else if events[j] == fds.stdout {
      AbsorbKeepsWellFormed(dec, st, "stdout", ChunkAt(p, j), carries);
      UnixPassKeepsWellFormed(dec, fds, events, p, Absorb(dec, st, "stdout", ChunkAt(p, j)), j + 1, carries);
    } else {
      AbsorbKeepsWellFormed(dec, st, "stderr", ChunkAt(p, j), carries);
      UnixPassKeepsWellFormed(dec, fds, events, p, Absorb(dec, st, "stderr", ChunkAt(p, j)), j + 1, carries);
    }
  }

  /** A pass function under which every state stays well-formed. */
  ghost predicate KeepsWellFormed(next: PassFn, carries: bool)
  {
    forall p: Pass, st: LoopState :: WellFormed(st, carries) ==> WellFormed(next(p, st).st, carries)
  }

  lemma PassOfKeepsWellFormed(plat: Platform, dec: Decoder, fds: Fds, events: seq<int>, carries: bool)
    ensures KeepsWellFormed(PassOf(plat, dec, fds, events), carries)
  {
    forall p: Pass, st: LoopState | WellFormed(st, carries) ensures WellFormed(PassOf(plat, dec, fds, events)(p, st).st, carries) {
      assert PassOf(plat, dec, fds, events)(p, st) == OnePass(plat, dec, fds, events, p, st);
      match plat
      case Unix => UnixPassKeepsWellFormed(dec, fds, events, p, st, 0, carries);
      case Windows =>
        ReadIntoKeepsWellFormed(dec, st, "stdout", p, 0, carries);
        ReadIntoKeepsWellFormed(dec, ReadInto(dec, st, "stdout", p, 0), "stderr", p, 1, carries);
    }
  }

  /** The loop ends in a well-formed state, however it ends. */
  lemma {:induction false} LoopKeepsWellFormed(next: PassFn, plat: Platform, mode: Mode, passes: seq<Pass>, st: LoopState, done: nat, carries: bool)
    requires done <= |passes| && WellFormed(st, carries) && KeepsWellFormed(next, carries)
    ensures WellFormed(Loop(next, plat, mode, passes, st, done).st, carries)
    decreases |passes| - done
  {
    if done < |passes| {
      var pr := next(passes[done], st);
      assert WellFormed(pr.st, carries);
      if pr.bad.None? && !Stops(plat, mode, pr.st.responses, passes[done].expired) {
        LoopKeepsWellFormed(next, plat, mode, passes, pr.st, done + 1, carries);
      }
    }
  }

  /** Only a Unix pass raises, and only on a ready descriptor that is neither stdout nor stderr. */
  lemma {:induction false} LoopFailsOnlyOnUnknown(next: PassFn, plat: Platform, mode: Mode, passes: seq<Pass>, st: LoopState, done: nat, bad: set<int>)
    requires done <= |passes|
    requires forall p: Pass, s: LoopState :: next(p, s).bad.Some? ==> next(p, s).bad.value in bad
    ensures var r := Loop(next, plat, mode, passes, st, done); r.Failed? ==> r.fd in bad
    decreases |passes| - done
  {
    if done < |passes| {
      var pr := next(passes[done], st);
      if pr.bad.None? && !Stops(plat, mode, pr.st.responses, passes[done].expired) {
        LoopFailsOnlyOnUnknown(next, plat, mode, passes, pr.st, done + 1, bad);
      }
    }
  }

  /** The descriptors a pass of the given platform can raise on. */
  function Unknown(plat: Platform, fds: Fds, events: seq<int>): set<int>
  {
    if plat == Windows then {} else set k | 0 <= k < |events| && events[k] != fds.stdout && events[k] != fds.stderr :: events[k]
  }

  lemma PassOfFailsOnlyOnUnknown(plat: Platform, dec: Decoder, fds: Fds, events: seq<int>)
    ensures forall p: Pass, s: LoopState :: PassOf(plat, dec, fds, events)(p, s).bad.Some? ==> PassOf(plat, dec, fds, events)(p, s).bad.value in Unknown(plat, fds, events)
  {
    forall p: Pass, s: LoopState | PassOf(plat, dec, fds, events)(p, s).bad.Some?
      ensures PassOf(plat, dec, fds, events)(p, s).bad.value in Unknown(plat, fds, events)
    {
      var pr := OnePass(plat, dec, fds, events, p, s);
      assert PassOf(plat, dec, fds, events)(p, s) == pr;
      UnixPassRaises(dec, fds, events, p, s, 0);
    }
  }

  /** A loop that stopped did so after a pass it had not run before, and the stopping rule held then. */
  predicate StoppedByRule(plat: Platform, mode: Mode, passes: seq<Pass>, done: nat, r: Run)
  {
    r.Stopped? ==> done < r.passes <= |passes| && Stops(plat, mode, r.st.responses, passes[r.passes - 1].expired)
  }

  /**
   * The loop breaks after the first pass whose stopping rule holds: when it stops, the rule
   * holds of the records accumulated by then and held after no earlier pass; when the passes
   * run out, it held after none of them.
   */
  lemma {:induction false} LoopStopsAtFirstChance(next: PassFn, plat: Platform, mode: Mode, passes: seq<Pass>, st: LoopState, done: nat)
    requires done <= |passes|
    ensures StoppedByRule(plat, mode, passes, done, Loop(next, plat, mode, passes, st, done))
    ensures var r := Loop(next, plat, mode, passes, st, done);
      r.Stopped? ==> forall k :: done < k < r.passes ==> WaitedThrough(next, plat, mode, passes, st, done, k)
    ensures var r := Loop(next, plat, mode, passes, st, done);
      r.Exhausted? ==> forall k :: done < k <= |passes| ==> WaitedThrough(next, plat, mode, passes, st, done, k)
    decreases |passes| - done
  {
    if done < |passes| {
      var pr := next(passes[done], st);
      if pr.bad.None? && !Stops(plat, mode, pr.st.responses, passes[done].expired) {
        var r := Loop(next, plat, mode, passes, pr.st, done + 1);
        LoopStopsAtFirstChance(next, plat, mode, passes, pr.st, done + 1);
        var last := if r.Stopped? then r.passes - 1 else if r.Exhausted? then |passes| else done;
        forall k | done < k <= last
          ensures WaitedThrough(next, plat, mode, passes, st, done, k)
        {
          assert passes[..k][done] == passes[done];
          if k > done + 1 {
            assert WaitedThrough(next, plat, mode, passes, pr.st, done + 1, k);
          } else {
            assert |passes[..k]| == done + 1;
          }
        }
      }
    }
  }

  /**
   * In blocking mode without `wait_for_result` (and, on Unix, in non-blocking mode with a zero
   * timeout) the loop leaves after its first pass.
   */
  lemma LeavesAfterFirstPass(plat: Platform, dec: Decoder, fds: Fds, mode: Mode, events: seq<int>, passes: seq<Pass>, st: LoopState, done: nat)
    requires done < |passes|
    requires (mode.blocking && !mode.waitForResult) || (plat == Unix && !mode.blocking && mode.timeoutSec == 0.0)
    ensures var r := RunFrom(plat, dec, fds, mode, events, passes, st, done);
      !r.Exhausted? && (r.Stopped? ==> r.passes == done + 1)
  {
  }

  /**
   * On Unix with `blocking_call` and `wait_for_result`, the loop leaves exactly when some
   * accumulated record is a result record: it has one when it leaves, none after any earlier
   * pass, and none if the passes run out.
   */
  lemma WaitForResultRule(dec: Decoder, fds: Fds, mode: Mode, events: seq<int>, passes: seq<Pass>, st: LoopState)
    requires mode.blocking && mode.waitForResult
    ensures var r := RunFrom(Unix, dec, fds, mode, events, passes, st, 0);
      r.Stopped? ==> HasResult(r.st.responses)
    ensures var r := RunFrom(Unix, dec, fds, mode, events, passes, st, 0);
      r.Stopped? ==> r.passes <= |passes| && forall k :: 0 < k < r.passes ==> !HasResult(RunFrom(Unix, dec, fds, mode, events, passes[..k], st, 0).st.responses)
    ensures var r := RunFrom(Unix, dec, fds, mode, events, passes, st, 0);
      r.Exhausted? ==> !HasResult(r.st.responses) || passes == []
  {
    var next := PassOf(Unix, dec, fds, events);
    LoopStopsAtFirstChance(next, Unix, mode, passes, st, 0);
    var r := RunFrom(Unix, dec, fds, mode, events, passes, st, 0);
    if r.Exhausted? && passes != [] {
      assert passes[..|passes|] == passes;
      assert WaitedThrough(next, Unix, mode, passes, st, 0, |passes|);
    }
    if r.Stopped? {
      forall k | 0 < k < r.passes
        ensures !HasResult(RunFrom(Unix, dec, fds, mode, events, passes[..k], st, 0).st.responses)
      {
        assert WaitedThrough(next, Unix, mode, passes, st, 0, k);
      }
    }
  }

  /** The Windows rule for a blocking call that waits for a result, for any pass function. */
  lemma WindowsWaitRuleOf(next: PassFn, mode: Mode, passes: seq<Pass>, st: LoopState)
    requires mode.blocking && mode.waitForResult
    ensures var r := Loop(next, Windows, mode, passes, st, 0);
      r.Stopped? ==> 0 < r.passes <= |passes| && (HasResult(r.st.responses) || passes[r.passes - 1].expired)
    ensures var r := Loop(next, Windows, mode, passes, st, 0);
      r.Stopped? ==> forall j :: 0 <= j < r.passes - 1 ==> !passes[j].expired
    ensures var r := Loop(next, Windows, mode, passes, st, 0);
      r.Stopped? ==> forall k :: 0 < k < r.passes ==> !HasResult(Loop(next, Windows, mode, passes[..k], st, 0).st.responses)
    ensures var r := Loop(next, Windows, mode, passes, st, 0);
      r.Exhausted? ==> forall j :: 0 <= j < |passes| ==> !passes[j].expired
    ensures var r := Loop(next, Windows, mode, passes, st, 0);
      r.Exhausted? ==> forall k :: 0 < k <= |passes| ==> !HasResult(Loop(next, Windows, mode, passes[..k], st, 0).st.responses)
  {
    LoopStopsAtFirstChance(next, Windows, mode, passes, st, 0);
    var r := Loop(next, Windows, mode, passes, st, 0);
    var last := if r.Stopped? then r.passes - 1 else if r.Exhausted? then |passes| else 0;
    forall j | 0 <= j < last
      ensures !passes[j].expired
    {
      assert WaitedThrough(next, Windows, mode, passes, st, 0, j + 1);
    }
    forall k | 0 < k <= last
      ensures !HasResult(Loop(next, Windows, mode, passes[..k], st, 0).st.responses)
    {
      assert WaitedThrough(next, Windows, mode, passes, st, 0, k);
    }
  }

  /**
   * On Windows with `blocking_call` and `wait_for_result`, the loop leaves after the first pass
   * by which a result record has accumulated or the deadline has passed: neither had happened
   * after any earlier pass, and neither happened if the passes run out.
   */
  lemma WindowsWaitRule(dec: Decoder, fds: Fds, mode: Mode, passes: seq<Pass>, st: LoopState)
    requires mode.blocking && mode.waitForResult
    ensures var r := RunFrom(Windows, dec, fds, mode, [], passes, st, 0);
      r.Stopped? ==> 0 < r.passes <= |passes| && (HasResult(r.st.responses) || passes[r.passes - 1].expired)
    ensures var r := RunFrom(Windows, dec, fds, mode, [], passes, st, 0);
      r.Stopped? ==> forall j :: 0 <= j < r.passes - 1 ==> !passes[j].expired
    ensures var r := RunFrom(Windows, dec, fds, mode, [], passes, st, 0);
      r.Stopped? ==> forall k :: 0 < k < r.passes ==> !HasResult(RunFrom(Windows, dec, fds, mode, [], passes[..k], st, 0).st.responses)
    ensures var r := RunFrom(Windows, dec, fds, mode, [], passes, st, 0);
      r.Exhausted? ==> forall j :: 0 <= j < |passes| ==> !passes[j].expired
    ensures var r := RunFrom(Windows, dec, fds, mode, [], passes, st, 0);
      r.Exhausted? ==> forall k :: 0 < k <= |passes| ==> !HasResult(RunFrom(Windows, dec, fds, mode, [], passes[..k], st, 0).st.responses)
  {
    WindowsWaitRuleOf(PassOf(Windows, dec, fds, []), mode, passes, st);
  }

  /**
   * A run left after the first pass that ended past the deadline, or, when the passes ran out,
   * no pass ended past it.
   */
  predicate LeftAtDeadline(passes: seq<Pass>, r: Run)
  {
    (r.Stopped? ==> 0 < r.passes <= |passes| && passes[r.passes - 1].expired && forall j :: 0 <= j < r.passes - 1 ==> !passes[j].expired)
    && (r.Exhausted? ==> forall j :: 0 <= j < |passes| ==> !passes[j].expired)
  }

  /** The deadline rule below, for any pass function. */
  lemma DeadlineRuleOf(next: PassFn, plat: Platform, mode: Mode, passes: seq<Pass>, st: LoopState)
    requires !mode.blocking
    requires plat == Windows || mode.timeoutSec != 0.0
    ensures LeftAtDeadline(passes, Loop(next, plat, mode, passes, st, 0))
  {
    LoopStopsAtFirstChance(next, plat, mode, passes, st, 0);
    var r := Loop(next, plat, mode, passes, st, 0);
    var last := if r.Stopped? then r.passes - 1 else if r.Exhausted? then |passes| else 0;
    forall j | 0 <= j < last
      ensures !passes[j].expired
    {
      assert WaitedThrough(next, plat, mode, passes, st, 0, j + 1);
    }
  }

  /**
   * Without `blocking_call` and with a non-zero timeout on Unix (with any timeout on Windows),
   * the loop leaves after the first pass that ends past the deadline, and keeps going until then.
   */
  lemma DeadlineRule(plat: Platform, dec: Decoder, fds: Fds, mode: Mode, events: seq<int>, passes: seq<Pass>, st: LoopState)
    requires !mode.blocking
    requires plat == Windows || mode.timeoutSec != 0.0
    ensures LeftAtDeadline(passes, RunFrom(plat, dec, fds, mode, events, passes, st, 0))
  {
    DeadlineRuleOf(PassOf(plat, dec, fds, events), plat, mode, passes, st);
  }

  /**
   * On Unix, a ready descriptor that is neither stdout nor stderr makes the first pass raise,
   * unless a read before it raised and ended that pass.
   */
  lemma UnknownDescriptorRaises(dec: Decoder, fds: Fds, mode: Mode, events: seq<int>, passes: seq<Pass>, st: LoopState, j: nat)
    requires j < |events| && events[j] != fds.stdout && events[j] != fds.stderr
    requires passes != [] && forall i :: 0 <= i < j ==> i !in passes[0].failed
    ensures var r := RunFrom(Unix, dec, fds, mode, events, passes, st, 0);
      r.Failed? && r.fd in events && r.fd != fds.stdout && r.fd != fds.stderr
  {
    assert PassOf(Unix, dec, fds, events)(passes[0], st) == UnixPass(dec, fds, events, passes[0], st, 0);
    UnixPassRaises(dec, fds, events, passes[0], st, 0);
  }

  /** What `get_gdb_response` hands back: records, an exception, or nothing yet (still waiting). */
  datatype Reply = Returned(records: seq<Response>) | Raised(error: Error) | StillWaiting(partial: seq<Response>)

  /** The timeout outcome: an empty result raises GdbTimeoutError when asked to; any other is returned. */
  function Respond(retval: seq<Response>, raiseOnTimeout: bool, timeoutSec: real): (r: Reply)
    ensures r.Raised? <==> retval == [] && raiseOnTimeout
    ensures r.Raised? ==> r.error == GdbTimeout(timeoutSec)
    ensures r.Returned? ==> r.records == retval
    ensures !r.StillWaiting?
  {
    if retval == [] && raiseOnTimeout then Raised(GdbTimeout(timeoutSec)) else Returned(retval)
  }

  /**
   * The reply once the loop is left: the timeout outcome when it broke, ValueError when it met
   * an unknown descriptor, and still waiting while it has not left.
   */
  function Conclude(run: Run, raiseOnTimeout: bool, timeoutSec: real): (r: Reply)
    ensures r.StillWaiting? <==> run.Exhausted?
    ensures r.Raised? && r.error.UnexpectedFileno? <==> run.Failed?
    ensures r.Raised? && r.error.GdbTimeout? <==> run.Stopped? && run.st.responses == [] && raiseOnTimeout
    ensures r.Returned? ==> r.records == run.st.responses
  {
    match run
    case Stopped(st, _) => Respond(st.responses, raiseOnTimeout, timeoutSec)
    case Failed(_, fd) => Raised(UnexpectedFileno(fd))
    case Exhausted(st) => StillWaiting(st.responses)
  }

  /**
   * A non-blocking read with a zero timeout when `select` reports nothing ready returns an
   * empty list at once, and raises GdbTimeoutError only when asked to.
   */
  lemma ZeroTimeoutWithNothingReady(dec: Decoder, fds: Fds, passes: seq<Pass>, inc: Incomplete, raiseOnTimeout: bool, waitForResult: bool)
    requires passes != []
    ensures var run := RunFrom(Unix, dec, fds, Mode(0.0, false, waitForResult), [], passes, LoopState([], inc), 0);
      Conclude(run, raiseOnTimeout, 0.0) == (if raiseOnTimeout then Raised(GdbTimeout(0.0)) else Returned([]))
      && run.st.incomplete == inc
  {
  }
}
