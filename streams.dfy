/**
 * The controller's per-stream carry-overs (`_incomplete_output`) and what feeding chunks of one
 * stream to `_get_responses_list` produces, one chunk or many.
 */
module Streams {
  import opened Wrappers
  import opened Reassembly
  import opened Records

  /** `_incomplete_output`: the carry-over of each stream, by stream name. */
  type Incomplete = map<string, Option<Bytes>>

  /** `_incomplete_output.get(stream)`: a stream never seen has no carry-over. */
  function Lookup(inc: Incomplete, stream: string): (r: Option<Bytes>)
    ensures stream in inc ==> r == inc[stream]
    ensures stream !in inc ==> r == None
  {
    if stream in inc then inc[stream] else None
  }

  /** Every carry-over is one the reassembler can leave behind. */
  predicate CarriesValid(inc: Incomplete)
  {
    forall stream :: stream in inc ==> ValidCarry(inc[stream])
  }

  datatype Step = Step(records: seq<Response>, incomplete: Incomplete)

  /**
   * One call of `_get_responses_list(raw_output, stream)`: reassemble the chunk with the
   * stream's carry-over, store the new carry-over under `stream` and turn the ready bytes
   * into records. Only the entry for `stream` changes.
   */
  function FeedStream(dec: Decoder, inc: Incomplete, stream: string, chunk: Option<Bytes>): (s: Step)
    ensures s.incomplete.Keys == inc.Keys + {stream}
    ensures forall other :: other in inc && other != stream ==> s.incomplete[other] == inc[other]
    ensures forall i :: 0 <= i < |s.records| ==> s.records[i].stream == stream
  {
    var sp := Reassemble(chunk, Lookup(inc, stream));
    Step(RecordsOf(dec, Text(sp.ready), stream), inc[stream := sp.carry])
  }

  /** Feeding a chunk keeps every carry-over well-formed. */
  lemma FeedStreamPreservesCarries(dec: Decoder, inc: Incomplete, stream: string, chunk: Option<Bytes>)
    requires CarriesValid(inc)
    ensures CarriesValid(FeedStream(dec, inc, stream, chunk).incomplete)
  {
    ReassemblePreservesCarry(chunk, Lookup(inc, stream));
  }

  /**
   * A partial record is only buffered: it yields no records and becomes the stream's
   * carry-over. Feeding the rest of its line, followed by a prompt line, then yields exactly
   * the one record of the whole line, tagged with the stream, and leaves nothing carried.
   */
  lemma PartialThenRemainder(dec: Decoder, inc: Incomplete, stream: string, part: Bytes, rest: Bytes, prompt: Bytes)
    requires Lookup(inc, stream) == None
    requires part != [] && NL !in part && NL !in rest
    requires !dec.isFinished(part + rest)
    requires NL !in prompt && dec.isFinished(prompt)
    ensures var first := FeedStream(dec, inc, stream, Some(part));
      && first.records == []
      && first.incomplete[stream] == Some(part)
      && var second := FeedStream(dec, first.incomplete, stream, Some(rest + [NL] + prompt + [NL]));
      && second.records == [Response(dec.parse(part + rest), stream)]
      && second.incomplete[stream] == None
  {
    var first := FeedStream(dec, inc, stream, Some(part));
    ReassembleShape(Some(part), None);
    assert Text(None) + Text(Some(part)) == part;
    RecordsOfNothing(dec, stream);
    var tail := rest + [NL] + prompt + [NL];
    var all := part + tail;
    assert Text(Some(part)) + Text(Some(tail)) == all;
    ReassembleShape(Some(tail), Some(part));
    var sp := Reassemble(Some(tail), Some(part));
    assert all == (part + rest) + [NL] + prompt + [NL];
    assert sp.ready == Some(all);
    RecordsOfOneLine(dec, part + rest, prompt, stream);
  }

  /** The bytes of a sequence of chunks, in order. */
  function Concat(chunks: seq<Option<Bytes>>): Bytes
  {
    if chunks == [] then [] else Text(chunks[0]) + Concat(chunks[1..])
  }

  /** Feeding `chunks` of one stream to `_get_responses_list`, one call per chunk, in order. */
  function FeedAll(dec: Decoder, inc: Incomplete, stream: string, chunks: seq<Option<Bytes>>): (s: Step)
    ensures inc.Keys <= s.incomplete.Keys <= inc.Keys + {stream}
    ensures forall other :: other in inc && other != stream ==> s.incomplete[other] == inc[other]
    ensures forall i :: 0 <= i < |s.records| ==> s.records[i].stream == stream
    decreases |chunks|
  {
    if chunks == [] then Step([], inc)
    else
      var first := FeedStream(dec, inc, stream, chunks[0]);
      var rest := FeedAll(dec, first.incomplete, stream, chunks[1..]);
      Step(first.records + rest.records, rest.incomplete)
  }

  /** Feeding chunks of one stream leaves the carry-over of every other stream as it was. */
  lemma {:induction false} FeedAllKeepsOtherStreams(dec: Decoder, inc: Incomplete, stream: string, chunks: seq<Option<Bytes>>, other: string)
    requires other != stream
    ensures Lookup(FeedAll(dec, inc, stream, chunks).incomplete, other) == Lookup(inc, other)
    decreases |chunks|
  {
    if chunks != [] {
      var first := FeedStream(dec, inc, stream, chunks[0]);
      FeedAllKeepsOtherStreams(dec, first.incomplete, stream, chunks[1..], other);
    }
  }

  /** Moving a common suffix across a split of the same bytes. */
  lemma Regroup(x: Bytes, y: Bytes, z: Bytes, p: Bytes, c: Bytes)
    requires x + y == p + c
    ensures x + (y + z) == p + (c + z)
  {
    assert x + (y + z) == (x + y) + z;
    assert p + (c + z) == (p + c) + z;
  }

  /** Records of whole lines followed by more bytes: those of the whole lines, then those of the rest. */
  lemma WholeLinesFirst(dec: Decoder, stream: string, p: Bytes, b: Bytes)
    requires WholeLines(p)
    ensures RecordsOf(dec, (p + b)[..Cut(p + b)], stream) == RecordsOf(dec, p, stream) + RecordsOf(dec, b[..Cut(b)], stream)
    ensures (p + b)[Cut(p + b)..] == b[Cut(b)..]
  {
    CutAfterWholeLines(p, b);
    RecordsAppend(dec, p, b[..Cut(b)], stream);
  }

  /**
   * Feeding chunks one by one yields the records of all complete lines of the carry-over
   * followed by every chunk, and carries exactly what follows the last line break.
   */
  lemma {:induction false} FeedAllIsWholeFeed(dec: Decoder, inc: Incomplete, stream: string, chunks: seq<Option<Bytes>>)
    requires ValidCarry(Lookup(inc, stream))
    ensures var all := Text(Lookup(inc, stream)) + Concat(chunks); var f := FeedAll(dec, inc, stream, chunks);
      && f.records == RecordsOf(dec, all[..Cut(all)], stream)
      && Text(Lookup(f.incomplete, stream)) == all[Cut(all)..]
      && ValidCarry(Lookup(f.incomplete, stream))
    decreases |chunks|
  {
    var carry := Lookup(inc, stream);
    var all := Text(carry) + Concat(chunks);
    if chunks == [] {
      assert all == Text(carry);
      CutUnique(all, 0);
      RecordsOfNothing(dec, stream);
    } else {
      var first := FeedStream(dec, inc, stream, chunks[0]);
      var sp := Reassemble(chunks[0], carry);
      var p := Text(sp.ready);
      var rest := Concat(chunks[1..]);
      var b := Text(sp.carry) + rest;
      assert Lookup(first.incomplete, stream) == sp.carry;
      assert first.records == RecordsOf(dec, p, stream);
      assert ValidCarry(sp.carry) by {
        ReassemblePreservesCarry(chunks[0], carry);
      }
      assert WholeLines(p) by {
        ReadyIsWholeLines(chunks[0], carry);
      }
      assert all == p + b by {
        assert Concat(chunks) == Text(chunks[0]) + rest;
        Regroup(Text(carry), Text(chunks[0]), rest, p, Text(sp.carry));
      }
      var later := FeedAll(dec, first.incomplete, stream, chunks[1..]);
      assert FeedAll(dec, inc, stream, chunks) == Step(first.records + later.records, later.incomplete);
      assert Text(Lookup(first.incomplete, stream)) + rest == b;
      FeedAllIsWholeFeed(dec, first.incomplete, stream, chunks[1..]);
      assert later.records == RecordsOf(dec, b[..Cut(b)], stream);
      assert Text(Lookup(later.incomplete, stream)) == b[Cut(b)..];
      WholeLinesFirst(dec, stream, p, b);
    }
  }

  /**
   * Split-point invariance: however a stream's bytes are cut into chunks, feeding them yields
   * the same ordered records and the same carry-over, for this stream and every other.
   */
  lemma ChunkingInvariance(dec: Decoder, inc: Incomplete, stream: string, xs: seq<Option<Bytes>>, ys: seq<Option<Bytes>>)
    requires ValidCarry(Lookup(inc, stream))
    requires Concat(xs) == Concat(ys)
    ensures FeedAll(dec, inc, stream, xs).records == FeedAll(dec, inc, stream, ys).records
    ensures forall s :: Lookup(FeedAll(dec, inc, stream, xs).incomplete, s) == Lookup(FeedAll(dec, inc, stream, ys).incomplete, s)
  {
    FeedAllIsWholeFeed(dec, inc, stream, xs);
    FeedAllIsWholeFeed(dec, inc, stream, ys);
    forall other | other != stream
      ensures Lookup(FeedAll(dec, inc, stream, xs).incomplete, other) == Lookup(FeedAll(dec, inc, stream, ys).incomplete, other)
    {
      FeedAllKeepsOtherStreams(dec, inc, stream, xs, other);
      FeedAllKeepsOtherStreams(dec, inc, stream, ys, other);
    }
    ValidCarryByText(Lookup(FeedAll(dec, inc, stream, xs).incomplete, stream), Lookup(FeedAll(dec, inc, stream, ys).incomplete, stream));
  }

  /** In particular, feeding the chunks one by one is the same as feeding their bytes at once. */
  lemma PiecewiseIsWhole(dec: Decoder, inc: Incomplete, stream: string, chunks: seq<Option<Bytes>>)
    requires ValidCarry(Lookup(inc, stream))
    ensures FeedAll(dec, inc, stream, chunks).records == FeedAll(dec, inc, stream, [Some(Concat(chunks))]).records
  {
    assert Concat([Some(Concat(chunks))]) == Concat(chunks);
    ChunkingInvariance(dec, inc, stream, chunks, [Some(Concat(chunks))]);
  }

  /** A stream whose bytes end in a line break leaves no carry-over behind. */
  lemma TerminatedStreamLeavesNoCarry(dec: Decoder, inc: Incomplete, stream: string, chunks: seq<Option<Bytes>>)
    requires Lookup(inc, stream) == None
    requires Concat(chunks) != [] && Concat(chunks)[|Concat(chunks)| - 1] == NL
    ensures Lookup(FeedAll(dec, inc, stream, chunks).incomplete, stream) == None
  {
    FeedAllIsWholeFeed(dec, inc, stream, chunks);
    var all := Text(Lookup(inc, stream)) + Concat(chunks);
    assert all == Concat(chunks);
    CutUnique(all, |all|);
  }
}
