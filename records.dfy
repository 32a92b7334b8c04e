/**
 * The records the controller hands back, and how it obtains them from bytes that end on a
 * line boundary: split at line breaks, drop blank lines, skip the prompt sentinel, parse the
 * rest in order and tag each record with the stream it came from (`_get_responses_list`).
 */
module Records {
  import opened Wrappers
  import opened Lines
  import opened Reassembly

  /** The `type` key of a parsed record. */
  datatype RecordType = ResultRecord | Console | Target | Log | Notify | Output

  /** A decoded payload: a string, a list, or a tuple of named values. */
  datatype Value = Str(s: string) | List(items: seq<Value>) | Tuple(fields: map<string, Value>)

  /** What `gdbmiparser.parse_response` returns for one line. */
  datatype Parsed = Parsed(kind: RecordType, token: Option<nat>, message: Option<string>, payload: Option<Value>)

  /** A parsed record with the `stream` key the controller adds. */
  datatype Response = Response(parsed: Parsed, stream: string)

  /**
   * The record decoder the controller calls: `parse_response` for one complete line, and
   * `response_is_finished` recognising the prompt sentinel. Their definitions are not part of
   * this model; the controller is modelled for every such pair of functions.
   */
  datatype Decoder = Decoder(parse: Bytes -> Parsed, isFinished: Bytes -> bool)

  predicate NotBlank(line: Bytes)
  {
    line != []
  }

  /** The controller's test on a non-blank line: parse it unless it is the prompt sentinel. */
  function Unfinished(dec: Decoder): Bytes -> bool
  {
    line => !dec.isFinished(line)
  }

  /** `filter(lambda x: x, ...)`: the non-blank lines. */
  function NonBlank(lines: seq<Bytes>): (r: seq<Bytes>)
    ensures forall line :: line in r <==> line in lines && line != []
  {
    FilterKeeps(NotBlank, lines);
    Filter(NotBlank, lines)
  }

  /**
   * The lines of `ready` that become records: exactly the non-blank pieces between line
   * breaks that are not the prompt sentinel, in order.
   */
  function ReadyLines(dec: Decoder, ready: Bytes): (r: seq<Bytes>)
    ensures forall line :: line in r ==> line != [] && !dec.isFinished(line)
  {
    FilterKeeps(Unfinished(dec), NonBlank(Split(ready, NL)));
    Filter(Unfinished(dec), NonBlank(Split(ready, NL)))
  }

  /**
   * The lines of `ready` that become records are exactly its non-blank pieces between line
   * breaks that are not the prompt sentinel; none of them holds a line break.
   */
  lemma ReadyLinesAre(dec: Decoder, ready: Bytes)
    ensures forall line :: line in ReadyLines(dec, ready) <==> line in Split(ready, NL) && line != [] && !dec.isFinished(line)
    ensures forall line :: line in ReadyLines(dec, ready) ==> NL !in line
  {
    var pieces := Split(ready, NL);
    SplitPieces(ready, NL);
    FilterKeeps(Unfinished(dec), NonBlank(pieces));
  }

  /** Parse each line and tag it with `stream`: one record per line, in the order of the lines. */
  function Tag(dec: Decoder, lines: seq<Bytes>, stream: string): (rs: seq<Response>)
    ensures |rs| == |lines|
    ensures forall i :: 0 <= i < |lines| ==> rs[i].parsed == dec.parse(lines[i]) && rs[i].stream == stream
  {
    seq(|lines|, i requires 0 <= i < |lines| => Response(dec.parse(lines[i]), stream))
  }

  /** The records obtained from bytes that end on a line boundary. */
  function RecordsOf(dec: Decoder, ready: Bytes, stream: string): (rs: seq<Response>)
    ensures forall i :: 0 <= i < |rs| ==> rs[i].stream == stream
  {
    Tag(dec, ReadyLines(dec, ready), stream)
  }

  lemma TagAppend(dec: Decoder, a: seq<Bytes>, b: seq<Bytes>, stream: string)
    ensures Tag(dec, a + b, stream) == Tag(dec, a, stream) + Tag(dec, b, stream)
  {
  }

  /** No bytes, no records. */
  lemma RecordsOfNothing(dec: Decoder, stream: string)
    ensures RecordsOf(dec, [], stream) == []
  {
    assert Split([], NL) == [[]];
  }

  /**
   * Records distribute over whole lines: when `a` is empty or ends in a line break, the records of
   * `a + b` are those of `a` followed by those of `b`.
   */
  lemma RecordsAppend(dec: Decoder, a: Bytes, b: Bytes, stream: string)
    requires WholeLines(a)
    ensures RecordsOf(dec, a + b, stream) == RecordsOf(dec, a, stream) + RecordsOf(dec, b, stream)
  {
    if a == [] {
      RecordsOfNothing(dec, stream);
      assert a + b == b;
    } else {
      var front := a[..|a| - 1];
      assert a == front + [NL] + [];
      assert a + b == front + [NL] + b;
      SplitAround(front, [], NL);
      SplitAround(front, b, NL);
      var pf, pb := Split(front, NL), Split(b, NL);
      assert Split([], NL) == [[]];
      FilterAppend(NotBlank, pf, [[]]);
      assert NonBlank([[]]) == [];
      assert NonBlank(pf + [[]]) == NonBlank(pf);
      FilterAppend(NotBlank, pf, pb);
      FilterAppend(Unfinished(dec), NonBlank(pf), NonBlank(pb));
      assert ReadyLines(dec, a + b) == ReadyLines(dec, a) + ReadyLines(dec, b);
      TagAppend(dec, ReadyLines(dec, a), ReadyLines(dec, b), stream);
    }
  }

  /**
   * One complete line `line` followed by one prompt line yields exactly the record parsed
   * from `line`.
   */
  lemma RecordsOfOneLine(dec: Decoder, line: Bytes, prompt: Bytes, stream: string)
    requires line != [] && NL !in line && !dec.isFinished(line)
    requires NL !in prompt && dec.isFinished(prompt)
    ensures RecordsOf(dec, line + [NL] + prompt + [NL], stream) == [Response(dec.parse(line), stream)]
  {
    var s := line + [NL] + prompt + [NL];
    assert s == line + [NL] + (prompt + [NL] + []);
    SplitAround(line, prompt + [NL] + [], NL);
    SplitAround(prompt, [], NL);
    SplitWithoutSep(line, NL);
    SplitWithoutSep(prompt, NL);
    assert Split([], NL) == [[]];
    var pieces := [line] + ([prompt] + [[]]);
    assert Split(s, NL) == pieces;
    FilterAppend(NotBlank, [line], [prompt] + [[]]);
    FilterAppend(NotBlank, [prompt], [[]]);
    var nonBlank := NonBlank(pieces);
    assert nonBlank == [line] + (if prompt == [] then [] else [prompt]);
    FilterAppend(Unfinished(dec), [line], if prompt == [] then [] else [prompt]);
    assert ReadyLines(dec, s) == [line];
  }
}
