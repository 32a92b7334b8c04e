/**
 * Reassembly of gdb's output stream: a read may end in the middle of a record, so the
 * unterminated tail of each read is carried over and prepended to the next one
 * (`_buffer_incomplete_responses`).
 */
module Reassembly {
  import opened Wrappers

  newtype byte = b: int | 0 <= b < 256

  type Bytes = seq<byte>

  /** The line terminator `b'\n'`. */
  const NL: byte := 10

  /** Python truthiness of an optional byte string: `None` and `b''` are both false. */
  predicate Truthy(o: Option<Bytes>)
    ensures Truthy(o) ==> o.Some?
    ensures o == Some([]) ==> !Truthy(o)
  {
    o.Some? && o.value != []
  }

  /** The bytes an optional byte string stands for, `o or b''`. */
  function Text(o: Option<Bytes>): (r: Bytes)
    ensures o.Some? ==> r == o.value
    ensures r == [] <==> !Truthy(o)
  {
    if o.Some? then o.value else []
  }

  /** A carry-over the reassembler can leave behind: none, or a non-empty tail without a line break. */
  predicate ValidCarry(c: Option<Bytes>)
  {
    c.Some? ==> c.value != [] && NL !in c.value
  }

  /** Bytes that end on a line boundary: none at all, or ending in a line break. */
  predicate WholeLines(s: Bytes)
  {
    s == [] || s[|s| - 1] == NL
  }

  /** `s.rindex(b'\n')`: the position of the last line break. */
  function LastNewline(s: Bytes): (i: nat)
    requires NL in s
    ensures i < |s| && s[i] == NL
    ensures NL !in s[i + 1..]
  {
    var n := |s| - 1;
    if s[n] == NL then n
    else
      assert s == s[..n] + [s[n]];
      var i := LastNewline(s[..n]);
      assert s[i + 1..] == s[..n][i + 1..] + [s[n]];
      i
  }

  /** Where the complete lines of `s` end: just past its last line break, or 0 if it has none. */
  function Cut(s: Bytes): (k: nat)
    ensures k <= |s|
    ensures k == 0 || s[k - 1] == NL
    ensures NL !in s[k..]
  {
    if NL in s then LastNewline(s) + 1 else 0
  }

  /** The cut is the only split of `s` into whole lines followed by a tail without a line break. */
  lemma CutUnique(s: Bytes, k: nat)
    requires k <= |s|
    requires k == 0 || s[k - 1] == NL
    requires NL !in s[k..]
    ensures k == Cut(s)
  {
  }

  /** Whole lines in front of `b` move its cut by their length and change nothing else. */
  lemma CutAfterWholeLines(p: Bytes, b: Bytes)
    requires WholeLines(p)
    ensures Cut(p + b) == |p| + Cut(b)
    ensures (p + b)[..Cut(p + b)] == p + b[..Cut(b)]
    ensures (p + b)[Cut(p + b)..] == b[Cut(b)..]
  {
    var all, k := p + b, |p| + Cut(b);
    assert all[k..] == b[Cut(b)..];
    if Cut(b) > 0 {
      assert all[k - 1] == b[Cut(b) - 1];
    } else if p != [] {
      assert all[k - 1] == p[|p| - 1];
    }
    CutUnique(all, k);
    assert all[..k] == p + b[..Cut(b)];
  }

  /** What one reassembly step hands on: the bytes ready to be split into lines, and the new carry-over. */
  datatype Reassembled = Reassembled(ready: Option<Bytes>, carry: Option<Bytes>)

  /**
   * `_buffer_incomplete_responses(raw_output, buf)`: prepend the carry-over to a non-empty
   * chunk and split the result after its last line break. No byte is lost, duplicated or
   * reordered: the ready bytes followed by the new carry-over are the old carry-over
   * followed by the chunk.
   */
  function Reassemble(chunk: Option<Bytes>, carry: Option<Bytes>): (r: Reassembled)
    ensures Text(r.ready) + Text(r.carry) == Text(carry) + Text(chunk)
  {
    if !Truthy(chunk) then Reassembled(chunk, carry)
    else
      var combined := if Truthy(carry) then carry.value + chunk.value else chunk.value;
      var buf := if Truthy(carry) then None else carry;
      assert Text(carry) + Text(chunk) == combined;
      SplitCombined(combined, buf)
  }

  /**
   * The second half of `_buffer_incomplete_responses`: the combined bytes are carried whole
   * when they hold no line break, split after the last one when they do not end in one, and
   * handed on whole, with the emptied buffer `buf`, when they do.
   */
  function SplitCombined(combined: Bytes, buf: Option<Bytes>): (r: Reassembled)
    requires Text(buf) == []
    ensures Text(r.ready) + Text(r.carry) == combined
  {
    if NL !in combined then Reassembled(None, Some(combined))
    else if combined[|combined| - 1] != NL then
      var k := LastNewline(combined) + 1;
      Reassembled(Some(combined[..k]), Some(combined[k..]))
    else Reassembled(Some(combined), buf)
  }

  /** An empty or absent chunk changes nothing: the chunk is handed back and the carry-over is kept. */
  lemma ReassembleIdle(chunk: Option<Bytes>, carry: Option<Bytes>)
    requires !Truthy(chunk)
    ensures Reassemble(chunk, carry) == Reassembled(chunk, carry)
  {
  }

  /**
   * The shape of a reassembly step on a non-empty chunk, with `all` the carry-over followed by
   * the chunk: without a line break in `all` nothing is ready and all of it is carried; with
   * one, the ready bytes end in a line break and the carry-over holds none; and when `all`
   * itself ends in a line break nothing is carried.
   */
  lemma ReassembleShape(chunk: Option<Bytes>, carry: Option<Bytes>)
    requires Truthy(chunk)
    ensures var all := Text(carry) + Text(chunk); var r := Reassemble(chunk, carry);
      && (NL !in all ==> r == Reassembled(None, Some(all)))
      && (NL in all ==> r.ready.Some? && r.ready.value != [] && WholeLines(r.ready.value))
      && (NL in all ==> NL !in Text(r.carry))
      && (WholeLines(all) ==> Text(r.carry) == [] && (ValidCarry(carry) ==> r.carry == None))
  {
    var all := Text(carry) + Text(chunk);
    var buf := if Truthy(carry) then None else carry;
    assert Reassemble(chunk, carry) == SplitCombined(all, buf);
    SplitCombinedShape(all, buf);
    assert ValidCarry(carry) ==> buf == None;
  }

  /** ReassembleShape, stated of the combined bytes. */
  lemma SplitCombinedShape(all: Bytes, buf: Option<Bytes>)
    requires all != [] && Text(buf) == []
    ensures var r := SplitCombined(all, buf);
      && (NL !in all ==> r == Reassembled(None, Some(all)))
      && (NL in all ==> r.ready.Some? && r.ready.value != [] && WholeLines(r.ready.value))
      && (NL in all ==> NL !in Text(r.carry))
      && (WholeLines(all) ==> r.carry == buf)
  {
    if NL !in all {
      assert SplitCombined(all, buf) == Reassembled(None, Some(all));
    } else if all[|all| - 1] != NL {
      var k := LastNewline(all) + 1;
      assert SplitCombined(all, buf) == Reassembled(Some(all[..k]), Some(all[k..]));
      assert all[..k][k - 1] == NL;
    } else {
      assert SplitCombined(all, buf) == Reassembled(Some(all), buf);
    }
  }

  /**
   * Reassembly cuts exactly after the last line break of the carry-over followed by the chunk
   * (for a well-formed carry-over, or any carry-over when the chunk is non-empty).
   */
  lemma ReassembleSplitsAtLastNewline(chunk: Option<Bytes>, carry: Option<Bytes>)
    requires Truthy(chunk) || ValidCarry(carry)
    ensures var all := Text(carry) + Text(chunk); var r := Reassemble(chunk, carry);
      Text(r.ready) == all[..Cut(all)] && Text(r.carry) == all[Cut(all)..]
  {
    var r := Reassemble(chunk, carry);
    if Truthy(chunk) {
      ReassembleShape(chunk, carry);
    } else {
      assert r == Reassembled(chunk, carry) && Text(chunk) == [];
    }
    CutOfWholeLines(Text(carry) + Text(chunk), Text(r.ready), Text(r.carry));
  }

  /** Whole lines followed by a tail without a line break are split exactly at the cut. */
  lemma CutOfWholeLines(all: Bytes, ready: Bytes, rest: Bytes)
    requires ready + rest == all
    requires WholeLines(ready) && NL !in rest
    ensures ready == all[..Cut(all)] && rest == all[Cut(all)..]
  {
    var k := |ready|;
    assert all[..k] == ready && all[k..] == rest;
    CutUnique(all, k);
  }

  /** The ready bytes are whole lines: none, or ending in a line break. */
  lemma ReadyIsWholeLines(chunk: Option<Bytes>, carry: Option<Bytes>)
    requires Truthy(chunk) || ValidCarry(carry)
    ensures WholeLines(Text(Reassemble(chunk, carry).ready))
  {
    ReassembleSplitsAtLastNewline(chunk, carry);
    CutIsWholeLines(Text(carry) + Text(chunk));
  }

  /** What comes before the cut ends on a line boundary. */
  lemma CutIsWholeLines(s: Bytes)
    ensures WholeLines(s[..Cut(s)])
  {
    assert Cut(s) == 0 || s[..Cut(s)][Cut(s) - 1] == NL;
  }

  /** A well-formed carry-over stays well-formed. */
  lemma ReassemblePreservesCarry(chunk: Option<Bytes>, carry: Option<Bytes>)
    requires ValidCarry(carry)
    ensures ValidCarry(Reassemble(chunk, carry).carry)
  {
    if Truthy(chunk) {
      ReassembleShape(chunk, carry);
    }
  }

  /** Two well-formed carry-overs that stand for the same bytes are the same. */
  lemma ValidCarryByText(c: Option<Bytes>, d: Option<Bytes>)
    requires ValidCarry(c) && ValidCarry(d)
    requires Text(c) == Text(d)
    ensures c == d
  {
  }
}
