/** What `write` does to its arguments before anything reaches gdb: the timeout clamp and the command text. */
module Commands {
  import opened Wrappers
  import opened Lines
  import opened GdbErrors

  /** An element of a list command: a str, or a value of any other type (named by its type). */
  datatype Item = StrItem(text: string) | OtherItem(typeName: string)

  /** `mi_cmd_to_write`: a str, a list, or a value of any other type (named by its type). */
  datatype Command = Single(text: string) | Batch(items: seq<Item>) | Unsupported(typeName: string)

  /**
   * The position of the first list element that is not a str, the one `'\n'.join` stops at
   * with a TypeError.
   */
  function FirstOther(items: seq<Item>): (r: Option<nat>)
    ensures r.Some? ==> r.value < |items| && items[r.value].OtherItem? && forall j :: 0 <= j < r.value ==> items[j].StrItem?
    ensures r.None? ==> forall j :: 0 <= j < |items| ==> items[j].StrItem?
  {
    if items == [] then None
    else if items[0].OtherItem? then Some(0)
    else
      match FirstOther(items[1..])
      case None => None
      case Some(k) => Some(k + 1)
  }

  /** A command `write` can turn into text: a str, or a list whose elements are all str. */
  predicate Joinable(cmd: Command)
  {
    cmd.Single? || (cmd.Batch? && FirstOther(cmd.items).None?)
  }

  /** The texts of a list whose elements are all str. */
  function Texts(items: seq<Item>): (r: seq<string>)
    requires forall j :: 0 <= j < |items| ==> items[j].StrItem?
    ensures |r| == |items| && forall j :: 0 <= j < |items| ==> r[j] == items[j].text
  {
    seq(|items|, j requires 0 <= j < |items| => items[j].text)
  }

  predicate EndsWithNewline(s: string)
  {
    |s| > 0 && s[|s| - 1] == '\n'
  }

  /** A negative timeout is replaced by 0; any other is kept. */
  function ClampTimeout(timeoutSec: real): (t: real)
    ensures t >= 0.0
    ensures timeoutSec >= 0.0 ==> t == timeoutSec
    ensures timeoutSec < 0.0 ==> t == 0.0
  {
    if timeoutSec < 0.0 then 0.0 else timeoutSec
  }

  /** One-line str elements joined by line breaks split back into themselves. */
  lemma JoinedItemsSplit(items: seq<Item>)
    requires forall j :: 0 <= j < |items| ==> items[j].StrItem?
    ensures items != [] && (forall j :: 0 <= j < |items| ==> '\n' !in items[j].text) ==>
      Split(Join(Texts(items), '\n'), '\n') == Texts(items)
  {
    if items != [] && (forall j :: 0 <= j < |items| ==> '\n' !in items[j].text) {
      SplitJoin(Texts(items), '\n');
    }
  }

  /**
   * The text of a str or list command: a list is joined with line breaks, so a list of
   * one-line commands can be split back into them.
   */
  function Joined(cmd: Command): (r: string)
    requires Joinable(cmd)
    ensures cmd.Single? ==> r == cmd.text
    ensures cmd.Batch? && cmd.items != [] && (forall j :: 0 <= j < |cmd.items| ==> '\n' !in cmd.items[j].text) ==>
      Split(r, '\n') == Texts(cmd.items)
  {
    match cmd
    case Single(text) => text
    case Batch(items) =>
      JoinedItemsSplit(items);
      Join(Texts(items), '\n')
  }

  /**
   * The bytes `write` sends: the command's text with one line break appended unless it already
   * ends with one. A type other than str or list is a TypeError, and so is a list holding
   * something other than a str, named by the type of the first such element.
   */
  function Normalize(cmd: Command): (r: Result<string, Error>)
    ensures r.Failure? <==> !Joinable(cmd)
    ensures cmd.Unsupported? ==> r == Failure(TypeError(cmd.typeName))
    ensures cmd.Batch? && FirstOther(cmd.items).Some? ==>
      r == Failure(TypeError(cmd.items[FirstOther(cmd.items).value].typeName))
    ensures r.Success? ==> EndsWithNewline(r.value)
    ensures r.Success? ==> Joined(cmd) <= r.value && |r.value| <= |Joined(cmd)| + 1
    ensures r.Success? && EndsWithNewline(Joined(cmd)) ==> r.value == Joined(cmd)
  {
    if cmd.Unsupported? then Failure(TypeError(cmd.typeName))
    else if cmd.Batch? && FirstOther(cmd.items).Some? then Failure(TypeError(cmd.items[FirstOther(cmd.items).value].typeName))
    else
      var text := Joined(cmd);
      if EndsWithNewline(text) then Success(text) else Success(text + "\n")
  }

  /** Normalising is idempotent: a normalised command sent again as a str is sent unchanged. */
  lemma NormalizeIdempotent(cmd: Command)
    requires Joinable(cmd)
    ensures Normalize(Single(Normalize(cmd).value)) == Normalize(cmd)
  {
  }

  /**
   * One-line texts, the last of them non-empty, joined by line breaks do not end in a line
   * break, and with one appended they split back into the texts and one empty tail.
   */
  lemma TerminatedJoinSplits(texts: seq<string>)
    requires texts != [] && texts[|texts| - 1] != []
    requires forall i :: 0 <= i < |texts| ==> '\n' !in texts[i]
    ensures !EndsWithNewline(Join(texts, '\n'))
    ensures Split(Join(texts, '\n') + "\n", '\n') == texts + [[]]
  {
    var text := Join(texts, '\n');
    var last := texts[|texts| - 1];
    JoinLast(texts, '\n');
    assert last[|last| - 1] in last;
    SplitJoin(texts, '\n');
    assert Split([], '\n') == [[]];
    assert text + "\n" == text + ['\n'] + [];
    SplitAround(text, [], '\n');
  }

  /**
   * A list of one-line commands, the last of them non-empty, is sent as those lines, each
   * terminated by a line break: splitting what is sent at line breaks gives back the list and
   * one empty tail.
   */
  lemma BatchRoundTrip(items: seq<Item>)
    requires forall i :: 0 <= i < |items| ==> items[i].StrItem? && '\n' !in items[i].text
    requires items != [] && items[|items| - 1].text != []
    ensures Split(Normalize(Batch(items)).value, '\n') == Texts(items) + [[]]
  {
    var texts := Texts(items);
    assert FirstOther(items).None?;
    TerminatedJoinSplits(texts);
    assert Joined(Batch(items)) == Join(texts, '\n');
  }
}
