/**
 `_handle_result`: what is reported of a piece, and that it gives the bytes of the piece back.
 */
module ShellReport {
  import opened Bytes
  import opened ShellEvents
  import opened ShellText

  datatype ReadResult =
    | Got(data: seq<Byte>, ty: LineEventType)
    | Incomplete(partial: seq<Byte>)   // IncompleteReadError
    | SoftEof                          // an empty result of type EOF
    | Raised                           // the buffered exception
    | Blocked                          // still waiting for the network

  function ResultBytes(r: ReadResult): seq<Byte> {
    match r
    case Got(data, _) => data
    case Incomplete(partial) => partial
    case _ => []
  }

  datatype Event =
    | Line(data: seq<Byte>, isCommand: bool)
    | Command(kind: Byte, arg: Option<seq<Byte>>)
    | EndOfFile
    | Exception

  /** The last branch of `_handle_result`: the piece is searched for a command once. */
  function HandleResult(data: seq<Byte>): seq<Event> {
    match Search(data, 0)
    case None => [Line(data, false)]
    case Some(m) =>
      var before := data[..m.start];
      if m.kind == PROMPT_END then [Command(m.kind, Some(before))]
      else (if before != [] then [Line(before, true)] else []) + [Command(m.kind, m.arg)]
  }

  /** The command events of an event list; the argument of PROMPT_END is the text before it,
      not part of the event. */
  function CommandKeys(events: seq<Event>): seq<CommandKey> {
    if events == [] then []
    else
      (match events[0]
       case Command(kind, arg) => [CommandKey(kind, if kind == PROMPT_END then None else arg)]
       case _ => [])
      + CommandKeys(events[1..])
  }

  lemma {:induction false} KeysAppend(a: seq<Event>, b: seq<Event>)
    ensures CommandKeys(a + b) == CommandKeys(a) + CommandKeys(b)
  {
    if a == [] {
      assert a + b == b;
    } else {
      assert (a + b)[1..] == a[1..] + b;
      KeysAppend(a[1..], b);
    }
  }

  lemma HandleResultKeys(data: seq<Byte>)
    ensures CommandKeys(HandleResult(data)) == SearchPiece(data)
  {
    var events := HandleResult(data);
    if |events| == 2 {
      assert events == [events[0]] + [events[1]];
      KeysAppend([events[0]], [events[1]]);
    }
  }

  /** `_handle_result`, and whether the loop ends with it. A result read at the end of file is not
      searched: it becomes a line and an end-of-file event, whatever it holds. */
  function HandleRead(r: ReadResult, atEof: bool): (seq<Event>, bool) {
    if r.Raised? then ([Exception], true)
    else if atEof then ([Line(ResultBytes(r), false), EndOfFile], true)
    else (HandleResult(ResultBytes(r)), false)
  }

  /** Whether the loop ends, and the event it ends with. */
  lemma LoopEndsIff(r: ReadResult, atEof: bool)
    ensures HandleRead(r, atEof).1 <==> r.Raised? || atEof
    ensures HandleRead(r, atEof).1 <==> LastIs(HandleRead(r, atEof).0, r)
  {
  }

  predicate LastIs(events: seq<Event>, r: ReadResult) {
    events != [] && events[|events| - 1] == if r.Raised? then Exception else EndOfFile
  }

  /** At the end of file no command is reported. */
  lemma EndOfFileReportsNothing(r: ReadResult, atEof: bool)
    requires HandleRead(r, atEof).1
    ensures CommandKeys(HandleRead(r, atEof).0) == []
  {
    if !r.Raised? {
      var line := Line(ResultBytes(r), false);
      assert [line, EndOfFile] == [line] + [EndOfFile];
      KeysAppend([line], [EndOfFile]);
    }
  }

  // ---------------------------------------------------------------- the report and the bytes

  /** What is reported of text without an event. */
  lemma ReportOfLineIff(data: seq<Byte>)
    ensures HandleResult(data) == [Line(data, false)] <==> EventsIn(data) == []
  {
    var events := HandleResult(data);
    if Search(data, 0).Some? {
      assert events[|events| - 1].Command?;
      EventsUnfold(data, Search(data, 0).value);
    }
  }

  /** What is reported of an event with text in front of it, in which no event begins. */
  lemma ReportOfEvent(text: seq<Byte>, kind: Byte, arg: Option<seq<Byte>>)
    requires Printable(kind, arg)
    requires forall k: nat :: k < |text| ==> MatchAt(text + EventText(kind, arg), k).None?
    ensures HandleResult(text + EventText(kind, arg)) ==
      if kind == PROMPT_END then [Command(kind, Some(text))]
      else if text == [] then [Command(kind, arg)]
      else [Line(text, true), Command(kind, arg)]
  {
    var s := text + EventText(kind, arg);
    assert s[|text|..|s|] == EventText(kind, arg);
    MatchOfText(s, |text|, |s|, kind, arg);
    SearchIs(s, 0, |text|);
    assert s[..|text|] == text;
  }

  /** `s` is the text of the event. A prompt end is reported with the text in front of it, and without an
      argument of its own. */
  ghost predicate EventIs(e: Event, s: seq<Byte>) {
    match e
    case Line(data, _) => s == data
    case Command(kind, arg) =>
      if kind == PROMPT_END then
        arg.Some? && exists own: Option<seq<Byte>> :: Printable(kind, own) && s == arg.value + EventText(kind, own)
      else Printable(kind, arg) && s == EventText(kind, arg)
    case _ => s == []
  }

  ghost predicate PartsOf(events: seq<Event>, parts: seq<seq<Byte>>) {
    |parts| == |events| && forall i :: 0 <= i < |parts| ==> EventIs(events[i], parts[i])
  }

  /** The texts of the events, one behind the other, are `s`. */
  ghost predicate Tells(events: seq<Event>, s: seq<Byte>) {
    exists parts: seq<seq<Byte>> :: PartsOf(events, parts) && Concat(parts) == s
  }

  lemma TellsNothing()
    ensures Tells([], [])
  {
    assert PartsOf([], []) && Concat<Byte>([]) == [];
  }

  lemma TellsOne(e: Event, s: seq<Byte>)
    requires EventIs(e, s)
    ensures Tells([e], s)
  {
    assert PartsOf([e], [s]);
    ConcatSnoc([], s);
    EmptyPrefix([s]);
    EmptyPrefix(s);
  }

  lemma TellsBoth(a: seq<Event>, s: seq<Byte>, b: seq<Event>, t: seq<Byte>)
    requires Tells(a, s) && Tells(b, t)
    ensures Tells(a + b, s + t)
  {
    var p: seq<seq<Byte>> :| PartsOf(a, p) && Concat(p) == s;
    var q: seq<seq<Byte>> :| PartsOf(b, q) && Concat(q) == t;
    ConcatAppend(p, q);
    assert PartsOf(a + b, p + q);
  }

  /** At most one event, at the end: what every piece is. */
  predicate EndsAtEvent(data: seq<Byte>) {
    Search(data, 0).Some? ==> Search(data, 0).value.end == |data|
  }

  /** The report of a piece gives the piece back. */
  lemma HandleResultTells(data: seq<Byte>)
    requires EndsAtEvent(data)
    ensures Tells(HandleResult(data), data)
  {
    if Search(data, 0).None? {
      TellsOne(Line(data, false), data);
    } else {
      var m := Search(data, 0).value;
      var text, code := data[..m.start], data[m.start..m.end];
      TextOfMatch(data, m.start);
      assert data == text + code;
      if m.kind == PROMPT_END {
        assert EventIs(Command(m.kind, Some(text)), data);
        TellsOne(Command(m.kind, Some(text)), data);
      } else {
        TellsOne(Command(m.kind, m.arg), code);
        if text == [] {
          EmptyPrefix(code);
        } else {
          TellsOne(Line(text, true), text);
          TellsBoth([Line(text, true)], text, [Command(m.kind, m.arg)], code);
        }
      }
    }
  }

  /** What a read gives: a piece, or bytes without an event. */
  predicate WellRead(r: ReadResult) {
    && (r.Got? ==> WellCut(r.data, r.ty))
    && (r.Incomplete? ==> EventsIn(r.partial) == [])
  }

  /** The report of a read gives the bytes of the read back, the line made at the end of file included. */
  lemma HandleReadTells(r: ReadResult, atEof: bool)
    requires WellRead(r)
    ensures Tells(HandleRead(r, atEof).0, ResultBytes(r))
  {
    var data := ResultBytes(r);
    if r.Raised? {
      TellsOne(Exception, []);
    } else if atEof {
      TellsOne(Line(data, false), data);
      TellsOne(EndOfFile, []);
      TellsBoth([Line(data, false)], data, [EndOfFile], []);
      EmptySuffix(data);
      assert [Line(data, false)] + [EndOfFile] == [Line(data, false), EndOfFile];
    } else {
      HandleResultTells(data);
    }
  }
}
