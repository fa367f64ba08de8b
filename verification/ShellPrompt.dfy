/**
 The text in front of an event is handed on with it: it is the argument of PROMPT_END. Unlike the
 event itself it depends on the chunks. Here: when the first piece of a stream is everything up to
 the end of its first event, exactly, and so when PROMPT_END gets its whole text.
 */
module ShellPrompt {
  import opened Bytes
  import opened ShellEvents
  import opened ShellProgress
  import opened ShellReport

  /** A chunk that ends at `end`, before the first event is complete, makes the reader cut: `marker` is
      where the first marker of the stream is. Before the marker is complete a newline or an overlong
      carriage-return run does it, afterwards the text in front of the marker, until a bell is there. */
  predicate Breaks(s: seq<Byte>, marker: nat, end: nat)
    requires marker <= |s| && end <= |s|
  {
    if end < marker + 6 then
      var text := s[..Min(end, marker)];
      LF in text || RFindByte(text, CR) >= RBUF_MAX_LENGTH
    else marker != 0 && BEL !in s[..end]
  }

  /** Some chunk, of those behind the first `from` bytes, ends before `limit` and makes the reader cut. */
  predicate Broken(s: seq<Byte>, marker: nat, chunks: seq<seq<Byte>>, from: nat, limit: nat)
    requires marker <= |s| && limit <= |s|
  {
    && chunks != []
    && (BreaksAt(s, marker, from + |chunks[0]|, limit) || Broken(s, marker, chunks[1..], from + |chunks[0]|, limit))
  }

  predicate BreaksAt(s: seq<Byte>, marker: nat, end: nat, limit: nat)
    requires marker <= |s| && limit <= |s|
  {
    end < limit && Breaks(s, marker, end)
  }

  // ---------------------------------------------------------------- prefixes of a stream

  /** A prefix that does not hold all of the first event holds no event. */
  lemma NoEventYet(s: seq<Byte>, buf: seq<Byte>)
    requires Search(s, 0).Some? && buf <= s && |buf| < Search(s, 0).value.end
    ensures Search(buf, 0).None?
  {
    if Search(buf, 0).Some? {
      assert s == buf + s[|buf|..];
      SearchInPrefix(buf, s[|buf|..]);
    }
  }

  /** A prefix that holds it finds it. */
  lemma EventThere(s: seq<Byte>, buf: seq<Byte>)
    requires Search(s, 0).Some? && buf <= s && Search(s, 0).value.end <= |buf|
    ensures Search(buf, 0) == Search(s, 0)
  {
    var m, rest := Search(s, 0).value, s[|buf|..];
    assert s == buf + rest;
    MatchInPrefix(buf, rest, m.start);
    SearchLeast(buf, 0);
    SearchInPrefix(buf, rest);
  }

  /** The first marker of a prefix. */
  lemma MarkerOfPrefix(s: seq<Byte>, buf: seq<Byte>)
    requires buf <= s && FindMarker(s, 0) != -1
    ensures FindMarker(buf, 0) == if |buf| < FindMarker(s, 0) + 6 then -1 else FindMarker(s, 0)
  {
    var marker := FindMarker(s, 0);
    assert forall k :: 0 <= k < |buf| ==> buf[k] == s[k];
    FindMarkerLeast(s, 0);
    FindMarkerLeast(buf, 0);
    assert forall k :: 0 <= k && k + 6 <= |buf| ==> (MarkerAt(buf, k) <==> MarkerAt(s, k));
  }

  /** The bytes of an incomplete marker ask for no cut, so the text in front of it decides. */
  lemma TextDecides(s: seq<Byte>, marker: nat, buf: seq<Byte>)
    requires MarkerAt(s, marker) && buf <= s && |buf| < marker + 6
    ensures var text := s[..Min(|buf|, marker)];
      && (BEL in buf <==> BEL in text) && (LF in buf <==> LF in text)
      && (RFindByte(buf, CR) >= RBUF_MAX_LENGTH <==> RFindByte(text, CR) >= RBUF_MAX_LENGTH)
  {
    var text := s[..Min(|buf|, marker)];
    assert buf == s[..|buf|];
    assert forall k :: marker <= k < |buf| ==> s[k] != BEL && s[k] != LF && s[k] != CR;
    LastInPrefix(text, buf, CR);
  }

  lemma {:induction false} LastInPrefix(text: seq<Byte>, buf: seq<Byte>, b: Byte)
    requires text <= buf && forall k :: |text| <= k < |buf| ==> buf[k] != b
    ensures RFindByte(buf, b) == RFindByte(text, b)
    decreases |buf|
  {
    if |text| < |buf| {
      LastInPrefix(text, buf[..|buf| - 1], b);
    } else {
      assert buf == text;
    }
  }

  /** When a prefix that does not hold the first event yet is cut. */
  lemma WaitsUnlessBroken(s: seq<Byte>, marker: nat, buf: seq<Byte>)
    requires Search(s, 0).Some? && buf <= s && |buf| < Search(s, 0).value.end
    requires marker == FindMarker(s, 0) && BEL !in s[..marker]
    ensures FindCut(buf).Wait? <==> !Breaks(s, marker, |buf|)
  {
    NoEventYet(s, buf);
    WaitIff(buf);
    MarkerOfPrefix(s, buf);
    FindMarkerLeast(buf, 0);
    assert buf == s[..|buf|];
    if |buf| < marker + 6 {
      TextDecides(s, marker, buf);
      NoBellBefore(s, marker, Min(|buf|, marker));
      assert FindByte(buf, BEL, 0) == -1;
    } else {
      NoBellBefore(s, marker, marker);
      assert forall k :: 0 <= k < marker ==> buf[k] == s[k] && s[k] in s[..marker];
    }
  }

  lemma NoBellBefore(s: seq<Byte>, marker: nat, end: nat)
    requires end <= marker <= |s| && BEL !in s[..marker]
    ensures BEL !in s[..end]
  {
    assert forall k :: 0 <= k < end ==> s[..end][k] == s[..marker][k];
  }

  /** A prefix that holds the first event is cut at its end. */
  lemma CutAtEvent(s: seq<Byte>, marker: nat, buf: seq<Byte>)
    requires Search(s, 0).Some? && buf <= s && Search(s, 0).value.end <= |buf|
    requires marker == FindMarker(s, 0) && BEL !in s[..marker]
    ensures FindCut(buf) == Cut(Search(s, 0).value.end, VscodeEventEnd)
  {
    var m := Search(s, 0).value;
    EventThere(s, buf);
    EventHasMarkerAndBell(buf);
    FindMarkerLeast(s, 0);
    MarkerOfPrefix(s, buf);
    assert forall k :: 0 <= k < marker ==> buf[k] == s[k] && s[k] in s[..marker];
    assert MarkerAt(buf, marker);
  }

  // ---------------------------------------------------------------- the first piece

  /** No chunk end lies before the bytes that are there already. */
  lemma {:induction false} NotBrokenBehind(s: seq<Byte>, marker: nat, chunks: seq<seq<Byte>>, from: nat, limit: nat)
    requires marker <= |s| && limit <= |s| && limit <= from
    ensures !Broken(s, marker, chunks, from, limit)
    decreases |chunks|
  {
    if chunks != [] { NotBrokenBehind(s, marker, chunks[1..], from + |chunks[0]|, limit); }
  }

  /** What the reader does with a prefix of a stream whose first event ends at `end`: it waits, or cuts the
      event or something shorter. */
  predicate Outcome(s: seq<Byte>, marker: nat, end: nat, buf: seq<Byte>)
    requires marker <= |s| && end <= |s| && buf <= s
  {
    && (FindCut(buf).Wait? <==> |buf| < end && !Breaks(s, marker, |buf|))
    && (FindCut(buf).Cut? ==> (buf[..FindCut(buf).at] == s[..end] <==> end <= |buf|))
  }

  lemma PrefixOutcome(s: seq<Byte>, marker: nat, m: Match, buf: seq<Byte>)
    requires Search(s, 0) == Some(m) && marker == FindMarker(s, 0) && BEL !in s[..marker] && buf <= s
    ensures Outcome(s, marker, m.end, buf)
  {
    if |buf| < m.end {
      WaitsUnlessBroken(s, marker, buf);
    } else {
      CutAtEvent(s, marker, buf);
      assert buf[..m.end] == s[..m.end];
    }
  }

  lemma {:induction false} FirstPiece(acc: seq<Byte>, chunks: seq<seq<Byte>>, s: seq<Byte>, marker: nat, end: nat)
    requires marker <= |s| && |acc| < end <= |s| && s == acc + Concat(chunks)
    requires forall buf :: buf <= s ==> Outcome(s, marker, end, buf)
    ensures ReadFrom(acc, chunks).Piece?
    ensures ReadFrom(acc, chunks).data == s[..end] <==> !Broken(s, marker, chunks, |acc|, end)
    decreases |chunks|
  {
    assert chunks == [] ==> acc == s;
    var buf, later := acc + chunks[0], Concat(chunks[1..]);
    Assoc(acc, chunks[0], later);
    assert Outcome(s, marker, end, buf);
    if FindCut(buf).Wait? {
      FirstPiece(buf, chunks[1..], s, marker, end);
    } else if |buf| >= end {
      NotBrokenBehind(s, marker, chunks[1..], |buf|, end);
    }
  }

  /** The first piece is everything up to the end of the first event if and only if no bell comes before
      the first marker and no chunk that ends before the event does makes the reader cut. */
  lemma FirstEventUncutIff(chunks: seq<seq<Byte>>, m: Match)
    requires Search(Concat(chunks), 0) == Some(m)
    ensures FindMarker(Concat(chunks), 0) != -1 && ReadFrom([], chunks).Piece?
    ensures var s := Concat(chunks);
      var marker := FindMarker(s, 0);
      ReadFrom([], chunks).data == s[..m.end] <==> BEL !in s[..marker] && !Broken(s, marker, chunks, 0, m.end)
  {
    var s := Concat(chunks);
    EventHasMarkerAndBell(s);
    EmptyPrefix(s);
    assert FindCut([]).Wait?;
    ReadStepEvents(chunks, []);
    if BEL !in s[..FindMarker(s, 0)] {
      forall buf | buf <= s ensures Outcome(s, FindMarker(s, 0), m.end, buf) {
        PrefixOutcome(s, FindMarker(s, 0), m, buf);
      }
      FirstPiece([], chunks, s, FindMarker(s, 0), m.end);
    } else {
      BellFirst([], chunks, s);
      EventPiece(s);
    }
  }

  /** A bell in front of the first marker is cut away, or the marker is, and the event is not in the piece. */
  lemma {:induction false} BellFirst(acc: seq<Byte>, chunks: seq<seq<Byte>>, s: seq<Byte>)
    requires s == acc + Concat(chunks) && FindMarker(s, 0) != -1 && BEL in s[..FindMarker(s, 0)]
    requires ReadFrom(acc, chunks).Piece?
    ensures EventsIn(ReadFrom(acc, chunks).data) == []
    decreases |chunks|
  {
    var buf := acc + chunks[0];
    Assoc(acc, chunks[0], Concat(chunks[1..]));
    if FindCut(buf).Wait? {
      BellFirst(buf, chunks[1..], s);
    } else {
      BellFirstCut(s, buf);
      PlainPieceHasNoEvent(buf);
    }
  }

  lemma BellFirstCut(s: seq<Byte>, buf: seq<Byte>)
    requires buf <= s && FindMarker(s, 0) != -1 && BEL in s[..FindMarker(s, 0)] && FindCut(buf).Cut?
    ensures !FindCut(buf).ty.VscodeEventEnd?
  {
    var marker := FindMarker(s, 0);
    MarkerOfPrefix(s, buf);
    var k :| 0 <= k < marker && s[k] == BEL;
    assert k < |buf| ==> buf[k] == BEL;
  }

  /** PROMPT_END carries the whole text in front of it if and only if that text holds no bell in front of
      the first marker and no chunk that ends before the bell of the prompt end makes the reader cut. */
  lemma PromptArgumentIff(chunks: seq<seq<Byte>>, m: Match)
    requires Search(Concat(chunks), 0) == Some(m) && m.kind == PROMPT_END
    ensures FindMarker(Concat(chunks), 0) != -1 && ReadFrom([], chunks).Piece?
    ensures var s := Concat(chunks);
      var marker := FindMarker(s, 0);
      (HandleResult(ReadFrom([], chunks).data) == [Command(PROMPT_END, Some(s[..m.start]))])
      <==> BEL !in s[..marker] && !Broken(s, marker, chunks, 0, m.end)
  {
    var s := Concat(chunks);
    FirstEventUncutIff(chunks, m);
    PieceOfPrompt(chunks, m);
  }

  lemma PieceOfPrompt(chunks: seq<seq<Byte>>, m: Match)
    requires Search(Concat(chunks), 0) == Some(m) && m.kind == PROMPT_END && ReadFrom([], chunks).Piece?
    ensures HandleResult(ReadFrom([], chunks).data) == [Command(PROMPT_END, Some(Concat(chunks)[..m.start]))]
      <==> ReadFrom([], chunks).data == Concat(chunks)[..m.end]
  {
    var s, r := Concat(chunks), ReadFrom([], chunks);
    EmptyPrefix(s);
    assert FindCut([]).Wait?;
    ReadSplitsEvents([], chunks, []);
    PromptInData(s, m, r.data, r.ty, Concat(r.rest));
  }

  lemma PromptInData(s: seq<Byte>, m: Match, data: seq<Byte>, ty: LineEventType, rest: seq<Byte>)
    requires Search(s, 0) == Some(m) && m.kind == PROMPT_END && s == data + rest && WellCut(data, ty)
    ensures HandleResult(data) == [Command(PROMPT_END, Some(s[..m.start]))] <==> data == s[..m.end]
  {
    assert data == s[..|data|];
    if Search(data, 0).Some? {
      SearchInPrefix(data, rest);
      assert EventsIn(data) != [];
    }
    EventPiece(s);
    assert data == s[..m.end] ==> data[..m.start] == s[..m.start];
  }

  /** A split in front of the bell that loses the text `x`: `x ESC ]784;` and `B BEL`. */
  lemma SplitInMarkerLosesText()
    ensures var r := ReadFrom([], [[120, 27, 93, 55, 56, 52, 59], [66, 7]]);
      r.Piece? && HandleResult(r.data) != [Command(PROMPT_END, Some([120]))]
  {
    var s: seq<Byte>, split: seq<seq<Byte>> :=
      [120, 27, 93, 55, 56, 52, 59, 66, 7], [[120, 27, 93, 55, 56, 52, 59], [66, 7]];
    var m := Match(1, 9, PROMPT_END, None);
    ConcatPair(split[0], split[1]);
    assert Concat(split) == s;
    assert MatchAt(s, 1) == Some(m) && MatchAt(s, 0).None?;
    SearchIs(s, 0, 1);
    assert !MarkerAt(s, 0) && MarkerAt(s, 1) && FindMarker(s, 0) == 1;
    assert forall k :: 0 <= k < 7 ==> s[..7][k] != BEL;
    assert BreaksAt(s, 1, 0 + |split[0]|, 9);
    PromptArgumentIff(split, m);
    assert s[..m.start] == [120];
  }

  /** `a LF b ESC ]784;B BEL` */
  const LINE_AND_PROMPT: seq<Byte> := [97, 10, 98, 27, 93, 55, 56, 52, 59, 66, 7]

  lemma PromptBehindLine()
    ensures Search(LINE_AND_PROMPT, 0) == Some(Match(3, 11, PROMPT_END, None)) && FindMarker(LINE_AND_PROMPT, 0) == 3
  {
    var s := LINE_AND_PROMPT;
    assert s[3] == 27 && MatchAt(s, 3) == Some(Match(3, 11, PROMPT_END, None));
    assert forall k: nat :: k < 3 ==> s[k] != 27;
    SearchIs(s, 0, 3);
    FindMarkerLeast(s, 0);
    assert MarkerAt(s, 3);
  }

  /** A split behind a line that loses the text `a LF b`: `a LF` and `b ESC ]784;B BEL`. */
  lemma SplitBehindLineLosesText()
    ensures var r := ReadFrom([], [[97, 10], [98, 27, 93, 55, 56, 52, 59, 66, 7]]);
      r.Piece? && HandleResult(r.data) != [Command(PROMPT_END, Some([97, 10, 98]))]
  {
    var s, split: seq<seq<Byte>> := LINE_AND_PROMPT, [[97, 10], [98, 27, 93, 55, 56, 52, 59, 66, 7]];
    ConcatPair(split[0], split[1]);
    assert Concat(split) == s;
    PromptBehindLine();
    assert s[..2][1] == LF;
    assert BreaksAt(s, 3, 0 + |split[0]|, 11);
    PromptArgumentIff(split, Match(3, 11, PROMPT_END, None));
    assert s[..3] == [97, 10, 98];
  }

  lemma ConcatPair<T>(a: seq<T>, b: seq<T>)
    ensures Concat([a, b]) == a + b
  {
    assert [a, b] == [a] + [b] && [a][1..] == [];
    ConcatSnoc([a], b);
  }
}
