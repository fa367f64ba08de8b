/**
 The session that owns the receive buffer: `readuntil_ex`, which edits the buffer in place,
 and the loop that reads and hands the results on.
 */
module ShellSession {
  import opened Bytes
  import opened ShellEof
  import opened ShellEvents
  import opened ShellReport
  import opened ShellText

  /** What the channel puts into the receive buffer. */
  datatype Item = Data(bytes: seq<Byte>) | Failure(softEof: bool)

  /** What a blocked reader can be woken by. */
  datatype Arrival = Arrived(item: Item) | EofReceived | ReadPaused

  function ItemChunk(item: Item): seq<Byte> {
    if item.Data? then item.bytes else []
  }

  function ItemChunks(items: seq<Item>): seq<seq<Byte>> {
    seq(|items|, i requires 0 <= i < |items| => ItemChunk(items[i]))
  }

  function ArrivalChunks(network: seq<Arrival>): seq<seq<Byte>> {
    if network == [] then []
    else (if network[0].Arrived? then [ItemChunk(network[0].item)] else []) + ArrivalChunks(network[1..])
  }

  lemma PieceKeepsBytes(chunks: seq<seq<Byte>>)
    ensures ReadFrom([], chunks).Piece? ==>
      ReadFrom([], chunks).data + Concat(ReadFrom([], chunks).rest) == Concat(chunks)
  {
    ReadStepBytes(chunks, []);
    EmptySuffix(Concat(chunks));
    if ReadFrom([], chunks).Piece? { EmptySuffix(Concat(ReadFrom([], chunks).rest)); }
  }

  /** What reading one more chunk does to the specification of the read. */
  lemma ReadNext(acc: seq<Byte>, all: seq<seq<Byte>>, k: nat)
    requires k < |all|
    ensures var buf := acc + all[k];
      ReadFrom(acc, all[k..]) ==
        match FindCut(buf)
        case Wait => ReadFrom(buf, all[k + 1..])
        case Cut(at, ty) => Piece(buf[..at], ty, (if at == |buf| then [] else [buf[at..]]) + all[k + 1..])
  {
    assert all[k..][1..] == all[k + 1..];
  }

  /** Splitting the buffer splits its bytes. */
  lemma TakeDrop(items: seq<Item>, k: nat)
    requires k <= |items|
    ensures ItemChunks(items[..k]) + ItemChunks(items[k..]) == ItemChunks(items)
    ensures Concat(ItemChunks(items[..k])) + Concat(ItemChunks(items[k..])) == Concat(ItemChunks(items))
  {
    assert ItemChunks(items[..k]) + ItemChunks(items[k..]) == ItemChunks(items);
    ConcatAppend(ItemChunks(items[..k]), ItemChunks(items[k..]));
  }

  lemma TakeOneMore(items: seq<Item>, k: nat)
    requires k < |items|
    ensures Concat(ItemChunks(items[..k + 1])) == Concat(ItemChunks(items[..k])) + ItemChunk(items[k])
  {
    assert ItemChunks(items[..k + 1]) == ItemChunks(items[..k]) + [ItemChunk(items[k])];
    ConcatSnoc(ItemChunks(items[..k]), ItemChunk(items[k]));
  }

  /** The first buffered item carries no bytes when the items read so far carry none. */
  lemma DropHead(items: seq<Item>, k: nat)
    requires k < |items| && items[k].Failure? && Concat(ItemChunks(items[..k])) == []
    ensures ItemChunks(items) == [[]] + ItemChunks(items[1..])
  {
    assert ItemChunks(items) == [ItemChunk(items[0])] + ItemChunks(items[1..]);
    if k > 0 { assert ItemChunks(items[..k])[0] == ItemChunk(items[0]); }
  }

  lemma ConcatEmptyHead<T>(rest: seq<seq<T>>)
    ensures Concat([[]] + rest) == Concat(rest)
  {
    assert ([[]] + rest)[1..] == rest;
  }

  /** The texts of the events are the bytes handed out, and with the bytes left they are all the bytes. */
  ghost predicate Told(events: seq<Event>, raws: seq<seq<Byte>>, left: seq<Byte>, all: seq<Byte>) {
    Tells(events, Concat(raws)) && Concat(raws) + left == all
  }

  lemma ToldStep(events: seq<Event>, raws: seq<seq<Byte>>, before: seq<Byte>, all: seq<Byte>, more: seq<Event>,
      bytes: seq<Byte>, left: seq<Byte>)
    requires Told(events, raws, before, all) && Tells(more, bytes) && bytes + left == before
    ensures Told(events + more, raws + [bytes], left, all)
  {
    TellsBoth(events, Concat(raws), more, bytes);
    ConcatSnoc(raws, bytes);
    Assoc(Concat(raws), bytes, left);
  }

  /** The commands reported, and those in the last result, when it is not searched, and the bytes left, are
      the events of all the bytes. */
  predicate Counted(events: seq<Event>, unsearched: seq<Byte>, left: seq<Byte>, all: seq<Byte>) {
    CommandKeys(events) + EventsIn(unsearched + left) == EventsIn(all)
  }

  lemma CountedStep(events: seq<Event>, before: seq<Byte>, all: seq<Byte>, more: seq<Event>, bytes: seq<Byte>,
      left: seq<Byte>, stop: bool)
    requires Counted(events, [], before, all)
    requires stop ==> EventsIn(before) == EventsIn(bytes + left) && CommandKeys(more) == []
    requires !stop ==> EventsIn(before) == CommandKeys(more) + EventsIn(left)
    ensures Counted(events + more, if stop then bytes else [], left, all)
  {
    EmptyPrefix(before);
    EmptyPrefix(left);
    KeysAppend(events, more);
    EmptySuffix(CommandKeys(events));
    Assoc(CommandKeys(events), CommandKeys(more), EventsIn(left));
  }

  class Session {
    var recvBuf: seq<Item>
    var recvBufLen: int
    var readPaused: bool
    var eofReceived: bool
    /** What the channel has still to deliver. */
    var network: seq<Arrival>

    constructor (arrivals: seq<Arrival>)
      ensures Valid() && recvBuf == [] && network == arrivals && !readPaused && !eofReceived
    {
      recvBuf, recvBufLen, readPaused, eofReceived, network := [], 0, false, false, arrivals;
    }

    ghost predicate Valid()
      reads this
    {
      recvBufLen == |Concat(ItemChunks(recvBuf))|
    }

    /** Every chunk that is buffered or still to come, in order. */
    ghost function Chunks(): seq<seq<Byte>>
      reads this
    {
      ItemChunks(recvBuf) + ArrivalChunks(network)
    }

    /** No exception or read pause is buffered or on its way. */
    ghost predicate Unbroken()
      reads this
    {
      && !readPaused
      && (forall i :: 0 <= i < |recvBuf| ==> recvBuf[i].Data?)
      && (forall i :: 0 <= i < |network| ==> !network[i].ReadPaused? && (network[i].Arrived? ==> network[i].item.Data?))
    }

    /** Unbroken, the end of file has been received, and nothing comes after it. */
    ghost predicate AtEnd()
      reads this
    {
      Unbroken() && eofReceived && network == []
    }

    /** And no end of file either. */
    ghost predicate Clean()
      reads this
    {
      Unbroken() && !eofReceived && forall i :: 0 <= i < |network| ==> !network[i].EofReceived?
    }

    /** The channel delivers one thing. */
    method TakeArrival()
      requires Valid() && network != []
      modifies this
      ensures Valid() && Chunks() == old(Chunks()) && old(recvBuf) <= recvBuf && network == old(network)[1..]
      ensures old(eofReceived) ==> eofReceived
      ensures old(Unbroken()) ==> Unbroken()
      ensures old(Clean()) ==> Clean()
    {
      var arrival := network[0];
      network := network[1..];
      match arrival
      case Arrived(item) =>
        assert ItemChunks(recvBuf + [item]) == ItemChunks(recvBuf) + [ItemChunk(item)];
        ConcatSnoc(ItemChunks(recvBuf), ItemChunk(item));
        Assoc(ItemChunks(recvBuf), [ItemChunk(item)], ArrivalChunks(network));
        recvBuf := recvBuf + [item];
        recvBufLen := recvBufLen + |ItemChunk(item)|;
      case EofReceived => eofReceived := true;
      case ReadPaused => readPaused := true;
    }

    /** Whatever the channel delivers before the reader goes on: any number of arrivals. */
    method Arrive()
      requires Valid()
      modifies this
      ensures Valid() && Chunks() == old(Chunks()) && old(recvBuf) <= recvBuf && |network| <= |old(network)|
      ensures old(eofReceived) ==> eofReceived
      ensures old(Unbroken()) ==> Unbroken()
      ensures old(Clean()) ==> Clean()
    {
      while *
        invariant Valid() && Chunks() == old(Chunks()) && old(recvBuf) <= recvBuf && |network| <= |old(network)|
        invariant old(eofReceived) ==> eofReceived
        invariant old(Unbroken()) ==> Unbroken()
        invariant old(Clean()) ==> Clean()
        decreases |network|
      {
        if network == [] { break; }
        TakeArrival();
      }
    }

    /** `_block_read`: waits for at least one arrival; false when there is none to come. */
    method BlockRead() returns (woken: bool)
      requires Valid()
      modifies this
      ensures Valid() && woken == (old(network) != [])
      ensures Chunks() == old(Chunks()) && old(recvBuf) <= recvBuf
      ensures woken ==> |network| < |old(network)|
      ensures !woken ==> network == []
      ensures old(Unbroken()) ==> Unbroken()
      ensures old(Clean()) ==> Clean()
    {
      woken := network != [];
      if woken {
        TakeArrival();
        Arrive();
      }
    }

    /** `_maybe_resume_reading`: whether a paused channel resumes is decided outside this model. */
    method MaybeResumeReading()
      modifies this`readPaused
      ensures readPaused ==> old(readPaused)
    {
      if * { readPaused := false; }
    }

    /** The buffer surgery shared by every cut: the chunks that made up `buf` are replaced by
        what is left of it. */
    method CutBuffer(curbuf: nat, buf: seq<Byte>, idx: nat)
      requires Valid() && curbuf < |recvBuf| && idx <= |buf|
      requires buf == Concat(ItemChunks(recvBuf[..curbuf + 1]))
      modifies this`recvBuf, this`recvBufLen, this`readPaused
      ensures Valid() && (readPaused ==> old(readPaused))
      ensures recvBuf == (if idx == |buf| then [] else [Data(buf[idx..])]) + old(recvBuf)[curbuf + 1..]
    {
      ghost var later := recvBuf[curbuf + 1..];
      TakeDrop(recvBuf, curbuf + 1);
      recvBuf := recvBuf[curbuf..];
      recvBuf := recvBuf[0 := Data(buf[idx..])];
      assert recvBuf == [Data(buf[idx..])] + later;
      assert ItemChunks(recvBuf) == [buf[idx..]] + ItemChunks(later);
      assert ItemChunks(recvBuf)[1..] == ItemChunks(later);
      recvBufLen := recvBufLen - idx;
      if recvBuf[0].bytes == [] { recvBuf := recvBuf[1..]; }
      MaybeResumeReading();
    }

    /** A cut was found in `buf`, the bytes of the first `curbuf + 1` chunks. */
    method ReturnPiece(curbuf: nat, buf: seq<Byte>, cut: CutResult, ghost all: seq<seq<Byte>>) returns (r: ReadResult)
      requires Valid() && Chunks() == all && curbuf < |recvBuf|
      requires buf == Concat(ItemChunks(recvBuf[..curbuf + 1])) && cut.Cut? && cut.at <= |buf|
      modifies this`recvBuf, this`recvBufLen, this`readPaused
      ensures Valid() && r == Got(buf[..cut.at], cut.ty)
      ensures Chunks() == (if cut.at == |buf| then [] else [buf[cut.at..]]) + all[curbuf + 1..]
      ensures old(Unbroken()) ==> Unbroken()
    {
      ghost var later := ItemChunks(recvBuf[curbuf + 1..]);
      ghost var left := if cut.at == |buf| then [] else [buf[cut.at..]];
      assert all[curbuf + 1..] == later + ArrivalChunks(network);
      CutBuffer(curbuf, buf, cut.at);
      assert ItemChunks(recvBuf) == left + later;
      Assoc(left, later, ArrivalChunks(network));
      r := Got(buf[..cut.at], cut.ty);
    }

    /** The reader met a buffered exception after the bytes `buf`. */
    method StopAtFailure(curbuf: nat, buf: seq<Byte>) returns (r: ReadResult)
      requires Valid() && curbuf < |recvBuf| && recvBuf[curbuf].Failure?
      requires buf == Concat(ItemChunks(recvBuf[..curbuf]))
      modifies this`recvBuf, this`recvBufLen
      ensures Valid()
      ensures ResultBytes(r) + Concat(Chunks()) == old(Concat(Chunks()))
      ensures buf != [] ==> r == Incomplete(buf) && recvBuf == old(recvBuf)[curbuf..]
      ensures buf == [] ==>
        r == (if old(recvBuf)[0] == Failure(true) then SoftEof else Raised) && recvBuf == old(recvBuf)[1..]
    {
      ghost var coming := ArrivalChunks(network);
      ConcatAppend(ItemChunks(recvBuf), coming);
      if buf != [] {
        TakeDrop(recvBuf, curbuf);
        recvBuf := recvBuf[curbuf..];
        recvBufLen := recvBufLen - |buf|;
        r := Incomplete(buf);
      } else {
        var exc := recvBuf[0];
        DropHead(recvBuf, curbuf);
        ConcatEmptyHead(ItemChunks(recvBuf[1..]));
        recvBuf := recvBuf[1..];
        r := if exc == Failure(true) then SoftEof else Raised;
      }
      ConcatAppend(ItemChunks(recvBuf), coming);
      Assoc(ResultBytes(r), Concat(ItemChunks(recvBuf)), Concat(coming));
    }

    /** Every buffered chunk is in `buf`, no cut was found, and the channel will not go on. */
    method StopAtPause(curbuf: nat, buf: seq<Byte>) returns (r: ReadResult)
      requires Valid() && curbuf == |recvBuf| && buf == Concat(ItemChunks(recvBuf))
      modifies this`recvBuf, this`recvBufLen, this`readPaused
      ensures Valid() && r == Incomplete(buf) && recvBuf == [] && (readPaused ==> old(readPaused))
      ensures ResultBytes(r) + Concat(Chunks()) == old(Concat(Chunks()))
    {
      ConcatAppend(ItemChunks(recvBuf), ArrivalChunks(network));
      recvBuf := recvBuf[curbuf..];
      recvBufLen := recvBufLen - |buf|;
      MaybeResumeReading();
      assert ItemChunks(recvBuf) + ArrivalChunks(network) == ArrivalChunks(network);
      r := Incomplete(buf);
    }

    /** One round of the inner loop: one more buffered chunk joins `acc`. `spec` is what the read of
        all the chunks `all` gives. */
    method ScanChunk(acc: seq<Byte>, curbuf: nat, ghost all: seq<seq<Byte>>, ghost spec: ReadOutcome)
      returns (stopped: bool, r: ReadResult, buf: seq<Byte>)
      requires Valid() && Chunks() == all && curbuf < |recvBuf|
      requires acc == Concat(ItemChunks(recvBuf[..curbuf])) && FindCut(acc).Wait?
      requires spec == ReadFrom(acc, all[curbuf..]) && (spec.Piece? ==> spec.data + Concat(spec.rest) == Concat(all))
      modifies this`recvBuf, this`recvBufLen, this`readPaused
      ensures Valid() && (old(Unbroken()) ==> Unbroken())
      ensures !stopped ==>
        && unchanged(this) && Chunks() == all && buf == Concat(ItemChunks(recvBuf[..curbuf + 1]))
        && spec == ReadFrom(buf, all[curbuf + 1..]) && FindCut(buf).Wait?
      ensures stopped ==> !r.Blocked? && ResultBytes(r) + Concat(Chunks()) == Concat(all)
      ensures stopped && r.Got? ==> spec == Piece(r.data, r.ty, Chunks())
      ensures stopped && r.Incomplete? ==> EventsIn(r.partial) == []
      ensures stopped && old(Unbroken()) ==> r.Got?
    {
      if recvBuf[curbuf].Failure? {
        buf := acc;
        WaitHasNoEvent(acc);
        r := StopAtFailure(curbuf, acc);
        stopped := true;
        return;
      }
      ReadNext(acc, all, curbuf);
      TakeOneMore(recvBuf, curbuf);
      buf, r := acc + recvBuf[curbuf].bytes, Blocked;
      var cut := FindCut(buf);
      stopped := cut.Cut?;
      if stopped { r := ReturnPiece(curbuf, buf, cut, all); }
    }

    /** The inner loop of `readuntil_ex`: looks at the buffered chunks that are not yet in `acc`. */
    method ScanBuffer(acc: seq<Byte>, from: nat, ghost all: seq<seq<Byte>>, ghost spec: ReadOutcome)
      returns (stopped: bool, r: ReadResult, buf: seq<Byte>, curbuf: nat)
      requires Valid() && Chunks() == all && from <= |recvBuf|
      requires acc == Concat(ItemChunks(recvBuf[..from])) && FindCut(acc).Wait?
      requires spec == ReadFrom(acc, all[from..]) && (spec.Piece? ==> spec.data + Concat(spec.rest) == Concat(all))
      modifies this`recvBuf, this`recvBufLen, this`readPaused
      ensures Valid() && (old(Unbroken()) ==> Unbroken())
      ensures !stopped ==>
        && unchanged(this) && Chunks() == all && curbuf == |recvBuf| && buf == Concat(ItemChunks(recvBuf))
        && spec == ReadFrom(buf, all[curbuf..]) && FindCut(buf).Wait?
      ensures stopped ==> !r.Blocked? && ResultBytes(r) + Concat(Chunks()) == Concat(all)
      ensures stopped && r.Got? ==> spec == Piece(r.data, r.ty, Chunks())
      ensures stopped && r.Incomplete? ==> EventsIn(r.partial) == []
      ensures stopped && old(Unbroken()) ==> r.Got?
    {
      buf, curbuf, r, stopped := acc, from, Blocked, false;
      while curbuf < |recvBuf|
        invariant unchanged(this) && from <= curbuf <= |recvBuf|
        invariant Valid() && Chunks() == all
        invariant old(Unbroken()) ==> Unbroken()
        invariant buf == Concat(ItemChunks(recvBuf[..curbuf])) && FindCut(buf).Wait?
        invariant spec == ReadFrom(buf, all[curbuf..])
      {
        stopped, r, buf := ScanChunk(buf, curbuf, all, spec);
        if stopped { return; }
        curbuf := curbuf + 1;
      }
      assert recvBuf[..curbuf] == recvBuf;
      stopped := false;
    }

    /** One round of the outer loop of `readuntil_ex`: the buffered chunks are looked at, and if they hold
        no cut the reader gives up at a pause or end of file, or waits for the channel. */
    method ReadRound(acc: seq<Byte>, from: nat, ghost all: seq<seq<Byte>>, ghost spec: ReadOutcome)
      returns (stopped: bool, r: ReadResult, buf: seq<Byte>, curbuf: nat)
      requires Valid() && Chunks() == all && from <= |recvBuf|
      requires acc == Concat(ItemChunks(recvBuf[..from])) && FindCut(acc).Wait?
      requires spec == ReadFrom(acc, all[from..]) && (spec.Piece? ==> spec.data + Concat(spec.rest) == Concat(all))
      modifies this
      ensures Valid() && (old(Unbroken()) ==> Unbroken()) && (old(Clean()) ==> Clean())
      ensures !stopped ==>
        && Chunks() == all && curbuf <= |recvBuf| && buf == Concat(ItemChunks(recvBuf[..curbuf])) && FindCut(buf).Wait?
        && spec == ReadFrom(buf, all[curbuf..]) && |network| < |old(network)|
      ensures stopped ==> ResultBytes(r) + Concat(Chunks()) == Concat(all)
      ensures stopped && r.Got? ==> spec == Piece(r.data, r.ty, Chunks())
      ensures stopped && r.Incomplete? ==> EventsIn(r.partial) == []
      ensures stopped && r.Blocked? ==> spec.Suspended? && Chunks() == all && network == []
      ensures stopped && old(Unbroken()) ==>
        r.Got? || r.Blocked? || (r.Incomplete? && eofReceived && recvBuf == [])
      ensures stopped && old(Clean()) ==> r.Got? || r.Blocked?
      ensures old(AtEnd()) ==> AtEnd() && stopped && (r.Got? || (r.Incomplete? && spec.Suspended?))
    {
      stopped, r, buf, curbuf := ScanBuffer(acc, from, all, spec);
      if stopped { return; }
      if readPaused || eofReceived {
        WaitHasNoEvent(buf);
        r := StopAtPause(curbuf, buf);
        stopped := true;
        return;
      }
      ghost var before := recvBuf;
      var woken := BlockRead();
      assert recvBuf[..curbuf] == before;
      if !woken {
        EmptyPrefix(Concat(all));
        stopped, r := true, Blocked;
      }
    }

    /** `readuntil_ex` with the event pattern as separator. On an unbroken stream it gives a cut piece,
        waits, or, once the end of file has been received, hands out the last bytes, which hold no event. */
    method ReadUntilEx() returns (r: ReadResult)
      requires Valid()
      modifies this
      ensures Valid()
      ensures ResultBytes(r) + Concat(Chunks()) == old(Concat(Chunks()))
      ensures r.Got? ==> ReadFrom([], old(Chunks())) == Piece(r.data, r.ty, Chunks())
      ensures r.Got? ==> PieceOf([], old(Chunks()), r.data, r.ty, Chunks())
      ensures WellRead(r)
      ensures r.Blocked? ==> ReadFrom([], old(Chunks())).Suspended? && Chunks() == old(Chunks()) && network == []
      ensures old(Unbroken()) ==> Unbroken() && (r.Got? || r.Blocked? || r.Incomplete?)
      ensures old(Unbroken()) && r.Incomplete? ==> eofReceived && recvBuf == []
      ensures old(Clean()) ==> Clean() && (r.Got? || r.Blocked?)
      ensures old(AtEnd()) ==> AtEnd() && (r.Got? <==> ReadFrom([], old(Chunks())).Piece?) && !r.Blocked?
    {
      var buf: seq<Byte>, curbuf: nat, stopped := [], 0, false;
      ghost var all, spec := Chunks(), ReadFrom([], Chunks());
      PieceKeepsBytes(all);
      while true
        invariant Valid() && Chunks() == all
        invariant curbuf <= |recvBuf| && buf == Concat(ItemChunks(recvBuf[..curbuf])) && FindCut(buf).Wait?
        invariant spec == ReadFrom(buf, all[curbuf..])
        invariant old(Unbroken()) ==> Unbroken()
        invariant old(Clean()) ==> Clean()
        invariant old(AtEnd()) ==> AtEnd()
        decreases |network|
      {
        stopped, r, buf, curbuf := ReadRound(buf, curbuf, all, spec);
        if stopped {
          ReadGivesPiece([], all);
          ReadSplitsEvents([], all, []);
          return;
        }
      }
    }

    /** `_readuntil`: one read, and whether the reader is at the end of file after it. */
    method ReadUntil() returns (r: ReadResult, atEof: bool)
      requires Valid()
      modifies this
      ensures Valid() && (atEof <==> eofReceived && recvBuf == [])
      ensures ResultBytes(r) + Concat(Chunks()) == old(Concat(Chunks()))
      ensures r.Got? ==> ReadFrom([], old(Chunks())) == Piece(r.data, r.ty, Chunks())
      ensures r.Got? ==> PieceOf([], old(Chunks()), r.data, r.ty, Chunks())
      ensures WellRead(r)
      ensures r.Blocked? ==> ReadFrom([], old(Chunks())).Suspended? && Chunks() == old(Chunks()) && network == []
      ensures old(Unbroken()) ==>
        Unbroken() && (r.Got? || r.Blocked? || (r.Incomplete? && atEof))
      ensures old(Clean()) ==> Clean() && (r.Got? || r.Blocked?)
      ensures old(AtEnd()) ==> AtEnd() && (r.Got? <==> ReadFrom([], old(Chunks())).Piece?) && !r.Blocked?
    {
      r := ReadUntilEx();
      atEof := eofReceived && recvBuf == [];
    }

    /** What one handled read does to the events still to come, on an unbroken stream. */
    ghost predicate Accounted(before: seq<seq<Byte>>, r: ReadResult, atEof: bool)
      reads this
    {
      var (events, stop) := HandleRead(r, atEof);
      if stop then EventsIn(Concat(before)) == EventsIn(ResultBytes(r) + Concat(Chunks())) && CommandKeys(events) == []
      else EventsIn(Concat(before)) == CommandKeys(events) + EventsIn(Concat(Chunks()))
    }

    /** And on the events that the reads at the end of file report. */
    ghost predicate AccountedAtEnd(before: seq<seq<Byte>>, r: ReadResult, events: seq<Event>, stop: bool)
      reads this
    {
      if stop then HandedOut(before) == []
      else HandedOut(before) == CommandKeys(events) + HandedOut(Chunks()) && ResultBytes(r) != []
    }

    /** A read that went on, and the handling of its result. */
    method ReadAndHandle() returns (r: ReadResult, atEof: bool, events: seq<Event>, stop: bool)
      requires Valid()
      modifies this
      ensures Valid() && (atEof <==> eofReceived && recvBuf == [])
      ensures !r.Blocked? ==> (events, stop) == HandleRead(r, atEof)
      ensures r.Blocked? ==> events == [] && !stop && Chunks() == old(Chunks())
      ensures WellRead(r) && (!r.Blocked? ==> Tells(events, ResultBytes(r)))
      ensures ResultBytes(r) + Concat(Chunks()) == old(Concat(Chunks()))
      ensures old(Unbroken()) ==> Unbroken()
      ensures old(Unbroken()) && r.Blocked? ==> EventsIn(Concat(Chunks())) == []
      ensures old(Unbroken()) && !r.Blocked? ==> Accounted(old(Chunks()), r, atEof)
      ensures old(Unbroken()) && stop ==> r.Got? || r.Incomplete?
      ensures old(Clean()) ==> Clean() && !stop
      ensures old(AtEnd()) ==> AtEnd() && !r.Blocked? && AccountedAtEnd(old(Chunks()), r, events, stop)
    {
      ghost var chunks := Chunks();
      r, atEof := ReadUntil();
      if r.Blocked? {
        events, stop := [], false;
        ReadStepEvents(chunks, []);
        return;
      }
      events, stop := HandleRead(r, atEof).0, HandleRead(r, atEof).1;
      HandleReadTells(r, atEof);
      if stop { EndOfFileReportsNothing(r, atEof); }
      if r.Got? {
        ReadSplitsEvents([], chunks, []);
        ReadStepEvents(chunks, []);
        HandleResultKeys(r.data);
        EmptySuffix(Concat(chunks));
        EmptySuffix(Concat(Chunks()));
      }
    }

    /** What has been reported of the events that the reads at the end of file report. */
    ghost predicate ReportedAtEnd(all: seq<CommandKey>, keys: seq<CommandKey>, stopped: bool)
      reads this
    {
      if stopped then keys == all else keys + HandedOut(Chunks()) == all
    }

    /** The reading loop of `wait_loop_queue` for one reader, for any number of rounds, with whatever
        arrives before each of them. `raws` is what the raw-line callback is given.
        Every stream: the bytes handed out and the bytes left are the bytes that were there, and the
        texts of the events are the bytes handed out.
        Unbroken streams: the command events handed out are the events of the flat stream up to those
        of the bytes that are left; a result at which the loop stops counts as left, not as handed out.
        When nothing is left the last event is missing if and only if the loop stopped at a piece that
        ends in an event, which it does when the end of file has been received and the piece empties
        the buffer. At the end of file, with nothing behind it, enough rounds end the loop, and what they
        report is what the drained buffer hands out. */
    method HandleStream(rounds: nat) returns (events: seq<Event>, raws: seq<seq<Byte>>, last: ReadResult, stopped: bool)
      requires Valid()
      modifies this
      ensures Valid() && (!stopped ==> last.Blocked? || |raws| == rounds)
      ensures stopped ==> last.Raised? || (eofReceived && recvBuf == [])
      ensures Concat(raws) + Concat(Chunks()) == old(Concat(Chunks())) && Tells(events, Concat(raws))
      ensures stopped ==> LastIs(events, last)
      ensures old(Unbroken()) ==>
        CommandKeys(events) + EventsIn((if stopped then ResultBytes(last) else []) + Concat(Chunks()))
            == EventsIn(old(Concat(Chunks())))
      ensures old(Unbroken()) && last.Blocked? ==> CommandKeys(events) == EventsIn(old(Concat(Chunks())))
      ensures old(Unbroken()) && stopped && network == [] ==>
        (CommandKeys(events) == EventsIn(old(Concat(Chunks()))) <==> !(last.Got? && last.ty.VscodeEventEnd?))
      ensures old(Clean()) ==> !stopped
      ensures old(AtEnd()) && rounds > |old(Concat(Chunks()))| ==>
        stopped && CommandKeys(events) == HandedOut(old(Chunks()))
    {
      events, raws, last, stopped := [], [], SoftEof, false;
      ghost var all, reported := Concat(Chunks()), HandedOut(Chunks());
      EmptyPrefix(all);
      EmptyPrefix(reported);
      TellsNothing();
      while |raws| < rounds && !stopped
        invariant Valid() && |raws| <= rounds && !last.Blocked?
        invariant Told(events, raws, Concat(Chunks()), all)
        invariant stopped ==> LastIs(events, last) && (last.Raised? || (eofReceived && recvBuf == []))
        invariant old(Unbroken()) ==>
          Unbroken() && Counted(events, if stopped then ResultBytes(last) else [], Concat(Chunks()), all)
        invariant old(Unbroken()) && stopped ==> WellRead(last) && (last.Got? || last.Incomplete?)
        invariant old(Clean()) ==> Clean() && !stopped
        invariant old(AtEnd()) ==> AtEnd() && ReportedAtEnd(reported, CommandKeys(events), stopped)
        invariant old(AtEnd()) && !stopped ==> |raws| + |Concat(Chunks())| <= |all|
        decreases rounds - |raws|
      {
        Arrive();
        var atEof, more;
        ghost var before := Chunks();
        last, atEof, more, stopped := ReadAndHandle();
        if last.Blocked? {
          EmptyPrefix(Concat(Chunks()));
          return;
        }
        ToldStep(events, raws, Concat(before), all, more, ResultBytes(last), Concat(Chunks()));
        KeysAppend(events, more);
        if old(Unbroken()) {
          CountedStep(events, Concat(before), all, more, ResultBytes(last), Concat(Chunks()), stopped);
        }
        if old(AtEnd()) {
          Assoc(CommandKeys(events), CommandKeys(more), HandedOut(Chunks()));
          EmptySuffix(CommandKeys(events));
        }
        events, raws := events + more, raws + [ResultBytes(last)];
      }
      if stopped && network == [] { EmptySuffix(ResultBytes(last)); }
    }
  }
}
