/**
 Relaying: a call travels through a list of servers, each of which reads the relay header, takes
 the next server off the list and forwards everything behind the header.
 */
module Relay {
  import opened Bytes
  import opened PbStream
  import opened PbRoundTrip
  import opened Skeleton
  import opened Rpc

  /** `RelayCallType` */
  datatype CallType = RemoteCall | ClientStream | RemoteGenerator | BiStream

  /** The relay header. */
  datatype Meta = Meta(urls: seq<string>, callType: CallType, timeout: Option<int>)

  /** A response frame, or the frame that carries an exception. */
  datatype Response = Data(frame: Frame) | Failure

  /** Everything outside this model: the serializer, what `np.empty` holds, and what the real
      handler of a server answers to a body of frames. */
  datatype World = World(codecs: Codecs, fill: Byte, direct: (string, CallType, seq<Frame>) -> seq<Response>)

  const DEFAULT_CHUNK: nat := 256 * 1024

  // ---------------------------------------------------------------- the header

  function TypeNum(t: CallType): int {
    match t case RemoteCall => 0 case ClientStream => 1 case RemoteGenerator => 2 case BiStream => 3
  }

  function TypeOf(n: int): Option<CallType> {
    if n == 0 then Some(RemoteCall) else if n == 1 then Some(ClientStream)
    else if n == 2 then Some(RemoteGenerator) else if n == 3 then Some(BiStream) else None
  }

  function ToPy(m: Meta): Py {
    Dict([Entry("urls", List(seq(|m.urls|, i requires 0 <= i < |m.urls| => Text(m.urls[i])))),
          Entry("type", Num(TypeNum(m.callType))),
          Entry("rpc_timeout", if m.timeout.None? then Null else Num(m.timeout.value))])
  }

  /** `relay_meta["urls"]`, `RelayCallType(relay_meta["type"])`, `relay_meta["rpc_timeout"]`; None is an exception. */
  function FromPy(x: Py): Option<Meta> {
    if !x.Dict? then None
    else
      var urls, ty, timeout := Find(x.entries, "urls"), Find(x.entries, "type"), Find(x.entries, "rpc_timeout");
      if urls.None? || ty.None? || timeout.None? then None
      else if !urls.value.List? || (exists i :: 0 <= i < |urls.value.items| && !urls.value.items[i].Text?) then None
      else if !ty.value.Num? || TypeOf(ty.value.n).None? then None
      else
        var items := urls.value.items;
        Some(Meta(seq(|items|, i requires 0 <= i < |items| => items[i].s), TypeOf(ty.value.n).value,
                  if timeout.value.Num? then Some(timeout.value.n) else None))
  }

  lemma MetaRoundTrip(m: Meta)
    ensures FromPy(ToPy(m)) == Some(m)
  {
    var entries := ToPy(m).entries;
    assert Find(entries, "urls") == Some(entries[0].value);
    assert entries[1..][0] == entries[1] && entries[1..][1..][0] == entries[2];
    assert Find(entries, "type") == Find(entries[1..], "type") == Some(entries[1].value);
    assert Find(entries, "rpc_timeout") == Find(entries[1..], "rpc_timeout") == Find(entries[1..][1..], "rpc_timeout")
        == Some(entries[2].value);
    var items := entries[0].value.items;
    assert seq(|items|, i requires 0 <= i < |items| => items[i].s) == m.urls;
  }

  lemma {:induction false} TextsSurvive(items: seq<Py>)
    requires forall i :: 0 <= i < |items| ==> items[i].Text?
    ensures ItemsSurvive(items, PLACEHOLDERS, JSON_INDEX_KEY)
  {
    if items != [] { TextsSurvive(items[1..]); }
  }

  /** An entry with another key and a value that survives keeps a list of entries surviving. */
  lemma EntrySurvives(e: Entry, rest: seq<Entry>)
    requires Survives(e.value, PLACEHOLDERS, JSON_INDEX_KEY) && e.key != JSON_INDEX_KEY
    requires EntriesSurvive(rest, PLACEHOLDERS, JSON_INDEX_KEY) && Find(rest, JSON_INDEX_KEY).None?
    ensures EntriesSurvive([e] + rest, PLACEHOLDERS, JSON_INDEX_KEY) && Find([e] + rest, JSON_INDEX_KEY).None?
  {
    assert ([e] + rest)[1..] == rest;
  }

  lemma MetaSurvives(m: Meta)
    ensures Survives(ToPy(m), PLACEHOLDERS, JSON_INDEX_KEY)
  {
    var entries := ToPy(m).entries;
    TextsSurvive(entries[0].value.items);
    assert "urls"[0] != JSON_INDEX_KEY[0] && "type"[0] != JSON_INDEX_KEY[0] && "rpc_timeout"[0] != JSON_INDEX_KEY[0];
    EntrySurvives(entries[2], []);
    EntrySurvives(entries[1], [entries[2]] + []);
    EntrySurvives(entries[0], [entries[1]] + ([entries[2]] + []));
    assert entries == [entries[0]] + ([entries[1]] + ([entries[2]] + []));
  }

  /** The single-argument call that carries a header. */
  function HeaderCall(m: Meta, key: string, flags: nat, codecs: Codecs): Call {
    Call([BytesArg(codecs(flags).dumps(ToPy(m)))], key, flags, DEFAULT_CHUNK)
  }

  /** `_prepare_relay_reqs` and the header built at every hop. */
  function HeaderFrames(m: Meta, key: string, flags: nat, codecs: Codecs): seq<Frame> {
    FramesOf(HeaderCall(m, key, flags, codecs))
  }

  /** Headers hold strings, numbers, a list and `None`, which every serializer carries. */
  ghost predicate CarryHeaders(codecs: Codecs) {
    forall m: Meta, flags: nat :: Carries(codecs(flags), ToPy(m))
  }

  // ---------------------------------------------------------------- a hop

  /** What a server reads off the front of its stream: the header, its key, its flags, and the frames
      behind it. None is an exception. */
  function ReadHeader(frames: seq<Frame>, world: World): Option<(Meta, string, nat, seq<Frame>)> {
    match FirstCall(NEW_DECODER, frames, world.fill)
    case None => None
    case Some((reply, n)) =>
      match Restore(reply, world.codecs)
      case None => None
      case Some(data) =>
        match FromPy(data)
        case None => None
        case Some(m) => Some((m, reply.key, reply.flags, frames[n..]))
  }

  /** Each hop consumes exactly the header's frames and reads back the header. */
  lemma HeaderIsReadBack(m: Meta, key: string, flags: nat, rest: seq<Frame>, world: World)
    requires Carries(world.codecs(flags), ToPy(m))
    ensures ReadHeader(HeaderFrames(m, key, flags, world.codecs) + rest, world) == Some((m, key, flags, rest))
  {
    var c := HeaderCall(m, key, flags, world.codecs);
    FirstCallConsumesItsFrames(NEW_DECODER, c, rest, world.fill);
    HeaderRestores(m, key, flags, world.codecs);
    MetaRoundTrip(m);
    assert (FramesOf(c) + rest)[|FramesOf(c)|..] == rest;
  }

  lemma HeaderRestores(m: Meta, key: string, flags: nat, codecs: Codecs)
    requires Carries(codecs(flags), ToPy(m))
    ensures Restore(Received(HeaderCall(m, key, flags, codecs)), codecs) == Some(ToPy(m))
  {
    MetaSurvives(m);
    var args := HeaderCall(m, key, flags, codecs).args;
    assert args[..|args| - 1] == [];
    PutIdentity([], ToPy(m), PLACEHOLDERS, JSON_INDEX_KEY);
  }

  /** How many hops the header at the front of a stream still asks for. */
  function Hops(frames: seq<Frame>, world: World): nat {
    match ReadHeader(frames, world) case None => 0 case Some((m, _, _, _)) => |m.urls|
  }

  /** `chunked_relay_stream` on the server `here`: the real call when the list is empty, otherwise the
      stream of the next server, which gets a new header and, merged behind it, the untouched rest.
      Each hop shortens the list. */
  function RelayStream(here: string, frames: seq<Frame>, world: World): seq<Response>
    requires CarryHeaders(world.codecs)
    decreases Hops(frames, world)
  {
    match ReadHeader(frames, world)
    case None => [Failure]
    case Some((m, key, flags, rest)) =>
      if m.urls == [] then world.direct(here, m.callType, rest)
      else
        var next := m.(urls := m.urls[1..]);
        HeaderIsReadBack(next, key, flags, rest, world);
        RelayStream(m.urls[0], HeaderFrames(next, key, flags, world.codecs) + rest, world)
  }

  /** The server at the end of the list. */
  function LastServer(here: string, urls: seq<string>): string {
    if urls == [] then here else urls[|urls| - 1]
  }

  /** Transparency: for every list of servers, every call type and any body, the last server is called
      with exactly the client's body, and what it answers is what the client gets. */
  lemma {:induction false} RelayIsTransparent(here: string, m: Meta, key: string, flags: nat, body: seq<Frame>,
      world: World)
    requires CarryHeaders(world.codecs)
    ensures RelayStream(here, HeaderFrames(m, key, flags, world.codecs) + body, world)
      == world.direct(LastServer(here, m.urls), m.callType, body)
    decreases |m.urls|
  {
    HeaderIsReadBack(m, key, flags, body, world);
    if m.urls != [] {
      RelayIsTransparent(m.urls[0], m.(urls := m.urls[1..]), key, flags, body, world);
    }
  }
}
