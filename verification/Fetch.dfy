/** Streaming GET end to end: the device sends, the server relays, the client
    collects. */
module Fetch {
  import opened Bodies
  import opened Common
  import opened Core
  import opened Frames
  import Fs
  import Records
  import System

  type u64 = x: int | 0 <= x < 0x1_0000_0000_0000_0000

  const DISCONNECTED: Frame := [ST_ERR] + Text("reverse client disconnected")

  function Header(size: u64): Frame {
    [ST_OK] + U64(size)
  }

  /** A way to cut a file into data frames. */
  predicate Chunking(chunks: seq<Frame>) {
    forall c | c in chunks :: 0 < |c| <= Fs.CHUNK
  }

  /** The frames of a complete GET reply. */
  function Reply(size: u64, chunks: seq<Frame>): seq<Frame> {
    [Header(size)] + (chunks + [[]])
  }

  // --- the device ---

  /** What opening the file gave: nothing, an error, a file whose metadata cannot be
      had, or one with a declared size that delivers `content` and then ends (`whole`)
      or fails. A directory opens on Unix and fails at the first read. */
  datatype Opened =
    | Missing
    | Refused(message: seq<byte>)
    | NoMetadata
    | File(size: u64, content: seq<byte>, whole: bool)

  /** The frames written for it: none without metadata, no terminator after a read
      that fails. */
  function Answer(file: Opened, chunks: seq<Frame>): seq<Frame> {
    match file
    case Missing => [[ST_NOT_FOUND]]
    case Refused(message) => [[ST_ERR] + message]
    case NoMetadata => []
    case File(size, _, whole) => if whole then Reply(size, chunks) else [Header(size)] + chunks
  }

  predicate Sendable(file: Opened) {
    file.Refused? ==> |file.message| < MAX_FRAME
  }

  /** No error after a successful open. */
  predicate Finishes(file: Opened) {
    !file.NoMetadata? && (file.File? ==> file.whole)
  }

  /** `handle_get`: reads of 1 to CHUNK bytes, in sizes the program does not choose.
      The answer goes out up to the point where the connection fails. */
  method HandleGet(file: Opened, out: Stream) returns (ok: bool, ghost chunks: seq<Frame>)
    modifies out
    ensures Chunking(chunks) && (file.File? ==> Flatten(chunks) == file.content)
    ensures Sendable(file) ==>
              && out.bytes == old(out.bytes) + Carried(Wire(Answer(file, chunks)), old(out.room))
              && out.room == old(out.room) - |Carried(Wire(Answer(file, chunks)), old(out.room))|
              && (ok <==> Finishes(file) && |Wire(Answer(file, chunks))| <= old(out.room))
    ensures !Sendable(file) ==> !ok && out.bytes == old(out.bytes) && out.room == old(out.room)
  {
    hide Header, FrameBytes, Wire, Carried, Sent, Flatten, Chunking, Reply;
    ghost var start, room := out.bytes, out.room;
    chunks := [];
    NoChunks();
    match file
    case Missing =>
      SentFirst(start, room, [ST_NOT_FOUND]);
      ok := out.WriteFrame([ST_NOT_FOUND]);
      SentMeans(out.bytes, out.room, start, room, [[ST_NOT_FOUND]], ok);
    case Refused(message) =>
      SentFirst(start, room, [ST_ERR] + message);
      ok := out.WriteFrame([ST_ERR] + message);
      if |message| < MAX_FRAME { SentMeans(out.bytes, out.room, start, room, [[ST_ERR] + message], ok); }
    case NoMetadata =>
      SentNothing(start, room);
      SentMeans(start, room, start, room, [], true);
      ok := false;
    case File(size, content, whole) =>
      ok, chunks := SendFile(size, content, whole, out);
  }

  /** The part of `handle_get` behind a successful open. */
  method SendFile(size: u64, content: seq<byte>, whole: bool, out: Stream) returns (ok: bool, ghost chunks: seq<Frame>)
    modifies out
    ensures Chunking(chunks) && Flatten(chunks) == content
    ensures var answer := if whole then Reply(size, chunks) else [Header(size)] + chunks;
            && out.bytes == old(out.bytes) + Carried(Wire(answer), old(out.room))
            && out.room == old(out.room) - |Carried(Wire(answer), old(out.room))|
            && (ok <==> whole && |Wire(answer)| <= old(out.room))
  {
    hide Header, FrameBytes, Wire, Carried, Sent, Flatten, Chunking, Reply;
    ghost var start, room, head := out.bytes, out.room, [Header(size)];
    chunks := [];
    NoChunks();
    HeaderLength(size);
    SentFirst(start, room, Header(size));
    ok := out.WriteFrame(Header(size));
    assert head + chunks == head;
    var pos := 0;
    while ok && pos < |content|
      invariant 0 <= pos <= |content| && Chunking(chunks) && Flatten(chunks) == content[..pos]
      invariant Sent(out.bytes, out.room, start, room, head + chunks, ok)
      decreases |content| - pos, ok
    {
      var n: nat :| 1 <= n <= Fs.CHUNK && pos + n <= |content| by { assert 1 <= Fs.CHUNK && pos + 1 <= |content|; }
      var chunk := content[pos..pos + n];
      SentNext(out.bytes, out.room, start, room, head + chunks, chunk);
      ok := out.WriteFrame(chunk);
      AddChunk(chunks, content, pos, n);
      assert head + chunks + [chunk] == head + (chunks + [chunk]);
      chunks := chunks + [chunk];
      pos := pos + n;
    }
    ghost var more := ChunksOf(content[pos..]);
    AddChunks(chunks, more, content, pos);
    ReplySplits(size, chunks, more);
    ghost var answer := if whole then Reply(size, chunks + more) else head + (chunks + more);
    SentPart(out.bytes, out.room, start, room, head + chunks, answer, ok);
    if ok && whole {
      // A read of zero bytes ends the file: the empty frame ends the stream.
      SentNext(out.bytes, out.room, start, room, head + chunks, []);
      ok := out.WriteFrame([]);
      SentMeans(out.bytes, out.room, start, room, head + chunks + [[]], ok);
    } else if ok {
      assert head + (chunks + more) == head + chunks;
      SentMeans(out.bytes, out.room, start, room, head + chunks, ok);
      ok := false;
    }
    chunks := chunks + more;
  }

  lemma NoChunks()
    ensures Chunking([]) && Flatten([]) == []
  {
  }

  lemma AddChunk(chunks: seq<Frame>, content: seq<byte>, pos: nat, n: nat)
    requires Chunking(chunks) && 1 <= n <= Fs.CHUNK && pos + n <= |content| && Flatten(chunks) == content[..pos]
    ensures var more := chunks + [content[pos..pos + n]];
            Chunking(more) && Flatten(more) == content[..pos + n]
  {
    hide Flatten;
    FlattenSnoc(chunks, content[pos..pos + n]);
    assert content[..pos] + content[pos..pos + n] == content[..pos + n];
  }

  lemma AddChunks(chunks: seq<Frame>, more: seq<Frame>, content: seq<byte>, pos: nat)
    requires Chunking(chunks) && Chunking(more) && pos <= |content|
    requires Flatten(chunks) == content[..pos] && Flatten(more) == content[pos..]
    ensures Chunking(chunks + more) && Flatten(chunks + more) == content
    ensures pos == |content| ==> more == []
  {
    FlattenAppend(chunks, more);
    assert content[..pos] + content[pos..] == content;
  }

  lemma ReplySplits(size: u64, chunks: seq<Frame>, more: seq<Frame>)
    ensures Reply(size, chunks + more) == [Header(size)] + chunks + (more + [[]])
    ensures [Header(size)] + chunks <= Reply(size, chunks + more)
    ensures [Header(size)] + chunks <= [Header(size)] + (chunks + more)
    ensures more == [] ==> Reply(size, chunks + more) == [Header(size)] + chunks + [[]]
  {
    hide Header;
  }

  /** Some way to cut a file. */
  ghost function ChunksOf(content: seq<byte>): (chunks: seq<Frame>)
    ensures Chunking(chunks) && Flatten(chunks) == content
  {
    if content == [] then []
    else
      var n := if |content| < Fs.CHUNK then |content| else Fs.CHUNK;
      assert content[..n] + content[n..] == content;
      [content[..n]] + ChunksOf(content[n..])
  }

  lemma HeaderLength(size: u64)
    ensures |Header(size)| == 9
  {
  }

  // --- the server in between ---

  /** What the relay passes on, whether it takes the device offline, and what it
      leaves unread. */
  datatype Relayed = Relayed(frames: seq<Frame>, offline: bool, rest: seq<byte>)

  /** A body is passed on frame by frame; the terminator also when it never came. */
  function Onto(header: Frame, body: Body): Relayed {
    Relayed([header] + body.frames + [[]], !body.ended, body.rest)
  }

  function Relay(p: seq<byte>): Relayed {
    match NextFrame(p)
    case Got(header, rest) => if IsOk(header) then Onto(header, ReadBody(rest)) else Relayed([header], false, rest)
    case _ => Relayed([DISCONNECTED], true, [])
  }

  /** The same told by when a reply is complete. If the frames that wholly arrived hold
      a whole reply to the request, that is passed on, the device stays online and what
      follows is left unread. Otherwise the device goes offline, and the requester gets
      what arrived, terminated, or a refusal when nothing did. */
  ghost predicate PassedOn(request: Frame, p: seq<byte>, r: Relayed)
    requires System.IsRequest(request)
  {
    var fs := Records.DecodeList(ReadFrame, p);
    && (forall k | 0 <= k <= |fs| && System.IsReply(request, fs[..k]) ::
          r.frames == fs[..k] && !r.offline && |Wire(fs[..k])| <= |p| && r.rest == p[|Wire(fs[..k])|..])
    && ((forall k | 0 <= k <= |fs| :: !System.IsReply(request, fs[..k])) ==>
          r.offline && r.frames == if fs == [] then [DISCONNECTED] else fs + [[]])
  }

  /** The frames of a body among all frames. */
  lemma {:induction false} BodyFrames(p: seq<byte>)
    ensures var b, fs := ReadBody(p), Records.DecodeList(ReadFrame, p);
            && b.frames <= fs && [] !in b.frames
            && (if b.ended then
                  && |b.frames| < |fs| && fs[|b.frames|] == []
                  && |Wire(b.frames + [[]])| <= |p| && b.rest == p[|Wire(b.frames + [[]])|..]
                else b.frames == fs)
    decreases |p|
  {
    hide NextFrame, FrameBytes, Wire;
    BodyUnfold(p);
    NextSplits(p);
    if NextFrame(p).Got? {
      var Got(f, rest) := NextFrame(p);
      WireHead(f, [], []);
      if f == [] {
        WireOne([]);
        assert ReadBody(p).frames + [[]] == [[]];
      } else {
        BodyFrames(rest);
        var more := ReadBody(rest).frames;
        WireHead(f, more + [[]], []);
        assert [f] + more + [[]] == [f] + (more + [[]]);
      }
    }
  }

  /** The first frame, as a split of the bytes. */
  lemma NextSplits(p: seq<byte>)
    ensures NextFrame(p).Got? ==>
              var f, rest := NextFrame(p).payload, NextFrame(p).rest;
              && |FrameBytes(f)| + |rest| == |p| && rest == p[|FrameBytes(f)|..] && |rest| < |p|
              && Records.DecodeList(ReadFrame, p) == [f] + Records.DecodeList(ReadFrame, rest)
    ensures !NextFrame(p).Got? ==> Records.DecodeList(ReadFrame, p) == []
  {
    if NextFrame(p).Got? { assert p[4..][ReadU32(p)..] == p[4 + ReadU32(p)..]; }
  }

  /** A GET reply is complete at its first frame if that is a refusal, otherwise at the
      first empty frame behind it. */
  lemma CompleteAt(request: Frame, fs: seq<Frame>, k: nat)
    requires System.IsRequest(request) && request[0] == Fs.OP_GET && k <= |fs|
    ensures System.IsReply(request, fs[..k]) <==>
              && k > 0
              && (if IsOk(fs[0]) then k > 1 && fs[k - 1] == [] && forall j | 1 <= j < k - 1 :: fs[j] != []
                  else k == 1)
  {
    var got := fs[..k];
    forall n | 0 <= n <= k
      ensures System.Complete(request, fs[..n]) <==> n > 0 && (!IsOk(fs[0]) || (n > 1 && fs[n - 1] == []))
    {
      if n > 0 { assert fs[..n][0] == fs[0] && fs[..n][n - 1] == fs[n - 1]; }
    }
    assert forall n | 0 <= n < k :: got[..n] == fs[..n];
    if k > 0 && System.IsReply(request, got) {
      forall j | 0 <= j < k - 1 ensures IsOk(fs[0]) && (j > 0 ==> fs[j] != []) {
        assert !System.Complete(request, got[..j + 1]);
      }
    }
  }

  /** The frames of a reply: its header, its body, and if that ends, its end. */
  lemma ReplyFrames(p: seq<byte>)
    requires NextFrame(p).Got?
    ensures var Got(header, rest) := NextFrame(p);
            var b, fs := ReadBody(rest), Records.DecodeList(ReadFrame, p);
            var n := |b.frames| + 2;
            && |fs| >= n - 1 && fs[..n - 1] == [header] + b.frames && fs[1..n - 1] == b.frames && [] !in b.frames
            && |Wire([header])| <= |p| && rest == p[|Wire([header])|..] && fs[..1] == [header]
            && (if b.ended then
                  && |fs| >= n && fs[..n] == [header] + b.frames + [[]]
                  && |Wire(fs[..n])| <= |p| && b.rest == p[|Wire(fs[..n])|..]
                else fs == [header] + b.frames)
  {
    hide NextFrame, FrameBytes, Wire, ReadBody, Records.DecodeList;
    var Got(header, rest) := NextFrame(p);
    var b, fs := ReadBody(rest), Records.DecodeList(ReadFrame, p);
    NextSplits(p);
    BodyFrames(rest);
    WireOne(header);
    var a := |FrameBytes(header)|;
    if b.ended {
      var body := b.frames + [[]];
      WireHead(header, body, []);
      assert fs[..|b.frames| + 2] == [header] + body == [header] + b.frames + [[]];
      assert Wire([header] + body) + [] == Wire([header] + body);
      assert FrameBytes(header) + (Wire(body) + []) == FrameBytes(header) + Wire(body);
      SliceTwice(p, a, |Wire(body)|);
    }
  }

  lemma SliceTwice(p: seq<byte>, a: nat, b: nat)
    requires a + b <= |p|
    ensures p[a..][b..] == p[a + b..]
  {
  }

  /** Where the reply among those frames is complete. */
  lemma CompleteOnce(request: Frame, p: seq<byte>, k: nat)
    requires System.IsRequest(request) && request[0] == Fs.OP_GET && NextFrame(p).Got?
    requires k <= |Records.DecodeList(ReadFrame, p)|
    ensures var Got(header, rest) := NextFrame(p);
            var b, fs := ReadBody(rest), Records.DecodeList(ReadFrame, p);
            System.IsReply(request, fs[..k]) <==> if IsOk(header) then b.ended && k == |b.frames| + 2 else k == 1
  {
    hide NextFrame, Wire, ReadBody, System.IsReply, System.IsRequest, Records.DecodeList;
    var Got(header, rest) := NextFrame(p);
    var b, fs := ReadBody(rest), Records.DecodeList(ReadFrame, p);
    ReplyFrames(p);
    CompleteAt(request, fs, k);
    assert fs[0] == header;
    forall j | 1 <= j <= |b.frames| ensures fs[j] != [] {
      assert fs[1..|b.frames| + 1][j - 1] == b.frames[j - 1];
    }
    if b.ended { assert fs[|b.frames| + 1] == fs[..|b.frames| + 2][|b.frames| + 1] == []; }
  }

  lemma RelayPasses(request: Frame, p: seq<byte>)
    requires System.IsRequest(request) && request[0] == Fs.OP_GET
    ensures PassedOn(request, p, Relay(p))
  {
    hide NextFrame, Wire, ReadBody, DISCONNECTED, System.IsReply, System.IsRequest, Records.DecodeList;
    var fs := Records.DecodeList(ReadFrame, p);
    if NextFrame(p).Got? {
      ReplyFrames(p);
      forall k | 0 <= k <= |fs|
        ensures System.IsReply(request, fs[..k]) <==>
                  if IsOk(fs[0]) then ReadBody(NextFrame(p).rest).ended && k == |ReadBody(NextFrame(p).rest).frames| + 2
                  else k == 1
      {
        CompleteOnce(request, p, k);
      }
    } else {
      NextSplits(p);
      assert !System.IsReply(request, fs[..0]) by { NoReplyInNothing(request, fs[..0]); }
    }
  }

  lemma NoReplyInNothing(request: Frame, fs: seq<Frame>)
    requires System.IsRequest(request) && fs == []
    ensures !System.IsReply(request, fs)
  {
  }

  /** The reply half of `handle_reverse_proxy_get`. The relayed frames go out up to
      the point where the requester's connection fails; the device is taken offline
      when it drops before that. */
  method RelayGet(ghost request: Frame, device: Stream, requester: Stream) returns (offline: bool)
    requires device != requester && System.IsRequest(request) && request[0] == Fs.OP_GET
    modifies device`bytes, requester
    ensures PassedOn(request, old(device.bytes), Relay(old(device.bytes)))
    ensures var r, room := Relay(old(device.bytes)), old(requester.room);
            && requester.bytes == old(requester.bytes) + Carried(Wire(r.frames), room)
            && (offline <==> r.offline && |Wire(r.frames[..|r.frames| - 1])| <= room)
            && (!r.offline && |Wire(r.frames)| <= room ==> device.bytes == r.rest)
  {
    hide DISCONNECTED, NextFrame, FrameBytes, Wire, Carried, Sent, ReadBody, PassedOn, System.IsRequest;
    ghost var start, room := requester.bytes, requester.room;
    RelayPasses(request, device.bytes);
    WireNone();
    ShortRefusal();
    var header := device.ReadFrame();
    if header.None? {
      SentFirst(start, room, DISCONNECTED);
      var ok := requester.WriteFrame(DISCONNECTED);
      SentMeans(requester.bytes, requester.room, start, room, [DISCONNECTED], ok);
      return true;
    }
    ghost var sent, passed := [header.value], [];
    SentFirst(start, room, header.value);
    var ok := requester.WriteFrame(header.value);
    SentMeans(requester.bytes, requester.room, start, room, sent, ok);
    if !IsOk(header.value) { return false; }
    ghost var body := device.bytes;
    BodyStart(body);
    assert sent == [header.value] + passed;
    if !ok {
      RelayFailed(header.value, passed, body, device.bytes, room);
      return false;
    }
    while true
      invariant sent == [header.value] + passed
      invariant Sent(requester.bytes, requester.room, start, room, sent, true)
      invariant ReadBody(body) == Onward(passed, device.bytes)
      decreases |device.bytes|
    {
      BodyStep(passed, device.bytes);
      SentMeans(requester.bytes, requester.room, start, room, sent, true);
      var chunk := device.ReadFrame();
      if chunk.None? {
        SentNext(requester.bytes, requester.room, start, room, sent, []);
        ok := requester.WriteFrame([]);
        SentMeans(requester.bytes, requester.room, start, room, sent + [[]], ok);
        assert (sent + [[]])[..|sent|] == sent;
        return true;
      }
      SentNext(requester.bytes, requester.room, start, room, sent, chunk.value);
      ok := requester.WriteFrame(chunk.value);
      assert [header.value] + passed + [chunk.value] == [header.value] + (passed + [chunk.value]);
      sent := sent + [chunk.value];
      SentMeans(requester.bytes, requester.room, start, room, sent, ok);
      if chunk.value == [] { return false; }
      passed := passed + [chunk.value];
      if !ok {
        RelayFailed(header.value, passed, body, device.bytes, room);
        return false;
      }
    }
  }

  lemma ShortRefusal()
    ensures |DISCONNECTED| <= MAX_FRAME
  {
  }

  /** Nothing behind the frame at which the requester was lost matters. */
  lemma RelayFailed(header: Frame, passed: seq<Frame>, body: seq<byte>, p: seq<byte>, room: nat)
    requires ReadBody(body) == Onward(passed, p) && |Wire([header] + passed)| > room
    ensures var fs := Onto(header, ReadBody(body)).frames;
            && |fs| > 1 && |Wire(fs)| > room && |Wire(fs[..|fs| - 1])| > room
            && Carried(Wire(fs), room) == Carried(Wire([header] + passed), room)
  {
    hide NextFrame, Wire, Carried, ReadBody;
    var sent, more := [header] + passed, ReadBody(p).frames;
    var fs := Onto(header, ReadBody(body)).frames;
    assert fs == sent + (more + [[]]);
    CarriedPrefix(sent, more + [[]], room);
    CarriedPrefix(sent, more, room);
    assert fs[..|fs| - 1] == sent + more;
  }

  // --- the client ---

  /** The declared size, or None for an error, with the data received in either case
      and what is left of the connection. */
  datatype Fetched = Fetched(size: Option<nat>, data: seq<byte>, rest: seq<byte>)

  /** `get_on_conn` on the bytes of the reply. */
  function Collect(p: seq<byte>): Fetched {
    match NextFrame(p)
    case Got(header, rest) =>
      if !IsOk(header) || |header| < 9 then Fetched(None, [], rest)
      else
        var body := ReadBody(rest);
        Fetched(if body.ended then Some(ReadU64(header[1..])) else None, Flatten(body.frames), body.rest)
    case _ => Fetched(None, [], [])
  }

  /** The same told by when a reply is complete: a success takes a whole reply that is no
      refusal, with a size in its header. Without one the data that arrived is kept. */
  ghost predicate Collected(request: Frame, p: seq<byte>, c: Fetched)
    requires System.IsRequest(request)
  {
    var fs := Records.DecodeList(ReadFrame, p);
    if fs == [] || !IsOk(fs[0]) || |fs[0]| < 9 then c.size == None && c.data == []
    else
      && (forall k | 2 <= k <= |fs| && System.IsReply(request, fs[..k]) ::
            && c.size == Some(ReadU64(fs[0][1..])) && c.data == Flatten(fs[1..k - 1])
            && |Wire(fs[..k])| <= |p| && c.rest == p[|Wire(fs[..k])|..])
      && ((forall k | 2 <= k <= |fs| :: !System.IsReply(request, fs[..k])) ==>
            c.size == None && c.data == Flatten(fs[1..]))
  }

  lemma CollectGets(request: Frame, p: seq<byte>)
    requires System.IsRequest(request) && request[0] == Fs.OP_GET
    ensures Collected(request, p, Collect(p))
  {
    hide NextFrame, Wire, ReadBody, Flatten, ReadU64, System.IsReply, System.IsRequest, Records.DecodeList;
    var fs := Records.DecodeList(ReadFrame, p);
    if NextFrame(p).Got? {
      ReplyFrames(p);
      forall k | 2 <= k <= |fs|
        ensures System.IsReply(request, fs[..k]) <==>
                  && IsOk(fs[0])
                  && ReadBody(NextFrame(p).rest).ended && k == |ReadBody(NextFrame(p).rest).frames| + 2
      {
        CompleteOnce(request, p, k);
      }
      if !ReadBody(NextFrame(p).rest).ended { assert fs[1..] == ReadBody(NextFrame(p).rest).frames; }
    } else {
      NextSplits(p);
    }
  }

  /** The local writer gets everything that arrives, up to its own failure; only a
      terminated stream whose data could all be written is a success. */
  method GetOnConn(ghost request: Frame, input: Stream, writer: Stream) returns (r: Option<nat>)
    requires input != writer && System.IsRequest(request) && request[0] == Fs.OP_GET
    modifies input`bytes, writer
    ensures Collected(request, old(input.bytes), Collect(old(input.bytes)))
    ensures var c := Collect(old(input.bytes));
            && writer.bytes == old(writer.bytes) + Carried(c.data, old(writer.room))
            && r == (if |c.data| <= old(writer.room) then c.size else None)
            && (r.Some? ==> input.bytes == c.rest)
  {
    hide NextFrame, ReadBody, ReadU64, Flatten, Carried, Kept, Collected, System.IsRequest;
    ghost var start, room := writer.bytes, writer.room;
    CollectGets(request, input.bytes);
    KeptNothing(start, room);
    var first := input.ReadFrame();
    if first.None? || !IsOk(first.value) || |first.value| < 9 { return None; }
    var size := ReadU64(first.value[1..]);
    ghost var body, got := input.bytes, [];
    BodyStart(body);
    while true
      invariant ReadBody(body) == Onward(got, input.bytes)
      invariant Kept(writer.bytes, writer.room, start, room, got)
      decreases |input.bytes|
    {
      BodyStep(got, input.bytes);
      KeptAll(writer.bytes, writer.room, start, room, got);
      var chunk := input.ReadFrame();
      if chunk.None? { return None; }
      if chunk.value == [] { return Some(size); }
      KeepMore(writer.bytes, writer.room, start, room, got, chunk.value, ReadBody(input.bytes).frames);
      var ok := writer.WriteAll(chunk.value);
      got := got + [chunk.value];
      if !ok { return None; }
    }
  }

  /** `got` has been written on a writer that held `start` and had this much room. */
  ghost predicate Kept(bytes: seq<byte>, left: nat, start: seq<byte>, room: nat, got: seq<Frame>) {
    |Flatten(got)| <= room && bytes == start + Flatten(got) && left == room - |Flatten(got)|
  }

  lemma KeptNothing(start: seq<byte>, room: nat)
    ensures Kept(start, room, start, room, [])
    ensures start == start + Carried([], room) && |Carried([], room)| == 0
  {
  }

  lemma KeptAll(bytes: seq<byte>, left: nat, start: seq<byte>, room: nat, got: seq<Frame>)
    requires Kept(bytes, left, start, room, got)
    ensures |Flatten(got)| <= room && bytes == start + Carried(Flatten(got), room)
  {
  }

  /** Writing one chunk more; if that fails, nothing of what follows it matters. */
  lemma KeepMore(bytes: seq<byte>, left: nat, start: seq<byte>, room: nat, got: seq<Frame>, chunk: Frame,
        more: seq<Frame>)
    requires Kept(bytes, left, start, room, got)
    ensures var out := Carried(chunk, left);
            if |chunk| <= left then Kept(bytes + out, left - |out|, start, room, got + [chunk])
            else |Flatten(got + [chunk] + more)| > room
                 && bytes + out == start + Carried(Flatten(got + [chunk] + more), room)
  {
    hide Flatten, Carried;
    var front, data, last := Flatten(got), Flatten(got) + chunk, Flatten(more);
    FlattenSnoc(got, chunk);
    FlattenAppend(got + [chunk], more);
    CarriedAppend(data, last, room);
    CarriedAppend(front, chunk, room);
    CarriedAll(chunk, left);
    assert start + front + Carried(chunk, left) == start + (front + Carried(chunk, left));
  }

  lemma CarriedAll(data: seq<byte>, room: nat)
    ensures |data| <= room ==> Carried(data, room) == data
  {
  }

  // --- the three together ---

  /** What the device writes for any file is a GET reply up to its end, and a whole one
      exactly when nothing fails behind the opening. */
  lemma AnswerIsReply(request: Frame, file: Opened, chunks: seq<Frame>)
    requires System.IsRequest(request) && request[0] == Fs.OP_GET && Chunking(chunks)
    ensures System.IsAnswer(request, Answer(file, chunks))
    ensures System.IsReply(request, Answer(file, chunks)) <==> Finishes(file)
    ensures !Finishes(file) ==> exists whole :: System.IsReply(request, whole) && Answer(file, chunks) < whole
  {
    if file.File? {
      var whole := Reply(file.size, chunks);
      var part := [Header(file.size)] + chunks;
      HeaderSize(file.size);
      forall n | 0 <= n < |whole| ensures !System.Complete(request, whole[..n]) {
        if n > 1 { assert whole[..n][n - 1] == chunks[n - 2]; }
      }
      assert whole == part + [[]];
      assert whole[..|part|] == part;
      assert forall n | 0 <= n < |part| :: part[..n] == whole[..n];
      assert System.IsReply(request, whole);
    } else if file.NoMetadata? {
      RefusalIsReply(request);
    }
  }

  lemma RefusalIsReply(request: Frame)
    requires System.IsRequest(request)
    ensures System.IsReply(request, [[ST_NOT_FOUND]]) && !System.IsReply(request, [])
    ensures System.IsAnswer(request, [])
    ensures [] < [[ST_NOT_FOUND]]
  {
  }

  lemma AnswerFits(file: Opened, chunks: seq<Frame>)
    requires Chunking(chunks) && Sendable(file)
    ensures forall f | f in Answer(file, chunks) :: FrameFits(f)
  {
    if file.File? { HeaderSize(file.size); }
  }

  /** The device drops after `n` bytes of its answer: what arrived holds a whole reply
      exactly when the answer is one and all of it arrived, and then it is the answer. */
  lemma AnswerCut(request: Frame, file: Opened, chunks: seq<Frame>, n: nat, k: nat)
    requires System.IsRequest(request) && request[0] == Fs.OP_GET && Chunking(chunks) && Sendable(file)
    requires n <= |Wire(Answer(file, chunks))|
    requires k <= |Records.DecodeList(ReadFrame, Wire(Answer(file, chunks))[..n])|
    ensures var answer := Answer(file, chunks);
            var fs := Records.DecodeList(ReadFrame, Wire(answer)[..n]);
            && fs <= answer
            && (System.IsReply(request, fs[..k]) <==> Finishes(file) && n == |Wire(answer)| && k == |answer|)
  {
    hide Answer, Chunking, FrameBytes, ReadFrame, Finishes, Records.DecodeList;
    var answer := Answer(file, chunks);
    AnswerIsReply(request, file, chunks);
    AnswerFits(file, chunks);
    FrameStreamCut(answer, n);
    Records.WholeIsMaximal(FrameBytes, answer, n);
    var w := Records.Whole(FrameBytes, answer, n);
    assert answer[..w][..k] == answer[..k];
    assert answer[..|answer|] == answer;
    if n == |Wire(answer)| && w < |answer| {
      assert answer == answer[..w + 1] + answer[w + 1..];
      WireAppend(answer[..w + 1], answer[w + 1..]);
    }
  }

  /** The client gets no success and no data of a refusal. */
  lemma RefusalCollected(file: Opened, chunks: seq<Frame>, tail: seq<byte>)
    requires (file.Missing? || file.Refused?) && Sendable(file)
    ensures Answer(file, chunks) == [if file.Missing? then [ST_NOT_FOUND] else [ST_ERR] + file.message]
    ensures Collect(Wire(Answer(file, chunks)) + tail) == Fetched(None, [], tail)
  {
    hide FrameBytes, NextFrame;
    var refusal := Answer(file, chunks)[0];
    WireOne(refusal);
    NextFrameOf(refusal, tail);
  }

  lemma ChunksAreSolid(chunks: seq<Frame>)
    requires Chunking(chunks)
    ensures Solid(chunks)
  {
  }

  lemma CollectReply(size: u64, chunks: seq<Frame>, tail: seq<byte>)
    requires Chunking(chunks)
    ensures Collect(Wire(Reply(size, chunks)) + tail) == Fetched(Some(size), Flatten(chunks), tail)
  {
    hide ReadBody;
    var body := Wire(chunks + [[]]) + tail;
    WireHead(Header(size), chunks + [[]], tail);
    HeaderSize(size);
    NextFrameOf(Header(size), body);
    ChunksAreSolid(chunks);
    BodyOf(chunks, tail);
  }

  lemma HeaderSize(size: u64)
    ensures |Header(size)| == 9 && IsOk(Header(size)) && ReadU64(Header(size)[1..]) == size
  {
    hide U64, ReadU64;
    assert Header(size)[1..] == U64(size) + [];
    U64RoundTrip(size, []);
  }

  /** A proxied GET is transparent: whatever the file, its declared size and the sizes
      of its reads, the client receives exactly the file, the device stays online, and
      both connections are left at the first byte behind the reply. */
  lemma ProxiedGetTransparent(size: u64, content: seq<byte>, chunks: seq<Frame>, deviceTail: seq<byte>,
        clientTail: seq<byte>)
    requires Chunking(chunks) && Flatten(chunks) == content
    ensures var r := Relay(Wire(Reply(size, chunks)) + deviceTail);
            && !r.offline && r.rest == deviceTail
            && Collect(Wire(r.frames) + clientTail) == Fetched(Some(size), content, clientTail)
  {
    hide Relay, Collect, Wire, Reply, Chunking, Flatten;
    var p := Wire(Reply(size, chunks)) + deviceTail;
    RelayCut(size, chunks, deviceTail, |p|);
    ReplyParts(size, chunks);
    assert p[..|p|] == p && deviceTail[..|deviceTail|] == deviceTail;
    CollectReply(size, chunks, clientTail);
  }

  /** Relaying what arrives of a reply when the device may drop after `n` bytes. */
  lemma RelayCut(size: u64, chunks: seq<Frame>, tail: seq<byte>, n: nat)
    requires Chunking(chunks) && n <= |Wire(Reply(size, chunks))| + |tail|
    ensures Relay((Wire(Reply(size, chunks)) + tail)[..n])
         == if n < |FrameBytes(Header(size))| then Relayed([DISCONNECTED], true, [])
            else if n < |Wire(Reply(size, chunks))| then
              var k := Records.Whole(FrameBytes, chunks, n - |FrameBytes(Header(size))|);
              Relayed(Reply(size, chunks[..k]), true, [])
            else Relayed(Reply(size, chunks), false, tail[..n - |Wire(Reply(size, chunks))|])
  {
    hide ReadBody, DISCONNECTED, Header, FrameBytes, NextFrame;
    WireHead(Header(size), chunks + [[]], tail);
    WireHead(Header(size), chunks + [[]], []);
    HeaderSize(size);
    FrameLength(Header(size));
    var head := |FrameBytes(Header(size))|;
    NextFrameCut(Header(size), Wire(chunks + [[]]) + tail, n);
    ChunksAreSolid(chunks);
    if n >= head {
      BodyCut(chunks, tail, n - head);
      assert forall cs: seq<Frame> :: [Header(size)] + cs + [[]] == [Header(size)] + (cs + [[]]);
    }
  }

  /** The declared size, a prefix of the file, and nothing of what follows the reply. */
  predicate ReceivedPart(f: Fetched, size: u64, content: seq<byte>, rest: seq<byte>, whole: bool) {
    && f.size == Some(size) && f.rest == rest
    && f.data <= content && (whole ==> f.data == content)
  }

  /** If the device drops after any number of bytes, the requester still gets a
      terminated reply: a refusal when not even the header arrived, else a success with
      a prefix of the file. That success holds the whole file exactly when everything
      before the terminator had arrived, and, for a file of the declared size, exactly
      when that many bytes were received. The device is taken offline exactly when
      something is missing. */
  lemma ProxiedGetCut(size: u64, content: seq<byte>, chunks: seq<Frame>, n: nat, clientTail: seq<byte>)
    requires Chunking(chunks) && Flatten(chunks) == content
    requires n <= |Wire(Reply(size, chunks))|
    ensures var r := Relay(Wire(Reply(size, chunks))[..n]);
            && (r.offline <==> n < |Wire(Reply(size, chunks))|)
            && (n < |FrameBytes(Header(size))| ==> r.frames == [DISCONNECTED])
            && (n >= |FrameBytes(Header(size))| ==>
                  var f := Collect(Wire(r.frames) + clientTail);
                  && ReceivedPart(f, size, content, clientTail, !r.offline)
                  && (f.data == content <==> n >= |Wire([Header(size)] + chunks)|)
                  && (size == |content| ==> (f.data == content <==> |f.data| == size)))
  {
    hide Relay, Collect, DISCONNECTED, FrameBytes, Header, Reply, Wire, Chunking, Flatten;
    var p := Wire(Reply(size, chunks));
    RelayCut(size, chunks, [], n);
    assert p + [] == p;
    var head := |FrameBytes(Header(size))|;
    ReplyParts(size, chunks);
    if n >= head {
      var k := Records.Whole(FrameBytes, chunks, n - head);
      SomeChunks(chunks, k);
      AllChunks(chunks, n - head);
      CollectReply(size, chunks[..k], clientTail);
      CollectReply(size, chunks, clientTail);
    }
  }

  /** All chunks are there exactly when all their bytes are, and fewer are less data. */
  lemma AllChunks(chunks: seq<Frame>, n: nat)
    requires Chunking(chunks)
    ensures var k := Records.Whole(FrameBytes, chunks, n);
            && (k == |chunks| <==> n >= |Wire(chunks)|)
            && (Flatten(chunks[..k]) == Flatten(chunks) <==> k == |chunks|)
  {
    hide FrameBytes;
    var k := Records.Whole(FrameBytes, chunks, n);
    Records.WholeIsMaximal(FrameBytes, chunks, n);
    if k == |chunks| {
      assert chunks[..k] == chunks;
    } else {
      assert chunks == chunks[..k + 1] + chunks[k + 1..];
      Records.EncodeListAppend(FrameBytes, chunks[..k + 1], chunks[k + 1..]);
      assert chunks == chunks[..k] + chunks[k..];
      FlattenAppend(chunks[..k], chunks[k..]);
      assert chunks[k] in chunks;
    }
  }

  /** The device drops right behind the header: a success without data. */
  lemma CutBehindHeader(size: u64, content: seq<byte>, chunks: seq<Frame>, clientTail: seq<byte>)
    requires Chunking(chunks) && Flatten(chunks) == content && content != []
    ensures |FrameBytes(Header(size))| <= |Wire(Reply(size, chunks))|
    ensures var r := Relay(Wire(Reply(size, chunks))[..|FrameBytes(Header(size))|]);
            Collect(Wire(r.frames) + clientTail) == Fetched(Some(size), [], clientTail)
  {
    hide Relay, Collect, DISCONNECTED, FrameBytes, Header, Reply, Wire, Chunking;
    ReplyParts(size, chunks);
    NoBytesNoChunks(chunks);
    CutKeeps(size, chunks, 0, clientTail);
    assert chunks[..0] == [];
  }

  lemma NoBytesNoChunks(chunks: seq<Frame>)
    requires Chunking(chunks) && Flatten(chunks) != []
    ensures chunks != []
  {
  }

  /** Whatever part of a file is kept, some drop of the device keeps exactly that part:
      the client gets it with a success. */
  lemma CutAnywhere(size: u64, content: seq<byte>, kept: nat, clientTail: seq<byte>)
      returns (chunks: seq<Frame>, n: nat)
    requires kept <= |content|
    ensures Chunking(chunks) && Flatten(chunks) == content && n < |Wire(Reply(size, chunks))|
    ensures Collect(Wire(Relay(Wire(Reply(size, chunks))[..n]).frames) + clientTail)
         == Fetched(Some(size), content[..kept], clientTail)
  {
    hide Relay, Collect, DISCONNECTED, FrameBytes, Header, Reply, Wire, Chunking, Flatten;
    var front, back := ChunksOf(content[..kept]), ChunksOf(content[kept..]);
    chunks := front + back;
    AddChunks(front, back, content, kept);
    CutKeeps(size, chunks, |front|, clientTail);
    assert chunks[..|front|] == front;
    n := |FrameBytes(Header(size))| + |Wire(front)|;
  }

  /** Cutting a reply behind its header and `k` chunks. */
  lemma CutKeeps(size: u64, chunks: seq<Frame>, k: nat, clientTail: seq<byte>)
    requires Chunking(chunks) && k <= |chunks|
    ensures var n := |FrameBytes(Header(size))| + |Wire(chunks[..k])|;
            && n < |Wire(Reply(size, chunks))|
            && Collect(Wire(Relay(Wire(Reply(size, chunks))[..n]).frames) + clientTail)
               == Fetched(Some(size), Flatten(chunks[..k]), clientTail)
    ensures |Wire([])| == 0
  {
    hide Relay, Collect, DISCONNECTED, FrameBytes, Header, Chunking;
    var n, p := |FrameBytes(Header(size))| + |Wire(chunks[..k])|, Wire(Reply(size, chunks));
    WireNone();
    WireHead(Header(size), chunks + [[]], []);
    assert chunks + [[]] == chunks[..k] + (chunks[k..] + [[]]);
    WireAppend(chunks[..k], chunks[k..] + [[]]);
    SomethingFollows(chunks[k..]);
    assert p + [] == p;
    RelayCut(size, chunks, [], n);
    WholeOf(chunks, k);
    SomeChunks(chunks, k);
    CollectReply(size, chunks[..k], clientTail);
  }

  lemma SomethingFollows(chunks: seq<Frame>)
    ensures |Wire(chunks + [[]])| > 0
  {
    WireAppend(chunks, [[]]);
    WireOne([]);
    FrameLength([]);
  }

  /** The bytes of `k` chunks hold exactly those chunks. */
  lemma WholeOf(chunks: seq<Frame>, k: nat)
    requires k <= |chunks|
    ensures Records.Whole(FrameBytes, chunks, |Wire(chunks[..k])|) == k
    decreases k
  {
    if k == 0 {
      assert chunks[..0] == [];
      if chunks != [] { FrameLength(chunks[0]); }
    } else {
      assert chunks[..k] == [chunks[0]] + chunks[1..][..k - 1];
      WireHead(chunks[0], chunks[1..][..k - 1], []);
      WholeOf(chunks[1..], k - 1);
      WholeStep(chunks, |Wire(chunks[..k])|);
    }
  }

  lemma ReplyParts(size: u64, chunks: seq<Frame>)
    ensures |FrameBytes(Header(size))| <= |Wire(Reply(size, chunks))|
    ensures |Wire([Header(size)] + chunks)| == |FrameBytes(Header(size))| + |Wire(chunks)|
    ensures |Wire([Header(size)] + chunks)| <= |Wire(Reply(size, chunks))|
  {
    WireHead(Header(size), chunks + [[]], []);
    WireHead(Header(size), chunks, []);
    WireAppend(chunks, [[]]);
  }

  lemma SomeChunks(chunks: seq<Frame>, k: nat)
    requires Chunking(chunks) && k <= |chunks|
    ensures Chunking(chunks[..k]) && Flatten(chunks[..k]) <= Flatten(chunks)
  {
    assert chunks == chunks[..k] + chunks[k..];
    FlattenAppend(chunks[..k], chunks[k..]);
  }

  // --- any file, any drop ---

  lemma {:induction false} ArrivedFits(p: seq<byte>)
    ensures |Wire(Records.DecodeList(ReadFrame, p))| <= |p|
    decreases |p|
  {
    hide NextFrame, FrameBytes, ReadFrame;
    NextSplits(p);
    WireNone();
    if NextFrame(p).Got? {
      ArrivedFits(NextFrame(p).rest);
      WireHead(NextFrame(p).payload, Records.DecodeList(ReadFrame, NextFrame(p).rest), []);
    }
  }

  /** How much room a requester needs who stays to the end. */
  lemma RelayRoom(p: seq<byte>)
    ensures var fs := Relay(p).frames;
            fs != [] && |Wire(fs)| <= |p| + 32 && |Wire(fs[..|fs| - 1])| <= |p| + 32
  {
    hide NextFrame, FrameBytes, Wire, ReadBody, ReadFrame, Records.DecodeList, DISCONNECTED;
    var fs, all := Relay(p).frames, Records.DecodeList(ReadFrame, p);
    LastFrame(fs);
    ArrivedFits(p);
    WireOne([]);
    FrameLength([]);
    if NextFrame(p).Got? {
      ReplyFrames(p);
      var part := [NextFrame(p).payload] + ReadBody(NextFrame(p).rest).frames;
      assert all == part + all[|part|..] && all == all[..1] + all[1..];
      CarriedPrefix(part, all[|part|..], 0);
      CarriedPrefix(all[..1], all[1..], 0);
      WireAppend(part, [[]]);
    } else {
      WireOne(DISCONNECTED);
      FrameLength(DISCONNECTED);
      DisconnectedLength();
    }
  }

  lemma LastFrame(fs: seq<Frame>)
    requires fs != []
    ensures |Wire(fs[..|fs| - 1])| <= |Wire(fs)|
  {
    assert fs == fs[..|fs| - 1] + fs[|fs| - 1..];
    CarriedPrefix(fs[..|fs| - 1], fs[|fs| - 1..], 0);
  }

  lemma DisconnectedLength()
    ensures |DISCONNECTED| == 28
  {
  }

  /** What the client makes of a device that may drop after `drop` bytes. */
  ghost predicate Outcome(file: Opened, chunks: seq<Frame>, drop: nat, offline: bool, f: Fetched) {
    var answer := if Sendable(file) then Answer(file, chunks) else [];
    && (offline <==> !(Sendable(file) && Finishes(file)) || drop < |Wire(answer)|)
    && (if file.File? && 13 <= drop then
          && f.size == Some(file.size) && f.data <= file.content
          && (f.data == file.content <==> |Wire([Header(file.size)] + chunks)| <= drop)
        else f.size == None && f.data == [])
  }

  lemma NothingCame(p: seq<byte>)
    requires !NextFrame(p).Got?
    ensures Relay(p).offline && Collect(Wire(Relay(p).frames)) == Fetched(None, [], [])
  {
    hide FrameBytes, NextFrame;
    ShortRefusal();
    WireOne(DISCONNECTED);
    NextFrameOf(DISCONNECTED, []);
    assert FrameBytes(DISCONNECTED) + [] == FrameBytes(DISCONNECTED);
    assert !IsOk(DISCONNECTED);
  }

  lemma RefusalOutcome(file: Opened, chunks: seq<Frame>, drop: nat)
    requires (file.Missing? || file.Refused?) && Sendable(file)
    ensures var p := Carried(Wire(Answer(file, chunks)), drop);
            Outcome(file, chunks, drop, Relay(p).offline, Collect(Wire(Relay(p).frames)))
  {
    hide FrameBytes, NextFrame, Collect, Carried, Wire, DISCONNECTED;
    var refusal := Answer(file, chunks)[0];
    assert Answer(file, chunks) == [refusal];
    WireOne(refusal);
    Arrives(refusal, drop);
    var p := Carried(Wire([refusal]), drop);
    if |FrameBytes(refusal)| <= drop {
      RefusalCollected(file, chunks, []);
      assert Wire([refusal]) + [] == Wire([refusal]);
    } else {
      NothingCame(p);
    }
  }

  lemma FileOutcome(file: Opened, chunks: seq<Frame>, drop: nat)
    requires file.File? && Chunking(chunks) && Flatten(chunks) == file.content
    ensures var p := Carried(Wire(Answer(file, chunks)), drop);
            Outcome(file, chunks, drop, Relay(p).offline, Collect(Wire(Relay(p).frames)))
  {
    hide Relay, Collect, DISCONNECTED, FrameBytes, Header, Wire, Chunking, Flatten;
    var whole, part := Wire(Reply(file.size, chunks)), Wire([Header(file.size)] + chunks);
    var p := Carried(Wire(Answer(file, chunks)), drop);
    ReplyBytes(file.size, chunks);
    assert p == whole[..|p|];
    ProxiedGetCut(file.size, file.content, chunks, |p|, []);
    var fs := Relay(p).frames;
    assert Wire(fs) + [] == Wire(fs);
    if |p| < 13 { RefusedCollected(); }
  }

  lemma RefusedCollected()
    ensures Collect(Wire([DISCONNECTED])) == Fetched(None, [], [])
  {
    NothingArrives();
    NothingCame([]);
  }

  lemma ReplyBytes(size: u64, chunks: seq<Frame>)
    ensures |FrameBytes(Header(size))| == 13
    ensures var part := Wire([Header(size)] + chunks);
            part <= Wire(Reply(size, chunks)) && 13 <= |part| < |Wire(Reply(size, chunks))|
  {
    hide FrameBytes, Header, Wire;
    var part := [Header(size)] + chunks;
    HeaderLength(size);
    FrameLength(Header(size));
    WireHead(Header(size), chunks, []);
    assert Reply(size, chunks) == part + [[]];
    WireAppend(part, [[]]);
    WireOne([]);
    FrameLength([]);
  }

  /** A proxied GET of anything that a path can name, with the three programs run one
      after the other: the device writes its answer and its connection fails after
      `drop` bytes, the server relays what came, the client collects it. The device goes
      offline exactly when its answer stops before a complete reply. A refusal, or
      nothing, is no success and leaves the local file alone; so does a drop within the
      header. Behind the header every drop is a success, with a prefix of the file that
      is the whole file exactly when all of it got out. */
  method ProxiedGet(ghost request: Frame, file: Opened, drop: nat, local: Stream)
    returns (offline: bool, r: Option<nat>, ghost chunks: seq<Frame>, ghost got: Fetched)
    requires System.IsRequest(request) && request[0] == Fs.OP_GET
    modifies local
    ensures Chunking(chunks) && (file.File? ==> Flatten(chunks) == file.content)
    ensures Outcome(file, chunks, drop, offline, got)
    ensures local.bytes == old(local.bytes) + Carried(got.data, old(local.room))
    ensures r == if |got.data| <= old(local.room) then got.size else None
  {
    hide Answer, Chunking, Flatten, Relay, Collect, Carried, Wire, Outcome, System.IsRequest, PassedOn, Collected,
         Sendable, Finishes;
    var device := new Stream(drop);
    var sent;
    sent, chunks := HandleGet(file, device);
    ghost var p := device.bytes;
    RelayRoom(p);
    var requester := new Stream(|device.bytes| + 32);
    ghost var frames := Relay(p).frames;
    FileOrRefusal(file, chunks, drop, p);
    offline := RelayGet(request, device, requester);
    EnoughRoom(frames, |p| + 32);
    got := Collect(requester.bytes);
    r := GetOnConn(request, requester, local);
  }

  lemma EnoughRoom(frames: seq<Frame>, room: nat)
    requires |Wire(frames)| <= room
    ensures [] + Carried(Wire(frames), room) == Wire(frames)
  {
  }

  lemma FileOrRefusal(file: Opened, chunks: seq<Frame>, drop: nat, p: seq<byte>)
    requires Chunking(chunks) && (file.File? ==> Flatten(chunks) == file.content)
    requires p == if Sendable(file) then [] + Carried(Wire(Answer(file, chunks)), drop) else []
    ensures Outcome(file, chunks, drop, Relay(p).offline, Collect(Wire(Relay(p).frames)))
  {
    hide Relay, Collect, Wire, Chunking, Flatten, NextFrame;
    NothingArrives();
    WireNone();
    assert Sendable(file) ==> p == Carried(Wire(Answer(file, chunks)), drop);
    if file.File? {
      FileOutcome(file, chunks, drop);
    } else if file.NoMetadata? || !Sendable(file) {
      assert p == [];
      NothingCame(p);
    } else {
      RefusalOutcome(file, chunks, drop);
    }
  }
}
