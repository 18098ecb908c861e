/** The frame codec, and one direction of a connection as a stream of bytes. */
module Frames {
  import opened Common
  import opened Core
  import Records

  function FrameBytes(data: Frame): seq<byte> {
    PushBlob(data)
  }

  datatype FrameResult = Got(payload: Frame, rest: seq<byte>) | TooLarge | Truncated

  /** What `read_frame` makes of the bytes still to come. */
  function NextFrame(p: seq<byte>): (r: FrameResult)
    ensures r.Got? ==> |r.rest| + 4 + |r.payload| == |p| && |r.payload| <= MAX_FRAME
  {
    if |p| < 4 then Truncated
    else if ReadU32(p) > MAX_FRAME then TooLarge
    else if |p| - 4 < ReadU32(p) then Truncated
    else Got(p[4..][..ReadU32(p)], p[4..][ReadU32(p)..])
  }

  predicate FrameFits(data: Frame) { |data| <= MAX_FRAME }

  /** Reading from any prefix of a frame and what follows: the payload, or an error,
      never anything else. */
  lemma NextFrameCut(data: Frame, tail: seq<byte>, n: nat)
    requires |data| < 0x1_0000_0000 && n <= |FrameBytes(data)| + |tail|
    ensures NextFrame((FrameBytes(data) + tail)[..n])
         == if n < 4 then Truncated
            else if !FrameFits(data) then TooLarge
            else if n < |FrameBytes(data)| then Truncated
            else Got(data, tail[..n - |FrameBytes(data)|])
  {
    ReadBlobCut(data, tail, n);
    if n >= 4 {
      var p := (FrameBytes(data) + tail)[..n];
      assert FrameBytes(data) + tail == U32(|data|) + (data + tail);
      assert p == U32(|data|) + (data + tail)[..n - 4];
      U32RoundTrip(|data|, (data + tail)[..n - 4]);
    }
  }

  lemma NextFrameOf(data: Frame, tail: seq<byte>)
    requires FrameFits(data)
    ensures NextFrame(FrameBytes(data) + tail) == Got(data, tail)
  {
    var p := FrameBytes(data) + tail;
    NextFrameCut(data, tail, |p|);
    assert p[..|p|] == p && tail[..|tail|] == tail;
  }

  function ReadFrame(p: seq<byte>): Option<(Frame, seq<byte>)> {
    match NextFrame(p)
    case Got(payload, rest) => Some((payload, rest))
    case _ => None
  }

  lemma FrameCodec()
    ensures Records.Codec(FrameBytes, ReadFrame, FrameFits)
  {
    forall d: Frame, tail: seq<byte>, n: nat | FrameFits(d) && n <= |FrameBytes(d)| + |tail|
      ensures ReadFrame((FrameBytes(d) + tail)[..n]) == Records.Cut(FrameBytes, d, tail, n)
    {
      NextFrameCut(d, tail, n);
    }
  }

  /** The bytes of a sequence of frames. */
  function Wire(fs: seq<Frame>): seq<byte> {
    Records.EncodeList(FrameBytes, fs)
  }

  lemma WireAppend(a: seq<Frame>, b: seq<Frame>)
    ensures Wire(a + b) == Wire(a) + Wire(b)
  {
    Records.EncodeListAppend(FrameBytes, a, b);
  }

  lemma WireNone()
    ensures Wire([]) == []
  {
  }

  lemma WireOne(f: Frame)
    ensures Wire([f]) == FrameBytes(f)
  {
    assert Records.EncodeList(FrameBytes, [f]) == FrameBytes([f][0]) + Records.EncodeList(FrameBytes, [f][1..]);
    assert FrameBytes(f) + [] == FrameBytes(f);
  }

  /** A stream cut anywhere yields exactly the frames it wholly holds, in order. */
  lemma FrameStreamCut(fs: seq<Frame>, n: nat)
    requires (forall f | f in fs :: FrameFits(f)) && n <= |Wire(fs)|
    ensures Records.DecodeList(ReadFrame, Wire(fs)[..n]) == fs[..Records.Whole(FrameBytes, fs, n)]
    ensures Records.DecodeList(ReadFrame, Wire(fs)) == fs
  {
    FrameCodec();
    Records.DecodePrefix(FrameBytes, ReadFrame, FrameFits, fs, n);
    Records.RoundTrip(FrameBytes, ReadFrame, FrameFits, fs);
  }

  /** Two sequences of frames with the same bytes are the same. */
  lemma FramesUnique(a: seq<Frame>, b: seq<Frame>)
    requires (forall f | f in a + b :: FrameFits(f)) && Wire(a) == Wire(b)
    ensures a == b
  {
    forall f | f in a ensures FrameFits(f) { assert f in a + b; }
    forall f | f in b ensures FrameFits(f) { assert f in a + b; }
    FrameStreamCut(a, 0);
    FrameStreamCut(b, 0);
  }

  /** What gets out of `data` on a connection that carries `room` more bytes. */
  function Carried(data: seq<byte>, room: nat): (out: seq<byte>)
    ensures |out| <= room
  {
    if |data| <= room then data else data[..room]
  }

  lemma CarriedAppend(a: seq<byte>, b: seq<byte>, room: nat)
    ensures Carried(a + b, room) == if |a| <= room then a + Carried(b, room - |a|) else Carried(a, room)
  {
  }

  /** After writing `fs` on a connection that held `start` and carried `room` more
      bytes, it holds `bytes` and carries `left`; `ok` says nothing is missing. */
  ghost predicate Sent(bytes: seq<byte>, left: nat, start: seq<byte>, room: nat, fs: seq<Frame>, ok: bool) {
    && (ok <==> |Wire(fs)| <= room)
    && bytes == start + Carried(Wire(fs), room)
    && left == room - |Carried(Wire(fs), room)|
  }

  lemma SentNothing(start: seq<byte>, room: nat)
    ensures Sent(start, room, start, room, [], true)
  {
    WireNone();
  }

  lemma SentMeans(bytes: seq<byte>, left: nat, start: seq<byte>, room: nat, fs: seq<Frame>, ok: bool)
    requires Sent(bytes, left, start, room, fs, ok)
    ensures ok <==> |Wire(fs)| <= room
    ensures bytes == start + Carried(Wire(fs), room) && left == room - |Carried(Wire(fs), room)|
  {
  }

  /** Writing one frame more. */
  lemma SentNext(bytes: seq<byte>, left: nat, start: seq<byte>, room: nat, fs: seq<Frame>, f: Frame)
    requires Sent(bytes, left, start, room, fs, true)
    ensures var out := Carried(FrameBytes(f), left);
            Sent(bytes + out, left - |out|, start, room, fs + [f], |FrameBytes(f)| <= left)
  {
    hide FrameBytes, Wire;
    WireOne(f);
    WireAppend(fs, [f]);
    CarriedAppend(Wire(fs), FrameBytes(f), room);
  }

  lemma SentFirst(start: seq<byte>, room: nat, f: Frame)
    ensures var out := Carried(FrameBytes(f), room);
            Sent(start + out, room - |out|, start, room, [f], |FrameBytes(f)| <= room)
  {
    hide FrameBytes;
    SentNothing(start, room);
    SentNext(start, room, start, room, [], f);
    assert [] + [f] == [f];
  }

  /** A frame on an otherwise empty connection arrives whole or not at all. */
  lemma Arrives(f: Frame, room: nat)
    requires FrameFits(f)
    ensures |FrameBytes(f)| == 4 + |f| && [] + Carried(FrameBytes(f), room) == Carried(FrameBytes(f), room)
    ensures if |FrameBytes(f)| <= room then
              Carried(FrameBytes(f), room) == FrameBytes(f) && NextFrame(FrameBytes(f)) == Got(f, [])
            else !NextFrame(Carried(FrameBytes(f), room)).Got?
  {
    hide NextFrame;
    var n := |Carried(FrameBytes(f), room)|;
    NextFrameCut(f, [], n);
    assert (FrameBytes(f) + [])[..n] == Carried(FrameBytes(f), room);
  }

  lemma NothingArrives()
    ensures !NextFrame([]).Got?
  {
  }

  /** Frames that come after the connection has failed change nothing. */
  lemma CarriedPrefix(a: seq<Frame>, b: seq<Frame>, room: nat)
    ensures |Wire(a)| <= |Wire(a + b)|
    ensures |Wire(a)| > room ==> Carried(Wire(a + b), room) == Carried(Wire(a), room)
  {
    WireAppend(a, b);
    CarriedAppend(Wire(a), Wire(b), room);
  }

  lemma SentPart(bytes: seq<byte>, left: nat, start: seq<byte>, room: nat, part: seq<Frame>, fs: seq<Frame>, ok: bool)
    requires Sent(bytes, left, start, room, part, ok) && part <= fs
    ensures ok <==> |Wire(part)| <= room
    ensures !ok ==>
              && |Wire(fs)| > room
              && bytes == start + Carried(Wire(fs), room) && left == room - |Carried(Wire(fs), room)|
    ensures part == fs ==> bytes == start + Carried(Wire(fs), room)
  {
    assert fs == part + fs[|part|..];
    CarriedPrefix(part, fs[|part|..], room);
  }

  /** One direction of a connection. `bytes` is what has been written and not yet
      read; the reader finds the end of the stream behind it. `room` is how many more
      bytes the connection carries before it fails, which no program can see. */
  class Stream {
    var bytes: seq<byte>
    var room: nat

    constructor (room: nat)
      ensures bytes == [] && this.room == room
    {
      bytes, this.room := [], room;
    }

    /** A read delivers any non-empty piece of what is there, up to `max` bytes. */
    method Read(max: nat) returns (piece: seq<byte>)
      requires max > 0
      modifies this`bytes
      ensures piece + bytes == old(bytes) && |piece| <= max
      ensures piece == [] <==> old(bytes) == []
    {
      if bytes == [] {
        return [];
      }
      var n: nat :| 1 <= n <= max && n <= |bytes| by { assert 1 <= max && 1 <= |bytes|; }
      piece := bytes[..n];
      bytes := bytes[n..];
    }

    /** `read_exact`: as many reads as it takes, or an error at the end of the stream. */
    method ReadExact(n: nat) returns (r: Option<seq<byte>>)
      modifies this`bytes
      ensures r.Some? <==> n <= |old(bytes)|
      ensures r.Some? ==> r.value == old(bytes)[..n] && bytes == old(bytes)[n..]
    {
      var got := [];
      while |got| < n
        invariant got + bytes == old(bytes) && |got| <= n
      {
        var piece := Read(n - |got|);
        if piece == [] {
          assert old(bytes) == got;
          return None;
        }
        got := got + piece;
      }
      return Some(got);
    }

    method ReadFrame() returns (r: Option<Frame>)
      modifies this`bytes
      ensures NextFrame(old(bytes)).Got? ==>
                r == Some(NextFrame(old(bytes)).payload) && bytes == NextFrame(old(bytes)).rest
      ensures !NextFrame(old(bytes)).Got? ==> r == None
    {
      var h := ReadExact(4);
      if h.None? { return None; }
      assert h.value[0] == old(bytes)[0] && h.value[1] == old(bytes)[1];
      assert h.value[2..] == old(bytes)[2..4];
      var n := ReadU32(h.value);
      assert n == ReadU32(old(bytes));
      if n > MAX_FRAME { return None; }
      r := ReadExact(n);
    }

    /** `write_all`: an error when the connection fails before all of it is out. */
    method WriteAll(data: seq<byte>) returns (ok: bool)
      modifies this
      ensures ok <==> |data| <= old(room)
      ensures bytes == old(bytes) + Carried(data, old(room))
      ensures room == old(room) - |Carried(data, old(room))|
    {
      ok := |data| <= room;
      var out := if ok then data else data[..room];
      bytes := bytes + out;
      room := room - |out|;
    }

    method WriteFrame(data: Frame) returns (ok: bool)
      modifies this
      ensures ok <==> FrameFits(data) && |FrameBytes(data)| <= old(room)
      ensures FrameFits(data) ==>
                && bytes == old(bytes) + Carried(FrameBytes(data), old(room))
                && room == old(room) - |Carried(FrameBytes(data), old(room))|
      ensures !FrameFits(data) ==> bytes == old(bytes) && room == old(room)
    {
      if |data| > MAX_FRAME { return false; }
      CarriedAppend(U32(|data|), data, room);
      ok := WriteAll(U32(|data|));
      if ok {
        ok := WriteAll(data);
      }
    }
  }
}
