/** thru-exec: the framing of one-shot scripts. */
module Exec {
  import opened Bodies
  import opened Common
  import opened Core
  import opened Frames
  import Utf8

  const OP_EXEC_SCRIPT: byte := 32

  newtype i32 = x: int | -0x8000_0000 <= x < 0x8000_0000

  /** `code.to_be_bytes()`, two's complement. */
  function I32(code: i32): (b: seq<byte>)
    ensures |b| == 4
  {
    U32(if code < 0 then code as int + 0x1_0000_0000 else code as int)
  }

  function ReadI32(b: seq<byte>): i32
    requires |b| == 4
  {
    var n := ReadU32(b);
    if n < 0x8000_0000 then n as i32 else (n - 0x1_0000_0000) as i32
  }

  lemma I32RoundTrip(code: i32)
    ensures ReadI32(I32(code)) == code
  {
    hide U32, ReadU32;
    var n: nat := if code < 0 then code as int + 0x1_0000_0000 else code as int;
    assert U32(n) + [] == U32(n);
    U32RoundTrip(n, []);
  }

  // --- the request ---

  function ExecRequest(script: seq<byte>): Frame {
    [OP_EXEC_SCRIPT] + PushBlob(script)
  }

  /** The script the server extracts; None where it answers with a bare error. */
  function ScriptOf(data: Frame): Option<seq<byte>> {
    if |data| < 5 then None
    else
      var len := ReadU32(data[1..]);
      if |data| < 5 + len then None else Some(Utf8.Lossy(data[5..5 + len]))
  }

  lemma ScriptArrives(script: seq<byte>)
    requires Utf8.Valid(script) && |script| < 0x1_0000_0000
    ensures ScriptOf(ExecRequest(script)) == Some(script)
  {
    hide Utf8.Valid, Utf8.Lossy, U32, ReadU32;
    var data := ExecRequest(script);
    assert data[1..] == U32(|script|) + script;
    U32RoundTrip(|script|, script);
    assert data[5..5 + |script|] == script;
    Utf8.LossyIdentity(script);
  }

  // --- the reply ---

  function OneUnlessEmpty(data: seq<byte>): seq<Frame> {
    if data == [] then [] else [data]
  }

  function OutputFrames(stdout: seq<byte>, stderr: seq<byte>): seq<Frame> {
    OneUnlessEmpty(stdout) + OneUnlessEmpty(stderr)
  }

  function ExecFrames(stdout: seq<byte>, stderr: seq<byte>, code: i32): seq<Frame> {
    OutputFrames(stdout, stderr) + [I32(code)] + [[]]
  }

  /** The frames that are sent: an output too big for a frame ends the reply there. */
  function ReplyFrames(stdout: seq<byte>, stderr: seq<byte>, code: i32): seq<Frame> {
    if !FrameFits(stdout) then []
    else if !FrameFits(stderr) then OneUnlessEmpty(stdout)
    else ExecFrames(stdout, stderr, code)
  }

  /** The last part of `handle_exec_script`. */
  method SendResult(stdout: seq<byte>, stderr: seq<byte>, code: i32, conn: Stream) returns (ok: bool)
    modifies conn
    ensures var reply := Wire(ReplyFrames(stdout, stderr, code));
            && conn.bytes == old(conn.bytes) + Carried(reply, old(conn.room))
            && (ok <==> FrameFits(stdout) && FrameFits(stderr) && |reply| <= old(conn.room))
  {
    hide I32, FrameBytes, Wire, Carried, Sent;
    ghost var start, room := conn.bytes, conn.room;
    ghost var out, err := OneUnlessEmpty(stdout), OneUnlessEmpty(stderr);
    ghost var all := ReplyFrames(stdout, stderr, code);
    SentNothing(start, room);
    SentMeans(start, room, start, room, [], true);
    if stdout != [] {
      SentFirst(start, room, stdout);
      ok := conn.WriteFrame(stdout);
      if FrameFits(stdout) { SentPart(conn.bytes, conn.room, start, room, out, all, ok); }
      if !ok { return; }
    }
    if stderr != [] {
      SentNext(conn.bytes, conn.room, start, room, out, stderr);
      ok := conn.WriteFrame(stderr);
      if FrameFits(stderr) { SentPart(conn.bytes, conn.room, start, room, out + [stderr], all, ok); }
      if !ok { return; }
    }
    assert Sent(conn.bytes, conn.room, start, room, out + err, true) by { assert out + [] == out; }
    SentNext(conn.bytes, conn.room, start, room, out + err, I32(code));
    ok := conn.WriteFrame(I32(code));
    SentPart(conn.bytes, conn.room, start, room, out + err + [I32(code)], all, ok);
    if !ok { return; }
    SentNext(conn.bytes, conn.room, start, room, out + err + [I32(code)], []);
    ok := conn.WriteFrame([]);
    SentMeans(conn.bytes, conn.room, start, room, all, ok);
  }

  function ExitCode(frames: seq<Frame>): i32 {
    if frames != [] && |frames[|frames| - 1]| == 4 then ReadI32(frames[|frames| - 1]) else 1
  }

  function Output(frames: seq<Frame>): seq<byte> {
    if frames == [] then [] else Flatten(frames[..|frames| - 1])
  }

  /** `exec_script_on_conn`, from the request on. */
  method Collect(conn: Stream) returns (r: Option<(seq<byte>, i32)>)
    modifies conn`bytes
    ensures var body := ReadBody(old(conn.bytes));
            && r == (if body.ended then Some((Utf8.Lossy(Output(body.frames)), ExitCode(body.frames))) else None)
            && (body.ended ==> conn.bytes == body.rest)
            && (r.Some? && (forall f | f in body.frames :: |f| != 4) ==> r.value.1 == 1)
  {
    hide NextFrame, ReadBody, ReadI32, Utf8.Lossy;
    var frames: seq<Frame> := [];
    ghost var start := conn.bytes;
    BodyStart(start);
    while true
      invariant ReadBody(start) == Onward(frames, conn.bytes)
      decreases |conn.bytes|
    {
      BodyStep(frames, conn.bytes);
      var f := conn.ReadFrame();
      if f.None? { return None; }
      if f.value == [] { break; }
      frames := frames + [f.value];
    }
    var output := [];
    var last := if |frames| > 0 then |frames| - 1 else 0;
    assert frames[..0] == [];
    for i := 0 to last
      invariant output == Flatten(frames[..i]) && ReadBody(start) == Body(frames, true, conn.bytes)
    {
      assert frames[..i + 1] == frames[..i] + [frames[i]];
      FlattenSnoc(frames[..i], frames[i]);
      output := output + frames[i];
    }
    return Some((Utf8.Lossy(output), ExitCode(frames)));
  }

  /** The client recovers stdout followed by stderr, and the exit code, whatever they
      are: also when both are empty, or when the output is itself four bytes long. */
  lemma ExecUnambiguous(stdout: seq<byte>, stderr: seq<byte>, code: i32, tail: seq<byte>)
    requires FrameFits(stdout) && FrameFits(stderr)
    ensures var got := ReadBody(Wire(ExecFrames(stdout, stderr, code)) + tail);
            && got.ended && got.rest == tail
            && Output(got.frames) == stdout + stderr && ExitCode(got.frames) == code
  {
    hide I32, ReadI32;
    var fs := OutputFrames(stdout, stderr) + [I32(code)];
    BodyOf(fs, tail);
    I32RoundTrip(code);
    assert fs[..|fs| - 1] == OutputFrames(stdout, stderr);
    OutputFlattens(stdout, stderr);
  }

  lemma OutputFlattens(stdout: seq<byte>, stderr: seq<byte>)
    ensures Flatten(OutputFrames(stdout, stderr)) == stdout + stderr
  {
    FlattenAppend(OneUnlessEmpty(stdout), OneUnlessEmpty(stderr));
    assert Flatten([stdout]) == stdout + Flatten([]);
    assert Flatten([stderr]) == stderr + Flatten([]);
  }

  /** What the client makes of the frames that are sent, over a connection that may fail
      after `room` bytes: it gets a result exactly when both outputs fit a frame and
      nothing is lost, and then stdout followed by stderr and the code. */
  lemma ResultUnderstood(stdout: seq<byte>, stderr: seq<byte>, code: i32, room: nat)
    ensures var reply := Wire(ReplyFrames(stdout, stderr, code));
            var got := ReadBody(Carried(reply, room));
            && (got.ended <==> FrameFits(stdout) && FrameFits(stderr) && |reply| <= room)
            && (got.ended ==> Output(got.frames) == stdout + stderr && ExitCode(got.frames) == code)
  {
    hide I32, ReadI32, NextFrame, FrameBytes, Wire, ReadBody, Output, ExitCode;
    var part := if !FrameFits(stdout) then []
                else if !FrameFits(stderr) then OneUnlessEmpty(stdout)
                else OutputFrames(stdout, stderr) + [I32(code)];
    var reply := Wire(ReplyFrames(stdout, stderr, code));
    WireAppend(part, [[]]);
    WireOne([]);
    FrameLength([]);
    assert part + [[]] == ExecFrames(stdout, stderr, code) || part == ReplyFrames(stdout, stderr, code);
    var whole, n := Wire(part + [[]]), |Carried(reply, room)|;
    BodyCut(part, [], n);
    assert whole + [] == whole && whole[..n] == Carried(reply, room);
    if FrameFits(stdout) && FrameFits(stderr) && |reply| <= room {
      ExecUnambiguous(stdout, stderr, code, []);
      assert reply + [] == reply;
    }
  }
}
