/** Streams of non-empty frames closed by an empty one: GET data, script output and
    shell input all have this form. */
module Bodies {
  import opened Common
  import opened Core
  import opened Frames
  import Records

  /** The frames before the first empty or unreadable one; `ended` says the empty one
      came, and `rest` is then what follows it. */
  datatype Body = Body(frames: seq<Frame>, ended: bool, rest: seq<byte>)

  function ReadBody(p: seq<byte>): Body
    decreases |p|
  {
    match NextFrame(p)
    case Got(f, rest) =>
      if f == [] then Body([], true, rest)
      else
        var more := ReadBody(rest);
        more.(frames := [f] + more.frames)
    case _ => Body([], false, [])
  }

  /** The whole body, when `passed` has already been read. */
  function Onward(passed: seq<Frame>, p: seq<byte>): Body {
    var more := ReadBody(p);
    more.(frames := passed + more.frames)
  }

  lemma BodyStart(p: seq<byte>)
    ensures Onward([], p) == ReadBody(p)
  {
    hide ReadBody;
    assert [] + ReadBody(p).frames == ReadBody(p).frames;
  }

  /** One turn of a reading loop. */
  lemma BodyStep(passed: seq<Frame>, p: seq<byte>)
    ensures match NextFrame(p)
            case Got(f, rest) =>
              if f == [] then Onward(passed, p) == Body(passed, true, rest)
              else Onward(passed, p) == Onward(passed + [f], rest) && |rest| < |p|
            case _ => Onward(passed, p) == Body(passed, false, [])
  {
    assert passed + [] == passed;
    if NextFrame(p).Got? && NextFrame(p).payload != [] {
      var Got(f, rest) := NextFrame(p);
      assert passed + ([f] + ReadBody(rest).frames) == passed + [f] + ReadBody(rest).frames;
    }
  }

  /** Frames a body may hold. */
  predicate Solid(fs: seq<Frame>) {
    forall f | f in fs :: f != [] && FrameFits(f)
  }

  /** A body cut anywhere keeps exactly the frames it wholly holds; only a whole body
      is seen to end, with what follows left unread. */
  lemma {:induction false} BodyCut(fs: seq<Frame>, tail: seq<byte>, n: nat)
    requires Solid(fs) && n <= |Wire(fs + [[]])| + |tail|
    ensures ReadBody((Wire(fs + [[]]) + tail)[..n])
         == if n < |Wire(fs + [[]])| then Body(fs[..Records.Whole(FrameBytes, fs, n)], false, [])
            else Body(fs, true, tail[..n - |Wire(fs + [[]])|])
  {
    hide NextFrame, FrameBytes, ReadBody, Wire;
    BodyUnfold((Wire(fs + [[]]) + tail)[..n]);
    if fs == [] {
      assert fs + [[]] == [[]];
      WireOne([]);
      NextFrameCut([], tail, n);
      FrameLength([]);
    } else {
      var first, rest := fs[0], fs[1..] + [[]];
      assert fs + [[]] == [first] + rest && first in fs;
      FirstOfStream(first, rest, tail, n);
      var h := |FrameBytes(first)|;
      if n >= h {
        BodyCut(fs[1..], tail, n - h);
        WholeStep(fs, n);
      }
    }
  }

  lemma BodyUnfold(p: seq<byte>)
    ensures ReadBody(p) == match NextFrame(p)
                           case Got(f, rest) =>
                             if f == [] then Body([], true, rest)
                             else ReadBody(rest).(frames := [f] + ReadBody(rest).frames)
                           case _ => Body([], false, [])
  {
    hide NextFrame;
  }

  lemma WholeStep(fs: seq<Frame>, n: nat)
    requires fs != [] && n >= |FrameBytes(fs[0])|
    ensures var k := Records.Whole(FrameBytes, fs[1..], n - |FrameBytes(fs[0])|);
            Records.Whole(FrameBytes, fs, n) == k + 1 && [fs[0]] + fs[1..][..k] == fs[..k + 1]
    ensures [fs[0]] + fs[1..] == fs
  {
    hide FrameBytes;
  }

  /** The first frame of a stream that may be cut after `n` bytes. */
  lemma FirstOfStream(first: Frame, rest: seq<Frame>, tail: seq<byte>, n: nat)
    requires FrameFits(first) && n <= |Wire([first] + rest)| + |tail|
    ensures |Wire([first] + rest)| == |FrameBytes(first)| + |Wire(rest)|
    ensures var p := (Wire([first] + rest) + tail)[..n];
            if n >= |FrameBytes(first)| then NextFrame(p) == Got(first, (Wire(rest) + tail)[..n - |FrameBytes(first)|])
            else !NextFrame(p).Got?
  {
    hide NextFrame, FrameBytes;
    WireHead(first, rest, tail);
    WireHead(first, rest, []);
    FrameLength(first);
    NextFrameCut(first, Wire(rest) + tail, n);
  }

  lemma FrameLength(f: Frame)
    ensures |FrameBytes(f)| == 4 + |f|
  {
  }

  lemma WireHead(f: Frame, fs: seq<Frame>, tail: seq<byte>)
    ensures Wire([f] + fs) + tail == FrameBytes(f) + (Wire(fs) + tail)
  {
    assert ([f] + fs)[1..] == fs;
  }

  /** A whole body is read back exactly. */
  lemma BodyOf(fs: seq<Frame>, tail: seq<byte>)
    requires Solid(fs)
    ensures ReadBody(Wire(fs + [[]]) + tail) == Body(fs, true, tail)
  {
    hide ReadBody, Wire;
    var p := Wire(fs + [[]]) + tail;
    BodyCut(fs, tail, |p|);
    assert p[..|p|] == p && tail[..|tail|] == tail;
  }
}
