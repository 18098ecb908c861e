/** The interactive shell: key presses and resizes share one stream of frames. */
module Shell {
  import opened Bodies
  import opened Common
  import opened Core
  import opened Frames
  import Utf8

  const OP_RESIZE: byte := 31

  type u16 = x: int | 0 <= x < 0x1_0000

  datatype KeyCode =
    | Char(c: char) | Enter | Backspace | Tab | Esc
    | Left | Right | Up | Down | Home | End | PageUp | PageDown | Delete | OtherKey

  datatype Event =
    | Key(code: KeyCode, ctrl: bool, alt: bool)
    | Resize(cols: u16, rows: u16)
    | OtherEvent

  // --- the client ---

  /** `c.to_string().as_bytes()`: UTF-8 (section 3 of RFC 3629). */
  function Utf8Encode(c: char): (b: seq<byte>)
    ensures b != [] && |b| <= 4
    ensures b[0] == OP_RESIZE <==> c as int == 0x1F
  {
    var n := c as int;
    if n < 0x80 then [n as byte]
    else if n < 0x800 then [(0xC0 + n / 0x40) as byte, (0x80 + n % 0x40) as byte]
    else if n < 0x1_0000 then
      [(0xE0 + n / 0x1000) as byte, (0x80 + n / 0x40 % 0x40) as byte, (0x80 + n % 0x40) as byte]
    else
      [(0xF0 + n / 0x4_0000 % 8) as byte, (0x80 + n / 0x1000 % 0x40) as byte,
       (0x80 + n / 0x40 % 0x40) as byte, (0x80 + n % 0x40) as byte]
  }

  const ESCAPE: byte := 0x1B

  /** What a key press sends, before the Alt prefix. */
  function CodeBytes(code: KeyCode, ctrl: bool): seq<byte> {
    match code
    case Char(c) =>
      if ctrl && 'a' <= c <= 'z' then [(c as int - 'a' as int + 1) as byte]
      else if ctrl && 'A' <= c <= 'Z' then [(c as int - 'A' as int + 1) as byte]
      else Utf8Encode(c)
    case Enter => [10]
    case Backspace => [0x7F]
    case Tab => [9]
    case Esc => [ESCAPE]
    case Left => [ESCAPE, 0x5B, 0x44]
    case Right => [ESCAPE, 0x5B, 0x43]
    case Up => [ESCAPE, 0x5B, 0x41]
    case Down => [ESCAPE, 0x5B, 0x42]
    case Home => [ESCAPE, 0x5B, 0x48]
    case End => [ESCAPE, 0x5B, 0x46]
    case PageUp => [ESCAPE, 0x5B, 0x35, 0x7E]
    case PageDown => [ESCAPE, 0x5B, 0x36, 0x7E]
    case Delete => [ESCAPE, 0x5B, 0x33, 0x7E]
    case OtherKey => []
  }

  function KeyToBytes(e: Event): seq<byte>
    requires e.Key?
  {
    (if e.alt then [ESCAPE] else []) + CodeBytes(e.code, e.ctrl)
  }

  /** A literal U+001F key, sent without Alt, looks like a resize. */
  predicate Misread(e: Event) {
    e.Key? && !e.alt && e.code.Char? && e.code.c as int == 0x1F
  }

  /** `key_to_bytes`: valid text, nothing only for a key it does not know, and the look
      of a resize only for a bare U+001F. */
  method EncodeKey(e: Event) returns (out: seq<byte>)
    requires e.Key?
    ensures out == KeyToBytes(e)
    ensures Utf8.Valid(out) && |out| <= 5
    ensures out == [] <==> e.code.OtherKey? && !e.alt
    ensures out != [] ==> (out[0] == OP_RESIZE <==> Misread(e))
  {
    hide Utf8.Valid, Utf8Encode;
    KeyMeaning(e);
    out := [];
    if e.alt { out := out + [ESCAPE]; }
    match e.code {
      case Char(c) =>
        if e.ctrl && c as int < 0x80 {
          if 'a' <= c <= 'z' {
            out := out + [(c as int - 'a' as int + 1) as byte];
          } else if 'A' <= c <= 'Z' {
            out := out + [(c as int - 'A' as int + 1) as byte];
          } else {
            out := out + Utf8Encode(c);
          }
        } else {
          out := out + Utf8Encode(c);
        }
      case Enter => out := out + [10];
      case Backspace => out := out + [0x7F];
      case Tab => out := out + [9];
      case Esc => out := out + [ESCAPE];
      case Left => out := out + [ESCAPE, 0x5B, 0x44];
      case Right => out := out + [ESCAPE, 0x5B, 0x43];
      case Up => out := out + [ESCAPE, 0x5B, 0x41];
      case Down => out := out + [ESCAPE, 0x5B, 0x42];
      case Home => out := out + [ESCAPE, 0x5B, 0x48];
      case End => out := out + [ESCAPE, 0x5B, 0x46];
      case PageUp => out := out + [ESCAPE, 0x5B, 0x35, 0x7E];
      case PageDown => out := out + [ESCAPE, 0x5B, 0x36, 0x7E];
      case Delete => out := out + [ESCAPE, 0x5B, 0x33, 0x7E];
      case OtherKey =>
    }
  }

  // --- what the bytes of a key say ---

  lemma {:induction false} AsciiValid(b: seq<byte>)
    requires forall i | 0 <= i < |b| :: b[i] < 0x80
    ensures Utf8.Valid(b)
  {
    if b != [] {
      assert Utf8.CharLen(b) == 1;
      AsciiValid(b[1..]);
    }
  }

  /** The bytes of a character are one well-formed sequence. */
  lemma CharValid(c: char)
    ensures Utf8.CharLen(Utf8Encode(c)) == |Utf8Encode(c)| && Utf8.Valid(Utf8Encode(c))
  {
    var b, n := Utf8Encode(c), c as int;
    assert n / 0x1000 < 0x110;
    assert Utf8.CharLen(b) == |b|;
    assert b[|b|..] == [];
  }

  lemma KeyMeaning(e: Event)
    requires e.Key?
    ensures var out := KeyToBytes(e);
            && Utf8.Valid(out) && |out| <= 5
            && (out == [] <==> e.code.OtherKey? && !e.alt)
            && (out != [] ==> (out[0] == OP_RESIZE <==> Misread(e)))
  {
    hide Utf8.Valid, Utf8Encode, Utf8.CharLen;
    var code := CodeBytes(e.code, e.ctrl);
    if e.code.Char? && code == Utf8Encode(e.code.c) { CharValid(e.code.c); } else { AsciiValid(code); }
    AsciiValid([ESCAPE]);
    Utf8.ValidAppend([ESCAPE], code);
    assert [] + code == code;
  }

  /** The character a sequence stands for (section 3 of RFC 3629). */
  function Scalar(b: seq<byte>): int
    requires 1 <= |b| <= 4
  {
    if |b| == 1 then b[0] as int
    else if |b| == 2 then (b[0] as int - 0xC0) * 0x40 + (b[1] as int - 0x80)
    else if |b| == 3 then (b[0] as int - 0xE0) * 0x1000 + (b[1] as int - 0x80) * 0x40 + (b[2] as int - 0x80)
    else
      (b[0] as int - 0xF0) * 0x4_0000 + (b[1] as int - 0x80) * 0x1000
      + (b[2] as int - 0x80) * 0x40 + (b[3] as int - 0x80)
  }

  lemma ScalarBack(c: char)
    ensures Scalar(Utf8Encode(c)) == c as int
  {
    var n := c as int;
    SixBits(n);
    SixBits(n / 0x40);
    SixBits(n / 0x1000);
    assert n / 0x40 / 0x40 == n / 0x1000 && n / 0x1000 / 0x40 == n / 0x4_0000;
    assert n / 0x4_0000 < 8;
  }

  lemma SixBits(n: int)
    ensures n == n / 0x40 * 0x40 + n % 0x40
  {
  }

  /** Characters without Ctrl are told apart by their bytes, with and without Alt. */
  lemma CharactersDistinct(c: char, d: char, altC: bool, altD: bool)
    ensures KeyToBytes(Key(Char(c), false, altC)) == KeyToBytes(Key(Char(d), false, altD)) <==> c == d && altC == altD
  {
    hide Utf8Encode, Scalar;
    var x, y := KeyToBytes(Key(Char(c), false, altC)), KeyToBytes(Key(Char(d), false, altD));
    var b, k := Utf8Encode(c), Utf8Encode(d);
    ScalarBack(c);
    ScalarBack(d);
    EscapeAlone(c);
    EscapeAlone(d);
    assert x == (if altC then [ESCAPE] else []) + b && y == (if altD then [ESCAPE] else []) + k;
    assert altC ==> x[0] == ESCAPE && x[1..] == b;
    assert altD ==> y[0] == ESCAPE && y[1..] == k;
    assert !altC ==> x == b;
    assert !altD ==> y == k;
  }

  lemma EscapeAlone(c: char)
    ensures Utf8Encode(c)[0] == ESCAPE ==> |Utf8Encode(c)| == 1
  {
  }

  /** The key a terminal takes these bytes for: a control sequence is ESC and '[', then
      parameters, then a final byte (section 5.4 of ECMA-48). */
  function KeyOf(b: seq<byte>): Option<KeyCode> {
    if |b| == 1 then
      if b[0] == 0x0A then Some(Enter)
      else if b[0] == 0x09 then Some(Tab)
      else if b[0] == 0x1B then Some(Esc)
      else if b[0] == 0x7F then Some(Backspace)
      else None
    else if |b| < 2 || b[0] != 0x1B || b[1..2] != Text("[") then None
    else
      var final := b[2..];
      if final == Text("A") then Some(Up)
      else if final == Text("B") then Some(Down)
      else if final == Text("C") then Some(Right)
      else if final == Text("D") then Some(Left)
      else if final == Text("F") then Some(End)
      else if final == Text("H") then Some(Home)
      else if final == Text("3~") then Some(Delete)
      else if final == Text("5~") then Some(PageUp)
      else if final == Text("6~") then Some(PageDown)
      else None
  }

  /** Every named key is told from its bytes, with Ctrl or without. */
  lemma NamedKeysUnderstood(code: KeyCode, ctrl: bool)
    requires !code.Char? && !code.OtherKey?
    ensures KeyToBytes(Key(code, ctrl, false)) != [] && KeyOf(KeyToBytes(Key(code, ctrl, false))) == Some(code)
    ensures KeyToBytes(Key(code, ctrl, true)) == [ESCAPE] + KeyToBytes(Key(code, ctrl, false))
  {
    FinalBytes();
    var b := CodeBytes(code, ctrl);
    assert KeyToBytes(Key(code, ctrl, false)) == b;
    if |b| > 2 { assert b == [0x1B, 0x5B] + b[2..]; }
  }

  lemma FinalBytes()
    ensures Text("[") == [0x5B] && Text("A") == [0x41] && Text("B") == [0x42] && Text("C") == [0x43]
    ensures Text("D") == [0x44] && Text("F") == [0x46] && Text("H") == [0x48]
    ensures Text("3~") == [0x33, 0x7E] && Text("5~") == [0x35, 0x7E] && Text("6~") == [0x36, 0x7E]
  {
  }

  predicate Letter(c: char) { 'a' <= c <= 'z' || 'A' <= c <= 'Z' }

  /** Ctrl with a letter sends the control code of the letter, whatever its case: one
      byte from 1 to 26, the last five bits of the letter. With anything else Ctrl makes
      no difference. */
  lemma ControlCodes(c: char, alt: bool)
    ensures var bytes := KeyToBytes(Key(Char(c), true, alt));
            if Letter(c) then
              && |bytes| == (if alt then 2 else 1)
              && bytes[|bytes| - 1] as int == c as int % 0x20 && 1 <= bytes[|bytes| - 1] <= 26
              && (alt ==> bytes[0] == ESCAPE)
            else bytes == KeyToBytes(Key(Char(c), false, alt))
  {
  }

  // --- the event loop ---

  predicate Quits(e: Event) {
    e.Key? && e.code == Char(']') && e.ctrl
  }

  function ResizeFrame(cols: nat, rows: nat): Frame {
    [OP_RESIZE] + U16(cols) + U16(rows)
  }

  /** The frames one event sends. */
  function EventFrames(e: Event): seq<Frame> {
    match e
    case Key(_, _, _) => if KeyToBytes(e) == [] then [] else [KeyToBytes(e)]
    case Resize(cols, rows) => [ResizeFrame(cols, rows)]
    case OtherEvent => []
  }

  /** The events before Ctrl+]; the end of the list stands for a failing read. */
  function UntilQuit(events: seq<Event>): seq<Event> {
    if events == [] || Quits(events[0]) then [] else [events[0]] + UntilQuit(events[1..])
  }

  /** Ctrl and ']', with Alt or without. */
  predicate CtrlBracket(e: Event) {
    e == Key(Char(']'), true, false) || e == Key(Char(']'), true, true)
  }

  /** What is sent are the events before the first Ctrl+]. */
  lemma {:induction false} UntilCtrlBracket(events: seq<Event>)
    ensures UntilQuit(events) <= events && forall e | e in UntilQuit(events) :: !CtrlBracket(e)
    ensures UntilQuit(events) < events ==> CtrlBracket(events[|UntilQuit(events)|])
  {
    if events != [] {
      UntilCtrlBracket(events[1..]);
      assert events == [events[0]] + events[1..];
    }
  }

  function AllFrames(events: seq<Event>): seq<Frame> {
    if events == [] then [] else EventFrames(events[0]) + AllFrames(events[1..])
  }

  /** One turn of the event loop. */
  method SendEvent(e: Event, conn: Stream, ghost start: seq<byte>, ghost room: nat, ghost sent: seq<Frame>)
    returns (ok: bool)
    requires Sent(conn.bytes, conn.room, start, room, sent, true)
    modifies conn
    ensures Sent(conn.bytes, conn.room, start, room, sent + EventFrames(e), ok)
  {
    hide KeyToBytes, ResizeFrame, FrameBytes, Sent;
    assert sent + [] == sent;
    match e {
      case Key(_, _, _) =>
        var bytes := EncodeKey(e);
        if bytes == [] { return true; }
        SentNext(conn.bytes, conn.room, start, room, sent, bytes);
        ShortEvent(e);
        ok := conn.WriteFrame(bytes);
      case Resize(cols, rows) =>
        SentNext(conn.bytes, conn.room, start, room, sent, ResizeFrame(cols, rows));
        ShortEvent(e);
        ok := conn.WriteFrame(ResizeFrame(cols, rows));
      case OtherEvent =>
        ok := true;
    }
  }

  lemma ShortEvent(e: Event)
    ensures e.Key? ==> FrameFits(KeyToBytes(e))
    ensures e.Resize? ==> FrameFits(ResizeFrame(e.cols, e.rows))
  {
  }

  /** The event loop of `remote_shell_interactive`, and the final empty frame, which is
      sent whether or not the loop failed. */
  method SendEvents(events: seq<Event>, conn: Stream) returns (ok: bool)
    modifies conn
    ensures var fs := AllFrames(UntilQuit(events));
            && conn.bytes == old(conn.bytes) + Carried(Wire(fs + [[]]), old(conn.room))
            && (ok <==> |Wire(fs)| <= old(conn.room))
    ensures UntilQuit(events) <= events && forall e | e in UntilQuit(events) :: !CtrlBracket(e)
    ensures UntilQuit(events) < events ==> CtrlBracket(events[|UntilQuit(events)|])
  {
    hide EventFrames, Quits, Wire, AllFrames, UntilQuit, Sent, Carried, FrameBytes, CtrlBracket;
    UntilCtrlBracket(events);
    ghost var start, room, all := conn.bytes, conn.room, AllFrames(UntilQuit(events));
    ghost var sent: seq<Frame> := [];
    SentNothing(start, room);
    var i := 0;
    assert events[0..] == events;
    while i < |events|
      invariant 0 <= i <= |events|
      invariant sent + AllFrames(UntilQuit(events[i..])) == all
      invariant Sent(conn.bytes, conn.room, start, room, sent, true)
    {
      var e := events[i];
      EventStep(sent, events, i);
      if Quits(e) { break; }
      ok := SendEvent(e, conn, start, room, sent);
      sent := sent + EventFrames(e);
      if !ok {
        SentPart(conn.bytes, conn.room, start, room, sent, all, false);
        SentPart(conn.bytes, conn.room, start, room, sent, all + [[]], false);
        NothingMore(conn.bytes, conn.room, start, room, sent);
        var _ := conn.WriteFrame([]);
        return;
      }
      i := i + 1;
    }
    assert sent == all by { NoEvents(sent, events); }
    SentMeans(conn.bytes, conn.room, start, room, sent, true);
    SentNext(conn.bytes, conn.room, start, room, sent, []);
    ok := true;
    var ended := conn.WriteFrame([]);
    SentMeans(conn.bytes, conn.room, start, room, sent + [[]], ended);
  }

  /** A failed connection does not even carry an empty frame. */
  lemma NothingMore(bytes: seq<byte>, left: nat, start: seq<byte>, room: nat, sent: seq<Frame>)
    requires Sent(bytes, left, start, room, sent, false)
    ensures bytes + Carried(FrameBytes([]), left) == bytes
  {
  }

  lemma NoEvents(sent: seq<Frame>, events: seq<Event>)
    ensures sent + AllFrames(UntilQuit(events[|events|..])) == sent
  {
  }

  lemma EventStep(sent: seq<Frame>, events: seq<Event>, i: nat)
    requires i < |events|
    ensures if Quits(events[i]) then sent + AllFrames(UntilQuit(events[i..])) == sent
            else sent + AllFrames(UntilQuit(events[i..]))
                 == sent + EventFrames(events[i]) + AllFrames(UntilQuit(events[i + 1..]))
  {
    hide EventFrames, Quits;
    assert events[i..][1..] == events[i + 1..];
    if !Quits(events[i]) {
      var rest := UntilQuit(events[i + 1..]);
      assert ([events[i]] + rest)[1..] == rest;
    }
  }

  // --- the server ---

  /** `parse_size`. */
  function ParseSize(data: Frame): Option<(nat, nat)> {
    if |data| < 5 then None else Some((ReadU16(data[1..]), ReadU16(data[3..])))
  }

  /** What the terminal behind the shell has received. */
  datatype Terminal = Terminal(input: seq<byte>, resizes: seq<(nat, nat)>)

  function Receive(t: Terminal, f: Frame): Terminal {
    if f != [] && f[0] == OP_RESIZE then
      match ParseSize(f)
      case Some(size) => t.(resizes := t.resizes + [size])
      case None => t
    else t.(input := t.input + f)
  }

  function ReceiveAll(t: Terminal, fs: seq<Frame>): Terminal
    decreases |fs|
  {
    if fs == [] then t else ReceiveAll(Receive(t, fs[0]), fs[1..])
  }

  /** How the frame loop ends: by the empty frame, a lost connection, the exit of the
      child, or a terminal that takes no more input. */
  datatype Ending = Disconnected | ConnectionLost | ChildGone | InputFailed
  datatype Session = Session(t: Terminal, ending: Ending, rest: seq<byte>)

  /** The frame loop of `handle_shell_open` when the child is seen alive for `turns`
      more turns and the terminal takes `room` more bytes. */
  function Serve(t: Terminal, room: nat, turns: nat, p: seq<byte>): Session
    decreases |p|
  {
    if turns == 0 then Session(t, ChildGone, p)
    else
      match NextFrame(p)
      case Got(f, rest) =>
        if f == [] then Session(t, Disconnected, rest)
        else if f[0] == OP_RESIZE then Serve(Receive(t, f), room, turns - 1, rest)
        else if |f| <= room then Serve(Receive(t, f), room - |f|, turns - 1, rest)
        else Session(t.(input := t.input + f[..room]), InputFailed, rest)
      case _ => Session(t, ConnectionLost, [])
  }

  class Pty {
    var input: seq<byte>
    var resizes: seq<(nat, nat)>
    var room: nat
    var turns: nat

    function Seen(): Terminal
      reads this
    {
      Terminal(input, resizes)
    }

    /** `try_wait`. */
    method Exited() returns (gone: bool)
      modifies this`turns
      ensures gone <==> old(turns) == 0
      ensures !gone ==> turns == old(turns) - 1
    {
      gone := turns == 0;
      if !gone { turns := turns - 1; }
    }

    /** `write_all` and `flush`. */
    method Write(data: seq<byte>) returns (ok: bool)
      modifies this`input, this`room
      ensures ok <==> |data| <= old(room)
      ensures input == old(input) + (if ok then data else data[..old(room)])
      ensures ok ==> room == old(room) - |data|
    {
      ok := |data| <= room;
      var out := if ok then data else data[..room];
      input := input + out;
      room := room - |out|;
    }
  }

  method HandleShell(conn: Stream, pty: Pty) returns (ending: Ending)
    modifies conn`bytes, pty
    ensures var s := Serve(old(pty.Seen()), old(pty.room), old(pty.turns), old(conn.bytes));
            && pty.Seen() == s.t && ending == s.ending
            && (!ending.ConnectionLost? ==> conn.bytes == s.rest)
  {
    hide NextFrame;
    ghost var whole := Serve(pty.Seen(), pty.room, pty.turns, conn.bytes);
    while true
      invariant Serve(pty.Seen(), pty.room, pty.turns, conn.bytes) == whole
      decreases |conn.bytes|
    {
      FrameShrinks(conn.bytes);
      var gone := pty.Exited();
      if gone { return ChildGone; }
      var f := conn.ReadFrame();
      if f.None? { return ConnectionLost; }
      if f.value == [] { return Disconnected; }
      if f.value[0] == OP_RESIZE {
        var size := ParseSize(f.value);
        if size.Some? { pty.resizes := pty.resizes + [size.value]; }
      } else {
        var ok := pty.Write(f.value);
        if !ok { return InputFailed; }
      }
    }
  }

  lemma FrameShrinks(p: seq<byte>)
    ensures NextFrame(p).Got? ==> |NextFrame(p).rest| < |p|
  {
  }

  /** The terminal always gets a prefix of what the frames say; all of it, and then
      the end of the session, exactly when the child outlives the frames and the
      terminal takes all the input. */
  lemma {:induction false} ServeFrames(t: Terminal, room: nat, turns: nat, fs: seq<Frame>, tail: seq<byte>)
    requires Solid(fs)
    ensures var s, all := Serve(t, room, turns, Wire(fs + [[]]) + tail), ReceiveAll(t, fs);
            && t.input <= all.input && t.resizes <= all.resizes
            && s.t.input <= all.input && s.t.resizes <= all.resizes
            && (s.ending == Disconnected <==> |fs| < turns && |all.input| <= |t.input| + room)
            && (s.ending == Disconnected ==> s.t == all && s.rest == tail)
    decreases |fs|
  {
    hide NextFrame, FrameBytes, Receive, Serve;
    var all := fs + [[]];
    var first, rest := all[0], all[1..];
    assert Wire(all) + tail == FrameBytes(first) + (Wire(rest) + tail);
    assert fs != [] ==> first in fs;
    NextFrameOf(first, Wire(rest) + tail);
    ServeUnfold(t, room, turns, first, Wire(rest) + tail);
    if fs == [] {
      assert Wire(rest) + tail == tail;
    } else {
      assert rest == fs[1..] + [[]] && first == fs[0];
      forall f | f in fs[1..] ensures f != [] && FrameFits(f) { assert f in fs; }
      ReceiveGrows(t, first);
      var left := if first[0] == OP_RESIZE || |first| > room then room else room - |first|;
      ServeFrames(Receive(t, first), left, if turns > 0 then turns - 1 else 0, fs[1..], tail);
    }
  }

  /** How the session ends on any bytes. It reads whole frames up to the empty one. It
      ends there, or where the stream breaks off, if the child outlives them and the
      terminal takes their input; by the exit of the child if that comes first; and
      otherwise by the terminal, which then has all it takes. */
  lemma {:induction false} ServeEnds(t: Terminal, room: nat, turns: nat, p: seq<byte>)
    ensures var s, b := Serve(t, room, turns, p), ReadBody(p);
            var seen := if turns <= |b.frames| then b.frames[..turns] else b.frames;
            var all := ReceiveAll(t, seen);
            && |t.input| <= |all.input|
            && (s.ending == InputFailed <==> |all.input| > |t.input| + room)
            && (s.ending == InputFailed ==> s.t.input == all.input[..|t.input| + room])
            && (s.ending != InputFailed ==>
                  && s.t == all
                  && s.ending == if turns <= |b.frames| then ChildGone
                                 else if b.ended then Disconnected else ConnectionLost)
            && (s.ending == Disconnected ==> s.rest == b.rest)
    decreases |p|
  {
    hide NextFrame, Receive, ReadBody;
    BodyUnfold(p);
    FrameShrinks(p);
    var b := ReadBody(p);
    if turns == 0 {
      assert b.frames[..0] == [];
    } else if NextFrame(p).Got? && NextFrame(p).payload != [] {
      var Got(f, rest) := NextFrame(p);
      var more := ReadBody(rest).frames;
      ReceiveGrows(t, f);
      var left := if f[0] == OP_RESIZE || |f| > room then room else room - |f|;
      ServeEnds(Receive(t, f), left, turns - 1, rest);
      var later := if turns - 1 <= |more| then more[..turns - 1] else more;
      var seen := if turns <= |b.frames| then b.frames[..turns] else b.frames;
      assert seen == [f] + later && seen[1..] == later;
      ReceivedPrefix(Receive(t, f), later);
    }
  }

  lemma {:induction false} ReceivedPrefix(t: Terminal, fs: seq<Frame>)
    ensures t.input <= ReceiveAll(t, fs).input
    decreases |fs|
  {
    if fs != [] { ReceivedPrefix(Receive(t, fs[0]), fs[1..]); }
  }

  lemma ReceiveGrows(t: Terminal, f: Frame)
    requires f != []
    ensures t.resizes <= Receive(t, f).resizes
    ensures Receive(t, f).input == t.input + (if f[0] == OP_RESIZE then [] else f)
  {
    assert t.input + [] == t.input;
  }

  lemma ServeUnfold(t: Terminal, room: nat, turns: nat, f: Frame, rest: seq<byte>)
    requires NextFrame(FrameBytes(f) + rest) == Got(f, rest)
    ensures Serve(t, room, turns, FrameBytes(f) + rest)
         == if turns == 0 then Session(t, ChildGone, FrameBytes(f) + rest)
            else if f == [] then Session(t, Disconnected, rest)
            else if f[0] == OP_RESIZE then Serve(Receive(t, f), room, turns - 1, rest)
            else if |f| <= room then Serve(Receive(t, f), room - |f|, turns - 1, rest)
            else Session(t.(input := t.input + f[..room]), InputFailed, rest)
  {
    hide NextFrame, FrameBytes, Receive;
  }

  // --- both ends ---

  /** The bytes of all key presses, and the sizes of all resizes, in order. */
  function Typed(events: seq<Event>): seq<byte> {
    if events == [] then []
    else (if events[0].Key? then KeyToBytes(events[0]) else []) + Typed(events[1..])
  }

  function Sizes(events: seq<Event>): seq<(nat, nat)> {
    if events == [] then []
    else (if events[0].Resize? then [(events[0].cols, events[0].rows)] else []) + Sizes(events[1..])
  }

  lemma KeyFrame(t: Terminal, e: Event)
    requires e.Key? && KeyToBytes(e) != []
    ensures |KeyToBytes(e)| <= 5
    ensures Receive(t, KeyToBytes(e)) == if Misread(e) then t else t.(input := t.input + KeyToBytes(e))
    ensures Misread(e) ==> |KeyToBytes(e)| == 1
  {
    if e.alt { assert KeyToBytes(e)[0] == ESCAPE; }
  }

  lemma ResizeReceived(t: Terminal, cols: u16, rows: u16)
    ensures Receive(t, ResizeFrame(cols, rows)) == t.(resizes := t.resizes + [(cols, rows)])
  {
    var f := ResizeFrame(cols, rows);
    assert f[1..] == U16(cols) + U16(rows);
    U16RoundTrip(cols, U16(rows));
    assert f[3..] == U16(rows) + [];
    U16RoundTrip(rows, []);
  }

  lemma {:induction false} ReceiveAppend(t: Terminal, a: seq<Frame>, b: seq<Frame>)
    ensures ReceiveAll(t, a + b) == ReceiveAll(ReceiveAll(t, a), b)
    decreases |a|
  {
    hide Receive;
    if a == [] {
      assert a + b == b;
    } else {
      assert (a + b)[0] == a[0] && (a + b)[1..] == a[1..] + b;
      ReceiveAppend(Receive(t, a[0]), a[1..], b);
    }
  }

  lemma {:induction false} FramesFit(events: seq<Event>)
    ensures forall f | f in AllFrames(events) :: f != [] && FrameFits(f)
  {
    hide KeyToBytes, Receive, Misread;
    if events != [] {
      FramesFit(events[1..]);
      if events[0].Key? && KeyToBytes(events[0]) != [] {
        KeyFrame(Terminal([], []), events[0]);
      }
    }
  }

  lemma ReceiveOne(t: Terminal, f: Frame)
    ensures ReceiveAll(t, [f]) == Receive(t, f)
  {
    assert [f][1..] == [];
  }

  /** What the terminal receives of one event. */
  function AfterEvent(t: Terminal, e: Event): Terminal {
    match e
    case Key(_, _, _) => if Misread(e) then t else t.(input := t.input + KeyToBytes(e))
    case Resize(cols, rows) => t.(resizes := t.resizes + [(cols, rows)])
    case OtherEvent => t
  }

  lemma EventReceived(t: Terminal, e: Event)
    ensures ReceiveAll(t, EventFrames(e)) == AfterEvent(t, e)
  {
    hide Receive, KeyToBytes, Misread, ResizeFrame;
    match e
    case Key(_, _, _) =>
      if KeyToBytes(e) == [] {
        assert t.input + [] == t.input;
      } else {
        KeyFrame(t, e);
        ReceiveOne(t, KeyToBytes(e));
      }
    case Resize(cols, rows) =>
      ResizeReceived(t, cols, rows);
      ReceiveOne(t, ResizeFrame(cols, rows));
    case OtherEvent =>
  }

  /** The bytes of the key presses that are not misread. */
  function Heard(events: seq<Event>): seq<byte> {
    if events == [] then []
    else (if events[0].Key? && !Misread(events[0]) then KeyToBytes(events[0]) else []) + Heard(events[1..])
  }

  lemma {:induction false} EventsReceived(t: Terminal, events: seq<Event>)
    ensures ReceiveAll(t, AllFrames(events)) == Terminal(t.input + Heard(events), t.resizes + Sizes(events))
    decreases |events|
  {
    hide Receive, KeyToBytes, Misread, EventFrames;
    if events == [] {
      assert t.input + [] == t.input && t.resizes + [] == t.resizes;
    } else {
      var e, rest := events[0], events[1..];
      EventReceived(t, e);
      EventsReceived(AfterEvent(t, e), rest);
      ReceiveAppend(t, EventFrames(e), AllFrames(rest));
      assert AllFrames(events) == EventFrames(e) + AllFrames(rest);
      HeardStep(t, e, rest);
      assert [e] + rest == events;
    }
  }

  lemma HeardStep(t: Terminal, e: Event, rest: seq<Event>)
    ensures AfterEvent(t, e).input + Heard(rest) == t.input + Heard([e] + rest)
    ensures AfterEvent(t, e).resizes + Sizes(rest) == t.resizes + Sizes([e] + rest)
  {
    hide KeyToBytes, Misread;
    assert ([e] + rest)[1..] == rest;
    var key := if e.Key? && !Misread(e) then KeyToBytes(e) else [];
    assert t.input + key + Heard(rest) == t.input + (key + Heard(rest));
    assert t.input + [] == t.input;
    var size := if e.Resize? then [(e.cols, e.rows)] else [];
    assert t.resizes + size + Sizes(rest) == t.resizes + (size + Sizes(rest));
    assert t.resizes + [] == t.resizes;
  }

  /** Everything typed is heard exactly when no key is misread. */
  lemma {:induction false} HeardAll(events: seq<Event>)
    ensures |Heard(events)| <= |Typed(events)|
    ensures Heard(events) == Typed(events) <==> forall e | e in events :: !Misread(e)
    ensures (exists e | e in events :: Misread(e)) ==> |Heard(events)| < |Typed(events)|
  {
    hide KeyToBytes, Misread;
    if events != [] {
      HeardAll(events[1..]);
      MisreadIsLost(events[0]);
      assert events == [events[0]] + events[1..];
    }
  }

  lemma MisreadIsLost(e: Event)
    ensures Misread(e) ==> e.Key? && |KeyToBytes(e)| == 1
  {
  }

  /** A whole shell session over any events, any child and any terminal: what arrives
      is a prefix of what was typed and not misread, and of the resizes. It is all of
      it, and the final empty frame ends the session, exactly when the child outlives
      the frames and the terminal takes the input; then the terminal has received
      exactly what was typed up to Ctrl+] if and only if no bare U+001F was pressed. */
  lemma ShellDemultiplexes(events: seq<Event>, room: nat, turns: nat, tail: seq<byte>)
    ensures var done := UntilQuit(events);
            var s := Serve(Terminal([], []), room, turns, Wire(AllFrames(done) + [[]]) + tail);
            && s.t.input <= Heard(done) && s.t.resizes <= Sizes(done)
            && (s.ending == Disconnected <==> |AllFrames(done)| < turns && |Heard(done)| <= room)
            && (s.ending == Disconnected ==>
                  && s.rest == tail && s.t.resizes == Sizes(done)
                  && (s.t.input == Typed(done) <==> forall e | e in done :: !Misread(e)))
  {
    hide Misread, Serve, ReceiveAll, Heard, Typed, Sizes, Wire, UntilQuit, AllFrames;
    var done := UntilQuit(events);
    FramesFit(done);
    ServeFrames(Terminal([], []), room, turns, AllFrames(done), tail);
    EventsReceived(Terminal([], []), done);
    HeardAll(done);
    assert [] + Heard(done) == Heard(done);
    assert [] + Sizes(done) == Sizes(done);
  }
}
