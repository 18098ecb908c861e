/** thru-core: big-endian writers, length-prefixed strings and the frame format. */
module Core {
  import opened Common
  import Utf8

  const MAX_FRAME: nat := 64 * 1024 * 1024
  const ST_OK: byte := 0
  const ST_NOT_FOUND: byte := 1
  const ST_ERR: byte := 2

  /** The payload of one frame. */
  type Frame = seq<byte>

  predicate IsOk(f: Frame) { |f| > 0 && f[0] == ST_OK }

  /** ASCII text as bytes. */
  function Text(s: string): (b: seq<byte>)
    ensures |b| == |s|
  {
    seq(|s|, i requires 0 <= i < |s| => (s[i] as int % 256) as byte)
  }

  /** `(n as u16).to_be_bytes()`: the cast truncates. */
  function U16(n: nat): (b: seq<byte>)
    ensures |b| == 2
  {
    [(n / 256 % 256) as byte, (n % 256) as byte]
  }

  function U32(n: nat): (b: seq<byte>)
    ensures |b| == 4
  {
    U16(n / 0x1_0000) + U16(n)
  }

  function U64(n: nat): (b: seq<byte>)
    ensures |b| == 8
  {
    U32(n / 0x1_0000_0000) + U32(n)
  }

  function ReadU16(b: seq<byte>): (n: nat)
    requires |b| >= 2
    ensures n < 0x1_0000
  {
    b[0] as nat * 256 + b[1] as nat
  }

  function ReadU32(b: seq<byte>): (n: nat)
    requires |b| >= 4
    ensures n < 0x1_0000_0000
  {
    ReadU16(b) * 0x1_0000 + ReadU16(b[2..])
  }

  function ReadU64(b: seq<byte>): (n: nat)
    requires |b| >= 8
    ensures n < 0x1_0000_0000_0000_0000
  {
    ReadU32(b) * 0x1_0000_0000 + ReadU32(b[4..])
  }

  lemma U16RoundTrip(n: nat, rest: seq<byte>)
    ensures ReadU16(U16(n) + rest) == n % 0x1_0000
  {
    assert n % 0x1_0000 == (n / 256 % 256) * 256 + n % 256;
  }

  lemma U32RoundTrip(n: nat, rest: seq<byte>)
    ensures ReadU32(U32(n) + rest) == n % 0x1_0000_0000
  {
    var b := U32(n) + rest;
    assert b == U16(n / 0x1_0000) + (U16(n) + rest);
    U16RoundTrip(n / 0x1_0000, U16(n) + rest);
    assert b[2..] == U16(n) + rest;
    U16RoundTrip(n, rest);
    assert n % 0x1_0000_0000 == (n / 0x1_0000 % 0x1_0000) * 0x1_0000 + n % 0x1_0000;
  }

  lemma U64RoundTrip(n: nat, rest: seq<byte>)
    ensures ReadU64(U64(n) + rest) == n % 0x1_0000_0000_0000_0000
  {
    var b := U64(n) + rest;
    assert b == U32(n / 0x1_0000_0000) + (U32(n) + rest);
    U32RoundTrip(n / 0x1_0000_0000, U32(n) + rest);
    assert b[4..] == U32(n) + rest;
    U32RoundTrip(n, rest);
    SplitU64(n);
  }

  lemma SplitU64(n: nat)
    ensures n % 0x1_0000_0000_0000_0000
         == (n / 0x1_0000_0000 % 0x1_0000_0000) * 0x1_0000_0000 + n % 0x1_0000_0000
  {
    var q := n / 0x1_0000_0000;
    var q2, r2 := q / 0x1_0000_0000, q % 0x1_0000_0000;
    assert n == q2 * 0x1_0000_0000_0000_0000 + (r2 * 0x1_0000_0000 + n % 0x1_0000_0000);
  }

  // --- length-prefixed strings ---

  predicate FitsU16(s: seq<byte>) { |s| < 0x1_0000 }

  function PushStr(s: seq<byte>): seq<byte> {
    U16(|s|) + s
  }

  /** The cursor step every client decoder repeats: a u16 length, then that many bytes. */
  function ReadStr(p: seq<byte>): (r: Option<(seq<byte>, seq<byte>)>)
    ensures r.Some? ==> |r.value.1| + 2 <= |p|
  {
    if |p| < 2 then None
    else
      var len := ReadU16(p);
      if |p| - 2 < len then None else Some((Utf8.Lossy(p[2..2 + len]), p[2 + len..]))
  }

  /** Reading from any prefix of a pushed string and what follows it. */
  lemma ReadStrCut(s: seq<byte>, tail: seq<byte>, n: nat)
    requires FitsU16(s) && Utf8.Valid(s) && n <= |PushStr(s)| + |tail|
    ensures ReadStr((PushStr(s) + tail)[..n])
         == if n < |PushStr(s)| then None else Some((s, tail[..n - |PushStr(s)|]))
  {
    hide Utf8.Valid, Utf8.Lossy;
    var p := (PushStr(s) + tail)[..n];
    if n >= 2 {
      var body := (s + tail)[..n - 2];
      assert p == U16(|s|) + body by { assert PushStr(s) + tail == U16(|s|) + (s + tail); }
      assert ReadU16(p) == |s| by { U16RoundTrip(|s|, body); }
      if n >= 2 + |s| {
        assert body == s + tail[..n - 2 - |s|];
        assert p[2..2 + |s|] == s;
        assert p[2 + |s|..] == tail[..n - 2 - |s|];
        Utf8.LossyIdentity(s);
      }
    }
  }

  /** A pushed string is read back, with the cursor just behind it, exactly when
      its length survives the u16 cast. */
  lemma PushStrRoundTrip(s: seq<byte>, tail: seq<byte>)
    requires Utf8.Valid(s)
    ensures ReadStr(PushStr(s) + tail) == Some((s, tail)) <==> FitsU16(s)
  {
    var p := PushStr(s) + tail;
    if FitsU16(s) {
      ReadStrCut(s, tail, |p|);
      assert p[..|p|] == p;
      assert tail[..|tail|] == tail;
    } else {
      assert p == U16(|s|) + (s + tail);
      U16RoundTrip(|s|, s + tail);
    }
  }

  /** The same step as the decoders write it, slicing the cursor twice. */
  lemma ReadStrBySlices(p: seq<byte>)
    ensures |p| >= 2 && |p[2..]| >= ReadU16(p) ==>
              ReadStr(p) == Some((Utf8.Lossy(p[2..][..ReadU16(p)]), p[2..][ReadU16(p)..]))
    ensures |p| < 2 || |p[2..]| < ReadU16(p) ==> ReadStr(p) == None
  {
    if |p| >= 2 && |p[2..]| >= ReadU16(p) {
      assert p[2..][..ReadU16(p)] == p[2..2 + ReadU16(p)];
      assert p[2..][ReadU16(p)..] == p[2 + ReadU16(p)..];
    }
  }

  // --- values with a u32 length ---

  function PushBlob(v: seq<byte>): seq<byte> {
    U32(|v|) + v
  }

  function ReadBlob(p: seq<byte>): (r: Option<(seq<byte>, seq<byte>)>)
    ensures r.Some? ==> |r.value.1| + 4 <= |p|
  {
    if |p| < 4 then None
    else
      var len := ReadU32(p);
      if |p| - 4 < len then None else Some((p[4..][..len], p[4..][len..]))
  }

  lemma ReadBlobCut(v: seq<byte>, tail: seq<byte>, n: nat)
    requires |v| < 0x1_0000_0000 && n <= |PushBlob(v)| + |tail|
    ensures ReadBlob((PushBlob(v) + tail)[..n])
         == if n < |PushBlob(v)| then None else Some((v, tail[..n - |PushBlob(v)|]))
  {
    var p := (PushBlob(v) + tail)[..n];
    if n >= 4 {
      var body := (v + tail)[..n - 4];
      assert p == U32(|v|) + body by { assert PushBlob(v) + tail == U32(|v|) + (v + tail); }
      assert ReadU32(p) == |v| by { U32RoundTrip(|v|, body); }
      assert p[4..] == body;
      if n >= 4 + |v| {
        assert body == v + tail[..n - 4 - |v|];
      }
    }
  }
}
