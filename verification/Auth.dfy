/** The password handshake that opens every connection. */
module Auth {
  import opened Common
  import opened Core
  import opened Frames

  const AUTH_REQUIRED: byte := 0x40
  const AUTH_NONE: byte := 0x41
  const AUTH_OK: byte := 0x42
  const AUTH_FAIL: byte := 0x43
  const AUTH_PASS: byte := 0x44
  const AUTH_NONCE_LEN: nat := 16
  const AUTH_HASH_LEN: nat := 32

  type Nonce = n: seq<byte> | |n| == AUTH_NONCE_LEN witness seq(AUTH_NONCE_LEN, _ => 0)
  type Digest = d: seq<byte> | |d| == AUTH_HASH_LEN witness seq(AUTH_HASH_LEN, _ => 0)
  type Password = seq<byte>

  /** The digest of the password followed by the nonce; `hash` stands for SHA-256. */
  function AuthHash(hash: seq<byte> -> Digest, password: Password, nonce: Nonce): Digest {
    hash(password + nonce)
  }

  /** The nonce has a fixed length, so the hashed text determines both of its parts. */
  lemma HashedTextInjective(p: Password, m: Nonce, q: Password, n: Nonce)
    ensures p + m == q + n <==> p == q && m == n
  {
    if p + m == q + n {
      assert |p| == |q|;
      assert p == (p + m)[..|p|] && q == (q + n)[..|p|];
      assert m == (p + m)[|p|..] && n == (q + n)[|p|..];
    }
  }

  /** Bitwise exclusive or, and or. */
  function Xor(x: nat, y: nat): nat {
    if x == 0 && y == 0 then 0 else (if x % 2 == y % 2 then 0 else 1) + 2 * Xor(x / 2, y / 2)
  }

  function Or(x: nat, y: nat): nat {
    if x == 0 && y == 0 then 0 else (if x % 2 == 0 && y % 2 == 0 then 0 else 1) + 2 * Or(x / 2, y / 2)
  }

  lemma {:induction false} XorZero(x: nat, y: nat)
    ensures Xor(x, y) == 0 <==> x == y
  {
    if x != 0 || y != 0 { XorZero(x / 2, y / 2); }
  }

  lemma {:induction false} OrZero(x: nat, y: nat)
    ensures Or(x, y) == 0 <==> x == 0 && y == 0
  {
    if x != 0 || y != 0 { OrZero(x / 2, y / 2); }
  }

  /** Compares without an early exit: the differences are or-ed together. */
  method ConstantTimeEq(a: seq<byte>, b: seq<byte>) returns (r: bool)
    ensures r <==> a == b
  {
    hide Xor, Or;
    if |a| != |b| { return false; }
    var diff: nat := 0;
    for i := 0 to |a|
      invariant diff == 0 <==> a[..i] == b[..i]
    {
      var x, y := a[i] as nat, b[i] as nat;
      XorZero(x, y);
      OrZero(diff, Xor(x, y));
      assert a[..i + 1] == a[..i] + [a[i]] && b[..i + 1] == b[..i] + [b[i]];
      diff := Or(diff, Xor(x, y));
    }
    assert a[..|a|] == a && b[..|a|] == b;
    return diff == 0;
  }

  // --- the frames ---

  /** The first frame of the server. */
  function Greeting(password: Option<Password>, nonce: Nonce): Frame {
    if password.None? then [AUTH_NONE] else [AUTH_REQUIRED] + nonce
  }

  /** Whether the server takes `f` as proof that its peer knows the password. */
  predicate Proves(f: Frame, expected: Digest) {
    |f| >= 1 + AUTH_HASH_LEN && f[0] == AUTH_PASS && f[1..1 + AUTH_HASH_LEN] == expected
  }

  function Verdict(f: Frame, expected: Digest): Frame {
    if Proves(f, expected) then [AUTH_OK] else [AUTH_FAIL]
  }

  /** `Settled` is the client's result, `Proof` the frame it sends with the password
      it used, `Bad` an error. */
  datatype ClientStep =
    | Settled(ok: bool, used: Option<Password>)
    | Proof(frame: Frame, password: Password)
    | Bad

  /** The client's reaction to the first frame. `password` is the one it was given or,
      failing that, the one typed at the prompt. */
  function Answer(f: Frame, password: Option<Password>, hash: seq<byte> -> Digest): ClientStep {
    if f == [] then Bad
    else if f[0] == AUTH_NONE then Settled(true, None)
    else if f[0] == AUTH_REQUIRED then
      if |f| < 1 + AUTH_NONCE_LEN then Bad
      else
        match password
        case None => Settled(false, None)
        case Some(pw) => Proof([AUTH_PASS] + AuthHash(hash, pw, f[1..1 + AUTH_NONCE_LEN]), pw)
    else Bad
  }

  /** The client's result on the second frame; None is an error. */
  function Conclude(f: Frame, password: Password): Option<(bool, Option<Password>)> {
    if f == [] then None
    else if f[0] == AUTH_OK then Some((true, Some(password)))
    else if f[0] == AUTH_FAIL then Some((false, None))
    else None
  }

  /** The server accepts a frame exactly when it begins with the proof; what follows
      is ignored. */
  lemma ProvesByPrefix(f: Frame, expected: Digest)
    ensures Proves(f, expected) <==> [AUTH_PASS] + expected <= f
  {
    var p := [AUTH_PASS] + expected;
    if p <= f {
      assert f[..|p|] == p;
      assert f[1..1 + AUTH_HASH_LEN] == p[1..];
    }
    if Proves(f, expected) {
      assert f[..|p|] == [f[0]] + f[1..1 + AUTH_HASH_LEN];
    }
  }

  // --- the two sides, split where they wait for each other ---

  method Greet(password: Option<Password>, nonce: Nonce, down: Stream) returns (ok: bool)
    modifies down
    ensures var out := FrameBytes(Greeting(password, nonce));
            && down.bytes == old(down.bytes) + Carried(out, old(down.room))
            && down.room == old(down.room) - |Carried(out, old(down.room))|
            && (ok <==> |out| <= old(down.room))
  {
    hide FrameBytes, Carried;
    if password.None? {
      ok := down.WriteFrame([AUTH_NONE]);
    } else {
      ok := down.WriteFrame([AUTH_REQUIRED] + nonce);
    }
  }

  /** The rest of `auth_server`; None is an error. */
  method Judge(password: Option<Password>, nonce: Nonce, hash: seq<byte> -> Digest, up: Stream, down: Stream)
    returns (r: Option<bool>)
    requires up != down
    modifies up`bytes, down
    ensures password.None? ==> r == Some(true) && down.bytes == old(down.bytes)
    ensures password.Some? && !NextFrame(old(up.bytes)).Got? ==> r == None && down.bytes == old(down.bytes)
    ensures password.Some? && NextFrame(old(up.bytes)).Got? ==>
              var f := NextFrame(old(up.bytes)).payload;
              var expected := AuthHash(hash, password.value, nonce);
              var out := FrameBytes(if [AUTH_PASS] + expected <= f then [AUTH_OK] else [AUTH_FAIL]);
              && down.bytes == old(down.bytes) + Carried(out, old(down.room))
              && r == if |out| <= old(down.room) then Some([AUTH_PASS] + expected <= f) else None
  {
    hide FrameBytes, NextFrame, Carried;
    if password.None? { return Some(true); }
    var f := up.ReadFrame();
    if f.None? { return None; }
    var proof := f.value;
    var expected := AuthHash(hash, password.value, nonce);
    ProvesByPrefix(proof, expected);
    if |proof| < 1 + AUTH_HASH_LEN || proof[0] != AUTH_PASS {
      var ok := down.WriteFrame([AUTH_FAIL]);
      return if ok then Some(false) else None;
    }
    var same := ConstantTimeEq(proof[1..1 + AUTH_HASH_LEN], expected);
    if same {
      var ok := down.WriteFrame([AUTH_OK]);
      return if ok then Some(true) else None;
    } else {
      var ok := down.WriteFrame([AUTH_FAIL]);
      return if ok then Some(false) else None;
    }
  }

  /** The frame asks for a proof and holds a nonce. */
  predicate IsChallenge(f: Frame) {
    |f| >= 17 && f[0] == AUTH_REQUIRED
  }

  /** `auth_client` up to the proof. */
  method Respond(password: Option<Password>, hash: seq<byte> -> Digest, up: Stream, down: Stream)
    returns (s: ClientStep)
    requires up != down
    modifies up, down`bytes
    ensures match NextFrame(old(down.bytes))
            case Got(f, rest) =>
              var a := Answer(f, password, hash);
              && down.bytes == rest
              && up.bytes == old(up.bytes) + (if a.Proof? then Carried(FrameBytes(a.frame), old(up.room)) else [])
              && s == if a.Proof? && |FrameBytes(a.frame)| > old(up.room) then Bad else a
            case _ => s == Bad && up.bytes == old(up.bytes)
    ensures s.Settled? && s.ok <==> NextFrame(old(down.bytes)).Got? && [AUTH_NONE] <= NextFrame(old(down.bytes)).payload
    ensures s.Settled? ==> s.used == None && up.bytes == old(up.bytes)
    ensures s.Settled? && !s.ok <==>
              NextFrame(old(down.bytes)).Got? && IsChallenge(NextFrame(old(down.bytes)).payload) && password.None?
    ensures s.Proof? ==>
              && NextFrame(old(down.bytes)).Got? && IsChallenge(NextFrame(old(down.bytes)).payload)
              && password == Some(s.password)
              && s.frame == [AUTH_PASS] + AuthHash(hash, s.password, NextFrame(old(down.bytes)).payload[1..17])
  {
    hide FrameBytes, NextFrame, Carried, AuthHash;
    var f := down.ReadFrame();
    if f.None? { return Bad; }
    s := Answer(f.value, password, hash);
    if s.Proof? {
      var ok := up.WriteFrame(s.frame);
      if !ok { s := Bad; }
    }
  }

  /** The end of `auth_client`; None is an error. */
  method Finish(s: ClientStep, down: Stream) returns (r: Option<(bool, Option<Password>)>)
    modifies down`bytes
    ensures match s
            case Settled(ok, used) => r == Some((ok, used))
            case Bad => r == None
            case Proof(_, pw) =>
              match NextFrame(old(down.bytes)) {
                case Got(f, _) => r == Conclude(f, pw)
                case _ => r == None
              }
    ensures s.Proof? ==>
              && (r == Some((true, Some(s.password))) <==>
                    NextFrame(old(down.bytes)).Got? && [AUTH_OK] <= NextFrame(old(down.bytes)).payload)
              && (r == Some((false, None)) <==>
                    NextFrame(old(down.bytes)).Got? && [AUTH_FAIL] <= NextFrame(old(down.bytes)).payload)
              && (r.Some? ==> r == Some((true, Some(s.password))) || r == Some((false, None)))
  {
    hide NextFrame;
    match s
    case Settled(ok, used) => return Some((ok, used));
    case Bad => return None;
    case Proof(_, pw) =>
      var f := down.ReadFrame();
      if f.None? { return None; }
      return Conclude(f.value, pw);
  }

  /** Whether the client may be let in: no password is set, or the digests agree. */
  predicate Entitled(server: Option<Password>, client: Option<Password>, nonce: Nonce, hash: seq<byte> -> Digest) {
    server.None? || (client.Some? && AuthHash(hash, client.value, nonce) == AuthHash(hash, server.value, nonce))
  }

  /** With a hash that does not collide on the two texts, that means the same password. */
  lemma EntitledIsSamePassword(server: Password, client: Option<Password>, nonce: Nonce, hash: seq<byte> -> Digest)
    requires client.Some? && hash(client.value + nonce) == hash(server + nonce) ==>
               client.value + nonce == server + nonce
    ensures Entitled(Some(server), client, nonce, hash) <==> client == Some(server)
  {
    if client.Some? { HashedTextInjective(client.value, nonce, server, nonce); }
  }

  lemma GreetingArrives(server: Option<Password>, client: Option<Password>, nonce: Nonce, hash: seq<byte> -> Digest,
        room: nat)
    ensures var g := Greeting(server, nonce);
            var out := Carried(FrameBytes(g), room);
            && |FrameBytes(g)| == (if server.None? then 5 else 21) && [] + out == out
            && (if |FrameBytes(g)| <= room then out == FrameBytes(g) && NextFrame(out) == Got(g, [])
                else !NextFrame(out).Got?)
            && Answer(g, client, hash) == if server.None? then Settled(true, None)
                                          else if client.None? then Settled(false, None)
                                          else Proof([AUTH_PASS] + AuthHash(hash, client.value, nonce), client.value)
  {
    hide NextFrame, FrameBytes, Carried, AuthHash;
    var g := Greeting(server, nonce);
    Arrives(g, room);
    if server.Some? { assert g[1..1 + AUTH_NONCE_LEN] == nonce; }
  }

  lemma ProofArrives(server: Password, client: Password, nonce: Nonce, hash: seq<byte> -> Digest, upRoom: nat,
        downRoom: nat)
    ensures var f := [AUTH_PASS] + AuthHash(hash, client, nonce);
            var expected := AuthHash(hash, server, nonce);
            var out, verdict := Carried(FrameBytes(f), upRoom), Verdict(f, expected);
            var reply := Carried(FrameBytes(verdict), downRoom);
            var same := AuthHash(hash, client, nonce) == expected;
            && |FrameBytes(f)| == 37 && [] + out == out && |FrameBytes(verdict)| == 5 && [] + reply == reply
            && (if 37 <= upRoom then NextFrame(out) == Got(f, []) else !NextFrame(out).Got?)
            && (([AUTH_PASS] + expected <= f) <==> same)
            && (if 5 <= downRoom then NextFrame(reply) == Got(verdict, []) else !NextFrame(reply).Got?)
            && Conclude(verdict, client) == Some((same, if same then Some(client) else None))
  {
    hide NextFrame, FrameBytes, Carried, AuthHash;
    var f := [AUTH_PASS] + AuthHash(hash, client, nonce);
    var expected := AuthHash(hash, server, nonce);
    Arrives(f, upRoom);
    Arrives(Verdict(f, expected), downRoom);
    ProvesByPrefix(f, expected);
    assert f[1..1 + AUTH_HASH_LEN] == AuthHash(hash, client, nonce);
  }

  /** A whole handshake over connections that may fail after any number of bytes.
      Whoever reports success is right to; when both sides finish they report the same;
      and unless a connection fails both do finish, except that a server waiting for
      the proof of a client without a password never gets one. */
  method Handshake(server: Option<Password>, client: Option<Password>, nonce: Nonce, hash: seq<byte> -> Digest,
      upRoom: nat, downRoom: nat)
    returns (served: Option<bool>, joined: Option<(bool, Option<Password>)>)
    ensures served == Some(true) ==> Entitled(server, client, nonce, hash)
    ensures joined.Some? && joined.value.0 ==>
              Entitled(server, client, nonce, hash) && joined.value.1 == (if server.None? then None else client)
    ensures joined.Some? && !joined.value.0 ==> !Entitled(server, client, nonce, hash) && joined.value.1 == None
    ensures served.Some? && joined.Some? ==> served.value == joined.value.0 == Entitled(server, client, nonce, hash)
    ensures upRoom >= 37 && downRoom >= 26 ==> joined.Some? && (served.Some? <==> server.None? || client.Some?)
  {
    hide FrameBytes, NextFrame, Carried, AuthHash, Answer, Conclude, Greeting;
    var up := new Stream(upRoom);
    var down := new Stream(downRoom);
    GreetingArrives(server, client, nonce, hash, downRoom);
    NothingArrives();
    var ok := Greet(server, nonce, down);
    var s := Respond(client, hash, up, down);
    served := None;
    if ok {
      if server.Some? && client.Some? { ProofArrives(server.value, client.value, nonce, hash, upRoom, down.room); }
      served := Judge(server, nonce, hash, up, down);
    }
    joined := Finish(s, down);
  }
}
