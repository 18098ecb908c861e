/** thru-dict: the two listings, KEYS and ALL, and the client code that reads them. */
module DictListing {
  import opened Common
  import opened Core
  import opened DictSpec
  import opened DictStore
  import opened DictRuns
  import opened Frames
  import Records
  import Utf8

  // --- KEYS ---

  /** What `keys_on_conn` makes of an OK payload. */
  function ClientKeys(payload: seq<byte>): seq<Key> {
    if payload == [] then [] else Split(NEWLINE, Utf8.Lossy(payload))
  }

  lemma {:induction false} SplitJoin(ks: seq<Key>)
    requires ks != [] && forall k | k in ks :: NEWLINE !in k
    ensures Split(NEWLINE, Join(ks)) == ks
  {
    hide Split;
    SplitNone(NEWLINE, ks[0]);
    if |ks| > 1 {
      SplitAt(NEWLINE, ks[0], Join(ks[1..]));
      SplitJoin(ks[1..]);
      assert ks == [ks[0]] + ks[1..];
    }
  }

  lemma {:induction false} JoinValid(ks: seq<Key>)
    requires forall k | k in ks :: Utf8.Valid(k)
    ensures Utf8.Valid(Join(ks))
  {
    if |ks| == 1 {
    } else if |ks| > 1 {
      JoinValid(ks[1..]);
      assert Utf8.CharLen([NEWLINE]) == 1 && [NEWLINE][1..] == [];
      Utf8.ValidAppend(ks[0], [NEWLINE]);
      Utf8.ValidAppend(ks[0] + [NEWLINE], Join(ks[1..]));
    }
  }

  /** The key listing comes back exactly when no key holds a newline and the list is
      not just the empty key. */
  lemma KeyListingFaithful(ks: seq<Key>)
    requires forall k | k in ks :: Utf8.Valid(k)
    ensures ClientKeys(Join(ks)) == ks <==> (forall k | k in ks :: NEWLINE !in k) && ks != [[]]
  {
    JoinValid(ks);
    Utf8.LossyIdentity(Join(ks));
    if ks != [] && (forall k | k in ks :: NEWLINE !in k) {
      SplitJoin(ks);
      if Join(ks) == [] {
        assert Split(NEWLINE, []) == [[]];
      }
    } else if ks != [] {
      var k :| k in ks && NEWLINE in k;
      SplitClean(NEWLINE, Join(ks));
      assert k !in ClientKeys(Join(ks));
    }
  }

  // --- ALL ---

  type Pair = (Key, seq<byte>)

  /** One turn of the `client_all` cursor loop. */
  function ReadPair(p: seq<byte>): (r: Option<(Pair, seq<byte>)>)
    ensures r.Some? ==> |r.value.1| < |p|
  {
    var (key, rest) :- ReadStr(p);
    var (value, after) :- ReadBlob(rest);
    Some(((key, value), after))
  }

  predicate PairFits(kv: Pair) {
    FitsU16(kv.0) && Utf8.Valid(kv.0) && |kv.1| < 0x1_0000_0000
  }

  lemma ReadPairCut(kv: Pair, tail: seq<byte>, n: nat)
    requires PairFits(kv) && n <= |PairBytes(kv)| + |tail|
    ensures ReadPair((PairBytes(kv) + tail)[..n])
         == if n < |PairBytes(kv)| then None else Some((kv, tail[..n - |PairBytes(kv)|]))
  {
    hide Utf8.Valid, PushStr, PushBlob, ReadStr, ReadBlob;
    assert PairBytes(kv) + tail == PushStr(kv.0) + (PushBlob(kv.1) + tail);
    ReadStrCut(kv.0, PushBlob(kv.1) + tail, n);
    if n >= |PushStr(kv.0)| {
      ReadBlobCut(kv.1, tail, n - |PushStr(kv.0)|);
    }
  }

  lemma PairCodec()
    ensures Records.Codec(PairBytes, ReadPair, PairFits)
  {
    forall kv: Pair, tail: seq<byte>, n: nat | PairFits(kv) && n <= |PairBytes(kv)| + |tail|
      ensures ReadPair((PairBytes(kv) + tail)[..n]) == Records.Cut(PairBytes, kv, tail, n)
    {
      ReadPairCut(kv, tail, n);
    }
  }

  lemma {:induction false} AllPayloadIsList(kvs: seq<Pair>)
    ensures AllPayload(kvs) == Records.EncodeList(PairBytes, kvs)
  {
    if kvs != [] {
      AllPayloadIsList(kvs[1..]);
    }
  }

  /** The cursor loop of `client_all`. */
  method ClientAll(payload: seq<byte>) returns (out: seq<Pair>)
    ensures out == Records.DecodeList(ReadPair, payload)
  {
    out := [];
    var p := payload;
    while |p| >= 2
      invariant out + Records.DecodeList(ReadPair, p) == Records.DecodeList(ReadPair, payload)
      invariant |p| < 2 ==> ReadPair(p) == None
      decreases |p|
    {
      ghost var start := p;
      ReadStrBySlices(start);
      var klen := ReadU16(p);
      p := p[2..];
      if |p| < klen { break; }
      var key := Utf8.Lossy(p[..klen]);
      p := p[klen..];
      assert ReadStr(start) == Some((key, p));
      if |p| < 4 { break; }
      var vlen := ReadU32(p);
      p := p[4..];
      if |p| < vlen { break; }
      var value := p[..vlen];
      p := p[vlen..];
      assert ReadPair(start) == Some(((key, value), p));
      out := out + [(key, value)];
    }
  }

  /** Reading any prefix of an ALL payload returns exactly the pairs it wholly holds. */
  lemma AllPrefix(kvs: seq<Pair>, n: nat)
    requires (forall kv | kv in kvs :: PairFits(kv)) && n <= |AllPayload(kvs)|
    ensures Records.DecodeList(ReadPair, AllPayload(kvs)[..n]) == kvs[..Records.Whole(PairBytes, kvs, n)]
  {
    PairCodec();
    AllPayloadIsList(kvs);
    Records.DecodePrefix(PairBytes, ReadPair, PairFits, kvs, n);
  }

  /** In every reachable store, the reply to ALL decodes to every key with its value
      and nothing else. */
  lemma AllHoldsStore(states: seq<Store>, events: seq<Event>, i: nat)
    requires IsRun(states, events) && i < |events|
    requires ParseReq(events[i].request).Good? && ParseReq(events[i].request).op == OP_ALL
    ensures events[i].reply != [] && events[i].reply[0] == ST_OK
    ensures var kvs := Records.DecodeList(ReadPair, events[i].reply[1..]);
            && (forall a, b | 0 <= a < b < |kvs| :: kvs[a].0 != kvs[b].0)
            && (forall kv :: kv in kvs <==> kv.0 in states[i] && kv.1 == states[i][kv.0].value)
  {
    hide Utf8.Valid, Step, IsRun, ReadPair;
    ReachableAt(states, events, i);
    AllReply(states[i], events[i], states[i + 1]);
  }

  lemma ReachableAt(states: seq<Store>, events: seq<Event>, i: nat)
    requires IsRun(states, events) && i < |events|
    ensures |states| == |events| + 1 && Step(states[i], events[i], states[i + 1])
    ensures forall k | k in states[i] :: FitsU16(k) && Utf8.Valid(k) && |states[i][k].value| <= MAX_VALUE_SIZE
  {
    RunPrefix(states, events, i);
    ReachableWellFormed(states[..i + 1], events[..i]);
  }

  lemma ListedPairs(m: Store, ks: seq<Key>)
    requires Listing(ks, Values(m).Keys)
    ensures var kvs := Pairs(Values(m), ks);
            && (forall a, b | 0 <= a < b < |kvs| :: kvs[a].0 != kvs[b].0)
            && (forall kv :: kv in kvs <==> kv.0 in m && kv.1 == m[kv.0].value)
  {
    var v := Values(m);
    var kvs := Pairs(v, ks);
    forall k | k in m ensures (k, v[k]) in kvs {
      var j :| 0 <= j < |ks| && ks[j] == k;
      assert kvs[j] == (k, v[k]);
    }
  }

  lemma OrderOfAll(m: Store, e: Event, m': Store) returns (ks: seq<Key>)
    requires Step(m, e, m') && ParseReq(e.request).Good? && ParseReq(e.request).op == OP_ALL
    ensures Listing(ks, Values(m).Keys) && e.reply == Resp(ST_OK, AllPayload(Pairs(Values(m), ks)))
  {
    ks :| Listing(ks, Values(m).Keys) && e.reply == Resp(ST_OK, AllPayload(Pairs(Values(m), ks)));
  }

  // --- over a connection ---

  /** An exchange: the server handles the request and writes its reply, and the client
      reads it; None is an error. */
  method Call(dict: Dict, now: nat, request: seq<byte>, conn: Stream) returns (r: Option<seq<byte>>, ghost e: Event)
    requires dict.Valid() && dict.clock <= now && conn.bytes == []
    modifies dict, conn
    ensures e.request == request && Step(old(dict.entries), e, dict.entries)
    ensures r == if FrameFits(e.reply) && 4 + |e.reply| <= old(conn.room) then Some(e.reply) else None
  {
    hide Step, NextFrame, FrameBytes;
    ghost var m := dict.entries;
    var reply;
    ghost var dropped;
    reply, dropped := dict.Handle(now, request);
    e := Event(now, request, reply, dropped);
    if FrameFits(reply) { Arrives(reply, conn.room); }
    NothingArrives();
    var _ := conn.WriteFrame(reply);
    r := conn.ReadFrame();
  }

  /** `client_all` against the server: it succeeds exactly when the listing fits a frame
      and the connection carries it; then the client has every key once, with its
      value, and nothing else. */
  method CallAll(dict: Dict, now: nat, conn: Stream) returns (r: Option<seq<Pair>>)
    requires dict.Valid() && dict.clock <= now && conn.bytes == []
    modifies dict, conn
    ensures var v := Values(old(dict.entries));
            && (r.Some? <==> 1 + AllSize(v) <= MAX_FRAME && 5 + AllSize(v) <= old(conn.room))
            && (r.Some? ==>
                  && (forall a, b | 0 <= a < b < |r.value| :: r.value[a].0 != r.value[b].0)
                  && (forall kv :: kv in r.value <==> kv.0 in v && kv.1 == v[kv.0]))
  {
    hide Step, AllSize, Req, ReadPair, FrameFits;
    ghost var m := dict.entries;
    EmptyKeyRequest(OP_ALL);
    var reply;
    ghost var e;
    reply, e := Call(dict, now, Req(OP_ALL, [], []), conn);
    AllReply(m, e, dict.entries);
    if reply.None? { return None; }
    assert IsOk(reply.value);
    var out := ClientAll(reply.value[1..]);
    return Some(out);
  }

  lemma EmptyKeyRequest(op: byte)
    ensures ParseReq(Req(op, [], [])) == Good(op, [], [])
  {
    ReqRoundTrip(op, [], []);
  }

  lemma AllReply(m: Store, e: Event, m': Store)
    requires Step(m, e, m') && ParseReq(e.request).Good? && ParseReq(e.request).op == OP_ALL
    requires forall k | k in m :: FitsU16(k) && Utf8.Valid(k) && |m[k].value| <= MAX_VALUE_SIZE
    ensures IsOk(e.reply) && |e.reply| == 1 + AllSize(Values(m))
    ensures FrameFits(e.reply) <==> 1 + AllSize(Values(m)) <= MAX_FRAME
    ensures var kvs := Records.DecodeList(ReadPair, e.reply[1..]);
            && (forall a, b | 0 <= a < b < |kvs| :: kvs[a].0 != kvs[b].0)
            && (forall kv :: kv in kvs <==> kv.0 in Values(m) && kv.1 == Values(m)[kv.0])
  {
    hide Utf8.Valid, Step, AllSize;
    var ks := OrderOfAll(m, e, m');
    var kvs := Pairs(Values(m), ks);
    ListedPairs(m, ks);
    PairCodec();
    AllPayloadIsList(kvs);
    AllSizeOf(Values(m), ks);
    Records.RoundTrip(PairBytes, ReadPair, PairFits, kvs);
    assert e.reply[1..] == AllPayload(kvs);
  }

  /** `keys_on_conn` against the server: it succeeds exactly when the listing fits a
      frame and the connection carries it; the client then has the keys of the store,
      each once, exactly if no key holds a newline and the store is not the empty key
      alone. */
  method CallKeys(dict: Dict, now: nat, conn: Stream) returns (r: Option<seq<Key>>)
    requires dict.Valid() && dict.clock <= now && conn.bytes == []
    modifies dict, conn
    ensures var v := Values(old(dict.entries));
            && (r.Some? <==> 1 + KeysSize(v) <= MAX_FRAME && 5 + KeysSize(v) <= old(conn.room))
            && (r.Some? ==>
                  (Listing(r.value, v.Keys) <==> (forall k | k in v :: NEWLINE !in k) && v.Keys != {[]}))
  {
    hide Step, KeysSize, Req, FrameFits, ClientKeys;
    ghost var m := dict.entries;
    EmptyKeyRequest(OP_KEYS);
    var reply;
    ghost var e;
    reply, e := Call(dict, now, Req(OP_KEYS, [], []), conn);
    KeysReply(m, e, dict.entries);
    if reply.None? { return None; }
    assert IsOk(reply.value);
    return Some(ClientKeys(reply.value[1..]));
  }

  lemma KeysReply(m: Store, e: Event, m': Store)
    requires Step(m, e, m') && ParseReq(e.request).Good? && ParseReq(e.request).op == OP_KEYS
    requires forall k | k in m :: Utf8.Valid(k)
    ensures IsOk(e.reply) && |e.reply| == 1 + KeysSize(Values(m))
    ensures FrameFits(e.reply) <==> 1 + KeysSize(Values(m)) <= MAX_FRAME
    ensures Listing(ClientKeys(e.reply[1..]), m.Keys) <==> (forall k | k in m :: NEWLINE !in k) && m.Keys != {[]}
  {
    hide Utf8.Valid, KeysSize, ClientKeys;
    var ks :| Listing(ks, Values(m).Keys) && e.reply == Resp(ST_OK, Join(ks));
    KeysSizeOf(Values(m), ks);
    assert e.reply[1..] == Join(ks);
    KeyListingFaithful(ks);
    OneEmptyKey(ks, m.Keys);
    if k :| k in m && NEWLINE in k { NewlineLost(ks, k); }
    if m.Keys == {[]} { EmptyKeyLost(); }
  }

  lemma OneEmptyKey(ks: seq<Key>, s: set<Key>)
    requires Listing(ks, s)
    ensures ks == [[]] <==> s == {[]}
  {
    if s == {[]} {
      assert [] in ks;
      var last := |ks| - 1;
      assert ks[0] in s && ks[last] in s;
    }
    if ks == [[]] { assert forall k :: k in s <==> k == []; }
  }

  lemma NewlineLost(ks: seq<Key>, k: Key)
    requires NEWLINE in k
    ensures k !in ClientKeys(Join(ks))
  {
    SplitClean(NEWLINE, Utf8.Lossy(Join(ks)));
  }

  lemma EmptyKeyLost()
    ensures Join([[]]) == [] && ClientKeys([]) == [] && !Listing([], {[]})
  {
    var k: Key := [];
    assert k in {k};
  }
}
