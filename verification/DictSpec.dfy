/** thru-dict: the wire format, and what one request may do to the dictionary. */
module DictSpec {
  import opened Common
  import opened Core
  import Utf8

  const OP_GET: byte := 0
  const OP_SET: byte := 1
  const OP_APPEND: byte := 2
  const OP_DEL: byte := 3
  const OP_KEYS: byte := 4
  const OP_ALL: byte := 5

  const MAX_VALUE_SIZE: nat := 10 * 1024 * 1024
  const MAX_TOTAL_SIZE: nat := 1024 * 1024 * 1024

  type Key = seq<byte>

  /** A value and the instant of its last access. */
  datatype Entry = Entry(value: seq<byte>, lastAccess: nat)
  type Store = map<Key, Entry>

  /** The dictionary a client thinks of. */
  type Plain = map<Key, seq<byte>>

  // --- wire format ---

  function Req(op: byte, key: Key, value: seq<byte>): seq<byte> {
    [op] + U16(|key|) + key + value
  }

  function Resp(status: byte, payload: seq<byte>): seq<byte> {
    [status] + payload
  }

  datatype Parsed = Bad(message: seq<byte>) | Good(op: byte, key: Key, value: seq<byte>)

  function ParseReq(data: seq<byte>): Parsed {
    if |data| < 3 then Bad(Text("truncated request"))
    else
      var klen := ReadU16(data[1..]);
      if |data| < 3 + klen then Bad(Text("truncated key"))
      else if !Utf8.Valid(data[3..3 + klen]) then Bad(Text("invalid key encoding"))
      else Good(data[0], data[3..3 + klen], data[3 + klen..])
  }

  /** The server sees the request the client meant exactly when the key is valid
      text whose length survives the u16 cast. */
  lemma ReqRoundTrip(op: byte, key: Key, value: seq<byte>)
    ensures ParseReq(Req(op, key, value)) == Good(op, key, value) <==> FitsU16(key) && Utf8.Valid(key)
  {
    hide Utf8.Valid, Req, ReadU16, Text;
    var data := Req(op, key, value);
    ReqLayout(op, key, value);
    if !FitsU16(key) && ParseReq(data).Good? {
      assert |ParseReq(data).key| == |key| % 0x1_0000;
    }
  }

  lemma ReqLayout(op: byte, key: Key, value: seq<byte>)
    ensures var data := Req(op, key, value);
            && |data| == 3 + |key| + |value| && data[0] == op
            && ReadU16(data[1..]) == |key| % 0x1_0000
            && data[3..3 + |key|] == key && data[3 + |key|..] == value
  {
    var data := Req(op, key, value);
    assert data == [op] + U16(|key|) + (key + value);
    SliceMiddle([op] + U16(|key|), key, value);
    assert data[1..] == U16(|key|) + (key + value);
    U16RoundTrip(|key|, key + value);
  }

  lemma SliceMiddle(a: seq<byte>, b: seq<byte>, c: seq<byte>)
    ensures (a + (b + c))[|a|..|a| + |b|] == b && (a + (b + c))[|a| + |b|..] == c
  {
  }

  // --- sizes ---

  function Values(m: Store): (v: Plain)
    ensures v.Keys == m.Keys
  {
    map k | k in m :: m[k].value
  }

  /** Sum of all value lengths. */
  ghost function Size(v: Plain): nat {
    if v == map[] then 0
    else
      var k :| k in v;
      |v[k]| + Size(v - {k})
  }

  lemma {:induction false} SizeRemove(v: Plain, k: Key)
    requires k in v
    ensures Size(v) == |v[k]| + Size(v - {k})
    decreases |v|
  {
    var j :| j in v && Size(v) == |v[j]| + Size(v - {j});
    if j != k {
      assert |v - {j}| < |v| by { assert v == (v - {j})[j := v[j]]; }
      assert |v - {k}| < |v| by { assert v == (v - {k})[k := v[k]]; }
      SizeRemove(v - {j}, k);
      SizeRemove(v - {k}, j);
      assert v - {j} - {k} == v - {k} - {j};
    }
  }

  lemma SizeUpdate(v: Plain, k: Key, x: seq<byte>)
    ensures Size(v[k := x]) == Size(v - {k}) + |x|
  {
    SizeRemove(v[k := x], k);
    assert v[k := x] - {k} == v - {k};
  }

  /** Leaving keys out never makes a dictionary bigger. */
  lemma {:induction false} SizeWithout(v: Plain, s: set<Key>)
    ensures Size(v - s) <= Size(v)
    decreases |v|
  {
    if k :| k in s && k in v {
      assert |v - {k}| < |v| by { assert v == (v - {k})[k := v[k]]; }
      SizeRemove(v, k);
      SizeWithout(v - {k}, s);
      assert v - {k} - s == v - s;
    } else {
      assert v - s == v;
    }
  }

  // --- eviction ---

  ghost predicate Fits(m: Store, needed: nat) {
    Size(Values(m)) + needed <= MAX_TOTAL_SIZE
  }

  /** Exact LRU: `dropped` are the keys that leave `m` so that `needed` bytes fit. */
  ghost predicate Evicts(m: Store, dropped: set<Key>, needed: nat) {
    && dropped <= m.Keys
    && Fits(m - dropped, needed)
    && (forall v, s | v in dropped && s in m.Keys - dropped :: m[v].lastAccess <= m[s].lastAccess)
    && (dropped != {} ==> exists last :: IsLastVictim(m, dropped, needed, last))
  }

  /** The newest victim, without whose removal the bytes would not fit. */
  ghost predicate IsLastVictim(m: Store, dropped: set<Key>, needed: nat, last: Key)
    requires dropped <= m.Keys
  {
    && last in dropped
    && (forall v | v in dropped :: m[v].lastAccess <= m[last].lastAccess)
    && !Fits(m - (dropped - {last}), needed)
  }

  /** Nothing is evicted exactly when the bytes already fit. */
  lemma EvictsNothing(m: Store, dropped: set<Key>, needed: nat)
    requires Evicts(m, dropped, needed)
    ensures dropped == {} <==> Fits(m, needed)
  {
    if dropped == {} {
      assert m - dropped == m;
    } else {
      var last :| IsLastVictim(m, dropped, needed, last);
      if Fits(m, needed) {
        assert m - {} == m;
        FitsMonotone(m, {}, dropped - {last}, needed);
      }
    }
  }

  /** When no two entries share an access time, LRU leaves no choice of victims. */
  lemma EvictionUnique(m: Store, a: set<Key>, b: set<Key>, needed: nat)
    requires forall j, k | j in m && k in m && j != k :: m[j].lastAccess != m[k].lastAccess
    requires Evicts(m, a, needed) && Evicts(m, b, needed)
    ensures a == b
  {
    if !(a <= b) {
      NoFewerVictims(m, a, b, needed);
    } else if !(b <= a) {
      NoFewerVictims(m, b, a, needed);
    }
  }

  lemma NoFewerVictims(m: Store, a: set<Key>, b: set<Key>, needed: nat)
    requires forall j, k | j in m && k in m && j != k :: m[j].lastAccess != m[k].lastAccess
    requires Evicts(m, a, needed) && Evicts(m, b, needed)
    ensures a <= b
  {
    hide Fits;
    if x :| x in a && x !in b {
      var last :| IsLastVictim(m, a, needed, last);
      assert x in m.Keys - b && last in m && m[x].lastAccess <= m[last].lastAccess;
      assert last !in b;
      assert forall y | y in b :: m[y].lastAccess <= m[x].lastAccess;
      assert b <= a - {last};
      FitsMonotone(m, b, a - {last}, needed);
    }
  }

  /** The entries used no earlier than `key`; and those used later, with `key` itself. */
  function NotOlder(m: Store, key: Key): Store
    requires key in m
  {
    map k | k in m && m[k].lastAccess >= m[key].lastAccess :: m[k]
  }

  function Newer(m: Store, key: Key): Store
    requires key in m
  {
    map k | k in m && (k == key || m[k].lastAccess > m[key].lastAccess) :: m[k]
  }

  predicate NoTie(m: Store, key: Key)
    requires key in m
  {
    forall k | k in m && k != key :: m[k].lastAccess != m[key].lastAccess
  }

  /** An eviction spares `key` if the bytes fit beside everything used no earlier, and
      only if they fit beside everything used later. Unless another entry was used at
      the very same instant, that is one condition. */
  lemma KeySpared(m: Store, dropped: set<Key>, needed: nat, key: Key)
    requires Evicts(m, dropped, needed) && key in m
    ensures Fits(NotOlder(m, key), needed) ==> key !in dropped
    ensures key !in dropped ==> Fits(Newer(m, key), needed)
    ensures NoTie(m, key) ==> (key !in dropped <==> Fits(NotOlder(m, key), needed))
  {
    hide Fits;
    var older := set k | k in m && m[k].lastAccess < m[key].lastAccess;
    var others := set k | k in m && k != key && m[k].lastAccess <= m[key].lastAccess;
    assert m - older == NotOlder(m, key);
    assert m - others == Newer(m, key);
    if key in dropped {
      var last :| IsLastVictim(m, dropped, needed, last);
      assert older <= dropped - {last};
      if Fits(NotOlder(m, key), needed) { FitsMonotone(m, older, dropped - {last}, needed); }
    } else {
      assert dropped <= others;
      FitsMonotone(m, dropped, others, needed);
    }
    if NoTie(m, key) { assert NotOlder(m, key) == Newer(m, key); }
  }

  /** Dropping more keys keeps what fits fitting. */
  lemma FitsMonotone(m: Store, few: set<Key>, many: set<Key>, needed: nat)
    requires few <= many && Fits(m - few, needed)
    ensures Fits(m - many, needed)
  {
    var v := Values(m - few);
    SizeWithout(v, many);
    assert v - many == Values(m - many);
  }

  ghost predicate NoDuplicates(ks: seq<Key>) {
    forall i, j | 0 <= i < j < |ks| :: ks[i] != ks[j]
  }

  // --- listings ---

  /** `ks` enumerates `s`, in whatever order the hash map yields it. */
  ghost predicate Listing(ks: seq<Key>, s: set<Key>) {
    && NoDuplicates(ks)
    && (forall k :: k in ks <==> k in s)
  }

  function Join(ks: seq<Key>): seq<byte> {
    if ks == [] then []
    else if |ks| == 1 then ks[0]
    else ks[0] + [NEWLINE] + Join(ks[1..])
  }

  const NEWLINE: byte := 10

  function PairBytes(kv: (Key, seq<byte>)): seq<byte> {
    PushStr(kv.0) + PushBlob(kv.1)
  }

  function AllPayload(kvs: seq<(Key, seq<byte>)>): seq<byte> {
    if kvs == [] then [] else PairBytes(kvs[0]) + AllPayload(kvs[1..])
  }

  /** The key/value pairs of `v` in the order `ks`. */
  function Pairs(v: Plain, ks: seq<Key>): (kvs: seq<(Key, seq<byte>)>)
    requires forall k | k in ks :: k in v
    ensures |kvs| == |ks| && forall i | 0 <= i < |ks| :: kvs[i] == (ks[i], v[ks[i]])
  {
    seq(|ks|, i requires 0 <= i < |ks| => (ks[i], v[ks[i]]))
  }

  /** Every key as its own value: its size is the length of all keys together. */
  function Names(v: Plain): (n: Plain)
    ensures n.Keys == v.Keys
  {
    map k | k in v :: k
  }

  /** The sizes of the two listings, whatever their order. */
  ghost function AllSize(v: Plain): nat {
    Size(v) + Size(Names(v)) + 6 * |v|
  }

  ghost function KeysSize(v: Plain): nat {
    Size(Names(v)) + if v == map[] then 0 else |v| - 1
  }

  /** Taking the first key off a listing. */
  lemma ListingStep(v: Plain, ks: seq<Key>)
    requires Listing(ks, v.Keys) && ks != []
    ensures ks[0] in v && Listing(ks[1..], (v - {ks[0]}).Keys)
    ensures forall k | k in ks[1..] :: k in v - {ks[0]}
    ensures Pairs(v, ks) == [(ks[0], v[ks[0]])] + Pairs(v - {ks[0]}, ks[1..])
  {
    hide Pairs;
    TailLists(ks, v.Keys);
    assert (v - {ks[0]}).Keys == v.Keys - {ks[0]};
    PairsStep(v, ks);
  }

  lemma TailLists(ks: seq<Key>, s: set<Key>)
    requires Listing(ks, s) && ks != []
    ensures ks[0] in s && Listing(ks[1..], s - {ks[0]})
  {
    var k, rest := ks[0], ks[1..];
    assert ks == [k] + rest;
    assert k !in rest;
  }

  lemma PairsStep(v: Plain, ks: seq<Key>)
    requires ks != [] && (forall k | k in ks :: k in v) && (forall k | k in ks[1..] :: k in v - {ks[0]})
    ensures Pairs(v, ks) == [(ks[0], v[ks[0]])] + Pairs(v - {ks[0]}, ks[1..])
  {
  }

  lemma SizesStep(v: Plain, k: Key)
    requires k in v
    ensures var rest := v - {k};
            && |v| == |rest| + 1
            && Size(v) == Size(rest) + |v[k]| && Size(Names(v)) == Size(Names(rest)) + |k|
  {
    SizeRemove(v, k);
    SizeRemove(Names(v), k);
    assert Names(v) - {k} == Names(v - {k});
    assert v == (v - {k})[k := v[k]];
  }

  lemma {:induction false} AllSizeOf(v: Plain, ks: seq<Key>)
    requires Listing(ks, v.Keys)
    ensures |AllPayload(Pairs(v, ks))| == AllSize(v)
    decreases |ks|
  {
    hide Listing, Size, Pairs, PairBytes, Names;
    if ks == [] {
      EmptyListing(v);
    } else {
      ListingStep(v, ks);
      SizesStep(v, ks[0]);
      AllSizeOf(v - {ks[0]}, ks[1..]);
      AllPayloadStep(ks[0], v[ks[0]], Pairs(v - {ks[0]}, ks[1..]));
    }
  }

  lemma AllPayloadStep(k: Key, value: seq<byte>, rest: seq<(Key, seq<byte>)>)
    ensures |AllPayload([(k, value)] + rest)| == 6 + |k| + |value| + |AllPayload(rest)|
  {
    assert ([(k, value)] + rest)[1..] == rest;
  }

  lemma EmptyListing(v: Plain)
    requires Listing([], v.Keys)
    ensures v == map[] && Size(v) == 0 && Size(Names(v)) == 0
  {
    assert v == map[] && Names(v) == map[];
  }

  lemma {:induction false} KeysSizeOf(v: Plain, ks: seq<Key>)
    requires Listing(ks, v.Keys)
    ensures |Join(ks)| == KeysSize(v)
    decreases |ks|
  {
    hide Listing, Size, Names;
    if ks == [] {
      EmptyListing(v);
    } else {
      var rest := v - {ks[0]};
      ListingStep(v, ks);
      SizesStep(v, ks[0]);
      KeysSizeOf(rest, ks[1..]);
      if ks[1..] == [] { EmptyListing(rest); } else { NonEmptyListing(rest, ks[1..]); }
    }
  }

  lemma NonEmptyListing(v: Plain, ks: seq<Key>)
    requires Listing(ks, v.Keys) && ks != []
    ensures v != map[]
  {
    assert ks[0] in v;
  }

  // --- one request ---

  datatype Event = Event(now: nat, request: seq<byte>, reply: seq<byte>, dropped: set<Key>)

  function ValueOr(v: Plain, k: Key): seq<byte> {
    if k in v then v[k] else []
  }

  /** The replies a plain dictionary `v` may give. */
  ghost predicate PlainReply(v: Plain, request: seq<byte>, reply: seq<byte>) {
    match ParseReq(request)
    case Bad(message) => reply == Resp(ST_ERR, message)
    case Good(op, key, value) =>
      if op == OP_GET then reply == (if key in v then Resp(ST_OK, v[key]) else Resp(ST_NOT_FOUND, []))
      else if op == OP_SET then
        reply == (if |value| > MAX_VALUE_SIZE then Resp(ST_ERR, Text("value exceeds 10MB limit")) else Resp(ST_OK, []))
      else if op == OP_APPEND then
        reply == (if |ValueOr(v, key)| + |value| > MAX_VALUE_SIZE
                  then Resp(ST_ERR, Text("value exceeds 10MB limit after append")) else Resp(ST_OK, []))
      else if op == OP_DEL then reply == Resp(ST_OK, [])
      else if op == OP_KEYS then exists ks :: Listing(ks, v.Keys) && reply == Resp(ST_OK, Join(ks))
      else if op == OP_ALL then
        exists ks :: Listing(ks, v.Keys) && reply == Resp(ST_OK, AllPayload(Pairs(v, ks)))
      else reply == Resp(ST_ERR, Text("unknown operation"))
  }

  /** The request writes: it is a SET or APPEND within the per-value limit. */
  predicate Writes(v: Plain, request: seq<byte>) {
    match ParseReq(request)
    case Bad(_) => false
    case Good(op, key, value) =>
      || (op == OP_SET && |value| <= MAX_VALUE_SIZE)
      || (op == OP_APPEND && |ValueOr(v, key)| + |value| <= MAX_VALUE_SIZE)
  }

  /** What a plain dictionary becomes when a write first loses `dropped`. */
  function PlainNext(v: Plain, request: seq<byte>, dropped: set<Key>): Plain {
    var kept := v - dropped;
    match ParseReq(request)
    case Bad(_) => v
    case Good(op, key, value) =>
      if !Writes(v, request) then if op == OP_DEL then v - {key} else v
      else kept[key := if op == OP_SET then value else ValueOr(kept, key) + value]
  }

  /** The key whose access time the request renews. */
  function Touched(v: Plain, request: seq<byte>): set<Key> {
    match ParseReq(request)
    case Bad(_) => {}
    case Good(op, key, _) => if Writes(v, request) || (op == OP_GET && key in v) then {key} else {}
  }

  /** Where the evictor looks: a SET has already removed the old value. */
  function Candidates(m: Store, request: seq<byte>): Store {
    match ParseReq(request)
    case Bad(_) => m
    case Good(op, key, _) => if op == OP_SET then m - {key} else m
  }

  /** One request at time `e.now` takes the store from `m` to `m'`. */
  ghost predicate Step(m: Store, e: Event, m': Store) {
    var v := Values(m);
    && PlainReply(v, e.request, e.reply)
    && Values(m') == PlainNext(v, e.request, e.dropped)
    && (forall k | k in m' ::
          m'[k].lastAccess == (if k in Touched(v, e.request) || k !in m then e.now else m[k].lastAccess))
    && (if Writes(v, e.request)
        then Evicts(Candidates(m, e.request), e.dropped, |ParseReq(e.request).value|)
        else e.dropped == {})
  }
}
