/** thru-dict: the shared dictionary itself, updated in place. */
module DictStore {
  import opened Common
  import opened Core
  import opened DictSpec
  import Utf8

  const USIZE_MAX: nat := 0xFFFF_FFFF_FFFF_FFFF

  function SaturatingAdd(a: nat, b: nat): nat {
    if a + b > USIZE_MAX then USIZE_MAX else a + b
  }

  function SaturatingSub(a: nat, b: nat): nat {
    if a < b then 0 else a - b
  }

  // --- ordering a snapshot of the keys by last access ---

  predicate OldestFirst(m: Store, ks: seq<Key>)
    requires forall k | k in ks :: k in m
  {
    forall i, j | 0 <= i < j < |ks| :: m[ks[i]].lastAccess <= m[ks[j]].lastAccess
  }

  /** Stable insertion of one key. */
  function InsertByAccess(m: Store, k: Key, ks: seq<Key>): (r: seq<Key>)
    requires k in m && (forall x | x in ks :: x in m)
    ensures |r| == |ks| + 1 && (forall x :: x in r <==> x == k || x in ks)
  {
    if ks == [] then [k]
    else
      var front, last := ks[..|ks| - 1], ks[|ks| - 1];
      assert ks == front + [last];
      if m[k].lastAccess < m[last].lastAccess then InsertByAccess(m, k, front) + [last] else ks + [k]
  }

  lemma {:induction false} InsertKeepsOrder(m: Store, k: Key, ks: seq<Key>)
    requires k in m && (forall x | x in ks :: x in m) && OldestFirst(m, ks)
    ensures OldestFirst(m, InsertByAccess(m, k, ks))
  {
    if ks != [] {
      var front, last := ks[..|ks| - 1], ks[|ks| - 1];
      InsertKeepsOrder(m, k, front);
      assert forall x | x in front :: m[x].lastAccess <= m[last].lastAccess;
    }
  }

  lemma {:induction false} InsertKeepsDistinct(m: Store, k: Key, ks: seq<Key>)
    requires k in m && (forall x | x in ks :: x in m) && NoDuplicates(ks) && k !in ks
    ensures NoDuplicates(InsertByAccess(m, k, ks))
  {
    if ks != [] {
      var front, last := ks[..|ks| - 1], ks[|ks| - 1];
      InsertKeepsDistinct(m, k, front);
      assert last !in front;
    }
  }

  /** `keys.sort_by_key(|(_, t)| *t)`. */
  function SortByAccess(m: Store, ks: seq<Key>): (r: seq<Key>)
    requires forall k | k in ks :: k in m
    ensures |r| == |ks| && (forall x :: x in r <==> x in ks)
  {
    if ks == [] then []
    else
      var front, last := ks[..|ks| - 1], ks[|ks| - 1];
      assert ks == front + [last];
      InsertByAccess(m, last, SortByAccess(m, front))
  }

  lemma {:induction false} SortedListing(m: Store, ks: seq<Key>)
    requires (forall k | k in ks :: k in m) && NoDuplicates(ks)
    ensures OldestFirst(m, SortByAccess(m, ks)) && NoDuplicates(SortByAccess(m, ks))
  {
    if ks != [] {
      var front, last := ks[..|ks| - 1], ks[|ks| - 1];
      SortedListing(m, front);
      InsertKeepsOrder(m, last, SortByAccess(m, front));
      InsertKeepsDistinct(m, last, SortByAccess(m, front));
    }
  }

  /** The keys of a hash map, in an order the program does not control. */
  method Iterate(m: Store) returns (ks: seq<Key>)
    ensures Listing(ks, m.Keys)
  {
    ks := [];
    var rest := m.Keys;
    while rest != {}
      invariant rest <= m.Keys
      invariant Listing(ks, m.Keys - rest)
    {
      var k :| k in rest;
      rest := rest - {k};
      ks := ks + [k];
    }
  }

  // --- victims ---

  /** `dropped` are the first `i` keys in eviction order. */
  ghost predicate FirstDropped(m: Store, keys: seq<Key>, i: nat, dropped: set<Key>) {
    && Listing(keys, m.Keys)
    && OldestFirst(m, keys)
    && i <= |keys|
    && (forall k :: k in dropped <==> k in keys[..i])
  }

  /** The state of the eviction loop: every victim so far was needed. */
  ghost predicate Evicting(m: Store, keys: seq<Key>, i: nat, dropped: set<Key>, needed: nat) {
    && FirstDropped(m, keys, i, dropped)
    && dropped <= m.Keys
    && (i == 0 ==> !Fits(m, needed))
    && (i > 0 ==> IsLastVictim(m, dropped, needed, keys[i - 1]))
  }

  lemma NextVictim(m: Store, keys: seq<Key>, i: nat, dropped: set<Key>, needed: nat)
    requires Evicting(m, keys, i, dropped, needed) && i < |keys|
    requires !Fits(m - dropped, needed)
    ensures Evicting(m, keys, i + 1, dropped + {keys[i]}, needed)
    ensures m - (dropped + {keys[i]}) == m - dropped - {keys[i]}
  {
    var next := dropped + {keys[i]};
    NextDropped(m, keys, i, dropped);
    assert m - (next - {keys[i]}) == m - dropped;
  }

  lemma NextDropped(m: Store, keys: seq<Key>, i: nat, dropped: set<Key>)
    requires FirstDropped(m, keys, i, dropped) && i < |keys|
    ensures FirstDropped(m, keys, i + 1, dropped + {keys[i]})
    ensures dropped + {keys[i]} - {keys[i]} == dropped
    ensures forall v | v in dropped + {keys[i]} :: v in m && m[v].lastAccess <= m[keys[i]].lastAccess
    ensures m - (dropped + {keys[i]}) == m - dropped - {keys[i]}
  {
    assert keys[..i + 1] == keys[..i] + [keys[i]];
    assert keys[i] !in keys[..i];
  }

  /** Stopping as soon as the bytes fit, or out of keys, is an exact LRU eviction
      unless the bytes can never fit. */
  lemma EvictionEnds(m: Store, keys: seq<Key>, i: nat, dropped: set<Key>, needed: nat)
    requires Evicting(m, keys, i, dropped, needed)
    requires i < |keys| ==> Fits(m - dropped, needed)
    ensures Fits(m - dropped, needed) <==> needed <= MAX_TOTAL_SIZE
    ensures needed <= MAX_TOTAL_SIZE ==> Evicts(m, dropped, needed)
    ensures needed > MAX_TOTAL_SIZE ==> m - dropped == map[]
  {
    VictimsAreOldest(m, keys, i, dropped);
    if i == |keys| {
      assert keys[..i] == keys;
      assert m - dropped == map[];
      assert Values(m - dropped) == map[];
    }
    if i == 0 {
      assert dropped == {};
      assert m - dropped == m;
    }
  }

  lemma VictimsAreOldest(m: Store, keys: seq<Key>, i: nat, dropped: set<Key>)
    requires FirstDropped(m, keys, i, dropped)
    ensures forall v, s | v in dropped && s in m.Keys - dropped :: m[v].lastAccess <= m[s].lastAccess
  {
    forall v, s | v in dropped && s in m.Keys - dropped
      ensures m[v].lastAccess <= m[s].lastAccess
    {
      var a :| 0 <= a < i && keys[a] == v;
      var b :| 0 <= b < |keys| && keys[b] == s;
      assert b >= i;
    }
  }

  // --- the store ---

  /** What every reachable store satisfies. */
  ghost predicate WellFormed(m: Store, clock: nat) {
    && Size(Values(m)) <= MAX_TOTAL_SIZE
    && (forall k | k in m ::
          FitsU16(k) && Utf8.Valid(k) && |m[k].value| <= MAX_VALUE_SIZE && m[k].lastAccess <= clock)
  }

  class Dict {
    var entries: Store
    var totalBytes: nat
    ghost var clock: nat

    ghost predicate Accounted()
      reads this
    {
      totalBytes == Size(Values(entries))
    }

    ghost predicate Valid()
      reads this
    {
      Accounted() && WellFormed(entries, clock)
    }

    constructor ()
      ensures Valid() && entries == map[] && clock == 0
    {
      entries := map[];
      totalBytes := 0;
      clock := 0;
    }

    /** Remove `k` if present, and its bytes from the account. */
    method Remove(k: Key)
      requires Accounted()
      modifies this`entries, this`totalBytes
      ensures Accounted() && entries == old(entries) - {k}
      ensures totalBytes == old(totalBytes) - (if k in old(entries) then |old(entries)[k].value| else 0)
    {
      if k in entries {
        var len := |entries[k].value|;
        SizeRemove(Values(entries), k);
        assert Values(entries) - {k} == Values(entries - {k});
        entries := entries - {k};
        totalBytes := SaturatingSub(totalBytes, len);
      } else {
        assert entries - {k} == entries;
      }
    }

    /** Makes room for `needed` bytes, unless there can be none. */
    method EvictUntil(needed: nat) returns (fits: bool, ghost dropped: set<Key>)
      requires Accounted()
      modifies this`entries, this`totalBytes
      ensures Accounted() && entries == old(entries) - dropped
      ensures fits <==> needed <= MAX_TOTAL_SIZE
      ensures fits ==> Evicts(old(entries), dropped, needed)
      ensures !fits ==> entries == map[]
    {
      if SaturatingAdd(totalBytes, needed) <= MAX_TOTAL_SIZE {
        assert entries - {} == entries;
        return true, {};
      }
      var snapshot := Iterate(entries);
      var keys := SortByAccess(entries, snapshot);
      SortedListing(entries, snapshot);
      assert Evicting(entries, keys, 0, {}, needed);
      fits, dropped := EvictOldest(keys, needed);
    }

    /** The eviction loop over the sorted snapshot. */
    method EvictOldest(keys: seq<Key>, needed: nat) returns (fits: bool, ghost dropped: set<Key>)
      requires Accounted() && Evicting(entries, keys, 0, {}, needed)
      modifies this`entries, this`totalBytes
      ensures Accounted() && entries == old(entries) - dropped
      ensures fits <==> needed <= MAX_TOTAL_SIZE
      ensures fits ==> Evicts(old(entries), dropped, needed)
      ensures !fits ==> entries == map[]
    {
      hide Evicting, Evicts;
      ghost var m := entries;
      assert m - {} == m;
      dropped := {};
      var i := 0;
      while i < |keys|
        invariant 0 <= i <= |keys|
        invariant Evicting(m, keys, i, dropped, needed)
        invariant Accounted() && entries == m - dropped
      {
        if SaturatingAdd(totalBytes, needed) <= MAX_TOTAL_SIZE {
          break;
        }
        NextVictim(m, keys, i, dropped, needed);
        Remove(keys[i]);
        dropped := dropped + {keys[i]};
        i := i + 1;
      }
      EvictionEnds(m, keys, i, dropped, needed);
      fits := SaturatingAdd(totalBytes, needed) <= MAX_TOTAL_SIZE;
    }

    /** Store `value` for `key`, replacing what was there. */
    method Set(key: Key, value: seq<byte>, now: nat) returns (ghost dropped: set<Key>)
      requires Valid() && clock <= now && FitsU16(key) && Utf8.Valid(key) && |value| <= MAX_VALUE_SIZE
      modifies this
      ensures Valid() && clock == now
      ensures Evicts(old(entries) - {key}, dropped, |value|)
      ensures entries == (old(entries) - {key} - dropped)[key := Entry(value, now)]
    {
      // The value being replaced makes room for its successor.
      Remove(key);
      ghost var base := entries;
      var fits;
      fits, dropped := EvictUntil(|value|);
      if !fits {
        assert false;  // the "LRU eviction failed" reply cannot happen
      }
      InsertKeepsForm(base, dropped, key, Entry(value, now), now);
      totalBytes := totalBytes + |value|;
      entries := entries[key := Entry(value, now)];
      clock := now;
    }

    /** Extend the value of `key`, which the eviction may just have dropped. */
    method Append(key: Key, value: seq<byte>, now: nat) returns (ghost dropped: set<Key>)
      requires Valid() && clock <= now && FitsU16(key) && Utf8.Valid(key)
      requires |ValueOr(Values(entries), key)| + |value| <= MAX_VALUE_SIZE
      modifies this
      ensures Valid() && clock == now
      ensures Evicts(old(entries), dropped, |value|)
      ensures entries == (old(entries) - dropped)[key :=
                Entry(ValueOr(Values(old(entries)) - dropped, key) + value, now)]
    {
      ghost var base := entries;
      var fits;
      fits, dropped := EvictUntil(|value|);
      if !fits {
        assert false;  // the "LRU eviction failed" reply cannot happen
      }
      var before := if key in entries then entries[key].value else [];
      var entry := Entry(before + value, now);
      AppendKeepsForm(base, dropped, key, before, value, now);
      entries := entries[key := entry];
      totalBytes := SaturatingAdd(totalBytes, |value|);
      clock := now;
    }

    /** Every request is one step of the plain dictionary with drops. */
    method Handle(now: nat, data: seq<byte>) returns (reply: seq<byte>, ghost dropped: set<Key>)
      requires Valid() && clock <= now
      modifies this
      ensures Valid() && clock == now
      ensures Step(old(entries), Event(now, data, reply, dropped), entries)
    {
      hide Step, Evicts, ParseReq, Text, Join, AllPayload, Pairs, Utf8.Valid;
      ghost var m := entries;
      clock := now;
      dropped := {};
      match ParseReq(data)
      case Bad(message) =>
        reply := Resp(ST_ERR, message);
        ReadIsStep(m, Event(now, data, reply, {}));
      case Good(op, key, value) =>
        KeyOfRequest(data);
        if op == OP_GET {
          if key in entries {
            entries := entries[key := entries[key].(lastAccess := now)];
            TouchKeepsForm(m, key, now);
            reply := Resp(ST_OK, entries[key].value);
            HitIsStep(m, Event(now, data, reply, {}), entries);
          } else {
            reply := Resp(ST_NOT_FOUND, []);
            ReadIsStep(m, Event(now, data, reply, {}));
          }
        } else if op == OP_SET {
          if |value| > MAX_VALUE_SIZE {
            reply := Resp(ST_ERR, Text("value exceeds 10MB limit"));
            ReadIsStep(m, Event(now, data, reply, {}));
          } else {
            dropped := Set(key, value, now);
            reply := Resp(ST_OK, []);
            SetIsStep(m, Event(now, data, reply, dropped), entries);
          }
        } else if op == OP_APPEND {
          var currentLen := if key in entries then |entries[key].value| else 0;
          if SaturatingAdd(currentLen, |value|) > MAX_VALUE_SIZE {
            reply := Resp(ST_ERR, Text("value exceeds 10MB limit after append"));
            ReadIsStep(m, Event(now, data, reply, {}));
          } else {
            dropped := Append(key, value, now);
            reply := Resp(ST_OK, []);
            AppendIsStep(m, Event(now, data, reply, dropped), entries);
          }
        } else if op == OP_DEL {
          Remove(key);
          WithoutKeepsForm(m, {key}, now);
          reply := Resp(ST_OK, []);
          DeleteIsStep(m, Event(now, data, reply, {}), entries);
        } else if op == OP_KEYS {
          var ks := Iterate(entries);
          reply := Resp(ST_OK, Join(ks));
          ReadIsStep(m, Event(now, data, reply, {}));
        } else if op == OP_ALL {
          reply := All();
          ReadIsStep(m, Event(now, data, reply, {}));
        } else {
          reply := Resp(ST_ERR, Text("unknown operation"));
          ReadIsStep(m, Event(now, data, reply, {}));
        }
    }

    /** All entries in one payload. */
    method All() returns (reply: seq<byte>)
      ensures exists order :: Listing(order, Values(entries).Keys)
                              && reply == Resp(ST_OK, AllPayload(Pairs(Values(entries), order)))
    {
      hide PushStr, U32;
      var ks := Iterate(entries);
      ghost var kvs := Pairs(Values(entries), ks);
      var p := [];
      assert kvs[0..] == kvs;
      for i := 0 to |ks|
        invariant p + AllPayload(kvs[i..]) == AllPayload(kvs)
      {
        PushPair(p, kvs, i);
        p := p + PushStr(ks[i]);
        p := p + U32(|entries[ks[i]].value|);
        p := p + entries[ks[i]].value;
      }
      reply := Resp(ST_OK, p);
    }
  }

  lemma PushPair(p: seq<byte>, kvs: seq<(Key, seq<byte>)>, i: nat)
    requires i < |kvs|
    ensures p + PushStr(kvs[i].0) + U32(|kvs[i].1|) + kvs[i].1 + AllPayload(kvs[i + 1..]) == p + AllPayload(kvs[i..])
  {
    assert kvs[i..][1..] == kvs[i + 1..];
    assert p + PushStr(kvs[i].0) + U32(|kvs[i].1|) + kvs[i].1 == p + PairBytes(kvs[i]);
  }

  // --- what each write keeps ---

  lemma ValuesWithout(m: Store, s: set<Key>)
    ensures Values(m - s) == Values(m) - s
  {
  }

  lemma WithoutKeepsForm(m: Store, s: set<Key>, now: nat)
    requires WellFormed(m, now)
    ensures WellFormed(m - s, now)
  {
    ValuesWithout(m, s);
    SizeWithout(Values(m), s);
  }

  lemma TouchKeepsForm(m: Store, key: Key, now: nat)
    requires WellFormed(m, now) && key in m
    ensures WellFormed(m[key := m[key].(lastAccess := now)], now)
    ensures Values(m[key := m[key].(lastAccess := now)]) == Values(m)
  {
    assert Values(m[key := m[key].(lastAccess := now)]) == Values(m);
  }

  /** Storing one entry that fits. */
  lemma UpdateKeepsForm(w: Store, key: Key, e: Entry, now: nat)
    requires WellFormed(w, now) && Size(Values(w)[key := e.value]) <= MAX_TOTAL_SIZE
    requires FitsU16(key) && Utf8.Valid(key) && |e.value| <= MAX_VALUE_SIZE && e.lastAccess <= now
    ensures WellFormed(w[key := e], now)
    ensures Values(w[key := e]) == Values(w)[key := e.value]
  {
    assert Values(w[key := e]) == Values(w)[key := e.value];
  }

  lemma InsertKeepsForm(base: Store, dropped: set<Key>, key: Key, e: Entry, now: nat)
    requires WellFormed(base, now) && Evicts(base, dropped, |e.value|) && key !in base
    requires FitsU16(key) && Utf8.Valid(key) && |e.value| <= MAX_VALUE_SIZE && e.lastAccess <= now
    ensures WellFormed((base - dropped)[key := e], now)
    ensures Size(Values((base - dropped)[key := e])) == Size(Values(base - dropped)) + |e.value|
  {
    var w := base - dropped;
    WithoutKeepsForm(base, dropped, now);
    SizeUpdate(Values(w), key, e.value);
    assert Values(w) - {key} == Values(w);
    UpdateKeepsForm(w, key, e, now);
  }

  lemma AppendKeepsForm(base: Store, dropped: set<Key>, key: Key, before: seq<byte>, value: seq<byte>, now: nat)
    requires WellFormed(base, now) && Evicts(base, dropped, |value|)
    requires FitsU16(key) && Utf8.Valid(key) && |ValueOr(Values(base), key)| + |value| <= MAX_VALUE_SIZE
    requires before == ValueOr(Values(base - dropped), key)
    ensures WellFormed((base - dropped)[key := Entry(before + value, now)], now)
    ensures Size(Values((base - dropped)[key := Entry(before + value, now)])) == Size(Values(base - dropped)) + |value|
    ensures before == ValueOr(Values(base) - dropped, key)
  {
    var w := base - dropped;
    WithoutKeepsForm(base, dropped, now);
    AppendSize(Values(w), key, value);
    ValuesWithout(base, dropped);
    assert |before| <= |ValueOr(Values(base), key)|;
    UpdateKeepsForm(w, key, Entry(before + value, now), now);
  }

  lemma AppendSize(v: Plain, key: Key, value: seq<byte>)
    ensures Size(v[key := ValueOr(v, key) + value]) == Size(v) + |value|
  {
    SizeUpdate(v, key, ValueOr(v, key) + value);
    if key in v {
      SizeRemove(v, key);
    } else {
      assert v - {key} == v;
    }
  }

  lemma KeyOfRequest(data: seq<byte>)
    requires ParseReq(data).Good?
    ensures FitsU16(ParseReq(data).key) && Utf8.Valid(ParseReq(data).key)
  {
  }

  // --- each branch is a step ---

  /** Requests that leave the store alone. */
  lemma ReadIsStep(m: Store, e: Event)
    requires PlainReply(Values(m), e.request, e.reply) && e.dropped == {}
    requires !Writes(Values(m), e.request) && Touched(Values(m), e.request) == {}
    requires ParseReq(e.request).Good? ==> ParseReq(e.request).op != OP_DEL
    ensures Step(m, e, m)
  {
  }

  lemma HitIsStep(m: Store, e: Event, m': Store)
    requires ParseReq(e.request).Good? && ParseReq(e.request).op == OP_GET && e.dropped == {}
    requires ParseReq(e.request).key in m
    requires m' == m[ParseReq(e.request).key := m[ParseReq(e.request).key].(lastAccess := e.now)]
    requires e.reply == Resp(ST_OK, m[ParseReq(e.request).key].value)
    ensures Step(m, e, m')
  {
    assert Values(m') == Values(m);
  }

  lemma DeleteIsStep(m: Store, e: Event, m': Store)
    requires ParseReq(e.request).Good? && ParseReq(e.request).op == OP_DEL && e.dropped == {}
    requires m' == m - {ParseReq(e.request).key} && e.reply == Resp(ST_OK, [])
    ensures Step(m, e, m')
  {
    ValuesWithout(m, {ParseReq(e.request).key});
  }

  lemma SetIsStep(m: Store, e: Event, m': Store)
    requires ParseReq(e.request).Good? && ParseReq(e.request).op == OP_SET
    requires |ParseReq(e.request).value| <= MAX_VALUE_SIZE && e.reply == Resp(ST_OK, [])
    requires Evicts(m - {ParseReq(e.request).key}, e.dropped, |ParseReq(e.request).value|)
    requires var Good(_, key, value) := ParseReq(e.request);
             m' == (m - {key} - e.dropped)[key := Entry(value, e.now)]
    ensures Step(m, e, m')
  {
    var Good(_, key, value) := ParseReq(e.request);
    assert Values(m') == (Values(m) - e.dropped)[key := value];
  }

  lemma AppendIsStep(m: Store, e: Event, m': Store)
    requires ParseReq(e.request).Good? && ParseReq(e.request).op == OP_APPEND
    requires |ValueOr(Values(m), ParseReq(e.request).key)| + |ParseReq(e.request).value| <= MAX_VALUE_SIZE
    requires e.reply == Resp(ST_OK, [])
    requires Evicts(m, e.dropped, |ParseReq(e.request).value|)
    requires m' == (m - e.dropped)[ParseReq(e.request).key :=
               Entry(ValueOr(Values(m) - e.dropped, ParseReq(e.request).key) + ParseReq(e.request).value, e.now)]
    ensures Step(m, e, m')
  {
    var Good(_, key, value) := ParseReq(e.request);
    assert Values(m') == (Values(m) - e.dropped)[key := ValueOr(Values(m) - e.dropped, key) + value];
  }
}
