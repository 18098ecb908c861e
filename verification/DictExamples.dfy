/** A run in which an APPEND loses the value it was to extend. */
module DictExamples {
  import opened Common
  import opened Core
  import opened DictSpec
  import opened DictStore
  import opened DictRuns
  import Utf8

  const KEY: Key := [0x6B]
  const COUNT: nat := 102

  function Big(): (b: seq<byte>)
    ensures |b| == MAX_VALUE_SIZE
  {
    seq(MAX_VALUE_SIZE, i => 0)
  }

  function More(): (b: seq<byte>)
    ensures |b| == MAX_VALUE_SIZE - 1
  {
    seq(MAX_VALUE_SIZE - 1, i => 1)
  }

  /** One small value, then `n` values of 10 MiB under other keys. */
  function Filled(n: nat): Store
    requires n <= COUNT
  {
    if n == 0 then map[KEY := Entry([7], 0)] else Filled(n - 1)[[(n - 1) as byte] := Entry(Big(), n)]
  }

  /** The small value, and big values under the keys below `n`. */
  predicate HoldsUpTo(m: Store, n: nat) {
    && KEY in m && m[KEY] == Entry([7], 0)
    && (forall k | k in m && k != KEY :: |k| == 1 && k[0] as nat < n && m[k] == Entry(Big(), k[0] as nat + 1))
    && (n > 0 ==> [0] in m)
  }

  lemma OneMore(m: Store, n: nat)
    requires n < COUNT && HoldsUpTo(m, n)
    ensures [n as byte] !in m && HoldsUpTo(m[[n as byte] := Entry(Big(), n + 1)], n + 1)
  {
    hide Big;
  }

  lemma NoneYet()
    ensures HoldsUpTo(map[KEY := Entry([7], 0)], 0)
  {
  }

  lemma {:induction false} FilledHolds(n: nat)
    requires n <= COUNT
    ensures Size(Values(Filled(n))) == 1 + n * MAX_VALUE_SIZE && HoldsUpTo(Filled(n), n)
  {
    hide Size, Big, Values, HoldsUpTo;
    if n == 0 {
      var none: Store := map[];
      NoneYet();
      NewSize(none, KEY, Entry([7], 0));
      assert none[KEY := Entry([7], 0)] == Filled(0);
      NoValues();
      EmptyListing(Values(none));
    } else {
      FilledHolds(n - 1);
      OneMore(Filled(n - 1), n - 1);
      NewSize(Filled(n - 1), [(n - 1) as byte], Entry(Big(), n));
    }
  }

  lemma NoValues()
    ensures Values(map[]) == map[]
  {
  }

  lemma NewSize(m: Store, k: Key, e: Entry)
    requires k !in m
    ensures Size(Values(m[k := e])) == Size(Values(m)) + |e.value|
  {
    hide Size;
    SizeUpdate(Values(m), k, e.value);
    assert Values(m) - {k} == Values(m) && Values(m[k := e]) == Values(m)[k := e.value];
  }

  lemma ExtendRun(states: seq<Store>, events: seq<Event>, e: Event, m: Store)
    requires IsRun(states, events) && Step(states[|events|], e, m) && ClockAfter(events) <= e.now
    ensures IsRun(states + [m], events + [e]) && ClockAfter(events + [e]) == e.now
  {
    hide Step;
  }

  /** A SET of a new key that fits is a step without victims. */
  lemma SetStep(m: Store, now: nat, key: Key, value: seq<byte>)
    requires key !in m && FitsU16(key) && Utf8.Valid(key) && |value| <= MAX_VALUE_SIZE && Fits(m, |value|)
    ensures Step(m, Event(now, Req(OP_SET, key, value), Resp(ST_OK, []), {}), m[key := Entry(value, now)])
  {
    hide Fits, Utf8.Valid, Req, Resp, Step;
    ReqRoundTrip(OP_SET, key, value);
    assert m - {key} == m && m - {} == m;
    SetIsStep(m, Event(now, Req(OP_SET, key, value), Resp(ST_OK, []), {}), m[key := Entry(value, now)]);
  }

  lemma OneByteKey(b: byte)
    requires b < 0x80
    ensures FitsU16([b]) && Utf8.Valid([b])
  {
    assert Utf8.CharLen([b]) == 1 && [b][1..] == [];
  }

  lemma StartRun()
    ensures IsRun([map[]], []) && ClockAfter([]) == 0
  {
  }

  lemma {:induction false} FillRun(n: nat) returns (states: seq<Store>, events: seq<Event>)
    requires n <= COUNT
    ensures IsRun(states, events) && states[|events|] == Filled(n) && ClockAfter(events) == n
  {
    hide Step, Size, Big, IsRun, ClockAfter, HoldsUpTo, Values, Req;
    var none: Store := map[];
    if n == 0 {
      StartRun();
      NoValues();
      EmptyListing(Values(none));
      OneByteKey(KEY[0]);
      SetStep(none, 0, KEY, [7]);
      assert Filled(0) == none[KEY := Entry([7], 0)];
      ExtendRun([none], [], Event(0, Req(OP_SET, KEY, [7]), Resp(ST_OK, []), {}), Filled(0));
      states, events := [none] + [Filled(0)], [] + [Event(0, Req(OP_SET, KEY, [7]), Resp(ST_OK, []), {})];
    } else {
      states, events := FillRun(n - 1);
      RunLength(states, events);
      FilledHolds(n - 1);
      OneMore(Filled(n - 1), n - 1);
      var key := [(n - 1) as byte];
      OneByteKey((n - 1) as byte);
      SetStep(Filled(n - 1), n, key, Big());
      var e := Event(n, Req(OP_SET, key, Big()), Resp(ST_OK, []), {});
      ExtendRun(states, events, e, Filled(n));
      states, events := states + [Filled(n)], events + [e];
    }
  }

  /** The bytes fit once the two oldest entries are gone, and not before. */
  lemma BothMustGo(m: Store, a: Key, b: Key, needed: nat)
    requires a in m && b in m && a != b && m[a].lastAccess <= m[b].lastAccess
    requires forall k | k in m && k != a :: m[b].lastAccess <= m[k].lastAccess
    requires Size(Values(m)) - |m[a].value| + needed > MAX_TOTAL_SIZE
    requires Size(Values(m)) - |m[a].value| - |m[b].value| + needed <= MAX_TOTAL_SIZE
    ensures Evicts(m, {a, b}, needed)
  {
    hide Size;
    var v := Values(m);
    SizeRemove(v, a);
    SizeRemove(v - {a}, b);
    assert v - {a} == Values(m - {a}) && v - {a} - {b} == Values(m - {a, b});
    assert {a, b} - {b} == {a};
    assert IsLastVictim(m, {a, b}, needed, b);
  }

  /** An APPEND whose eviction takes the key itself. */
  lemma LosingStep(m: Store, now: nat, key: Key, value: seq<byte>, dropped: set<Key>)
    requires key in m && key in dropped && FitsU16(key) && Utf8.Valid(key)
    requires |m[key].value| + |value| <= MAX_VALUE_SIZE && Evicts(m, dropped, |value|)
    ensures Step(m, Event(now, Req(OP_APPEND, key, value), Resp(ST_OK, []), dropped),
        (m - dropped)[key := Entry(value, now)])
  {
    hide Step, Evicts, Utf8.Valid, Req, Resp;
    ReqRoundTrip(OP_APPEND, key, value);
    assert [] + value == value;
    AppendIsStep(m, Event(now, Req(OP_APPEND, key, value), Resp(ST_OK, []), dropped),
        (m - dropped)[key := Entry(value, now)]);
  }

  /** An APPEND to the key that was used least recently: the eviction that makes room
      for the new bytes takes the old value, and only the new bytes are left. */
  lemma AppendLosesItsValue() returns (states: seq<Store>, events: seq<Event>)
    ensures IsRun(states, events) && events != []
    ensures var n := |events| - 1;
            && events[n].request == Req(OP_APPEND, KEY, More()) && IsOk(events[n].reply)
            && KEY in states[n] && states[n][KEY].value == [7]
            && KEY in states[n + 1] && states[n + 1][KEY].value == More()
  {
    hide Step, Evicts, Size, Values, Req, Big, More, Filled, IsRun, ClockAfter;
    states, events := FillRun(COUNT);
    RunLength(states, events);
    FilledHolds(COUNT);
    var m := Filled(COUNT);
    BothMustGo(m, KEY, [0], |More()|);
    OneByteKey(KEY[0]);
    LosingStep(m, COUNT, KEY, More(), {KEY, [0]});
    var e := Event(COUNT, Req(OP_APPEND, KEY, More()), Resp(ST_OK, []), {KEY, [0]});
    var m' := (m - {KEY, [0]})[KEY := Entry(More(), COUNT)];
    ExtendRun(states, events, e, m');
    states, events := states + [m'], events + [e];
  }

  lemma RunLength(states: seq<Store>, events: seq<Event>)
    requires IsRun(states, events)
    ensures |states| == |events| + 1
  {
  }

  /** A store that seven SETs of 10 MiB reach: the reply to ALL exceeds a frame, so no
      client can list it. */
  lemma TooLargeToList() returns (states: seq<Store>, events: seq<Event>)
    ensures IsRun(states, events) && 1 + AllSize(Values(states[|events|])) > MAX_FRAME
  {
    hide IsRun, Filled, Size;
    states, events := FillRun(7);
    RunLength(states, events);
    FilledHolds(7);
  }
}
