/** What holds over every run of the dictionary. */
module DictRuns {
  import opened Common
  import opened Core
  import opened DictSpec
  import opened DictStore
  import Utf8

  /** The stores a run passes through: one more than its events. */
  ghost predicate IsRun(states: seq<Store>, events: seq<Event>) {
    && |states| == |events| + 1
    && states[0] == map[]
    && (forall i | 0 <= i < |events| :: Step(states[i], events[i], states[i + 1]))
    && (forall i, j | 0 <= i < j < |events| :: events[i].now <= events[j].now)
  }

  lemma RunPrefix(states: seq<Store>, events: seq<Event>, n: nat)
    requires IsRun(states, events) && n <= |events|
    ensures IsRun(states[..n + 1], events[..n])
  {
  }

  /** The run answers these requests, made at these times, with these replies. */
  ghost predicate Answers(events: seq<Event>, requests: seq<seq<byte>>, times: seq<nat>, replies: seq<seq<byte>>)
    requires |times| == |requests|
  {
    && |events| == |replies| == |requests|
    && forall i | 0 <= i < |requests| ::
         events[i].request == requests[i] && events[i].now == times[i] && events[i].reply == replies[i]
  }

  /** Serving requests one after another produces the replies of such a run. */
  method Serve(requests: seq<seq<byte>>, times: seq<nat>) returns (replies: seq<seq<byte>>)
    requires |times| == |requests| && (forall i, j | 0 <= i < j < |times| :: times[i] <= times[j])
    ensures exists states, events :: IsRun(states, events) && Answers(events, requests, times, replies)
  {
    hide Step;
    var dict := new Dict();
    replies := [];
    ghost var states, events := [dict.entries], [];
    for i := 0 to |requests|
      invariant dict.Valid() && (i > 0 ==> dict.clock == times[i - 1]) && (i == 0 ==> dict.clock == 0)
      invariant fresh(dict) && IsRun(states, events) && |events| == |replies| == i && states[i] == dict.entries
      invariant forall j | 0 <= j < i ::
                  events[j].request == requests[j] && events[j].now == times[j] && events[j].reply == replies[j]
    {
      var reply;
      ghost var dropped;
      reply, dropped := dict.Handle(times[i], requests[i]);
      replies := replies + [reply];
      states := states + [dict.entries];
      events := events + [Event(times[i], requests[i], reply, dropped)];
    }
    assert Answers(events, requests, times, replies);
  }

  // --- accounting ---

  lemma PlainNextSize(m: Store, e: Event, m': Store)
    requires Step(m, e, m') && Size(Values(m)) <= MAX_TOTAL_SIZE
    ensures Size(Values(m')) <= MAX_TOTAL_SIZE
  {
    var v := Values(m);
    if Writes(v, e.request) {
      WriteSize(m, e.request, e.dropped);
    } else if ParseReq(e.request).Good? {
      SizeWithout(v, {ParseReq(e.request).key});
    }
  }

  lemma WriteSize(m: Store, request: seq<byte>, dropped: set<Key>)
    requires Writes(Values(m), request)
    requires Fits(Candidates(m, request) - dropped, |ParseReq(request).value|)
    ensures Size(PlainNext(Values(m), request, dropped)) <= MAX_TOTAL_SIZE
  {
    var Good(op, key, value) := ParseReq(request);
    var kept := Values(m) - dropped;
    ValuesWithout(Candidates(m, request), dropped);
    if op == OP_SET {
      ValuesWithout(m, {key});
      SizeUpdate(kept, key, value);
      assert kept - {key} == Values(m) - {key} - dropped;
    } else {
      AppendSize(kept, key, value);
    }
  }

  /** Every step keeps the accounting invariant. */
  lemma StepKeepsForm(m: Store, e: Event, m': Store, clock: nat)
    requires Step(m, e, m') && WellFormed(m, clock) && clock <= e.now
    ensures WellFormed(m', e.now)
  {
    PlainNextSize(m, e, m');
    var v, v' := Values(m), Values(m');
    if ParseReq(e.request).Good? {
      KeyOfRequest(e.request);
    }
    forall k | k in m'
      ensures FitsU16(k) && Utf8.Valid(k) && |v'[k]| <= MAX_VALUE_SIZE && m'[k].lastAccess <= e.now
    {
      assert v'[k] == PlainNext(v, e.request, e.dropped)[k];
      if k in m { assert |v[k]| <= MAX_VALUE_SIZE; }
    }
  }

  function ClockAfter(events: seq<Event>): nat {
    if events == [] then 0 else events[|events| - 1].now
  }

  /** In every reachable store the totals and the per-value limits hold. */
  lemma {:induction false} ReachableWellFormed(states: seq<Store>, events: seq<Event>)
    requires IsRun(states, events)
    ensures WellFormed(states[|events|], ClockAfter(events))
  {
    if events == [] {
      assert Values(states[0]) == map[];
    } else {
      var n := |events| - 1;
      RunPrefix(states, events, n);
      ReachableWellFormed(states[..n + 1], events[..n]);
      StepKeepsForm(states[n], events[n], states[n + 1], ClockAfter(events[..n]));
    }
  }

  /** No saturating operation ever saturates: in every reachable store, adding the
      bytes of any request that fits a frame is exact, and so is taking the bytes of
      an entry off the total. */
  lemma NothingSaturates(states: seq<Store>, events: seq<Event>, needed: nat)
    requires IsRun(states, events) && needed <= MAX_FRAME
    ensures var m := states[|events|];
            && SaturatingAdd(Size(Values(m)), needed) == Size(Values(m)) + needed
            && (forall k | k in m ::
                  && SaturatingAdd(|m[k].value|, needed) == |m[k].value| + needed
                  && SaturatingSub(Size(Values(m)), |m[k].value|) == Size(Values(m - {k})))
  {
    ReachableWellFormed(states, events);
    var m := states[|events|];
    forall k | k in m
      ensures SaturatingSub(Size(Values(m)), |m[k].value|) == Size(Values(m - {k}))
    {
      SizeRemove(Values(m), k);
      ValuesWithout(m, {k});
    }
  }

  /** Replies other than the two listings always fit one frame; the size of a listing
      follows from the store. */
  lemma ReplyFitsFrame(states: seq<Store>, events: seq<Event>, i: nat)
    requires IsRun(states, events) && i < |events|
    ensures var p, size, v := ParseReq(events[i].request), |events[i].reply|, Values(states[i]);
            if p.Good? && p.op == OP_ALL then size == 1 + AllSize(v)
            else if p.Good? && p.op == OP_KEYS then size == 1 + KeysSize(v)
            else size <= 1 + MAX_VALUE_SIZE <= MAX_FRAME
  {
    hide IsRun, Step;
    RunStep(states, events, i);
    RunPrefix(states, events, i);
    ReachableWellFormed(states[..i + 1], events[..i]);
    ReplySize(states[i], events[i], states[i + 1]);
  }

  lemma RunStep(states: seq<Store>, events: seq<Event>, i: nat)
    requires IsRun(states, events) && i < |events|
    ensures |states| == |events| + 1 && Step(states[i], events[i], states[i + 1])
  {
  }

  lemma ReplySize(m: Store, e: Event, m': Store)
    requires Step(m, e, m') && forall k | k in m :: |m[k].value| <= MAX_VALUE_SIZE
    ensures var p, size, v := ParseReq(e.request), |e.reply|, Values(m);
            if p.Good? && p.op == OP_ALL then size == 1 + AllSize(v)
            else if p.Good? && p.op == OP_KEYS then size == 1 + KeysSize(v)
            else size <= 1 + MAX_VALUE_SIZE
  {
    hide AllSize, KeysSize, Join, AllPayload, Pairs, Evicts;
    var p, v := ParseReq(e.request), Values(m);
    if p.Good? && p.op == OP_ALL {
      var ks :| Listing(ks, v.Keys) && e.reply == Resp(ST_OK, AllPayload(Pairs(v, ks)));
      AllSizeOf(v, ks);
    } else if p.Good? && p.op == OP_KEYS {
      var ks :| Listing(ks, v.Keys) && e.reply == Resp(ST_OK, Join(ks));
      KeysSizeOf(v, ks);
    }
  }

  // --- which requests succeed ---

  /** The bytes are no request: cut short, or with a key that is no text. */
  predicate Malformed(data: seq<byte>) {
    || |data| < 3
    || |data| < 3 + ReadU16(data[1..])
    || !Utf8.Valid(data[3..3 + ReadU16(data[1..])])
  }

  /** Malformed bytes are answered by an error and change nothing. Any other request
      carries a key and a value. It succeeds exactly if it is a GET of a stored key, a
      write within the limit of one value, a DEL or a listing. Only a GET of a key that
      is not stored is answered by not-found; everything else by an error. */
  lemma SucceedsExactly(m: Store, e: Event, m': Store)
    requires Step(m, e, m')
    ensures e.reply != []
    ensures Malformed(e.request) ==> e.reply[0] == ST_ERR && e.dropped == {} && m' == m
    ensures !Malformed(e.request) ==>
              var n := ReadU16(e.request[1..]);
              var op, key, value := e.request[0], e.request[3..3 + n], e.request[3 + n..];
              var before := if key in m then |m[key].value| else 0;
              && (e.reply[0] == ST_OK <==>
                    || (op == OP_GET && key in m)
                    || (op == OP_SET && |value| <= MAX_VALUE_SIZE)
                    || (op == OP_APPEND && before + |value| <= MAX_VALUE_SIZE)
                    || op == OP_DEL || op == OP_KEYS || op == OP_ALL)
              && (e.reply[0] == ST_NOT_FOUND <==> op == OP_GET && key !in m)
              && (e.reply[0] != ST_OK ==> m' == m && e.dropped == {})
  {
    hide Utf8.Valid, Evicts, AllPayload, Join, Pairs;
    if e.reply[0] != ST_OK {
      assert Values(m') == Values(m);
      forall k | k in m ensures m'[k] == m[k] {
        assert Values(m')[k] == Values(m)[k];
      }
    }
  }

  // --- when an APPEND extends its value ---

  /** An accepted APPEND extends the value if the new bytes fit beside everything used
      no earlier than the key, or if there was no value to lose; and only if they fit
      beside everything used later, or there was none. Without a tie in access times
      this is one exact condition; otherwise the value restarts with the new bytes. */
  lemma AppendExtends(m: Store, e: Event, m': Store, key: Key, value: seq<byte>)
    requires Step(m, e, m') && ParseReq(e.request) == Good(OP_APPEND, key, value)
    requires key in m && |m[key].value| + |value| <= MAX_VALUE_SIZE
    ensures key in m' && (m'[key].value == m[key].value + value || m'[key].value == value)
    ensures Fits(NotOlder(m, key), |value|) || m[key].value == [] ==> m'[key].value == m[key].value + value
    ensures m'[key].value == m[key].value + value ==> Fits(Newer(m, key), |value|) || m[key].value == []
    ensures NoTie(m, key) ==>
              (m'[key].value == m[key].value + value <==> Fits(NotOlder(m, key), |value|) || m[key].value == [])
  {
    hide Fits;
    var v := Values(m);
    assert v[key] == m[key].value && Writes(v, e.request);
    KeySpared(m, e.dropped, |value|, key);
    assert m'[key].value == Values(m')[key];
    assert m'[key].value == if key in e.dropped then [] + value else m[key].value + value;
    assert [] + value == value;
  }

  // --- the history of one key ---

  /** The event is a successful `op` on `k`. */
  predicate Did(e: Event, op: byte, k: Key) {
    var p := ParseReq(e.request);
    p.Good? && p.op == op && p.key == k && IsOk(e.reply)
  }

  function Argument(e: Event): seq<byte> {
    var p := ParseReq(e.request);
    if p.Good? then p.value else []
  }

  /** The effect of one event on the value of `k`, told from its request, its
      status and the keys it dropped. */
  function Effect(before: Option<seq<byte>>, e: Event, k: Key): Option<seq<byte>> {
    var kept := if k in e.dropped then None else before;
    if Did(e, OP_SET, k) then Some(Argument(e))
    else if Did(e, OP_APPEND, k) then Some((if kept.Some? then kept.value else []) + Argument(e))
    else if Did(e, OP_DEL, k) then None
    else kept
  }

  function History(start: Option<seq<byte>>, events: seq<Event>, k: Key): Option<seq<byte>> {
    if events == [] then start
    else Effect(History(start, events[..|events| - 1], k), events[|events| - 1], k)
  }

  /** The time of the most recent successful GET, SET or APPEND of `k`. */
  function LastTouch(events: seq<Event>, k: Key): nat {
    if events == [] then 0
    else
      var e := events[|events| - 1];
      if Did(e, OP_GET, k) || Did(e, OP_SET, k) || Did(e, OP_APPEND, k) then e.now
      else LastTouch(events[..|events| - 1], k)
  }

  ghost predicate Agrees(m: Store, events: seq<Event>, k: Key) {
    && (k in m <==> History(None, events, k).Some?)
    && (k in m ==> m[k].value == History(None, events, k).value && m[k].lastAccess == LastTouch(events, k))
  }

  lemma StepAgrees(m: Store, events: seq<Event>, m': Store, k: Key)
    requires events != []
    requires Step(m, events[|events| - 1], m') && Agrees(m, events[..|events| - 1], k)
    ensures Agrees(m', events, k)
  {
    var e := events[|events| - 1];
    var v := Values(m);
    assert k in m' ==> m'[k].value == Values(m')[k];
    assert k in m ==> m[k].value == v[k];
    match ParseReq(e.request)
    case Bad(_) => assert !IsOk(e.reply);
    case Good(op, key, value) =>
      assert Writes(v, e.request) ==> IsOk(e.reply);
      if op == OP_SET && key == k { assert k !in e.dropped || !Writes(v, e.request); }
  }

  /** Over every run the store is exactly what the history of each key says. */
  lemma {:induction false} RunAgreesWithHistory(states: seq<Store>, events: seq<Event>, k: Key)
    requires IsRun(states, events)
    ensures Agrees(states[|events|], events, k)
  {
    if events != [] {
      var n := |events| - 1;
      RunPrefix(states, events, n);
      RunAgreesWithHistory(states[..n + 1], events[..n], k);
      StepAgrees(states[n], events, states[n + 1], k);
    }
  }

  /** Every GET answers with what the key's history says, and with nothing else. */
  lemma GetReturnsHistory(states: seq<Store>, events: seq<Event>, i: nat, k: Key)
    requires IsRun(states, events) && i < |events|
    requires ParseReq(events[i].request).Good?
    requires ParseReq(events[i].request).op == OP_GET && ParseReq(events[i].request).key == k
    ensures events[i].reply == match History(None, events[..i], k)
                               case None => Resp(ST_NOT_FOUND, [])
                               case Some(v) => Resp(ST_OK, v)
  {
    RunPrefix(states, events, i);
    RunAgreesWithHistory(states[..i + 1], events[..i], k);
    assert Step(states[i], events[i], states[i + 1]);
    assert k in states[i] ==> states[i][k].value == Values(states[i])[k];
  }

  /** Over every run, whatever a write drops was used no later than anything it
      leaves in place; KEYS and ALL never count as uses. */
  lemma VictimsAreLeastRecentlyUsed(states: seq<Store>, events: seq<Event>, i: nat, victim: Key, survivor: Key)
    requires IsRun(states, events) && i < |events|
    requires victim in events[i].dropped
    requires survivor in Candidates(states[i], events[i].request) && survivor !in events[i].dropped
    ensures History(None, events[..i], victim).Some? && History(None, events[..i], survivor).Some?
    ensures LastTouch(events[..i], victim) <= LastTouch(events[..i], survivor)
  {
    RunPrefix(states, events, i);
    RunAgreesWithHistory(states[..i + 1], events[..i], victim);
    RunAgreesWithHistory(states[..i + 1], events[..i], survivor);
    assert Step(states[i], events[i], states[i + 1]);
  }

  /** No event sets, deletes or drops `k`. */
  predicate OnlyAppended(events: seq<Event>, k: Key) {
    forall e | e in events :: k !in e.dropped && !Did(e, OP_SET, k) && !Did(e, OP_DEL, k)
  }

  function Appended(events: seq<Event>, k: Key): seq<seq<byte>> {
    if events == [] then []
    else
      var e := events[|events| - 1];
      Appended(events[..|events| - 1], k) + (if Did(e, OP_APPEND, k) then [Argument(e)] else [])
  }

  lemma {:induction false} HistorySplit(start: Option<seq<byte>>, a: seq<Event>, b: seq<Event>, k: Key)
    ensures History(start, a + b, k) == History(History(start, a, k), b, k)
  {
    if b == [] {
      assert a + b == a;
    } else {
      assert (a + b)[..|a + b| - 1] == a + b[..|b| - 1];
      HistorySplit(start, a, b[..|b| - 1], k);
    }
  }

  lemma {:induction false} AppendsAccumulate(start: Option<seq<byte>>, events: seq<Event>, k: Key)
    requires OnlyAppended(events, k)
    ensures History(start, events, k)
         == if start.None? && Appended(events, k) == [] then None
            else Some((if start.Some? then start.value else []) + Flatten(Appended(events, k)))
  {
    if events == [] {
      assert start.Some? ==> start.value + Flatten([]) == start.value;
    } else {
      var front, e := events[..|events| - 1], events[|events| - 1];
      assert e in events && OnlyAppended(front, k);
      AppendsAccumulate(start, front, k);
      var base := if start.Some? then start.value else [];
      if Did(e, OP_APPEND, k) {
        FlattenSnoc(Appended(front, k), Argument(e));
        assert base + Flatten(Appended(front, k)) + Argument(e) == base + (Flatten(Appended(front, k)) + Argument(e));
      } else {
        assert Appended(events, k) == Appended(front, k);
      }
    }
  }

  /** The value is the last SET followed by all APPENDs since. */
  lemma LastSetThenAppends(before: seq<Event>, write: Event, since: seq<Event>, k: Key)
    requires Did(write, OP_SET, k) && OnlyAppended(since, k)
    ensures History(None, before + [write] + since, k) == Some(Argument(write) + Flatten(Appended(since, k)))
  {
    HistorySplit(None, before + [write], since, k);
    HistorySplit(None, before, [write], k);
    assert [write][..0] == [];
    assert History(History(None, before, k), [write], k) == Effect(History(None, before, k), write, k);
    AppendsAccumulate(Some(Argument(write)), since, k);
  }

  /** From absence the value is all APPENDs since, or still absent without any. */
  lemma AbsentThenAppends(before: seq<Event>, since: seq<Event>, k: Key)
    requires History(None, before, k) == None && OnlyAppended(since, k)
    ensures History(None, before + since, k)
         == if Appended(since, k) == [] then None else Some(Flatten(Appended(since, k)))
  {
    HistorySplit(None, before, since, k);
    AppendsAccumulate(None, since, k);
    assert [] + Flatten(Appended(since, k)) == Flatten(Appended(since, k));
  }

  // --- agreement with the unbounded dictionary ---

  function Requests(events: seq<Event>): (r: seq<seq<byte>>)
    ensures |r| == |events| && forall i | 0 <= i < |r| :: r[i] == events[i].request
  {
    seq(|events|, i requires 0 <= i < |events| => events[i].request)
  }

  /** A dictionary without the total limit: nothing is ever dropped. */
  function Unbounded(requests: seq<seq<byte>>): Plain {
    if requests == [] then map[]
    else PlainNext(Unbounded(requests[..|requests| - 1]), requests[|requests| - 1], {})
  }

  /** Keys are dropped by a step exactly when the plain result would not fit. */
  lemma DropsWhenTooBig(m: Store, e: Event, m': Store)
    requires Step(m, e, m') && Size(Values(m)) <= MAX_TOTAL_SIZE
    ensures e.dropped == {} <==> Size(PlainNext(Values(m), e.request, {})) <= MAX_TOTAL_SIZE
  {
    var v := Values(m);
    if !Writes(v, e.request) {
      if ParseReq(e.request).Good? { SizeWithout(v, {ParseReq(e.request).key}); }
    } else {
      var Good(op, key, value) := ParseReq(e.request);
      EvictsNothing(Candidates(m, e.request), e.dropped, |value|);
      assert v - {} == v;
      if op == OP_SET {
        ValuesWithout(m, {key});
        SizeUpdate(v, key, value);
      } else {
        AppendSize(v, key, value);
      }
    }
  }

  /** The unbounded totals never pass the limit, at any point of the run. */
  ghost predicate NeverTooBig(requests: seq<seq<byte>>) {
    && Size(Unbounded(requests)) <= MAX_TOTAL_SIZE
    && (requests != [] ==> NeverTooBig(requests[..|requests| - 1]))
  }

  lemma {:induction false} NeverTooBigAnywhere(requests: seq<seq<byte>>, i: nat)
    requires NeverTooBig(requests) && i <= |requests|
    ensures NeverTooBig(requests[..i])
  {
    if i < |requests| {
      NeverTooBigAnywhere(requests[..|requests| - 1], i);
      assert requests[..|requests| - 1][..i] == requests[..i];
    } else {
      assert requests[..i] == requests;
    }
  }

  lemma {:induction false} UnboundedAgrees(states: seq<Store>, events: seq<Event>)
    requires IsRun(states, events)
    ensures (forall e | e in events :: e.dropped == {}) <==> NeverTooBig(Requests(events))
    ensures NeverTooBig(Requests(events)) ==> Values(states[|events|]) == Unbounded(Requests(events))
  {
    hide PlainNext, Step;
    var rs := Requests(events);
    if events == [] {
      EmptyRun(states, events);
    } else {
      var n := |events| - 1;
      LastStep(states, events);
      UnboundedAgrees(states[..n + 1], events[..n]);
      assert Requests(events[..n]) == rs[..n];
      assert events == events[..n] + [events[n]];
    }
  }

  lemma EmptyRun(states: seq<Store>, events: seq<Event>)
    requires IsRun(states, events) && events == []
    ensures NeverTooBig(Requests(events)) && Values(states[0]) == Unbounded(Requests(events))
  {
    assert Values(states[0]) == map[];
  }

  /** The last step of a run, seen from the unbounded dictionary. */
  lemma LastStep(states: seq<Store>, events: seq<Event>)
    requires IsRun(states, events) && events != []
    ensures var n := |events| - 1;
            && IsRun(states[..n + 1], events[..n])
            && (events[n].dropped == {} <==>
                Size(PlainNext(Values(states[n]), events[n].request, {})) <= MAX_TOTAL_SIZE)
            && Values(states[n + 1]) == PlainNext(Values(states[n]), events[n].request, events[n].dropped)
  {
    var n := |events| - 1;
    RunPrefix(states, events, n);
    ReachableWellFormed(states[..n + 1], events[..n]);
    DropsWhenTooBig(states[n], events[n], states[n + 1]);
  }

  /** A run whose totals never pass 1 GiB matches the unbounded dictionary reply
      for reply; any other run drops keys. */
  lemma BoundedMatchesUnbounded(states: seq<Store>, events: seq<Event>)
    requires IsRun(states, events)
    ensures (forall e | e in events :: e.dropped == {}) <==> NeverTooBig(Requests(events))
    ensures NeverTooBig(Requests(events)) ==>
              forall i | 0 <= i < |events| ::
                PlainReply(Unbounded(Requests(events)[..i]), events[i].request, events[i].reply)
  {
    UnboundedAgrees(states, events);
    var rs := Requests(events);
    if NeverTooBig(rs) {
      forall i | 0 <= i < |events|
        ensures PlainReply(Unbounded(rs[..i]), events[i].request, events[i].reply)
      {
        RunPrefix(states, events, i);
        NeverTooBigAnywhere(rs, i);
        assert Requests(events[..i]) == rs[..i];
        UnboundedAgrees(states[..i + 1], events[..i]);
        assert Step(states[i], events[i], states[i + 1]);
      }
    }
  }
}
