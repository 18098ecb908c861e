/** Two concrete runs that show why the provisos of the general results are needed. */
module SystemExamples {
  import opened Common
  import opened Core
  import opened Registry
  import opened System
  import opened SystemRuns
  import Fetch
  import Fs

  const MAX: nat := 32

  /** A piece of a run, from `start`. */
  datatype Path = Path(start: Sys, states: seq<Sys>, labels: seq<Label>)

  ghost predicate IsPath(p: Path) {
    && |p.states| == |p.labels| + 1 && p.states[0] == p.start
    && (forall i | 0 <= i < |p.labels| :: Next(p.states[i], p.labels[i], p.states[i + 1], MAX))
  }

  function Now(p: Path): Sys {
    if p.states == [] then p.start else p.states[|p.states| - 1]
  }

  lemma Begin(s: Sys) returns (p: Path)
    ensures IsPath(p) && p.start == s && Now(p) == s
  {
    p := Path(s, [s], []);
  }

  lemma Extend(p: Path, l: Label) returns (p': Path)
    requires IsPath(p) && Enabled(Now(p), l, MAX)
    ensures IsPath(p') && p'.start == p.start && Now(p') == Apply(Now(p), l, MAX)
  {
    p' := Path(p.start, p.states + [Apply(Now(p), l, MAX)], p.labels + [l]);
  }

  /** The last step of a whole run. */
  lemma Finish(p: Path, l: Label) returns (states: seq<Sys>, labels: seq<Label>)
    requires IsPath(p) && Initial(p.start) && Enabled(Now(p), l, MAX)
    ensures IsRun(states, labels, MAX) && labels != [] && labels[|labels| - 1] == l
    ensures states[|labels| - 1] == Now(p) && states[|labels|] == Apply(Now(p), l, MAX)
  {
    states, labels := p.states + [Apply(Now(p), l, MAX)], p.labels + [l];
  }

  /** The acceptor registers a pair; nobody else moves. */
  lemma Registration(p: Path, t: Tid, id: Identity, c: ConnId, m: Tid) returns (p': Path)
    requires IsPath(p)
    requires var s := Now(p);
             && t in s.threads && s.threads[t].role == Acceptor && s.threads[t].pc == Idle
             && s.registry == None && c !in s.conns && m !in s.threads && !Full(s.devices, MAX)
    ensures IsPath(p') && p'.start == p.start
    ensures var s, s' := Now(p), Now(p');
            && s'.registry == None && s'.devices == Registered(s.devices, id, [], 0, c)
            && s'.conns == s.conns[c := Conn(None, [], [], [], [], [], false)]
            && s'.threads == Staled(s.threads, id)[m := Thread(Monitor(c, id), Idle, None)]
  {
    hide Registered, Full, Next, IsPath, Now;
    var job := Register(id, []);
    p' := Extend(p, Start(t, WantRegistry(job)));
    p' := Extend(p', LockRegistry(t));
    p' := Extend(p', RunRegister(t, 0, c, m));
    p' := Extend(p', UnlockRegistry(t));
    assert Now(p').threads == Staled(Now(p).threads, id)[m := Thread(Monitor(c, id), Idle, None)];
  }

  /** A monitor fails to ping and finds its connection still current. */
  lemma FailedPing(p: Path, m: Tid, id: Identity, c: ConnId) returns (p': Path)
    requires IsPath(p)
    requires var s := Now(p);
             && m in s.threads && s.threads[m].role == Monitor(c, id) && s.threads[m].pc == Idle
             && s.registry == None && c in s.conns && s.conns[c].holder == None && StoredConn(s.devices, id) == Some(c)
    ensures IsPath(p') && p'.start == p.start
    ensures var s, s' := Now(p), Now(p');
            && s'.registry == None && s'.devices == s.devices
            && s'.conns.Keys == s.conns.Keys
            && s'.threads == s.threads[m := Thread(Monitor(c, id), WantRegistry(MarkOffline), Some(Seen(id, c, false)))]
  {
    hide StoredConn, Next, IsPath, Now;
    p' := Extend(p, Start(m, WantDevice(Ping(c))));
    p' := Extend(p', LockDevice(m));
    p' := Extend(p', OnDevice(m, PingFail));
    p' := Extend(p', UnlockDevice(m));
    p' := Extend(p', LockRegistry(m));
    p' := Extend(p', RunSection(m, 0));
    p' := Extend(p', UnlockRegistry(m));
  }

  /** The device reconnects between the monitor's currency check and its mark: the mark
      takes the new, working connection offline. */
  lemma StaleMark(id: Identity) returns (states: seq<Sys>, labels: seq<Label>)
    ensures IsRun(states, labels, MAX) && labels != []
    ensures var n := |labels| - 1;
            && labels[n] == RunSection(1, 0)
            && 1 in states[n].threads && 1 in states[n].conns
            && states[n].threads[1].role == Monitor(0, id)
            && StoredConn(states[n].devices, id) == Some(1) && !states[n].conns[1].broken
            && StoredConn(states[n + 1].devices, id) == None
  {
    hide Registered, Offline, StoredConn, IsPath, IsRun, Next, Now;
    AFirst(id);
    var p := Begin(Sys([], None, map[], map[0 := Thread(Acceptor, Idle, None)]));
    p := Registration(p, 0, id, 0, 1);
    assert Now(p).threads[1] == Thread(Monitor(0, id), Idle, None);
    p := FailedPing(p, 1, id, 0);
    p := Registration(p, 0, id, 1, 2);
    assert Now(p).threads[1].pc == WantRegistry(MarkOffline);
    p := Extend(p, LockRegistry(1));
    states, labels := Finish(p, RunSection(1, 0));
  }

  /** Registering one pair, registering it again, and marking it offline. */
  lemma AFirst(id: Identity)
    ensures var a := Registered([], id, [], 0, 0);
            var b := Registered(a, id, [], 0, 1);
            && !Full([], MAX) && !Full(a, MAX)
            && StoredConn(a, id) == Some(0) && StoredConn(b, id) == Some(1)
            && StoredConn(Offline(b, id, 0), id) == None
  {
    assert Consistent([], MAX);
    RegisteredConsistent([], id, [], 0, 0, MAX);
    var a := Registered([], id, [], 0, 0);
    assert a == [DeviceRecord(id.0, id.1, [], 0, 0, true, Some(0))];
    assert a[1..] == [];
    RegisteredConsistent(a, id, [], 0, 1, MAX);
    OfflineConsistent(Registered(a, id, [], 0, 1), id, 0, MAX);
  }

  /** A client proxies a GET up to the point where the request is written. */
  lemma ProxyAsks(p: Path, t: Tid, id: Identity, c: ConnId, path: seq<byte>) returns (p': Path)
    requires IsPath(p)
    requires var s := Now(p);
             && t in s.threads && s.threads[t].role.Client? && s.threads[t].pc == Idle
             && s.registry == None && c in s.conns && s.conns[c].holder == None
             && First(s.devices, ActiveNamed(id.0)) == Some(0) && s.devices[0].Id() == id
             && ActiveConn(s.devices, id) == Some(c)
    ensures IsPath(p') && p'.start == p.start
    ensures var s, s' := Now(p), Now(p');
            var q := Fs.Req(Fs.OP_GET, path);
            && s'.registry == None && s'.devices == s.devices
            && s'.conns == s.conns[c := s.conns[c].(holder := Some(t), toDevice := s.conns[c].toDevice + [q])]
            && s'.threads == s.threads[t := Thread(s.threads[t].role, InDevice(Read(c, q, [])),
                Some(Seen(id, c, false)))]
  {
    hide StoredConn, ActiveConn, First, Fs.Req, Next, IsPath, Now;
    p' := Extend(p, Start(t, WantRegistry(Resolve(Fs.OP_GET, id.0, path))));
    p' := Extend(p', LockRegistry(t));
    p' := Extend(p', RunSection(t, 0));
    p' := Extend(p', UnlockRegistry(t));
    p' := Extend(p', LockRegistry(t));
    p' := Extend(p', RunSection(t, 0));
    p' := Extend(p', UnlockRegistry(t));
    p' := Extend(p', LockDevice(t));
    p' := Extend(p', OnDevice(t, SendOk));
  }

  /** The daemon answers a GET with one chunk of data; the requester fails at the
      header, so chunk and terminator stay behind. */
  lemma RequesterFails(p: Path, t: Tid, c: ConnId, q: Frame) returns (p': Path)
    requires IsPath(p) && |q| > 0 && q[0] == Fs.OP_GET
    requires var s := Now(p);
             && t in s.threads && s.threads[t].pc == InDevice(Read(c, q, []))
             && c in s.conns && s.conns[c] == Conn(Some(t), [q], [], [], [], [], false)
    ensures IsPath(p') && p'.start == p.start
    ensures var s, s' := Now(p), Now(p');
            && s'.registry == s.registry && s'.devices == s.devices
            && s'.conns == s.conns[c := Conn(None, [], [[7], []], [], q, OneChunk(), true)]
            && s'.threads == s.threads[t := s.threads[t].(pc := Idle)]
  {
    hide Next, IsPath, Now, Fetch.Header;
    var reply := OneChunk();
    SmallReply(q);
    p' := Extend(p, OnDaemon(c, Answer(reply)));
    p' := Extend(p', OnDaemon(c, Deliver));
    assert Now(p').conns[c] == Conn(Some(t), [], [[7], []], [Fetch.Header(1)], q, reply, false);
    p' := Extend(p', OnDevice(t, ReadOk(false)));
    assert Now(p').conns[c] == Conn(Some(t), [], [[7], []], [], q, reply, true);
    p' := Extend(p', UnlockDevice(t));
  }

  /** The reply to a GET of a file of one byte. */
  function OneChunk(): seq<Frame> {
    [Fetch.Header(1), [7], []]
  }

  lemma SmallReply(q: Frame)
    requires |q| > 0 && q[0] == Fs.OP_GET
    ensures OneChunk() == Fetch.Reply(1, [[7]])
    ensures IsReply(q, OneChunk())
    ensures !Complete(q, [Fetch.Header(1)])
  {
    var reply := OneChunk();
    Fetch.HeaderSize(1);
    assert reply[..2][1] == [7];
    assert reply[..1] == [Fetch.Header(1)];
  }

  /** After that, the next proxy on the connection reads a chunk of the old reply
      before the daemon has even seen its request; it takes the chunk for a refusal,
      passes it on and is done. */
  lemma NextProxyReadsLeftover(id: Identity, path1: seq<byte>, path2: seq<byte>)
      returns (states: seq<Sys>, labels: seq<Label>)
    ensures IsRun(states, labels, MAX) && labels != []
    ensures var n, request := |labels| - 1, Fs.Req(Fs.OP_GET, path2);
            var s, s' := states[n], states[n + 1];
            && labels[n] == OnDevice(2, ReadOk(true)) && Holds(s, 2)
            && s.threads[2].pc == InDevice(Read(0, request, []))
            && s.conns[0].toServer == [[7]] && s.conns[0].toDevice == [request]
            && s.conns[0].asked == Fs.Req(Fs.OP_GET, path1) && s.conns[0].answer == OneChunk()
            && 2 in s'.threads && s'.threads[2].pc == LeavingDevice(0, Idle)
            && 0 in s'.conns && s'.conns[0].toDevice == [request]
  {
    hide Registered, First, ActiveConn, Fs.Req, IsReply, Complete, DeviceEffect, DeviceEnabled, Section, MayStart,
         Next, IsPath, IsRun, Now, Initial;
    OneDevice(id);
    var p := LeavesRestBehind(id, path1);
    p := ProxyAsks(p, 2, id, 0, path2);
    p := Extend(p, OnDaemon(0, Deliver));
    assert Now(p).conns[0].toServer == [[7]];
    RequestIsGet(path2);
    states, labels := ReadLeftover(p, Fs.Req(Fs.OP_GET, path2));
  }

  /** A device registers, and the first requester fails at the header of its file. */
  lemma LeavesRestBehind(id: Identity, path: seq<byte>) returns (p: Path)
    ensures IsPath(p) && Initial(p.start)
    ensures var s := Now(p);
            && 2 in s.threads && s.threads[2] == Thread(Client(None), Idle, None)
            && s.registry == None && s.devices == Registered([], id, [], 0, 0)
            && 0 in s.conns && s.conns[0] == Conn(None, [], [[7], []], [], Fs.Req(Fs.OP_GET, path), OneChunk(), true)
  {
    hide Registered, StoredConn, First, ActiveConn, Fs.Req, Full, IsPath, Now;
    var client := Thread(Client(None), Idle, None);
    OneDevice(id);
    RequestIsGet(path);
    p := Begin(Sys([], None, map[], map[0 := Thread(Acceptor, Idle, None), 1 := client, 2 := client]));
    p := Registration(p, 0, id, 0, 3);
    assert Now(p).threads[1] == client && Now(p).threads[2] == client;
    p := ProxyAsks(p, 1, id, 0, path);
    p := RequesterFails(p, 1, 0, Fs.Req(Fs.OP_GET, path));
  }

  lemma ReadLeftover(p: Path, request: Frame) returns (states: seq<Sys>, labels: seq<Label>)
    requires IsPath(p) && Initial(p.start) && |request| > 0 && request[0] == Fs.OP_GET
    requires var s := Now(p);
             && 2 in s.threads && s.threads[2].pc == InDevice(Read(0, request, []))
             && 0 in s.conns && s.conns[0].toServer == [[7]]
    ensures IsRun(states, labels, MAX) && labels != [] && states[|labels| - 1] == Now(p)
    ensures labels[|labels| - 1] == OnDevice(2, ReadOk(true)) && Holds(Now(p), 2)
    ensures var s' := states[|labels|];
            && 2 in s'.threads && s'.threads[2].pc == LeavingDevice(0, Idle)
            && 0 in s'.conns && s'.conns[0].toDevice == Now(p).conns[0].toDevice
  {
    hide IsReply, Complete, DeviceEffect, DeviceEnabled, Next, IsPath, IsRun, Now, Initial;
    ReadsRefusal(Now(p).conns[0], 0, request);
    states, labels := Finish(p, OnDevice(2, ReadOk(true)));
  }

  lemma ReadsRefusal(conn: Conn, c: ConnId, request: Frame)
    requires |request| > 0 && request[0] == Fs.OP_GET && conn.toServer == [[7]]
    ensures DeviceEnabled(conn, Read(c, request, []), ReadOk(true))
    ensures DeviceEffect(conn, Read(c, request, []), ReadOk(true)) == (conn.(toServer := []), LeavingDevice(c, Idle))
  {
    assert ([] + [[7 as byte]])[0] == [7 as byte];
    assert conn.toServer[1..] == [];
  }

  lemma RequestIsGet(path: seq<byte>)
    ensures |Fs.Req(Fs.OP_GET, path)| > 0 && Fs.Req(Fs.OP_GET, path)[0] == Fs.OP_GET
  {
  }

  lemma OneDevice(id: Identity)
    ensures var a := Registered([], id, [], 0, 0);
            && !Full([], MAX) && |a| == 1 && a[0].Id() == id
            && First(a, ActiveNamed(id.0)) == Some(0) && ActiveConn(a, id) == Some(0)
  {
    var a := Registered([], id, [], 0, 0);
    assert a == [DeviceRecord(id.0, id.1, [], 0, 0, true, Some(0))];
    FirstIs(a, ActiveNamed(id.0), 0);
    FirstIs(a, ActivePair(id), 0);
  }
}
