/** Looking back along a run: where a mark comes from, and where a request goes. */
module SystemTraces {
  import opened Common
  import opened Core
  import opened Registry
  import opened System
  import opened SystemInv
  import opened SystemRuns
  import Fs
  import Proxy
  import Utf8

  // --- who is taken offline ---

  /** At step `i` thread `t` looks up the pair `id` under the registry mutex, to mark it
      or to send it a request, and finds connection `c` stored. */
  ghost predicate LooksUp(states: seq<Sys>, labels: seq<Label>, i: nat, t: Tid, id: Identity, c: ConnId)
    requires |states| == |labels| + 1 && i < |labels|
  {
    && labels[i].RunSection? && labels[i].t == t && t in states[i].threads && t in states[i + 1].threads
    && states[i].threads[t].pc.InRegistry?
    && (states[i].threads[t].pc.job == CheckCurrent
        || (states[i].threads[t].pc.job.FindConn? && states[i].threads[t].pc.job.id == id))
    && states[i + 1].threads[t].seen == Some(Seen(id, c, false))
    && StoredConn(states[i].devices, id) == Some(c)
  }

  /** Between steps `i` and `j` the pair registers, and is accepted. */
  ghost predicate RegistersBetween(states: seq<Sys>, labels: seq<Label>, i: nat, j: nat, id: Identity, maxDevices: nat)
    requires |states| == |labels| + 1 && j <= |labels|
  {
    exists k: nat :: i < k < j && Registers(states[k], labels[k], id, maxDevices)
  }

  /** Both are looks at the same pair that found the same connection, or both are none. */
  predicate SameLook(a: Option<Seen>, b: Option<Seen>) {
    a.Some? == b.Some? && (a.Some? ==> a.value.id == b.value.id && a.value.conn == b.value.conn)
  }

  /** How a thread comes by what it has seen. */
  lemma SeenStep(s: Sys, l: Label, s': Sys, maxDevices: nat, t: Tid)
    requires Invariant(s, maxDevices) && Next(s, l, s', maxDevices)
    requires t in s'.threads && s'.threads[t].seen.Some?
    ensures t in s.threads
    ensures var Seen(id, c, stale) := s'.threads[t].seen.value;
            || (!stale && l.RunSection? && l.t == t && s.threads[t].pc.InRegistry?
                && StoredConn(s.devices, id) == Some(c)
                && (s.threads[t].pc.job == CheckCurrent
                    || (s.threads[t].pc.job.FindConn? && s.threads[t].pc.job.id == id)))
            || (s.threads[t].seen.Some? && s.threads[t].seen.value.id == id && s.threads[t].seen.value.conn == c
                && (stale <==> s.threads[t].seen.value.stale || Registers(s, l, id, maxDevices)))
  {
    hide DeviceEffect, DaemonEffect, MayStart, DeviceEnabled, DaemonEnabled, Registered, Full, Offline, ValidTarget,
         LocksOk, ThreadsOk, PipesOk, Consistent, StoredConn, ActiveConn;
    if l.RunSection? && l.t == t && s.threads[t].pc.job.FindConn? {
      StoredConnKnown(s, maxDevices, s.threads[t].pc.job.id);
    }
  }

  /** What a thread has seen it looked up at some step, and it is outdated exactly when
      the pair has registered since. */
  lemma {:induction false} LookedUpBefore(states: seq<Sys>, labels: seq<Label>, maxDevices: nat, j: nat, t: Tid)
    requires IsRun(states, labels, maxDevices) && j <= |labels|
    requires t in states[j].threads && states[j].threads[t].seen.Some?
    ensures var Seen(id, c, stale) := states[j].threads[t].seen.value;
            exists i: nat :: i < j && LooksUp(states, labels, i, t, id, c)
                             && (stale <==> RegistersBetween(states, labels, i, j, id, maxDevices))
    decreases j
  {
    hide Next, Invariant, LocksOk, Registers;
    var Seen(id, c, stale) := states[j].threads[t].seen.value;
    if j > 0 {
      Reachable(states, labels, maxDevices, j - 1);
      SeenStep(states[j - 1], labels[j - 1], states[j], maxDevices, t);
      if LooksUp(states, labels, j - 1, t, id, c) {
      } else {
        LookedUpBefore(states, labels, maxDevices, j - 1, t);
        var i: nat :| i < j - 1 && LooksUp(states, labels, i, t, id, c)
                      && (states[j - 1].threads[t].seen.value.stale
                          <==> RegistersBetween(states, labels, i, j - 1, id, maxDevices));
        OneMoreStep(states, labels, i, j, id, maxDevices);
      }
    }
  }

  lemma OneMoreStep(states: seq<Sys>, labels: seq<Label>, i: nat, j: nat, id: Identity, maxDevices: nat)
    requires |states| == |labels| + 1 && i < j - 1 && j <= |labels|
    ensures RegistersBetween(states, labels, i, j, id, maxDevices)
       <==> (RegistersBetween(states, labels, i, j - 1, id, maxDevices)
             || Registers(states[j - 1], labels[j - 1], id, maxDevices))
  {
    hide Registers;
    if Registers(states[j - 1], labels[j - 1], id, maxDevices) {
      assert i < j - 1 < j;
    }
    if RegistersBetween(states, labels, i, j, id, maxDevices) {
      var k: nat :| i < k < j && Registers(states[k], labels[k], id, maxDevices);
      assert k < j - 1 || k == j - 1;
    }
  }

  /** A mark, by a monitor or by a proxy, touches only the pair that the thread looked
      up at some earlier step. It takes a connection other than the one found then if
      and only if a registration of the pair was accepted in between and the pair is
      still connected. */
  lemma MarkTakesOwnConnection(states: seq<Sys>, labels: seq<Label>, maxDevices: nat, j: nat)
    requires IsRun(states, labels, maxDevices) && j < |labels|
    requires labels[j].RunSection? && labels[j].t in states[j].threads
    requires states[j].threads[labels[j].t].pc == InRegistry(MarkOffline)
    ensures exists i: nat, id, c ::
              && i < j && LooksUp(states, labels, i, labels[j].t, id, c)
              && MarksSince(states, labels, i, j, id, c, maxDevices)
              && SameLook(states[j].threads[labels[j].t].seen, Some(Seen(id, c, false)))
  {
    hide Next, LocksOk, PipesOk, Registers, StoredConn, Offline;
    Reachable(states, labels, maxDevices, j);
    var th := states[j].threads[labels[j].t];
    assert ThreadOk(states[j].devices, states[j].conns.Keys, th);
    var Seen(id, c, stale) := th.seen.value;
    LookedUpBefore(states, labels, maxDevices, j, labels[j].t);
    var i: nat :| i < j && LooksUp(states, labels, i, labels[j].t, id, c)
                  && (stale <==> RegistersBetween(states, labels, i, j, id, maxDevices));
    MarkStep(states[j], labels[j], states[j + 1], maxDevices);
    assert MarksSince(states, labels, i, j, id, c, maxDevices);
  }

  ghost predicate MarksSince(states: seq<Sys>, labels: seq<Label>, i: nat, j: nat, id: Identity, c: ConnId,
        maxDevices: nat)
    requires |states| == |labels| + 1 && j < |labels|
  {
    var before := StoredConn(states[j].devices, id);
    && StoredConn(states[j + 1].devices, id) == None
    && (forall other | other != id :: StoredConn(states[j + 1].devices, other) == StoredConn(states[j].devices, other))
    && (before.Some? && before != Some(c) <==> before.Some? && RegistersBetween(states, labels, i, j, id, maxDevices))
  }

  lemma MarkStep(s: Sys, l: Label, s': Sys, maxDevices: nat)
    requires DevicesOk(s, maxDevices) && Next(s, l, s', maxDevices) && l.RunSection?
    requires l.t in s.threads && s.threads[l.t].pc == InRegistry(MarkOffline) && s.threads[l.t].seen.Some?
    ensures var id := s.threads[l.t].seen.value.id;
            && StoredConn(s'.devices, id) == None
            && forall other | other != id :: StoredConn(s'.devices, other) == StoredConn(s.devices, other)
  {
    hide StoredConn, Offline;
    OfflineConsistent(s.devices, s.threads[l.t].seen.value.id, l.now, maxDevices);
  }

  // --- where a request goes ---

  /** The thread has this section of the registry before it or is in it. */
  predicate HasJob(th: Thread, job: Job) {
    Ahead(th.pc) == WantRegistry(job) || th.pc == InRegistry(job)
  }

  /** At step `j` the proxy resolves the name to the earliest active device of that name,
      which is `id`. */
  ghost predicate Resolves(states: seq<Sys>, labels: seq<Label>, j: nat, t: Tid, op: byte, id: Identity,
        path: seq<byte>)
    requires |states| == |labels| + 1 && j < |labels|
  {
    && labels[j].RunSection? && labels[j].t == t && t in states[j].threads
    && states[j].threads[t].pc == InRegistry(Resolve(op, id.0, path))
    && var first := First(states[j].devices, ActiveNamed(id.0));
       first.Some? && states[j].devices[first.value].Id() == id
  }

  /** At step `k` the request enters the proxy: the client sent the proxy frame itself,
      or it is the frame written for the session's target, which is active. */
  ghost predicate Enters(states: seq<Sys>, labels: seq<Label>, k: nat, t: Tid, op: byte, name: Name, path: seq<byte>)
    requires |states| == |labels| + 1 && k < |labels|
  {
    && t in states[k].threads && states[k].threads[t].role.Client?
    && (|| labels[k] == Start(t, WantRegistry(Resolve(op, name, path)))
        || (&& labels[k].RunSection? && labels[k].t == t
            && states[k].threads[t].pc.InRegistry? && states[k].threads[t].pc.job.CheckActive?
            && ForTarget(states[k], states[k].threads[t].role.target, states[k].threads[t].pc.job, op, name, path)))
  }

  ghost predicate ForTarget(s: Sys, target: Option<Identity>, job: Job, op: byte, name: Name, path: seq<byte>)
    requires job.CheckActive?
  {
    && target.Some? && First(s.devices, ActivePair(target.value)).Some? && job.op == op
    && IntoProxy(op, target.value.0, job.path) == WantRegistry(Resolve(op, name, path))
  }

  /** Names and paths that fit their u16 lengths go through the frame unchanged. */
  lemma IntoProxyUnchanged(op: byte, name: Name, path: seq<byte>)
    requires FitsU16(name) && Utf8.Valid(name) && FitsU16(path) && Utf8.Valid(path)
    ensures IntoProxy(op, name, path) == WantRegistry(Resolve(op, name, path))
  {
    Proxy.TwoStringsRoundTrip(Proxy.ProxyOp(op), name, path);
  }

  /** How a proxy comes to one of its two sections. */
  lemma JobStep(s: Sys, l: Label, s': Sys, maxDevices: nat, t: Tid, job: Job)
    requires LocksOk(s) && ThreadsOk(s) && Next(s, l, s', maxDevices) && t in s'.threads && HasJob(s'.threads[t], job)
    requires job.FindConn? || job.Resolve?
    ensures t in s.threads
    ensures || HasJob(s.threads[t], job)
            || (job.Resolve? && l == Start(t, WantRegistry(job)) && s.threads[t].role.Client?)
            || (l.RunSection? && l.t == t && s.threads[t].pc.InRegistry?
                && Leave(s.threads[t], WantRegistry(job)).pc == Section(s.devices, s.threads[t], l.now).1.pc)
  {
    hide DaemonEffect, DaemonEnabled, DeviceEffect, DeviceEnabled, Registered, Full, Section, RegistryLock,
         DeviceLocks, SeenOk, TargetOk, ConnsKnown;
    if l.RunSection? { SectionLeaves(s.devices, s.threads[l.t], l.now); }
    if t in s.threads { assert ThreadOk(s.devices, s.conns.Keys, s.threads[t]); }
    if l.OnDevice? {
      DeviceEffectLocks(s.conns[s.threads[l.t].pc.task.conn], s.threads[l.t].pc.task, l.event);
      DeviceLeadsElsewhere(s.conns[s.threads[l.t].pc.task.conn], s.threads[l.t].pc.task, l.event);
    }
  }

  lemma DeviceLeadsElsewhere(conn: Conn, task: Task, e: DeviceEvent)
    requires DeviceEnabled(conn, task, e)
    ensures var pc := Ahead(DeviceEffect(conn, task, e).1);
            pc.WantRegistry? ==> pc.job.CheckCurrent? || pc.job.MarkOffline?
  {
  }

  lemma {:induction false} EnteredBefore(states: seq<Sys>, labels: seq<Label>, maxDevices: nat, j: nat, t: Tid,
      op: byte, name: Name, path: seq<byte>)
    requires IsRun(states, labels, maxDevices) && j <= |labels|
    requires t in states[j].threads && HasJob(states[j].threads[t], Resolve(op, name, path))
    ensures exists k: nat :: k < j && Enters(states, labels, k, t, op, name, path)
    decreases j
  {
    hide Next, LocksOk, ThreadsOk, PipesOk, DevicesOk;
    if j > 0 {
      Reachable(states, labels, maxDevices, j - 1);
      JobStep(states[j - 1], labels[j - 1], states[j], maxDevices, t, Resolve(op, name, path));
      if HasJob(states[j - 1].threads[t], Resolve(op, name, path)) {
        EnteredBefore(states, labels, maxDevices, j - 1, t, op, name, path);
      } else {
        assert Enters(states, labels, j - 1, t, op, name, path);
      }
    }
  }

  lemma {:induction false} ResolvedBefore(states: seq<Sys>, labels: seq<Label>, maxDevices: nat, i: nat, t: Tid,
      op: byte, id: Identity, path: seq<byte>)
    requires IsRun(states, labels, maxDevices) && i <= |labels|
    requires t in states[i].threads && HasJob(states[i].threads[t], FindConn(op, id, path))
    ensures exists j: nat :: j < i && Resolves(states, labels, j, t, op, id, path)
    decreases i
  {
    hide Next, LocksOk, ThreadsOk, PipesOk, DevicesOk;
    if i > 0 {
      Reachable(states, labels, maxDevices, i - 1);
      JobStep(states[i - 1], labels[i - 1], states[i], maxDevices, t, FindConn(op, id, path));
      if HasJob(states[i - 1].threads[t], FindConn(op, id, path)) {
        ResolvedBefore(states, labels, maxDevices, i - 1, t, op, id, path);
      } else {
        assert Resolves(states, labels, i - 1, t, op, id, path);
      }
    }
  }

  /** A proxied request across its separate critical sections: it goes, with its path,
      to the connection stored for a pair at step `i`; that pair was the earliest
      active device of its name at an earlier step `j`; and that name and path came
      into the proxy at a still earlier step `k`, in a frame of the client's own or in
      the one written for its active target. */
  lemma ProxyRoute(states: seq<Sys>, labels: seq<Label>, maxDevices: nat, i: nat, t: Tid, op: byte, id: Identity,
        path: seq<byte>)
    requires IsRun(states, labels, maxDevices) && i < |labels|
    requires labels[i].RunSection? && labels[i].t == t && t in states[i].threads
    requires states[i].threads[t].pc == InRegistry(FindConn(op, id, path))
    ensures match ActiveConn(states[i].devices, id)
            case None => states[i + 1].threads[t].pc == LeavingRegistry(Idle)
            case Some(c) =>
              && StoredConn(states[i].devices, id) == Some(c)
              && states[i + 1].threads[t].pc == LeavingRegistry(WantDevice(Send(c, Fs.Req(op, path))))
              && states[i + 1].threads[t].seen == Some(Seen(id, c, false))
    ensures exists k: nat, j: nat :: k < j < i && Enters(states, labels, k, t, op, id.0, path)
                                     && Resolves(states, labels, j, t, op, id, path)
  {
    hide LocksOk, ThreadsOk, PipesOk;
    Reachable(states, labels, maxDevices, i);
    StoredConnKnown(states[i], maxDevices, id);
    ResolvedBefore(states, labels, maxDevices, i, t, op, id, path);
    var j: nat :| j < i && Resolves(states, labels, j, t, op, id, path);
    EnteredBefore(states, labels, maxDevices, j, t, op, id.0, path);
  }

  // --- what a requester that gave up leaves behind ---

  /** What the connection holds for the server, read or not yet sent. */
  function Incoming(s: Sys, c: ConnId): seq<Frame>
    requires c in s.conns
  {
    s.conns[c].toServer + s.conns[c].pending
  }

  /** The step reads a frame of the connection. */
  ghost predicate Reads(s: Sys, l: Label, c: ConnId) {
    && l.OnDevice? && l.event.ReadOk? && Holds(s, l.t) && s.threads[l.t].pc.task.conn == c
    && s.threads[l.t].pc.task.Read? && s.conns[c].toServer != []
  }

  /** The frame it reads is this one: it is added to what the proxy has, and if that
      makes a whole reply of the proxy's request the proxy is done. */
  ghost predicate Given(s: Sys, l: Label, s': Sys, c: ConnId, f: Frame)
    requires Reads(s, l, c)
  {
    var task := s.threads[l.t].pc.task;
    && s.conns[c].toServer[0] == f && IsRequest(task.request) && l.t in s'.threads
    && (s'.threads[l.t].pc == LeavingDevice(c, Idle)
        || s'.threads[l.t].pc == InDevice(Read(c, task.request, task.got + [f])))
    && (Complete(task.request, task.got + [f]) ==> s'.threads[l.t].pc == LeavingDevice(c, Idle))
  }

  lemma IncomingStep(s: Sys, l: Label, s': Sys, maxDevices: nat, c: ConnId, left: seq<Frame>)
    requires Next(s, l, s', maxDevices) && c in s.conns && !Reads(s, l, c)
    requires left != [] && left <= Incoming(s, c)
    ensures c in s'.conns && left <= Incoming(s', c)
  {
    hide Section, Registered, Full, MayStart, IsAnswer, IsRequest, Complete;
    if l.OnDaemon? && l.conn == c && l.daemonEvent.Deliver? {
      assert Incoming(s', c) == Incoming(s, c);
    }
  }

  /** In every run, frames that are on their way to the server stay the first ones until
      some proxy reads: that proxy, whatever it asked for, is given the first of them. */
  lemma {:induction false} LeftoverComesFirst(states: seq<Sys>, labels: seq<Label>, maxDevices: nat, i: nat, j: nat,
      c: ConnId, left: seq<Frame>)
    requires IsRun(states, labels, maxDevices) && i <= j < |labels|
    requires c in states[i].conns && left != [] && left <= Incoming(states[i], c)
    requires forall k | i <= k < j :: !Reads(states[k], labels[k], c)
    ensures c in states[j].conns && left <= Incoming(states[j], c)
    ensures Reads(states[j], labels[j], c) ==> Given(states[j], labels[j], states[j + 1], c, left[0])
    decreases j
  {
    hide Next, Reads, Given, Incoming;
    if i < j {
      LeftoverComesFirst(states, labels, maxDevices, i, j - 1, c, left);
      IncomingStep(states[j - 1], labels[j - 1], states[j], maxDevices, c, left);
    }
    if Reads(states[j], labels[j], c) {
      FirstIncoming(states[j], labels[j], states[j + 1], maxDevices, c, left);
    }
  }

  lemma FirstIncoming(s: Sys, l: Label, s': Sys, maxDevices: nat, c: ConnId, left: seq<Frame>)
    requires Next(s, l, s', maxDevices) && Reads(s, l, c) && left != [] && left <= Incoming(s, c)
    ensures Given(s, l, s', c, left[0])
  {
    hide Complete, IsRequest;
    assert Incoming(s, c)[0] == left[0];
  }

  /** A proxy whose requester gave up in the middle of a reply: whatever happens then,
      the next read on the connection, by whichever proxy, is given the frame of the
      old reply at which it stopped. */
  lemma NextReadGetsLeftover(states: seq<Sys>, labels: seq<Label>, maxDevices: nat, i: nat, j: nat, c: ConnId)
    requires IsRun(states, labels, maxDevices) && i < j < |labels|
    requires labels[i].OnDevice? && labels[i].event == ReadOk(false) && Reads(states[i], labels[i], c)
    requires var task, conn := states[i].threads[labels[i].t].pc.task, states[i].conns[c];
             && !conn.broken && IsRequest(task.request) && IsReply(task.request, conn.answer)
             && !Complete(task.request, task.got + [conn.toServer[0]])
    requires Reads(states[j], labels[j], c) && forall k | i < k < j :: !Reads(states[k], labels[k], c)
    ensures var stopped, answer := |states[i].threads[labels[i].t].pc.task.got| + 1, states[i].conns[c].answer;
            stopped < |answer| && Given(states[j], labels[j], states[j + 1], c, answer[stopped])
  {
    hide Next, Given, IsReply, Complete;
    GivingUpLeavesFrames(states, labels, maxDevices, i);
    var got := states[i].threads[labels[i].t].pc.task.got + [states[i].conns[c].toServer[0]];
    var left := Incoming(states[i + 1], c);
    assert got + left == states[i].conns[c].answer && left != [];
    LeftoverComesFirst(states, labels, maxDevices, i + 1, j, c, left);
  }

  // --- when a connection counts as broken ---

  /** The step is an I/O error on the connection, or a requester that gives up before
      its reply is complete. */
  ghost predicate Breaks(s: Sys, l: Label, c: ConnId) {
    && l.OnDevice? && Holds(s, l.t) && s.threads[l.t].pc.task.conn == c
    && (l.event.PingFail? || l.event.SendFail? || l.event.ReadFail?
        || (l.event == ReadOk(false) && DeviceEnabled(s.conns[c], s.threads[l.t].pc.task, l.event)
            && var task := s.threads[l.t].pc.task; !Complete(task.request, task.got + [s.conns[c].toServer[0]])))
  }

  lemma BreakStep(s: Sys, l: Label, s': Sys, maxDevices: nat, c: ConnId)
    requires Next(s, l, s', maxDevices) && c in s'.conns
    ensures c in s.conns ==> (s'.conns[c].broken <==> s.conns[c].broken || Breaks(s, l, c))
    ensures c !in s.conns ==> !s'.conns[c].broken && !Breaks(s, l, c)
  {
    hide Section, Registered, Full, MayStart, IsAnswer, IsRequest, Complete;
  }

  /** A connection is broken exactly when some earlier step broke it. */
  lemma {:induction false} BrokenExactly(states: seq<Sys>, labels: seq<Label>, maxDevices: nat, i: nat, c: ConnId)
    requires IsRun(states, labels, maxDevices) && i <= |labels| && c in states[i].conns
    ensures states[i].conns[c].broken <==> exists k: nat :: k < i && Breaks(states[k], labels[k], c)
    decreases i
  {
    hide Next, Breaks;
    if i > 0 {
      BreakStep(states[i - 1], labels[i - 1], states[i], maxDevices, c);
      if c in states[i - 1].conns {
        BrokenExactly(states, labels, maxDevices, i - 1, c);
        if k: nat :| k < i && Breaks(states[k], labels[k], c) {
          assert k < i - 1 || k == i - 1;
        }
      } else {
        UnknownNeverBroken(states, labels, maxDevices, i - 1, c);
      }
    }
  }

  lemma {:induction false} UnknownNeverBroken(states: seq<Sys>, labels: seq<Label>, maxDevices: nat, i: nat, c: ConnId)
    requires IsRun(states, labels, maxDevices) && i < |labels| && c !in states[i].conns
    ensures forall k | 0 <= k <= i :: !Breaks(states[k], labels[k], c)
    decreases i
  {
    hide Next;
    if i > 0 {
      ConnsStay(states[i - 1], labels[i - 1], states[i], maxDevices);
      UnknownNeverBroken(states, labels, maxDevices, i - 1, c);
    }
  }

  lemma ConnsStay(s: Sys, l: Label, s': Sys, maxDevices: nat)
    requires Next(s, l, s', maxDevices)
    ensures s.conns.Keys <= s'.conns.Keys
  {
  }
}
