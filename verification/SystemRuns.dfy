/** What the interleaving of proxies, heartbeats and registrations can and cannot do. */
module SystemRuns {
  import opened Common
  import opened Core
  import opened Registry
  import opened System
  import opened SystemInv

  // --- the frames on one connection ---

  /** Only frames the daemon ignores are on their way, and nothing comes back. */
  predicate Quiet(conn: Conn) {
    && (forall f | f in conn.toDevice :: !IsRequest(f))
    && conn.pending == [] && conn.toServer == []
  }

  /** The request is written and the daemon has not reached it. */
  predicate Waiting(conn: Conn, request: Frame, got: seq<Frame>) {
    && conn.toDevice != [] && conn.toDevice[|conn.toDevice| - 1] == request
    && (forall i | 0 <= i < |conn.toDevice| - 1 :: !IsRequest(conn.toDevice[i]))
    && conn.pending == [] && conn.toServer == [] && got == []
  }

  /** The daemon took the request; its answer is split between what was read, what is
      in flight and what it still has to write. */
  predicate Answering(conn: Conn, request: Frame, got: seq<Frame>) {
    && conn.toDevice == [] && conn.asked == request
    && IsRequest(request) && IsAnswer(request, conn.answer)
    && got + conn.toServer + conn.pending == conn.answer
  }

  predicate PipeOk(conn: Conn, task: Option<Task>) {
    conn.broken ||
    match task
    case Some(Read(_, request, got)) =>
      IsRequest(request) && (Waiting(conn, request, got) || Answering(conn, request, got))
    case _ => Quiet(conn)
  }

  /** What the holder of a connection's mutex is doing with it. */
  function TaskOn(s: Sys, c: ConnId): Option<Task>
    requires c in s.conns
  {
    match s.conns[c].holder
    case None => None
    case Some(t) => if t in s.threads && s.threads[t].pc.InDevice? then Some(s.threads[t].pc.task) else None
  }

  ghost predicate PipesOk(s: Sys) {
    forall c | c in s.conns :: PipeOk(s.conns[c], TaskOn(s, c))
  }

  function TaskAfter(pc: Pc): Option<Task> {
    if pc.InDevice? then Some(pc.task) else None
  }

  /** Reading into an answer never passes its end, and if it is a whole reply stops
      exactly there. */
  lemma ReplyEnds(request: Frame, answer: seq<Frame>, got: seq<Frame>)
    requires IsRequest(request) && IsAnswer(request, answer) && got <= answer
    ensures Complete(request, got) <==> got == answer && IsReply(request, answer)
  {
    assert got == answer[..|got|];
    if got != answer {
      assert |got| < |answer|;
    }
  }

  lemma DeviceEffectPipe(conn: Conn, task: Task, seen: Option<Seen>, e: DeviceEvent)
    requires PipeOk(conn, Some(task)) && TaskOk(task, seen) && DeviceEnabled(conn, task, e)
    ensures PipeOk(DeviceEffect(conn, task, e).0, TaskAfter(DeviceEffect(conn, task, e).1))
  {
    if e.ReadOk? && !conn.broken {
      var request, got := task.request, task.got + [conn.toServer[0]];
      assert got + conn.toServer[1..] + conn.pending == conn.answer;
      assert got <= conn.answer;
      ReplyEnds(request, conn.answer, got);
    }
  }

  lemma DaemonEffectPipe(conn: Conn, task: Option<Task>, e: DaemonEvent)
    requires PipeOk(conn, task) && DaemonEnabled(conn, e)
    ensures PipeOk(DaemonEffect(conn, e), task)
  {
    var conn' := DaemonEffect(conn, e);
    if !conn.broken && task.Some? && task.value.Read? {
      var got := task.value.got;
      if e.Deliver? {
        assert got + conn'.toServer + conn'.pending == got + conn.toServer + conn.pending;
      } else if |conn.toDevice| == 1 {
        assert got + conn'.toServer + conn'.pending == e.reply;
      } else {
        assert forall i | 0 <= i < |conn'.toDevice| :: conn'.toDevice[i] == conn.toDevice[i + 1];
      }
    } else if !conn.broken {
      assert conn.toDevice[0] in conn.toDevice;
    }
  }

  lemma PipesKept(s: Sys, l: Label, s': Sys, maxDevices: nat)
    requires LocksOk(s) && ThreadsOk(s) && PipesOk(s) && Next(s, l, s', maxDevices)
    ensures PipesOk(s')
  {
    hide DeviceEffect, DaemonEffect, Section, Registered, Full, MayStart, DeviceEnabled, DaemonEnabled, PipeOk,
         SeenOk, TargetOk, RoleOk;
    match l
    case LockRegistry(t) =>
    case UnlockRegistry(t) =>
    case UnlockDevice(t) => UnlockPipe(s.conns[s.threads[t].pc.conn]);
    case LockDevice(t) => LockPipe(s.conns[s.threads[t].pc.task.conn], s.threads[t].pc.task, s.threads[t].seen, t);
    case Start(t, next) => IdleGoesWaiting(s.threads[t], next);
    case RunRegister(t, now, c, m) => NewPipe();
    case RunSection(t, now) => SectionLeaves(s.devices, s.threads[t], now);
    case OnDevice(t, e) => DevicePipes(s, l, s', maxDevices);
    case OnDaemon(c, e) => DaemonEffectPipe(s.conns[c], TaskOn(s, c), e); DaemonKeepsHolder(s.conns[c], e);
  }

  lemma LockPipe(conn: Conn, task: Task, seen: Option<Seen>, t: Tid)
    requires PipeOk(conn, None) && !task.Read?
    ensures PipeOk(conn.(holder := Some(t)), Some(task))
  {
  }

  lemma UnlockPipe(conn: Conn)
    requires PipeOk(conn, None)
    ensures PipeOk(conn.(holder := None), None)
  {
  }

  lemma NewPipe()
    ensures PipeOk(Conn(None, [], [], [], [], [], false), None)
  {
  }

  lemma DevicePipes(s: Sys, l: Label, s': Sys, maxDevices: nat)
    requires LocksOk(s) && ThreadsOk(s) && PipesOk(s) && Next(s, l, s', maxDevices) && l.OnDevice?
    ensures PipesOk(s')
  {
    hide DeviceEffect, DeviceEnabled, PipeOk, SeenOk, TargetOk, RoleOk;
    var th := s.threads[l.t];
    DeviceEffectPipe(s.conns[th.pc.task.conn], th.pc.task, th.seen, l.event);
    DeviceEffectLocks(s.conns[th.pc.task.conn], th.pc.task, l.event);
  }

  // --- runs ---

  ghost predicate Invariant(s: Sys, maxDevices: nat) {
    LocksOk(s) && DevicesOk(s, maxDevices) && ThreadsOk(s) && PipesOk(s)
  }

  lemma InvariantInitially(s: Sys, maxDevices: nat)
    requires Initial(s)
    ensures Invariant(s, maxDevices)
  {
  }

  lemma InvariantKept(s: Sys, l: Label, s': Sys, maxDevices: nat)
    requires Invariant(s, maxDevices) && Next(s, l, s', maxDevices)
    ensures Invariant(s', maxDevices)
  {
    hide Next, LocksOk, DevicesOk, ThreadsOk, PipesOk;
    assert LocksOk(s') by { BothLocksKept(s, l, s', maxDevices); }
    DevicesKept(s, l, s', maxDevices);
    ThreadsKept(s, l, s', maxDevices);
    PipesKept(s, l, s', maxDevices);
  }

  lemma BothLocksKept(s: Sys, l: Label, s': Sys, maxDevices: nat)
    requires LocksOk(s) && Next(s, l, s', maxDevices)
    ensures LocksOk(s')
  {
    hide Next, RegistryLock, DeviceLocks, ExitsOk;
    RegistryLockKept(s, l, s', maxDevices);
    DeviceLocksKept(s, l, s', maxDevices);
    ExitsKept(s, l, s', maxDevices);
  }

  ghost predicate IsRun(states: seq<Sys>, labels: seq<Label>, maxDevices: nat) {
    && |states| == |labels| + 1
    && Initial(states[0])
    && (forall i | 0 <= i < |labels| :: Next(states[i], labels[i], states[i + 1], maxDevices))
  }

  lemma {:induction false} Reachable(states: seq<Sys>, labels: seq<Label>, maxDevices: nat, i: nat)
    requires IsRun(states, labels, maxDevices) && i <= |labels|
    ensures Invariant(states[i], maxDevices)
  {
    if i == 0 {
      InvariantInitially(states[0], maxDevices);
    } else {
      Reachable(states, labels, maxDevices, i - 1);
      InvariantKept(states[i - 1], labels[i - 1], states[i], maxDevices);
    }
  }

  /** In every reachable state the (name, user) pairs are unique, a device is active
      exactly when a connection is stored, the active count respects the limit, and
      the identities of any earlier state are a prefix of the present ones. */
  lemma {:induction false} RegistrySafe(states: seq<Sys>, labels: seq<Label>, maxDevices: nat, i: nat, j: nat)
    requires IsRun(states, labels, maxDevices) && i <= j <= |labels|
    ensures Consistent(states[j].devices, maxDevices)
    ensures Identities(states[i].devices) <= Identities(states[j].devices)
    decreases j
  {
    hide LocksOk, ThreadsOk, PipesOk, Next, Initial;
    Reachable(states, labels, maxDevices, j);
    if i < j {
      RegistrySafe(states, labels, maxDevices, i, j - 1);
      Reachable(states, labels, maxDevices, j - 1);
      DevicesKept(states[j - 1], labels[j - 1], states[j], maxDevices);
    }
  }

  // --- no deadlock ---

  /** `t` waits for a mutex that `u` holds. */
  predicate WaitsFor(s: Sys, t: Tid, u: Tid) {
    && t in s.threads
    && match s.threads[t].pc
       case WantRegistry(_) => s.registry == Some(u)
       case WantDevice(task) => task.conn in s.conns && s.conns[task.conn].holder == Some(u)
       case _ => false
  }

  /** Nobody holds the registry mutex and a device mutex together, and a thread that
      is waited for waits for nobody, so no circular wait can form. */
  lemma NoCircularWait(states: seq<Sys>, labels: seq<Label>, maxDevices: nat, i: nat, t: Tid, u: Tid)
    requires IsRun(states, labels, maxDevices) && i <= |labels|
    ensures states[i].registry == Some(t) ==>
              forall c | c in states[i].conns :: states[i].conns[c].holder != Some(t)
    ensures WaitsFor(states[i], t, u) ==> forall v :: !WaitsFor(states[i], u, v)
  {
    Reachable(states, labels, maxDevices, i);
  }

  // --- proxies and heartbeats share a connection ---

  /** Until the first I/O error, and as long as no requester gives up mid-reply, the
      frames a proxy has read are a prefix of the daemon's answer to the very request
      it wrote. It stops exactly when they make up a whole reply; then that is all the
      daemon answered, and the connection has nothing but ignored frames on it. */
  lemma ProxyReadsItsReply(states: seq<Sys>, labels: seq<Label>, maxDevices: nat, i: nat)
    requires IsRun(states, labels, maxDevices) && i < |labels|
    requires labels[i].OnDevice? && labels[i].event.ReadOk?
    ensures Holds(states[i], labels[i].t)
    ensures ReadsOn(states[i], labels[i].t, labels[i].event.requesterOk, states[i + 1])
  {
    Reachable(states, labels, maxDevices, i);
    ReadStep(states[i], labels[i].t, labels[i].event.requesterOk, states[i + 1], maxDevices);
  }

  /** One more frame of an answer is read. */
  ghost predicate ReadsOn(s: Sys, t: Tid, requesterOk: bool, s': Sys)
    requires Holds(s, t)
  {
    var task := s.threads[t].pc.task;
    var conn := s.conns[task.conn];
    && task.Read? && IsRequest(task.request) && conn.toServer != []
    && t in s'.threads && task.conn in s'.conns
    && var conn', pc := s'.conns[task.conn], s'.threads[t].pc;
    !conn.broken ==>
      && conn.asked == task.request && IsAnswer(task.request, conn.answer)
      && var got := task.got + [conn.toServer[0]];
      && got <= conn.answer
      && (Complete(task.request, got) <==> got == conn.answer && IsReply(task.request, conn.answer))
      && (pc == LeavingDevice(task.conn, Idle) && !conn'.broken <==> Complete(task.request, got))
      && (Complete(task.request, got) ==> Quiet(conn'))
      && (!Complete(task.request, got) && requesterOk ==> pc == InDevice(Read(task.conn, task.request, got)))
  }

  lemma ReadStep(s: Sys, t: Tid, requesterOk: bool, s': Sys, maxDevices: nat)
    requires Invariant(s, maxDevices) && Next(s, OnDevice(t, ReadOk(requesterOk)), s', maxDevices)
    ensures ReadsOn(s, t, requesterOk, s')
  {
    hide ThreadsOk, DevicesOk, IsAnswer, Complete, RegistryLock, ExitsOk;
    var task := s.threads[t].pc.task;
    var conn := s.conns[task.conn];
    assert PipeOk(conn, TaskOn(s, task.conn));
    if !conn.broken {
      assert Answering(conn, task.request, task.got);
      var got := task.got + [conn.toServer[0]];
      assert got + conn.toServer[1..] + conn.pending == conn.answer;
      assert got <= conn.answer;
      ReplyEnds(task.request, conn.answer, got);
    }
  }

  /** `t` wrote `request` at step `k` and has held the connection's mutex since. */
  ghost predicate ReadingSince(states: seq<Sys>, labels: seq<Label>, k: nat, i: nat, t: Tid, c: ConnId, request: Frame)
    requires |states| == |labels| + 1 && i <= |labels|
  {
    && k < i && labels[k] == OnDevice(t, SendOk)
    && forall j | k < j <= i :: IsReading(states[j], t, c, request)
  }

  predicate IsReading(s: Sys, t: Tid, c: ConnId, request: Frame) {
    && t in s.threads && s.threads[t].pc.InDevice?
    && s.threads[t].pc.task.Read? && s.threads[t].pc.task.conn == c && s.threads[t].pc.task.request == request
    && c in s.conns
  }

  lemma ReadingStep(s: Sys, l: Label, s': Sys, maxDevices: nat, t: Tid, c: ConnId, request: Frame)
    requires ThreadsOk(s) && LocksOk(s) && Next(s, l, s', maxDevices) && IsReading(s', t, c, request)
    ensures l == OnDevice(t, SendOk) || IsReading(s, t, c, request)
  {
    hide DaemonEffect, DaemonEnabled, Registered, StoredConn, Offline, ValidTarget, SeenOk, TargetOk, DeviceLocks,
         RegistryLock, Complete, IsAnswer;
    if t in s.threads {
      assert ThreadOk(s.devices, s.conns.Keys, s.threads[t]);
    }
  }

  lemma {:induction false} ReadBegan(states: seq<Sys>, labels: seq<Label>, maxDevices: nat, i: nat, t: Tid, c: ConnId,
        request: Frame)
    requires IsRun(states, labels, maxDevices) && i <= |labels| && IsReading(states[i], t, c, request)
    ensures exists k :: ReadingSince(states, labels, k, i, t, c, request)
    decreases i
  {
    if i > 0 {
      Reachable(states, labels, maxDevices, i - 1);
      ReadingStep(states[i - 1], labels[i - 1], states[i], maxDevices, t, c, request);
      if labels[i - 1] == OnDevice(t, SendOk) {
        assert ReadingSince(states, labels, i - 1, i, t, c, request);
      } else {
        ReadBegan(states, labels, maxDevices, i - 1, t, c, request);
        var k :| ReadingSince(states, labels, k, i - 1, t, c, request);
        assert ReadingSince(states, labels, k, i, t, c, request);
      }
    }
  }

  /** The daemon took `request` off connection `c` at step `m` and chose this reply. */
  ghost predicate Answered(states: seq<Sys>, labels: seq<Label>, m: nat, c: ConnId, request: Frame, reply: seq<Frame>)
    requires |states| == |labels| + 1 && m < |labels|
  {
    && labels[m] == OnDaemon(c, Answer(reply))
    && c in states[m].conns && states[m].conns[c].toDevice != [] && states[m].conns[c].toDevice[0] == request
  }

  /** How a connection whose request is still unanswered comes to be answering it. */
  lemma AnswerStep(s: Sys, l: Label, s': Sys, maxDevices: nat, t: Tid, c: ConnId, request: Frame)
    requires Invariant(s, maxDevices) && Next(s, l, s', maxDevices)
    requires IsReading(s, t, c, request) && IsReading(s', t, c, request)
    requires !s'.conns[c].broken && s'.conns[c].toDevice == []
    ensures !s.conns[c].broken
    ensures s.conns[c].toDevice == [] ==> s'.conns[c].answer == s.conns[c].answer
    ensures s.conns[c].toDevice != [] ==>
              l == OnDaemon(c, Answer(s'.conns[c].answer)) && s.conns[c].toDevice[0] == request
  {
    hide Section, Registered, Full, MayStart, IsReply, IsAnswer, Complete, ThreadsOk, DevicesOk, RegistryLock, ExitsOk;
    assert PipeOk(s.conns[c], TaskOn(s, c));
  }

  lemma SentIsOnItsWay(s: Sys, t: Tid, s': Sys, maxDevices: nat)
    requires Next(s, OnDevice(t, SendOk), s', maxDevices)
    ensures s'.conns[s'.threads[t].pc.task.conn].toDevice != []
  {
  }

  lemma {:induction false} AnswerCame(states: seq<Sys>, labels: seq<Label>, maxDevices: nat, k: nat, i: nat, t: Tid,
        c: ConnId, request: Frame)
    requires IsRun(states, labels, maxDevices) && i <= |labels|
    requires ReadingSince(states, labels, k, i, t, c, request)
    requires !states[i].conns[c].broken && states[i].conns[c].toDevice == []
    ensures exists m: nat :: k < m < i && Answered(states, labels, m, c, request, states[i].conns[c].answer)
    decreases i
  {
    if k + 1 == i {
      SentIsOnItsWay(states[k], t, states[i], maxDevices);
      assert false;
    } else {
      assert IsReading(states[i - 1], t, c, request) && IsReading(states[i], t, c, request);
      Reachable(states, labels, maxDevices, i - 1);
      AnswerStep(states[i - 1], labels[i - 1], states[i], maxDevices, t, c, request);
      if states[i - 1].conns[c].toDevice == [] {
        assert ReadingSince(states, labels, k, i - 1, t, c, request);
        AnswerCame(states, labels, maxDevices, k, i - 1, t, c, request);
      } else {
        assert Answered(states, labels, i - 1, c, request, states[i].conns[c].answer);
      }
    }
  }

  /** A whole exchange, over every interleaving and every daemon: the frames a proxy
      has read when it finishes on an unbroken connection are exactly a whole reply,
      which the daemon chose for this proxy's request, after this proxy wrote it and
      while it held the mutex. */
  lemma ProxyExchange(states: seq<Sys>, labels: seq<Label>, maxDevices: nat, i: nat, t: Tid, c: ConnId, request: Frame)
    requires IsRun(states, labels, maxDevices) && i < |labels|
    requires labels[i].OnDevice? && labels[i].t == t && labels[i].event.ReadOk?
    requires IsReading(states[i], t, c, request) && !states[i].conns[c].broken
    requires states[i + 1].threads[t].pc == LeavingDevice(c, Idle) && !states[i + 1].conns[c].broken
    ensures var got := states[i].threads[t].pc.task.got + [states[i].conns[c].toServer[0]];
            && IsRequest(request) && IsReply(request, got)
            && exists k: nat, m: nat :: k < m < i && ReadingSince(states, labels, k, i, t, c, request)
                                        && Answered(states, labels, m, c, request, got)
  {
    hide IsReply, IsAnswer, Complete;
    ProxyReadsItsReply(states, labels, maxDevices, i);
    ReadBegan(states, labels, maxDevices, i, t, c, request);
    var k :| ReadingSince(states, labels, k, i, t, c, request);
    Reachable(states, labels, maxDevices, i);
    assert PipeOk(states[i].conns[c], TaskOn(states[i], c));
    AnswerCame(states, labels, maxDevices, k, i, t, c, request);
  }

  /** A requester that stops reading mid-GET leaves the rest of the answer behind. When
      the daemon's answer is a whole reply, the connection is clean after the proxy
      lets go exactly if all of it was read; otherwise the next frame to come is not
      an answer to the next request. */
  lemma GivingUpLeavesFrames(states: seq<Sys>, labels: seq<Label>, maxDevices: nat, i: nat)
    requires IsRun(states, labels, maxDevices) && i < |labels|
    requires labels[i].OnDevice? && labels[i].event == ReadOk(false)
    ensures Holds(states[i], labels[i].t)
    ensures LeavesRest(states[i], labels[i].t, states[i + 1])
  {
    Reachable(states, labels, maxDevices, i);
    GiveUpStep(states[i], labels[i].t, states[i + 1], maxDevices);
  }

  /** The proxy lets go; what it read and what is left make up the daemon's answer. */
  ghost predicate LeavesRest(s: Sys, t: Tid, s': Sys)
    requires Holds(s, t)
  {
    var task := s.threads[t].pc.task;
    var conn := s.conns[task.conn];
    && task.Read? && IsRequest(task.request) && conn.toServer != []
    && t in s'.threads && task.conn in s'.conns
    && var got, left := task.got + [conn.toServer[0]], s'.conns[task.conn].toServer + s'.conns[task.conn].pending;
    && s'.threads[t].pc == LeavingDevice(task.conn, Idle)
    && (!conn.broken ==>
          && got + left == conn.answer
          && (Complete(task.request, got) ==> left == [])
          && (IsReply(task.request, conn.answer) ==> (left == [] <==> Complete(task.request, got))))
  }

  lemma GiveUpStep(s: Sys, t: Tid, s': Sys, maxDevices: nat)
    requires Invariant(s, maxDevices) && Next(s, OnDevice(t, ReadOk(false)), s', maxDevices)
    ensures LeavesRest(s, t, s')
  {
    hide ThreadsOk, DevicesOk, IsAnswer, Complete, RegistryLock, ExitsOk;
    var task := s.threads[t].pc.task;
    var conn, conn' := s.conns[task.conn], s'.conns[task.conn];
    assert PipeOk(conn, TaskOn(s, task.conn));
    if !conn.broken {
      assert Answering(conn, task.request, task.got);
      var got := task.got + [conn.toServer[0]];
      assert got + (conn.toServer[1..] + conn.pending) == conn.answer;
      assert got <= conn.answer;
      ReplyEnds(task.request, conn.answer, got);
    }
  }

  // --- who takes whom offline ---

  /** The look is stale only after an accepted registration of that very pair. */
  lemma StaleOnlyByRegistration(s: Sys, l: Label, s': Sys, maxDevices: nat, t: Tid)
    requires DevicesOk(s, maxDevices) && ThreadsOk(s) && Next(s, l, s', maxDevices) && t in s.threads
    requires s.threads[t].seen.Some? ==> !s.threads[t].seen.value.stale
    requires s'.threads[t].seen.Some? && s'.threads[t].seen.value.stale
    ensures l.RunRegister? && !Full(s.devices, maxDevices)
    ensures s.threads[l.t].pc.job.id == s'.threads[t].seen.value.id
    ensures StoredConn(s'.devices, s'.threads[t].seen.value.id) == Some(l.conn)
  {
    hide DeviceEffect, DaemonEffect, MayStart, DeviceEnabled, DaemonEnabled;
    if l.RunRegister? && !Full(s.devices, maxDevices) {
      var job := s.threads[l.t].pc.job;
      RegisteredConsistent(s.devices, job.id, job.addr, l.now, l.conn, maxDevices);
    }
  }

  /** The monitor is between its currency check and the end of its mark, and the pair
      has not registered since. */
  predicate Marking(th: Thread, id: Identity, c: ConnId) {
    && th.role == Monitor(c, id) && th.seen == Some(Seen(id, c, false))
    && (Ahead(th.pc) == WantRegistry(MarkOffline) || th.pc == InRegistry(MarkOffline) || Ahead(th.pc) == Done)
  }

  /** The step is an accepted registration of `id`. */
  predicate Registers(s: Sys, l: Label, id: Identity, maxDevices: nat) {
    && l.RunRegister? && !Full(s.devices, maxDevices)
    && l.t in s.threads && s.threads[l.t].pc.InRegistry? && s.threads[l.t].pc.job.Register?
    && s.threads[l.t].pc.job.id == id
  }

  lemma MarkingStep(s: Sys, l: Label, s': Sys, maxDevices: nat, t: Tid, id: Identity, c: ConnId)
    requires Next(s, l, s', maxDevices) && t in s.threads && Marking(s.threads[t], id, c)
    requires !Registers(s, l, id, maxDevices)
    ensures t in s'.threads && Marking(s'.threads[t], id, c)
  {
    hide DeviceEffect, DaemonEffect, MayStart, DeviceEnabled, DaemonEnabled, Registered, StoredConn, Offline;
  }

  /** A heartbeat monitor never takes a reconnected device offline in a run where no
      registration of its pair falls between its currency check and its mark. */
  lemma {:induction false} MonitorSparesReconnected(states: seq<Sys>, labels: seq<Label>, maxDevices: nat,
      i: nat, j: nat, t: Tid, id: Identity, c: ConnId)
    requires IsRun(states, labels, maxDevices) && i < j <= |labels|
    requires t in states[i].threads && states[i].threads[t].role == Monitor(c, id)
    requires labels[i].RunSection? && labels[i].t == t && states[i].threads[t].pc == InRegistry(CheckCurrent)
    requires states[i + 1].threads[t].pc == LeavingRegistry(WantRegistry(MarkOffline))
    requires forall k | i < k < j :: !Registers(states[k], labels[k], id, maxDevices)
    ensures t in states[j].threads && Marking(states[j].threads[t], id, c)
    ensures StoredConn(states[j].devices, id) == None || StoredConn(states[j].devices, id) == Some(c)
    decreases j
  {
    hide DeviceEffect, DaemonEffect, Registered, Full, MayStart, PipesOk, LocksOk, DevicesOk, Registers;
    if j == i + 1 {
      assert Next(states[i], labels[i], states[i + 1], maxDevices);
    } else {
      MonitorSparesReconnected(states, labels, maxDevices, i, j - 1, t, id, c);
      MarkingStep(states[j - 1], labels[j - 1], states[j], maxDevices, t, id, c);
    }
    Reachable(states, labels, maxDevices, j);
    assert ThreadOk(states[j].devices, states[j].conns.Keys, states[j].threads[t]);
  }

  /** A monitor that has left its ping loop. */
  predicate PastPing(th: Thread) {
    th.role.Monitor? && (Ahead(th.pc).WantRegistry? || th.pc.InRegistry? || Ahead(th.pc).Done?)
  }

  /** A monitor leaves its ping loop exactly when a ping fails, never returns to it, and
      writes nothing more to the connection. */
  lemma MonitorStopsAfterFailedPing(states: seq<Sys>, labels: seq<Label>, maxDevices: nat, i: nat, t: Tid)
    requires IsRun(states, labels, maxDevices) && i < |labels| && t in states[i].threads
    ensures PastPing(states[i + 1].threads[t]) <==>
              PastPing(states[i].threads[t]) || labels[i] == OnDevice(t, PingFail)
    ensures PastPing(states[i].threads[t]) && labels[i].OnDevice? ==> labels[i].t != t
  {
    Reachable(states, labels, maxDevices, i);
    assert ThreadOk(states[i].devices, states[i].conns.Keys, states[i].threads[t]);
    MonitorStep(states[i], labels[i], states[i + 1], maxDevices, t);
  }

  lemma MonitorStep(s: Sys, l: Label, s': Sys, maxDevices: nat, t: Tid)
    requires ExitsOk(s) && Next(s, l, s', maxDevices) && t in s.threads && ShapeOk(s.threads[t])
    ensures PastPing(s'.threads[t]) <==> PastPing(s.threads[t]) || l == OnDevice(t, PingFail)
    ensures PastPing(s.threads[t]) && l.OnDevice? ==> l.t != t
  {
    hide DaemonEffect, DaemonEnabled, Registered, StoredConn, Offline;
  }

  // --- targets ---

  /** The pair is that of the server or of a record. */
  ghost predicate Selectable(devs: seq<DeviceRecord>, id: Identity) {
    id == (SERVER, []) || exists d :: d in devs && d.name == id.0 && d.user == id.1
  }

  lemma SelectableIsValid(devs: seq<DeviceRecord>, id: Identity)
    ensures ValidTarget(devs, id) <==> Selectable(devs, id)
  {
    assert forall d | d in devs :: Matches(OfPair(id), d) <==> d.name == id.0 && d.user == id.1;
  }

  /** What a step makes of a session's target: a SET_TARGET of the server or a
      registered pair is granted, a first request picks the default, and nothing else
      changes it. */
  ghost function NextTarget(s: Sys, l: Label, t: Tid): Option<Identity>
    requires t in s.threads && s.threads[t].role.Client?
  {
    var th := s.threads[t];
    if l.RunSection? && l.t == t && th.pc.InRegistry? && th.pc.job.SetTarget? && Selectable(s.devices, th.pc.job.id)
    then Some(th.pc.job.id)
    else if l.RunSection? && l.t == t && th.pc.InRegistry? && th.pc.job.PickDefault? then Some(DefaultTarget(s.devices))
    else th.role.target
  }

  /** A session's target is always unset, the server, or a registered pair. It is
      first set to the earliest-registered active device, and afterwards it changes
      exactly by a SET_TARGET of the server or a registered pair. */
  lemma TargetChangesOnlyWhenAsked(states: seq<Sys>, labels: seq<Label>, maxDevices: nat, i: nat, t: Tid)
    requires IsRun(states, labels, maxDevices) && i < |labels|
    requires t in states[i].threads && states[i].threads[t].role.Client?
    ensures t in states[i + 1].threads && states[i + 1].threads[t].role == Client(NextTarget(states[i], labels[i], t))
    ensures var after := NextTarget(states[i], labels[i], t);
            after.Some? ==> Selectable(states[i + 1].devices, after.value)
    ensures states[i].threads[t].pc.InRegistry? && states[i].threads[t].pc.job.PickDefault? ==>
              states[i].threads[t].role.target == None
  {
    Reachable(states, labels, maxDevices, i);
    Reachable(states, labels, maxDevices, i + 1);
    TargetStep(states[i], labels[i], states[i + 1], maxDevices, t);
    assert ThreadOk(states[i].devices, states[i].conns.Keys, states[i].threads[t]);
    assert ThreadOk(states[i + 1].devices, states[i + 1].conns.Keys, states[i + 1].threads[t]);
    var after := NextTarget(states[i], labels[i], t);
    if after.Some? { SelectableIsValid(states[i + 1].devices, after.value); }
  }

  lemma TargetStep(s: Sys, l: Label, s': Sys, maxDevices: nat, t: Tid)
    requires Next(s, l, s', maxDevices) && t in s.threads && s.threads[t].role.Client?
    ensures t in s'.threads && s'.threads[t].role == Client(NextTarget(s, l, t))
  {
    hide DaemonEffect, DeviceEffect, MayStart, DaemonEnabled, DeviceEnabled, Registered, StoredConn, Offline,
         ValidTarget, DefaultTarget, Selectable;
    if l.RunSection? && s.threads[l.t].pc.job.SetTarget? {
      SelectableIsValid(s.devices, s.threads[l.t].pc.job.id);
    }
  }
}
