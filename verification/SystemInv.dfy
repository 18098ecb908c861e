/** What every reachable state of the server satisfies. */
module SystemInv {
  import opened Common
  import opened Registry
  import opened System

  // --- mutexes ---

  predicate InsideRegistry(th: Thread) {
    th.pc.InRegistry? || th.pc.LeavingRegistry?
  }

  /** The connection whose mutex a thread holds. */
  function DeviceOf(th: Thread): Option<ConnId> {
    match th.pc
    case InDevice(task) => Some(task.conn)
    case LeavingDevice(c, _) => Some(c)
    case _ => None
  }

  ghost predicate LocksOk(s: Sys) {
    RegistryLock(s) && DeviceLocks(s) && ExitsOk(s)
  }

  /** The registry mutex is held by exactly the thread inside it. */
  ghost predicate RegistryLock(s: Sys) {
    && (s.registry.Some? ==> s.registry.value in s.threads)
    && (forall t | t in s.threads :: InsideRegistry(s.threads[t]) <==> s.registry == Some(t))
  }

  /** A thread that leaves goes where it holds no mutex. */
  ghost predicate ExitsOk(s: Sys) {
    forall t | t in s.threads && (s.threads[t].pc.LeavingRegistry? || s.threads[t].pc.LeavingDevice?) ::
      Outside(s.threads[t].pc.next)
  }

  /** Places where a thread holds no mutex. */
  predicate Outside(pc: Pc) {
    pc.Idle? || pc.WantRegistry? || pc.WantDevice? || pc.Done?
  }

  /** Each device mutex is held by exactly the thread inside it. */
  ghost predicate DeviceLocks(s: Sys) {
    && (forall t | t in s.threads && DeviceOf(s.threads[t]).Some? ::
          DeviceOf(s.threads[t]).value in s.conns && s.conns[DeviceOf(s.threads[t]).value].holder == Some(t))
    && (forall c | c in s.conns && s.conns[c].holder.Some? ::
          s.conns[c].holder.value in s.threads && DeviceOf(s.threads[s.conns[c].holder.value]) == Some(c))
  }

  lemma DeviceEffectLocks(conn: Conn, task: Task, e: DeviceEvent)
    requires DeviceEnabled(conn, task, e)
    ensures var (conn', pc) := DeviceEffect(conn, task, e);
            && conn'.holder == conn.holder
            && ((pc.InDevice? && pc.task.conn == task.conn)
                || (pc.LeavingDevice? && pc.conn == task.conn && Outside(pc.next)))
  {
  }

  lemma RegistryLockKept(s: Sys, l: Label, s': Sys, maxDevices: nat)
    requires LocksOk(s) && Next(s, l, s', maxDevices)
    ensures RegistryLock(s')
  {
    hide DeviceEffect, DaemonEffect, Section, Registered, Full, MayStart, DeviceEnabled, DaemonEnabled, DeviceLocks;
    match l
    case Start(t, next) => IdleGoesWaiting(s.threads[t], next);
    case RunSection(t, now) => SectionLeaves(s.devices, s.threads[t], now);
    case OnDevice(t, e) =>
      DeviceEffectLocks(s.conns[s.threads[t].pc.task.conn], s.threads[t].pc.task, e);
    case OnDaemon(c, e) => DaemonKeepsHolder(s.conns[c], e);
    case _ =>
  }

  lemma ExitsKept(s: Sys, l: Label, s': Sys, maxDevices: nat)
    requires LocksOk(s) && Next(s, l, s', maxDevices)
    ensures ExitsOk(s')
  {
    hide DeviceEffect, DaemonEffect, Section, Registered, Full, MayStart, DeviceEnabled, DaemonEnabled, DeviceLocks,
         RegistryLock;
    match l
    case Start(t, next) => IdleGoesWaiting(s.threads[t], next);
    case RunSection(t, now) => SectionLeaves(s.devices, s.threads[t], now);
    case OnDevice(t, e) =>
      DeviceEffectLocks(s.conns[s.threads[t].pc.task.conn], s.threads[t].pc.task, e);
    case OnDaemon(c, e) => DaemonKeepsHolder(s.conns[c], e);
    case _ =>
  }

  lemma DeviceLocksKept(s: Sys, l: Label, s': Sys, maxDevices: nat)
    requires LocksOk(s) && Next(s, l, s', maxDevices)
    ensures DeviceLocks(s')
  {
    hide LocksOk, Next, DeviceLocks;
    if l.LockDevice? || l.UnlockDevice? {
      MutexStepKeepsLocks(s, l, s', maxDevices);
    } else if l.OnDevice? || l.OnDaemon? {
      DeviceStepKeepsLocks(s, l, s', maxDevices);
    } else {
      OtherStepKeepsLocks(s, l, s', maxDevices);
    }
  }

  lemma MutexStepKeepsLocks(s: Sys, l: Label, s': Sys, maxDevices: nat)
    requires LocksOk(s) && Next(s, l, s', maxDevices) && (l.LockDevice? || l.UnlockDevice?)
    ensures DeviceLocks(s')
  {
    hide RegistryLock;
  }

  lemma DeviceStepKeepsLocks(s: Sys, l: Label, s': Sys, maxDevices: nat)
    requires LocksOk(s) && Next(s, l, s', maxDevices) && (l.OnDevice? || l.OnDaemon?)
    ensures DeviceLocks(s')
  {
    hide DeviceEffect, DaemonEffect, DeviceEnabled, DaemonEnabled, RegistryLock, ExitsOk, Outside;
    match l
    case OnDevice(t, e) =>
      DeviceEffectLocks(s.conns[s.threads[t].pc.task.conn], s.threads[t].pc.task, e);
    case OnDaemon(c, e) => DaemonKeepsHolder(s.conns[c], e);
    case _ =>
  }

  lemma OtherStepKeepsLocks(s: Sys, l: Label, s': Sys, maxDevices: nat)
    requires LocksOk(s) && Next(s, l, s', maxDevices)
    requires !(l.LockDevice? || l.UnlockDevice? || l.OnDevice? || l.OnDaemon?)
    ensures DeviceLocks(s')
  {
    hide Section, Registered, Full, MayStart, RegistryLock;
    match l
    case Start(t, next) => IdleGoesWaiting(s.threads[t], next);
    case RunSection(t, now) => SectionLeaves(s.devices, s.threads[t], now);
    case _ =>
  }

  lemma IdleGoesWaiting(th: Thread, next: Pc)
    requires MayStart(th, next)
    ensures next.WantRegistry? || next.WantDevice?
  {
  }

  lemma SectionLeaves(devs: seq<DeviceRecord>, th: Thread, now: nat)
    requires th.pc.InRegistry? && !th.pc.job.Register?
    ensures Section(devs, th, now).1.pc.LeavingRegistry? && Outside(Section(devs, th, now).1.pc.next)
  {
  }

  lemma DaemonKeepsHolder(conn: Conn, e: DaemonEvent)
    requires DaemonEnabled(conn, e)
    ensures DaemonEffect(conn, e).holder == conn.holder
  {
  }

  // --- threads ---

  predicate JobOk(job: Job) {
    match job
    case PickDefault(op, _) => IsFsOp(op)
    case CheckActive(op, _) => IsFsOp(op)
    case Resolve(op, _, _) => IsFsOp(op)
    case FindConn(op, _, _) => IsFsOp(op)
    case _ => true
  }

  predicate TaskOk(task: Task, seen: Option<Seen>) {
    match task
    case Ping(_) => true
    case Send(c, request) => IsRequest(request) && seen.Some? && seen.value.conn == c
    case Read(c, request, got) =>
      IsRequest(request) && seen.Some? && seen.value.conn == c && !Complete(request, got)
  }

  /** Where a thread goes on, once it has given back what it is leaving. */
  function Ahead(pc: Pc): Pc {
    if pc.LeavingRegistry? || pc.LeavingDevice? then pc.next else pc
  }

  /** Where a thread of each role can be. */
  predicate RoleOk(role: Role, seen: Option<Seen>, pc: Pc) {
    match role
    case Acceptor =>
      pc.Idle? || ((pc.WantRegistry? || pc.InRegistry?) && pc.job.Register?)
    case Monitor(c, id) =>
      && (pc.WantRegistry? || pc.InRegistry? ==> pc.job.CheckCurrent? || pc.job.MarkOffline?)
      && (pc.WantDevice? || pc.InDevice? ==> pc.task == Ping(c))
      && (seen.Some? ==> seen.value.id == id && seen.value.conn == c)
    case Client(target) =>
      && (pc.WantRegistry? || pc.InRegistry? ==>
            !pc.job.Register? && !pc.job.CheckCurrent? && (pc.job.PickDefault? ==> target == None))
      && (pc.WantDevice? || pc.InDevice? ==> !pc.task.Ping?)
      && !pc.Done?
  }

  predicate ShapeOk(th: Thread) {
    var pc := Ahead(th.pc);
    && RoleOk(th.role, th.seen, pc)
    && (pc.WantRegistry? || pc.InRegistry? ==>
          JobOk(pc.job) && (pc.job.MarkOffline? ==> th.seen.Some?))
    && (pc.WantDevice? || pc.InDevice? ==> TaskOk(pc.task, th.seen))
    && (pc.WantDevice? ==> !pc.task.Read?)
  }

  /** Every connection a thread refers to exists. */
  predicate ConnsKnown(conns: set<ConnId>, th: Thread) {
    && (th.role.Monitor? ==> th.role.conn in conns)
    && (th.seen.Some? ==> th.seen.value.conn in conns)
  }

  /** Until its pair registers again, a thread's connection is the stored one unless
      that was taken offline; afterwards it never is. */
  predicate SeenOk(devs: seq<DeviceRecord>, th: Thread) {
    th.seen.Some? ==>
      var stored := StoredConn(devs, th.seen.value.id);
      if th.seen.value.stale then stored != Some(th.seen.value.conn)
      else stored == None || stored == Some(th.seen.value.conn)
  }

  /** A session's target is unset, the server, or a pair in the registry. */
  predicate TargetOk(devs: seq<DeviceRecord>, th: Thread) {
    th.role.Client? && th.role.target.Some? ==> ValidTarget(devs, th.role.target.value)
  }

  ghost predicate ThreadOk(devs: seq<DeviceRecord>, conns: set<ConnId>, th: Thread) {
    ShapeOk(th) && ConnsKnown(conns, th) && SeenOk(devs, th) && TargetOk(devs, th)
  }

  ghost predicate ThreadsOk(s: Sys) {
    forall t | t in s.threads :: ThreadOk(s.devices, s.conns.Keys, s.threads[t])
  }

  ghost predicate DevicesOk(s: Sys, maxDevices: nat) {
    && Consistent(s.devices, maxDevices)
    && (forall i | 0 <= i < |s.devices| && s.devices[i].conn.Some? :: s.devices[i].conn.value in s.conns)
  }

  lemma StoredConnKnown(s: Sys, maxDevices: nat, id: Identity)
    requires DevicesOk(s, maxDevices)
    ensures StoredConn(s.devices, id).Some? ==> StoredConn(s.devices, id).value in s.conns
    ensures ActiveConn(s.devices, id).Some? ==> StoredConn(s.devices, id) == ActiveConn(s.devices, id)
  {
    if First(s.devices, ActivePair(id)).Some? {
      FirstIs(s.devices, OfPair(id), First(s.devices, ActivePair(id)).value);
    }
  }

  lemma StartThread(devs: seq<DeviceRecord>, conns: set<ConnId>, th: Thread, next: Pc)
    requires ThreadOk(devs, conns, th) && th.pc == Idle && MayStart(th, next)
    ensures ThreadOk(devs, conns, th.(pc := next))
  {
  }

  lemma SectionThread(s: Sys, maxDevices: nat, th: Thread, now: nat)
    requires DevicesOk(s, maxDevices) && ThreadOk(s.devices, s.conns.Keys, th)
    requires th.pc.InRegistry? && !th.pc.job.Register?
    ensures var (devs, th') := Section(s.devices, th, now); ThreadOk(devs, s.conns.Keys, th')
  {
    match th.pc.job
    case MarkOffline =>
      OfflineConsistent(s.devices, th.seen.value.id, now, maxDevices);
      MarkKeepsThread(s.devices, s.conns.Keys, th, th.seen.value.id, now, maxDevices);
    case PickDefault(op, path) => DefaultTargetValid(s.devices);
    case FindConn(op, id, path) => StoredConnKnown(s, maxDevices, id);
    case _ =>
  }

  lemma MarkKeepsThread(devs: seq<DeviceRecord>, conns: set<ConnId>, th: Thread, id: Identity, now: nat,
        maxDevices: nat)
    requires Consistent(devs, maxDevices) && ThreadOk(devs, conns, th)
    ensures ThreadOk(Offline(devs, id, now), conns, th)
  {
    hide Offline, ValidTarget;
    OfflineConsistent(devs, id, now, maxDevices);
    if th.role.Client? && th.role.target.Some? {
      TargetStaysValid(devs, Offline(devs, id, now), th.role.target.value);
    }
  }

  lemma RegisterKeepsThread(devs: seq<DeviceRecord>, conns: set<ConnId>, th: Thread, job: Job, now: nat, c: ConnId,
        maxDevices: nat)
    requires Consistent(devs, maxDevices) && !Full(devs, maxDevices) && ThreadOk(devs, conns, th)
    requires job.Register? && c !in conns
    ensures var th' := Stale(th, job.id);
            ThreadOk(Registered(devs, job.id, job.addr, now, c), conns + {c}, th')
  {
    hide Registered, ValidTarget;
    RegisteredConsistent(devs, job.id, job.addr, now, c, maxDevices);
    if th.role.Client? && th.role.target.Some? {
      TargetStaysValid(devs, Registered(devs, job.id, job.addr, now, c), th.role.target.value);
    }
  }

  lemma DeviceEffectThread(devs: seq<DeviceRecord>, conns: set<ConnId>, th: Thread, conn: Conn, e: DeviceEvent)
    requires ThreadOk(devs, conns, th) && th.pc.InDevice? && DeviceEnabled(conn, th.pc.task, e)
    ensures ThreadOk(devs, conns, th.(pc := DeviceEffect(conn, th.pc.task, e).1))
  {
  }

  lemma ThreadsKept(s: Sys, l: Label, s': Sys, maxDevices: nat)
    requires LocksOk(s) && DevicesOk(s, maxDevices) && ThreadsOk(s) && Next(s, l, s', maxDevices)
    ensures ThreadsOk(s')
  {
    hide DeviceEffect, DaemonEffect, Section, Registered, Full, MayStart, DeviceEnabled, DaemonEnabled, ThreadOk,
         Consistent;
    match l
    case LockRegistry(t) => LockThread(s, t);
    case UnlockRegistry(t) => LockThread(s, t);
    case LockDevice(t) =>
      LockThread(s, t);
      assert s'.conns.Keys == s.conns.Keys;
    case UnlockDevice(t) =>
      LockThread(s, t);
      assert s'.conns.Keys == s.conns.Keys;
    case Start(t, next) => StartThread(s.devices, s.conns.Keys, s.threads[t], next);
    case RunRegister(t, now, c, m) => RegisterThreads(s, l, s', maxDevices);
    case RunSection(t, now) => SectionThreads(s, l, s', maxDevices);
    case OnDevice(t, e) =>
      DeviceEffectThread(s.devices, s.conns.Keys, s.threads[t], s.conns[s.threads[t].pc.task.conn], e);
      assert s'.conns.Keys == s.conns.Keys;
    case OnDaemon(c, e) =>
      assert s'.conns.Keys == s.conns.Keys;
  }

  lemma LockThread(s: Sys, t: Tid)
    requires ThreadsOk(s) && LocksOk(s) && t in s.threads
    ensures s.threads[t].pc.LeavingRegistry? || s.threads[t].pc.LeavingDevice? ==>
              ThreadOk(s.devices, s.conns.Keys, s.threads[t].(pc := s.threads[t].pc.next))
    ensures s.threads[t].pc.WantRegistry? ==>
              ThreadOk(s.devices, s.conns.Keys, s.threads[t].(pc := InRegistry(s.threads[t].pc.job)))
    ensures s.threads[t].pc.WantDevice? ==>
              ThreadOk(s.devices, s.conns.Keys, s.threads[t].(pc := InDevice(s.threads[t].pc.task)))
  {
  }

  lemma RegisterThreads(s: Sys, l: Label, s': Sys, maxDevices: nat)
    requires DevicesOk(s, maxDevices) && ThreadsOk(s) && Next(s, l, s', maxDevices) && l.RunRegister?
    ensures ThreadsOk(s')
  {
    hide Registered, Full, Consistent;
    var job := s.threads[l.t].pc.job;
    var idle := Leave(s.threads[l.t], Idle);
    assert ThreadOk(s.devices, s.conns.Keys, idle);
    if !Full(s.devices, maxDevices) {
      var devs' := Registered(s.devices, job.id, job.addr, l.now, l.conn);
      assert s'.conns.Keys == s.conns.Keys + {l.conn};
      forall u | u in s'.threads ensures ThreadOk(devs', s'.conns.Keys, s'.threads[u]) {
        if u != l.monitor {
          var th := if u == l.t then idle else s.threads[u];
          RegisterKeepsThread(s.devices, s.conns.Keys, th, job, l.now, l.conn, maxDevices);
        }
      }
    }
  }

  lemma SectionThreads(s: Sys, l: Label, s': Sys, maxDevices: nat)
    requires DevicesOk(s, maxDevices) && ThreadsOk(s) && Next(s, l, s', maxDevices) && l.RunSection?
    ensures ThreadsOk(s')
  {
    hide ThreadOk, Consistent, Section;
    var th := s.threads[l.t];
    SectionThread(s, maxDevices, th, l.now);
    SectionDevices(s.devices, th, l.now);
    forall u | u in s'.threads ensures ThreadOk(s'.devices, s'.conns.Keys, s'.threads[u]) {
      if u != l.t && s'.devices != s.devices {
        MarkKeepsThread(s.devices, s.conns.Keys, s.threads[u], th.seen.value.id, l.now, maxDevices);
      }
    }
  }

  lemma SectionDevices(devs: seq<DeviceRecord>, th: Thread, now: nat)
    requires th.pc.InRegistry? && !th.pc.job.Register?
    ensures var devs' := Section(devs, th, now).0;
            devs' == devs || (th.pc.job.MarkOffline? && th.seen.Some? && devs' == Offline(devs, th.seen.value.id, now))
  {
  }

  lemma DevicesKept(s: Sys, l: Label, s': Sys, maxDevices: nat)
    requires DevicesOk(s, maxDevices) && Next(s, l, s', maxDevices)
    ensures DevicesOk(s', maxDevices)
    ensures Identities(s.devices) <= Identities(s'.devices)
  {
    hide DeviceEffect, DaemonEffect, Section, MayStart, DeviceEnabled, DaemonEnabled;
    match l
    case RunRegister(t, now, c, m) =>
      var job := s.threads[t].pc.job;
      if !Full(s.devices, maxDevices) {
        RegisteredConsistent(s.devices, job.id, job.addr, now, c, maxDevices);
      }
    case RunSection(t, now) =>
      SectionDevices(s.devices, s.threads[t], now);
      if s'.devices != s.devices {
        OfflineConsistent(s.devices, s.threads[t].seen.value.id, now, maxDevices);
      }
    case _ =>
  }
}
