/** What a failed connection leads to, and the way of a request through the registry. */
module SystemFailures {
  import opened Common
  import opened Core
  import opened Registry
  import opened System
  import opened SystemInv
  import opened SystemRuns
  import opened SystemTraces
  import Fs
  import Proxy
  import Utf8

  // --- what a thread does next ---

  /** The step is a section of `t` under the registry mutex. */
  predicate SectionOf(l: Label, t: Tid) {
    (l.RunSection? || l.RunRegister?) && l.t == t
  }

  predicate StepOf(l: Label, t: Tid) {
    !l.OnDaemon? && l.t == t
  }

  /** Giving back one mutex or taking the registry's. */
  predicate MutexStep(l: Label, t: Tid) {
    l == UnlockDevice(t) || l == UnlockRegistry(t) || l == LockRegistry(t)
  }

  /** The thread is on its way to this section, and it has seen what `was` has seen. */
  predicate OnItsWay(th: Thread, job: Job, was: Thread) {
    HasJob(th, job) && th.role == was.role && SameLook(th.seen, was.seen)
  }

  lemma WayStep(s: Sys, l: Label, s': Sys, maxDevices: nat, t: Tid, job: Job, was: Thread)
    requires Next(s, l, s', maxDevices) && t in s.threads && OnItsWay(s.threads[t], job, was)
    ensures SectionOf(l, t) ==> s.threads[t].pc == InRegistry(job)
    ensures !SectionOf(l, t) ==> t in s'.threads && OnItsWay(s'.threads[t], job, was)
    ensures !SectionOf(l, t) && StepOf(l, t) ==> MutexStep(l, t)
  {
    hide DeviceEffect, DaemonEffect, Section, Registered, Full, MayStart, DeviceEnabled, DaemonEnabled;
  }

  /** A thread on its way to a section does nothing but give back what it holds and wait
      for the registry, until it runs that section. */
  lemma {:induction false} SectionComesNext(states: seq<Sys>, labels: seq<Label>, maxDevices: nat, i: nat, j: nat,
        t: Tid, job: Job)
    requires IsRun(states, labels, maxDevices) && i <= j <= |labels|
    requires t in states[i].threads && HasJob(states[i].threads[t], job)
    requires forall k | i <= k < j :: !SectionOf(labels[k], t)
    ensures t in states[j].threads && OnItsWay(states[j].threads[t], job, states[i].threads[t])
    ensures forall k | i <= k < j && StepOf(labels[k], t) :: MutexStep(labels[k], t)
    ensures j < |labels| && SectionOf(labels[j], t) ==> states[j].threads[t].pc == InRegistry(job)
    decreases j
  {
    hide Next, OnItsWay, SectionOf, StepOf, MutexStep;
    var was := states[i].threads[t];
    if i < j {
      SectionComesNext(states, labels, maxDevices, i, j - 1, t, job);
      WayStep(states[j - 1], labels[j - 1], states[j], maxDevices, t, job, was);
    } else {
      assert OnItsWay(was, job, was) by { StartsOnItsWay(was, job); }
    }
    if j < |labels| {
      WayStep(states[j], labels[j], states[j + 1], maxDevices, t, job, was);
    }
  }

  lemma StartsOnItsWay(th: Thread, job: Job)
    requires HasJob(th, job)
    ensures OnItsWay(th, job, th)
  {
  }

  // --- a proxy whose device fails ---

  /** The device of proxy `t` fails while it writes its request or reads the reply. */
  predicate ProxyFails(l: Label, t: Tid) {
    l == OnDevice(t, SendFail) || l == OnDevice(t, ReadFail)
  }

  lemma FailStep(s: Sys, l: Label, s': Sys, maxDevices: nat, t: Tid)
    requires ThreadsOk(s) && Next(s, l, s', maxDevices) && ProxyFails(l, t)
    ensures Holds(s, t) && s.threads[t].seen.Some? && s.threads[t].seen.value.conn == s.threads[t].pc.task.conn
    ensures t in s'.threads && OnItsWay(s'.threads[t], MarkOffline, s.threads[t]) && s.threads[t].role.Client?
  {
    assert ThreadOk(s.devices, s.conns.Keys, s.threads[t]);
  }

  /** A proxy whose connection fails takes the device offline: from the failure on it
      does nothing but give back the mutex and wait for the registry, and its next
      section there is the mark. That mark removes the connection of the pair under
      which the proxy had looked up the connection that failed, and touches no other
      pair. */
  lemma FailedProxyMarks(states: seq<Sys>, labels: seq<Label>, maxDevices: nat, i: nat, j: nat, t: Tid)
    requires IsRun(states, labels, maxDevices) && i < j <= |labels| && ProxyFails(labels[i], t)
    requires forall k | i < k < j :: !SectionOf(labels[k], t)
    ensures Holds(states[i], t) && t in states[j].threads && HasJob(states[j].threads[t], MarkOffline)
    ensures forall k | i < k < j && StepOf(labels[k], t) :: MutexStep(labels[k], t)
    ensures j < |labels| && SectionOf(labels[j], t) ==>
              && states[j].threads[t].pc == InRegistry(MarkOffline)
              && MarksFailed(states, labels, maxDevices, i, j, t, states[i].threads[t].pc.task.conn)
  {
    hide Next, LocksOk, ThreadsOk, PipesOk, DevicesOk, MutexStep, StepOf, Registers, StoredConn, MarksSince, LooksUp;
    Reachable(states, labels, maxDevices, i);
    FailStep(states[i], labels[i], states[i + 1], maxDevices, t);
    SectionComesNext(states, labels, maxDevices, i + 1, j, t, MarkOffline);
    if j < |labels| && SectionOf(labels[j], t) {
      MarkIsSection(states[j], labels[j], states[j + 1], maxDevices, t);
      MarkTakesOwnConnection(states, labels, maxDevices, j);
      var k: nat, id, c :| k < j && LooksUp(states, labels, k, t, id, c)
                           && MarksSince(states, labels, k, j, id, c, maxDevices)
                           && SameLook(states[j].threads[t].seen, Some(Seen(id, c, false)));
      LookIsSection(states, labels, k, t, id, c);
      assert k < i;
      assert MarksFailed(states, labels, maxDevices, i, j, t, c);
    }
  }

  /** The mark at step `j` is that of a pair under which `t` had found connection `c`
      before step `i`. */
  ghost predicate MarksFailed(states: seq<Sys>, labels: seq<Label>, maxDevices: nat, i: nat, j: nat, t: Tid, c: ConnId)
    requires |states| == |labels| + 1 && i < j < |labels|
  {
    exists k: nat, id :: k < i && LooksUp(states, labels, k, t, id, c)
                         && MarksSince(states, labels, k, j, id, c, maxDevices)
  }

  lemma MarkIsSection(s: Sys, l: Label, s': Sys, maxDevices: nat, t: Tid)
    requires Next(s, l, s', maxDevices) && SectionOf(l, t) && t in s.threads
    requires s.threads[t].pc == InRegistry(MarkOffline)
    ensures l.RunSection?
  {
    hide DeviceEffect, DaemonEffect, Section, Registered, Full;
  }

  lemma LookIsSection(states: seq<Sys>, labels: seq<Label>, k: nat, t: Tid, id: Identity, c: ConnId)
    requires |states| == |labels| + 1 && k < |labels| && LooksUp(states, labels, k, t, id, c)
    ensures SectionOf(labels[k], t) && !ProxyFails(labels[k], t)
  {
  }

  /** How a client thread comes by a mark. */
  lemma MarkStepBack(s: Sys, l: Label, s': Sys, maxDevices: nat, t: Tid)
    requires ThreadsOk(s) && LocksOk(s) && Next(s, l, s', maxDevices) && t in s'.threads
    requires s'.threads[t].role.Client? && HasJob(s'.threads[t], MarkOffline)
    ensures t in s.threads && s.threads[t].role.Client? && SameLook(s.threads[t].seen, s'.threads[t].seen)
    ensures ProxyFails(l, t) || (HasJob(s.threads[t], MarkOffline) && !SectionOf(l, t))
  {
    hide DaemonEffect, DaemonEnabled, Registered, Full, Section, RegistryLock, DeviceLocks, SeenOk, TargetOk,
         ConnsKnown, Complete, IsAnswer;
    if t in s.threads { assert ThreadOk(s.devices, s.conns.Keys, s.threads[t]); }
    if l.RunSection? {
      SectionLeaves(s.devices, s.threads[l.t], l.now);
      NoClientMarks(s.devices, s.threads[l.t], l.now);
    }
  }

  lemma NoClientMarks(devs: seq<DeviceRecord>, th: Thread, now: nat)
    requires th.pc.InRegistry? && !th.pc.job.Register? && ShapeOk(th)
    ensures Section(devs, th, now).1.role.Client? ==> th.role.Client? && !HasJob(Section(devs, th, now).1, MarkOffline)
  {
    hide Offline, StoredConn, ActiveConn, ValidTarget, DefaultTarget, Proxy.ParseTwoStrings, Proxy.TwoStrings;
  }

  /** The converse: a proxy that is about to mark comes from a failure of the connection
      it had looked up, and has run no other section since. */
  lemma {:induction false} MarkCameFromFailure(states: seq<Sys>, labels: seq<Label>, maxDevices: nat, j: nat, t: Tid)
    requires IsRun(states, labels, maxDevices) && j <= |labels| && t in states[j].threads
    requires states[j].threads[t].role.Client? && HasJob(states[j].threads[t], MarkOffline)
    ensures exists i: nat :: i < j && FailedAt(states, labels, i, j, t)
    decreases j
  {
    hide Next, LocksOk, ThreadsOk, PipesOk, DevicesOk, SectionOf;
    if j > 0 {
      Reachable(states, labels, maxDevices, j - 1);
      MarkStepBack(states[j - 1], labels[j - 1], states[j], maxDevices, t);
      if ProxyFails(labels[j - 1], t) {
        FailStep(states[j - 1], labels[j - 1], states[j], maxDevices, t);
        assert FailedAt(states, labels, j - 1, j, t);
      } else {
        MarkCameFromFailure(states, labels, maxDevices, j - 1, t);
        var i: nat :| i < j - 1 && FailedAt(states, labels, i, j - 1, t);
        assert FailedAt(states, labels, i, j, t);
      }
    }
  }

  ghost predicate FailedAt(states: seq<Sys>, labels: seq<Label>, i: nat, j: nat, t: Tid)
    requires |states| == |labels| + 1 && i < j <= |labels|
  {
    && ProxyFails(labels[i], t) && Holds(states[i], t) && t in states[j].threads
    && states[j].threads[t].seen.Some?
    && states[j].threads[t].seen.value.conn == states[i].threads[t].pc.task.conn
    && forall k | i < k < j :: !SectionOf(labels[k], t)
  }

  // --- a monitor whose ping fails ---

  lemma PingFailStep(s: Sys, l: Label, s': Sys, maxDevices: nat, t: Tid)
    requires ThreadsOk(s) && Next(s, l, s', maxDevices) && l == OnDevice(t, PingFail)
    ensures Holds(s, t) && s.threads[t].role.Monitor? && s.threads[t].role.conn == s.threads[t].pc.task.conn
    ensures t in s'.threads && OnItsWay(s'.threads[t], CheckCurrent, s.threads[t])
  {
    assert ThreadOk(s.devices, s.conns.Keys, s.threads[t]);
  }

  lemma CheckStep(s: Sys, l: Label, s': Sys, maxDevices: nat, t: Tid)
    requires Next(s, l, s', maxDevices) && SectionOf(l, t) && t in s.threads
    requires s.threads[t].pc == InRegistry(CheckCurrent) && s.threads[t].role.Monitor?
    ensures t in s'.threads
    ensures var Monitor(c, id) := s.threads[t].role;
            if StoredConn(s.devices, id) == Some(c) then HasJob(s'.threads[t], MarkOffline)
            else Ahead(s'.threads[t].pc) == Done
  {
    hide DeviceEffect, DaemonEffect, Registered, Full, StoredConn;
  }

  /** A monitor whose ping fails looks whether the pair still has that connection, in its
      next section under the registry mutex. If it has, the monitor goes on to the mark,
      otherwise it ends. */
  lemma FailedPingIsChecked(states: seq<Sys>, labels: seq<Label>, maxDevices: nat, i: nat, j: nat, t: Tid)
    requires IsRun(states, labels, maxDevices) && i < j <= |labels| && labels[i] == OnDevice(t, PingFail)
    requires forall k | i < k < j :: !SectionOf(labels[k], t)
    ensures Holds(states[i], t) && states[i].threads[t].role.Monitor?
    ensures t in states[j].threads && HasJob(states[j].threads[t], CheckCurrent)
    ensures j < |labels| && SectionOf(labels[j], t) ==>
              && t in states[j + 1].threads
              && var Monitor(c, id) := states[i].threads[t].role;
                 && c == states[i].threads[t].pc.task.conn
                 && if StoredConn(states[j].devices, id) == Some(c) then HasJob(states[j + 1].threads[t], MarkOffline)
                    else Ahead(states[j + 1].threads[t].pc) == Done
  {
    hide Next, LocksOk, ThreadsOk, PipesOk, DevicesOk, MutexStep, StepOf, SectionOf, StoredConn;
    Reachable(states, labels, maxDevices, i);
    PingFailStep(states[i], labels[i], states[i + 1], maxDevices, t);
    SectionComesNext(states, labels, maxDevices, i + 1, j, t, CheckCurrent);
    if j < |labels| && SectionOf(labels[j], t) {
      CheckStep(states[j], labels[j], states[j + 1], maxDevices, t);
    }
  }

  // --- the sections of one request on a registry that stands still ---

  /** How many sections a request still has before it at most. */
  function Ahead4(job: Job): nat {
    match job
    case PickDefault(_, _) => 4
    case CheckActive(_, _) => 3
    case Resolve(_, _, _) => 2
    case FindConn(_, _, _) => 1
    case _ => 0
  }

  /** Where the sections of a thread lead, one after the other, when nothing else
      happens in between. */
  function Through(devs: seq<DeviceRecord>, th: Thread, now: nat): Pc
    requires th.pc.InRegistry? && Ahead4(th.pc.job) > 0
    decreases Ahead4(th.pc.job)
  {
    var after := Section(devs, th, now).1;
    var next := after.pc.next;
    if next.WantRegistry? && 0 < Ahead4(next.job) < Ahead4(th.pc.job)
    then Through(devs, after.(pc := InRegistry(next.job)), now)
    else next
  }

  /** The sections of a request, put together, are the routing of `dispatch_fs`: on a
      registry that stands still the request is written to the device's connection, as
      the client asked it, exactly where the route goes to a device. */
  lemma SectionsFollowRoute(devs: seq<DeviceRecord>, th: Thread, op: byte, path: seq<byte>, now: nat)
    requires th.role.Client? && IsFsOp(op) && FitsU16(path) && Utf8.Valid(path)
    requires th.role.target.Some? ==> th.role.target.value.0 != SERVER
    requires th.pc == InRegistry(if th.role.target.None? then PickDefault(op, path) else CheckActive(op, path))
    ensures var target := if th.role.target.None? then DefaultTarget(devs) else th.role.target.value;
            exists route :: Proxy.Dispatched(devs, target, Fs.Req(op, path), route)
                            && Through(devs, th, now)
                               == if route.ToDevice? then WantDevice(Send(route.conn, route.request)) else Idle
  {
    hide Proxy.ParseTwoStrings, Proxy.TwoStrings, Fs.ParsePath, Utf8.Valid, Proxy.Dispatched;
    var target := if th.role.target.None? then DefaultTarget(devs) else th.role.target.value;
    Fs.ReqRoundTrip(op, path);
    Fs.ReqLayout(op, path);
    Proxy.DispatchMeaning(devs, target, Fs.Req(op, path));
    var route := Proxy.RouteOf(devs, target, Fs.Req(op, path));
    if th.role.target.None? {
      if target.0 != SERVER {
        CheckedRoute(devs, Dispatch(th, target, op, path).(pc := InRegistry(CheckActive(op, path))), op, path, now);
      }
    } else {
      CheckedRoute(devs, th, op, path, now);
    }
    assert Through(devs, th, now) == if route.ToDevice? then WantDevice(Send(route.conn, route.request)) else Idle;
  }

  lemma CheckedRoute(devs: seq<DeviceRecord>, th: Thread, op: byte, path: seq<byte>, now: nat)
    requires th.role.Client? && th.role.target.Some? && th.role.target.value.0 != SERVER && IsFsOp(op)
    requires Fs.ParsePath(Fs.Req(op, path)) == Some(path)
    requires th.pc == InRegistry(CheckActive(op, path))
    ensures var route := Proxy.RouteOf(devs, th.role.target.value, Fs.Req(op, path));
            Through(devs, th, now) == if route.ToDevice? then WantDevice(Send(route.conn, route.request)) else Idle
  {
    hide Proxy.ParseTwoStrings, Proxy.TwoStrings, Fs.ParsePath;
    var target := th.role.target.value;
    var parsed := Proxy.ParseTwoStrings(Proxy.TwoStrings(Proxy.ProxyOp(op), target.0, path));
    assert Fs.Req(op, path)[0] == op;
    if First(devs, ActivePair(target)).Some? && parsed.Some? {
      ResolvedRoute(devs, th.(pc := InRegistry(Resolve(op, parsed.value.0, parsed.value.1))), now);
    }
  }

  lemma ResolvedRoute(devs: seq<DeviceRecord>, th: Thread, now: nat)
    requires th.pc.InRegistry? && th.pc.job.Resolve?
    ensures var Resolve(op, name, path) := th.pc.job;
            Through(devs, th, now)
            == match First(devs, ActiveNamed(name))
               case None => Idle
               case Some(i) =>
                 match ActiveConn(devs, devs[i].Id())
                 case None => Idle
                 case Some(c) => WantDevice(Send(c, Fs.Req(op, path)))
  {
    var Resolve(op, name, path) := th.pc.job;
    var i := First(devs, ActiveNamed(name));
    if i.Some? {
      var found := th.(pc := InRegistry(FindConn(op, devs[i.value].Id(), path)));
      assert Section(devs, th, now).1.(pc := found.pc) == found;
      assert Through(devs, found, now) == Section(devs, found, now).1.pc.next;
    }
  }
}
