/** The server as a system of interleaved threads: the accept loop, heartbeat
    monitors, client threads with their proxies, and the daemons at the far end of
    each device connection. They share one registry mutex and one mutex per device
    connection; taking a mutex is a step of its own. */
module System {
  import opened Common
  import opened Core
  import opened Registry
  import Fs
  import Proxy

  type Tid = nat

  const OP_PING: byte := 70

  // --- threads ---

  datatype Role =
    | Acceptor
    | Monitor(conn: ConnId, id: Identity)
    | Client(target: Option<Identity>)

  /** A critical section under the registry mutex. */
  datatype Job =
    | Register(id: Identity, addr: seq<byte>)
    | CheckCurrent
    | MarkOffline
    | PickDefault(op: byte, path: seq<byte>)
    | CheckActive(op: byte, path: seq<byte>)
    | Resolve(op: byte, name: Name, path: seq<byte>)
    | FindConn(op: byte, id: Identity, path: seq<byte>)
    | SetTarget(id: Identity)
    | ListDevices

  /** A critical section under a device connection's mutex. */
  datatype Task =
    | Ping(conn: ConnId)
    | Send(conn: ConnId, request: Frame)
    | Read(conn: ConnId, request: Frame, got: seq<Frame>)

  /** A thread that is leaving still holds the mutex. */
  datatype Pc =
    | Idle
    | WantRegistry(job: Job)
    | InRegistry(job: Job)
    | LeavingRegistry(next: Pc)
    | WantDevice(task: Task)
    | InDevice(task: Task)
    | LeavingDevice(conn: ConnId, next: Pc)
    | Done

  /** The connection a thread last looked up for a pair; `stale` once that pair has
      registered again. */
  datatype Seen = Seen(id: Identity, conn: ConnId, stale: bool)

  datatype Thread = Thread(role: Role, pc: Pc, seen: Option<Seen>)

  // --- device connections ---

  /** `broken` after the first I/O error on the connection, or once a requester gave
      up before its reply was read to the end. `asked` and `answer` are the daemon's
      last exchange. */
  datatype Conn = Conn(
    holder: Option<Tid>,
    toDevice: seq<Frame>, pending: seq<Frame>, toServer: seq<Frame>,
    asked: Frame, answer: seq<Frame>, broken: bool)

  datatype Sys = Sys(
    devices: seq<DeviceRecord>,
    registry: Option<Tid>,
    conns: map<ConnId, Conn>,
    threads: map<Tid, Thread>)

  // --- replies ---

  /** The daemon answers LS and GET frames; it ignores pings. */
  predicate IsRequest(f: Frame) {
    |f| > 0 && (f[0] == Fs.OP_LS || f[0] == Fs.OP_GET)
  }

  /** The frames read for `request` make up a whole reply: one frame for LS, for GET
      a refusal or everything up to the empty terminator. */
  predicate Complete(request: Frame, got: seq<Frame>)
    requires IsRequest(request)
  {
    && |got| > 0
    && (request[0] == Fs.OP_LS || !IsOk(got[0]) || (|got| > 1 && got[|got| - 1] == []))
  }

  /** What a daemon writes for a request: not complete before its end. It may end too
      soon, as when a file cannot be read to its end. */
  predicate IsAnswer(request: Frame, frames: seq<Frame>)
    requires IsRequest(request)
  {
    forall n | 0 <= n < |frames| :: !Complete(request, frames[..n])
  }

  /** A whole reply. */
  predicate IsReply(request: Frame, frames: seq<Frame>)
    requires IsRequest(request)
  {
    Complete(request, frames) && IsAnswer(request, frames)
  }

  // --- steps ---

  /** What happens under a device mutex; the failing ones are I/O errors. */
  datatype DeviceEvent = PingOk | PingFail | SendOk | SendFail | ReadOk(requesterOk: bool) | ReadFail

  /** What the daemon does with its end of the connection. */
  datatype DaemonEvent = Answer(reply: seq<Frame>) | Deliver

  datatype Label =
    | LockRegistry(t: Tid)
    | UnlockRegistry(t: Tid)
    | LockDevice(t: Tid)
    | UnlockDevice(t: Tid)
    | Start(t: Tid, next: Pc)
    | RunRegister(t: Tid, now: nat, conn: ConnId, monitor: Tid)
    | RunSection(t: Tid, now: nat)
    | OnDevice(t: Tid, event: DeviceEvent)
    | OnDaemon(conn: ConnId, daemonEvent: DaemonEvent)

  /** What an idle thread may begin. */
  predicate MayStart(th: Thread, next: Pc) {
    match th.role
    case Acceptor => next.WantRegistry? && next.job.Register?
    case Monitor(c, _) => next == WantDevice(Ping(c))
    case Client(target) =>
      && next.WantRegistry?
      && (next.job.PickDefault? || next.job.CheckActive? || next.job.Resolve? || next.job.SetTarget?
          || next.job.ListDevices?)
      && (next.job.PickDefault? ==> target.None? && IsFsOp(next.job.op))
      && (next.job.CheckActive? ==> target.Some? && target.value.0 != SERVER && IsFsOp(next.job.op))
      && (next.job.Resolve? ==> IsFsOp(next.job.op))
  }

  predicate IsFsOp(op: byte) { op == Fs.OP_LS || op == Fs.OP_GET }

  /** `dispatch_fs` once the target is known. */
  function Dispatch(th: Thread, target: Identity, op: byte, path: seq<byte>): Thread {
    Leave(th.(role := Client(Some(target))),
          if target.0 == SERVER then Idle else WantRegistry(CheckActive(op, path)))
  }

  function Leave(th: Thread, next: Pc): Thread {
    th.(pc := LeavingRegistry(next))
  }

  /** `dispatch_fs` writes a proxy frame and the proxy parses it, which cuts a name or
      path that is too long. */
  function IntoProxy(op: byte, name: Name, path: seq<byte>): Pc {
    match Proxy.ParseTwoStrings(Proxy.TwoStrings(Proxy.ProxyOp(op), name, path))
    case Some(parsed) => WantRegistry(Resolve(op, parsed.0, parsed.1))
    case None => Idle
  }

  /** The critical sections other than registration: the new list and the thread
      about to leave the registry mutex. */
  function Section(devs: seq<DeviceRecord>, th: Thread, now: nat): (seq<DeviceRecord>, Thread)
    requires th.pc.InRegistry? && !th.pc.job.Register?
  {
    match th.pc.job
    case CheckCurrent =>
      if th.role.Monitor? && StoredConn(devs, th.role.id) == Some(th.role.conn)
      then (devs, Leave(th.(seen := Some(Seen(th.role.id, th.role.conn, false))), WantRegistry(MarkOffline)))
      else (devs, Leave(th, Done))
    case MarkOffline =>
      (if th.seen.Some? then Offline(devs, th.seen.value.id, now) else devs,
       Leave(th, if th.role.Monitor? then Done else Idle))
    case PickDefault(op, path) => (devs, Dispatch(th, DefaultTarget(devs), op, path))
    case CheckActive(op, path) =>
      (devs, Leave(th, if th.role.Client? && th.role.target.Some? && First(devs, ActivePair(th.role.target.value)).Some?
                       then IntoProxy(op, th.role.target.value.0, path) else Idle))
    case Resolve(op, name, path) =>
      (devs, Leave(th, match First(devs, ActiveNamed(name))
                       case Some(i) => WantRegistry(FindConn(op, devs[i].Id(), path))
                       case None => Idle))
    case FindConn(op, id, path) =>
      (devs, match ActiveConn(devs, id)
             case Some(c) => Leave(th.(seen := Some(Seen(id, c, false))), WantDevice(Send(c, Fs.Req(op, path))))
             case None => Leave(th, Idle))
    case SetTarget(id) =>
      (devs, Leave(th.(role := if ValidTarget(devs, id) then Client(Some(id)) else th.role), Idle))
    case ListDevices => (devs, Leave(th, Idle))
  }

  predicate DeviceEnabled(conn: Conn, task: Task, e: DeviceEvent) {
    match e
    case PingOk => task.Ping?
    case PingFail => task.Ping?
    case SendOk => task.Send?
    case SendFail => task.Send?
    case ReadOk(_) => task.Read? && IsRequest(task.request) && conn.toServer != []
    case ReadFail => task.Read?
  }

  /** The connection and the thread after a device event. */
  function DeviceEffect(conn: Conn, task: Task, e: DeviceEvent): (Conn, Pc)
    requires DeviceEnabled(conn, task, e)
  {
    match e
    case PingOk => (conn.(toDevice := conn.toDevice + [[OP_PING]]), LeavingDevice(task.conn, Idle))
    case PingFail => (conn.(broken := true), LeavingDevice(task.conn, WantRegistry(CheckCurrent)))
    case SendOk => (conn.(toDevice := conn.toDevice + [task.request]), InDevice(Read(task.conn, task.request, [])))
    case SendFail => (conn.(broken := true), LeavingDevice(task.conn, WantRegistry(MarkOffline)))
    case ReadOk(requesterOk) =>
      var got := task.got + [conn.toServer[0]];
      var rest := conn.(toServer := conn.toServer[1..]);
      if Complete(task.request, got) then (rest, LeavingDevice(task.conn, Idle))
      else if !requesterOk then (rest.(broken := true), LeavingDevice(task.conn, Idle))
      else (rest, InDevice(Read(task.conn, task.request, got)))
    case ReadFail => (conn.(broken := true), LeavingDevice(task.conn, WantRegistry(MarkOffline)))
  }

  predicate DaemonEnabled(conn: Conn, e: DaemonEvent) {
    match e
    case Answer(reply) =>
      && conn.toDevice != [] && conn.pending == []
      && (if IsRequest(conn.toDevice[0]) then IsAnswer(conn.toDevice[0], reply) else reply == [])
    case Deliver => conn.pending != []
  }

  function DaemonEffect(conn: Conn, e: DaemonEvent): Conn
    requires DaemonEnabled(conn, e)
  {
    match e
    case Answer(reply) =>
      var next := conn.(toDevice := conn.toDevice[1..], pending := reply);
      if IsRequest(conn.toDevice[0]) then next.(asked := conn.toDevice[0], answer := reply) else next
    case Deliver => conn.(pending := conn.pending[1..], toServer := conn.toServer + [conn.pending[0]])
  }

  predicate Holds(s: Sys, t: Tid) {
    t in s.threads && s.threads[t].pc.InDevice? && s.threads[t].pc.task.conn in s.conns
  }

  predicate Enabled(s: Sys, l: Label, maxDevices: nat) {
    match l
    case LockRegistry(t) => t in s.threads && s.threads[t].pc.WantRegistry? && s.registry == None
    case UnlockRegistry(t) => t in s.threads && s.threads[t].pc.LeavingRegistry?
    case UnlockDevice(t) => t in s.threads && s.threads[t].pc.LeavingDevice? && s.threads[t].pc.conn in s.conns
    case LockDevice(t) =>
      && t in s.threads && s.threads[t].pc.WantDevice?
      && s.threads[t].pc.task.conn in s.conns && s.conns[s.threads[t].pc.task.conn].holder == None
    case Start(t, next) => t in s.threads && s.threads[t].pc == Idle && MayStart(s.threads[t], next)
    case RunRegister(t, now, c, m) =>
      && t in s.threads && s.threads[t].pc.InRegistry? && s.threads[t].pc.job.Register?
      && c !in s.conns && m !in s.threads
    case RunSection(t, now) =>
      t in s.threads && s.threads[t].pc.InRegistry? && !s.threads[t].pc.job.Register?
    case OnDevice(t, e) =>
      Holds(s, t) && DeviceEnabled(s.conns[s.threads[t].pc.task.conn], s.threads[t].pc.task, e)
    case OnDaemon(c, e) => c in s.conns && DaemonEnabled(s.conns[c], e)
  }

  function WithThread(s: Sys, t: Tid, th: Thread): Sys {
    s.(threads := s.threads[t := th])
  }

  function WithConn(s: Sys, c: ConnId, conn: Conn): Sys {
    s.(conns := s.conns[c := conn])
  }

  /** A registration of `id` makes every earlier look at that pair stale. */
  function Stale(th: Thread, id: Identity): Thread {
    if th.seen.Some? && th.seen.value.id == id then th.(seen := Some(th.seen.value.(stale := true))) else th
  }

  function Staled(threads: map<Tid, Thread>, id: Identity): map<Tid, Thread> {
    map t | t in threads :: Stale(threads[t], id)
  }

  function Apply(s: Sys, l: Label, maxDevices: nat): Sys
    requires Enabled(s, l, maxDevices)
  {
    match l
    case LockRegistry(t) =>
      var th := s.threads[t];
      WithThread(s.(registry := Some(t)), t, th.(pc := InRegistry(th.pc.job)))
    case UnlockRegistry(t) =>
      var th := s.threads[t];
      WithThread(s.(registry := None), t, th.(pc := th.pc.next))
    case UnlockDevice(t) =>
      var th := s.threads[t];
      var c := th.pc.conn;
      WithThread(WithConn(s, c, s.conns[c].(holder := None)), t, th.(pc := th.pc.next))
    case LockDevice(t) =>
      var th := s.threads[t];
      var c := th.pc.task.conn;
      WithThread(WithConn(s, c, s.conns[c].(holder := Some(t))), t, th.(pc := InDevice(th.pc.task)))
    case Start(t, next) => WithThread(s, t, s.threads[t].(pc := next))
    case RunRegister(t, now, c, m) =>
      var job := s.threads[t].pc.job;
      var s1 := WithThread(s, t, Leave(s.threads[t], Idle));
      if Full(s.devices, maxDevices) then s1
      else s1.(devices := Registered(s.devices, job.id, job.addr, now, c),
               conns := s.conns[c := Conn(None, [], [], [], [], [], false)],
               threads := Staled(s1.threads, job.id)[m := Thread(Monitor(c, job.id), Idle, None)])
    case RunSection(t, now) =>
      var (devs, th) := Section(s.devices, s.threads[t], now);
      WithThread(s.(devices := devs), t, th)
    case OnDevice(t, e) =>
      var th := s.threads[t];
      var c := th.pc.task.conn;
      var (conn, pc) := DeviceEffect(s.conns[c], th.pc.task, e);
      WithThread(WithConn(s, c, conn), t, th.(pc := pc))
    case OnDaemon(c, e) => WithConn(s, c, DaemonEffect(s.conns[c], e))
  }

  predicate Next(s: Sys, l: Label, s': Sys, maxDevices: nat) {
    Enabled(s, l, maxDevices) && s' == Apply(s, l, maxDevices)
  }

  /** The server at start: acceptors and client threads, all of them idle. */
  predicate Initial(s: Sys) {
    && s.devices == [] && s.registry == None && s.conns == map[]
    && (forall t | t in s.threads ::
          s.threads[t].pc == Idle && s.threads[t].seen == None
          && (s.threads[t].role == Acceptor || s.threads[t].role == Client(None)))
  }
}
