/** Sessions, targets and the front half of the proxies: how a file request finds
    its device. */
module Proxy {
  import opened Common
  import opened Core
  import opened Registry
  import Fs
  import Utf8

  const OP_REVERSE_PROXY_LS: byte := 62
  const OP_REVERSE_PROXY_GET: byte := 63

  // --- two strings in one frame ---

  /** Registration, target and proxy frames: an opcode and two strings. */
  function TwoStrings(op: byte, first: seq<byte>, second: seq<byte>): seq<byte> {
    [op] + PushStr(first) + PushStr(second)
  }

  function ParseTwoStrings(data: seq<byte>): Option<(seq<byte>, seq<byte>)> {
    if |data| < 3 then None
    else
      var nlen := ReadU16(data[1..]);
      if |data| < 3 + nlen + 2 then None
      else
        var p := data[3 + nlen..];
        var slen := ReadU16(p);
        if |p| < 2 + slen then None
        else Some((Utf8.Lossy(data[3..3 + nlen]), Utf8.Lossy(p[2..2 + slen])))
  }

  /** The same, as two cursor steps. */
  lemma ParseTwoStringsBySteps(data: seq<byte>)
    requires data != []
    ensures ParseTwoStrings(data) ==
            match ReadStr(data[1..])
            case None => None
            case Some((first, rest)) =>
              match ReadStr(rest)
              case None => None
              case Some((second, _)) => Some((first, second))
  {
    hide Utf8.Lossy;
    if |data| >= 3 {
      var nlen := ReadU16(data[1..]);
      if |data| >= 3 + nlen {
        assert data[1..][2..2 + nlen] == data[3..3 + nlen];
        assert data[1..][2 + nlen..] == data[3 + nlen..];
      }
    }
  }

  /** What comes back from a string whose length does not survive the u16 cast is too
      short to be the string. */
  lemma OverlongIsCut(s: seq<byte>, tail: seq<byte>)
    requires Utf8.Valid(s) && !FitsU16(s)
    ensures ReadStr(PushStr(s) + tail).Some? && ReadStr(PushStr(s) + tail).value.0 != s
  {
    hide Utf8.Valid, Utf8.Lossy;
    var p := PushStr(s) + tail;
    assert p == U16(|s|) + (s + tail);
    U16RoundTrip(|s|, s + tail);
    var k := |s| % 0x1_0000;
    assert p[2..2 + k] == s[..k];
    Utf8.LossyOfCut(s, k);
  }

  /** Both strings arrive exactly when both fit their u16 lengths. */
  lemma TwoStringsRoundTrip(op: byte, first: seq<byte>, second: seq<byte>)
    requires Utf8.Valid(first) && Utf8.Valid(second)
    ensures ParseTwoStrings(TwoStrings(op, first, second)) == Some((first, second))
       <==> FitsU16(first) && FitsU16(second)
  {
    hide ParseTwoStrings, ReadStr, PushStr, Utf8.Valid;
    var data := TwoStrings(op, first, second);
    ParseTwoStringsBySteps(data);
    assert data[1..] == PushStr(first) + PushStr(second);
    if !FitsU16(first) {
      OverlongIsCut(first, PushStr(second));
    } else {
      PushStrRoundTrip(first, PushStr(second));
      assert PushStr(second) + [] == PushStr(second);
      if FitsU16(second) {
        PushStrRoundTrip(second, []);
      } else {
        OverlongIsCut(second, []);
      }
    }
  }

  // --- routing ---

  datatype Route =
    | Local
    | Refused(reply: seq<byte>)
    | Silent
    | ToDevice(conn: ConnId, id: Identity, request: seq<byte>)

  /** `parse_path(f).unwrap_or(".")`. */
  function PathOf(f: seq<byte>): seq<byte> {
    match Fs.ParsePath(f)
    case Some(path) => path
    case None => [0x2E]
  }

  function OfflineReply(id: Identity): seq<byte> {
    [ST_ERR] + Text("device '") + id.0 + Text("' (") + id.1
      + Text(") is offline, use 'thru device' to select another")
  }

  function NotFoundReply(name: Name): seq<byte> {
    [ST_ERR] + Text("reverse client '") + name + Text("' not found")
  }

  /** `resolve_proxy_target`: the frame names a device but not its user. */
  function ResolveProxy(devs: seq<DeviceRecord>, data: seq<byte>, op: byte): Route {
    match ParseTwoStrings(data)
    case None => Silent
    case Some((name, path)) =>
      match First(devs, ActiveNamed(name))
      case None => Refused(NotFoundReply(name))
      case Some(i) =>
        match ActiveConn(devs, devs[i].Id())
        case None => Silent
        case Some(c) => ToDevice(c, devs[i].Id(), Fs.Req(op, path))
  }

  function ProxyOp(op: byte): byte {
    if op == Fs.OP_LS then OP_REVERSE_PROXY_LS else OP_REVERSE_PROXY_GET
  }

  /** `dispatch_fs` on a fixed registry, for an LS or GET frame. */
  function RouteOf(devs: seq<DeviceRecord>, target: Identity, f: seq<byte>): Route
    requires f != []
  {
    if target.0 == SERVER then Local
    else if First(devs, ActivePair(target)).None? then Refused(OfflineReply(target))
    else ResolveProxy(devs, TwoStrings(ProxyOp(f[0]), target.0, PathOf(f)), f[0])
  }

  lemma PathOfFits(f: seq<byte>)
    ensures FitsU16(PathOf(f)) && Utf8.Valid(PathOf(f))
  {
    assert Utf8.CharLen([0x2E]) == 1 && [0x2E as byte][1..] == [];
  }

  /** The beginning of a name that its u16 length leaves, as the proxy decodes it. */
  function CutName(name: Name): Name {
    Utf8.Lossy(name[..|name| % 0x1_0000])
  }

  /** A name too long for its u16 length, as lossy decoding can make one, is read as
      another name; the path is then taken from the rest of it. */
  lemma LongNameParsed(op: byte, name: Name, path: seq<byte>)
    requires Utf8.Valid(name) && !FitsU16(name)
    ensures ParseTwoStrings(TwoStrings(op, name, path)).Some?
    ensures ParseTwoStrings(TwoStrings(op, name, path)).value.0 == CutName(name) != name
  {
    hide Utf8.Valid, Utf8.Lossy;
    var data, n := TwoStrings(op, name, path), |name| % 0x1_0000;
    assert data[1..] == U16(|name|) + (name + PushStr(path));
    U16RoundTrip(|name|, name + PushStr(path));
    assert data[3..3 + n] == name[..n];
    Utf8.LossyOfCut(name, n);
  }

  /** The request goes to exactly this device. */
  predicate Reaches(route: Route, devs: seq<DeviceRecord>, i: nat) {
    i < |devs| && route.ToDevice? && devs[i].conn == Some(route.conn) && route.id == devs[i].Id()
  }

  /** A request for an active target reaches the earliest active device of that name
      with its path unchanged. If the name is too long for its u16 length the request
      reaches the earliest active device of the cut name, if there is one, and is
      refused otherwise. So it reaches the targeted device itself exactly when the name
      fits and no earlier active device shares it. */
  lemma RequestReachesDevice(devs: seq<DeviceRecord>, target: Identity, f: seq<byte>, maxDevices: nat)
    requires Consistent(devs, maxDevices) && f != []
    requires target.0 != SERVER && First(devs, ActivePair(target)).Some? && Utf8.Valid(target.0)
    ensures FitsU16(target.0) ==>
              var i := First(devs, ActiveNamed(target.0));
              && i.Some? && Reaches(RouteOf(devs, target, f), devs, i.value)
              && RouteOf(devs, target, f).request == Fs.Req(f[0], PathOf(f))
              && Fs.ParsePath(Fs.Req(f[0], PathOf(f))) == Some(PathOf(f))
    ensures !FitsU16(target.0) ==>
              match First(devs, ActiveNamed(CutName(target.0)))
              case None => RouteOf(devs, target, f) == Refused(NotFoundReply(CutName(target.0)))
              case Some(i) => Reaches(RouteOf(devs, target, f), devs, i)
    ensures (RouteOf(devs, target, f).ToDevice? && RouteOf(devs, target, f).id == target) <==>
              && FitsU16(target.0)
              && forall j | 0 <= j < First(devs, ActivePair(target)).value :: !Matches(ActiveNamed(target.0), devs[j])
  {
    hide ParseTwoStrings, TwoStrings, Fs.ParsePath, Fs.Req, PathOf, Utf8.Valid, CutName, NotFoundReply, OfflineReply;
    PathOfFits(f);
    if FitsU16(target.0) {
      TwoStringsRoundTrip(ProxyOp(f[0]), target.0, PathOf(f));
      Fs.ReqRoundTrip(f[0], PathOf(f));
      var t := First(devs, ActivePair(target)).value;
      assert Matches(ActiveNamed(target.0), devs[t]);
      var i := First(devs, ActiveNamed(target.0)).value;
      FirstIs(devs, ActivePair(devs[i].Id()), i);
      if forall j | 0 <= j < t :: !Matches(ActiveNamed(target.0), devs[j]) {
        FirstIs(devs, ActiveNamed(target.0), t);
      }
    } else {
      LongNameParsed(ProxyOp(f[0]), target.0, PathOf(f));
      var cut := CutName(target.0);
      if First(devs, ActiveNamed(cut)).Some? {
        var i := First(devs, ActiveNamed(cut)).value;
        FirstIs(devs, ActivePair(devs[i].Id()), i);
      }
    }
  }

  /** With distinct active names a request reaches its target exactly if the name fits. */
  lemma DistinctNamesReachTarget(devs: seq<DeviceRecord>, target: Identity, f: seq<byte>, maxDevices: nat)
    requires Consistent(devs, maxDevices) && f != []
    requires target.0 != SERVER && First(devs, ActivePair(target)).Some? && Utf8.Valid(target.0)
    requires forall i, j | 0 <= i < j < |devs| && devs[i].active && devs[j].active :: devs[i].name != devs[j].name
    ensures (RouteOf(devs, target, f).ToDevice? && RouteOf(devs, target, f).id == target) <==> FitsU16(target.0)
  {
    hide RouteOf, Utf8.Valid;
    RequestReachesDevice(devs, target, f, maxDevices);
  }

  /** Two active devices of one name: what is meant for the second user's goes to the
      first user's. */
  lemma OneNameTwoUsers(name: Name, first: Name, second: Name, f: seq<byte>)
    requires first != second && name != SERVER && FitsU16(name) && Utf8.Valid(name) && f != []
    ensures var devs := Registered(Registered([], (name, first), [], 0, 0), (name, second), [], 0, 1);
            && Consistent(devs, 0) && First(devs, ActivePair((name, second))).Some?
            && RouteOf(devs, (name, second), f).ToDevice?
            && RouteOf(devs, (name, second), f).conn == 0 && RouteOf(devs, (name, second), f).id == (name, first)
  {
    hide RouteOf, Utf8.Valid;
    assert Consistent([], 0);
    var one := Registered([], (name, first), [], 0, 0);
    RegisteredConsistent([], (name, first), [], 0, 0, 0);
    assert one == [DeviceRecord(name, first, [], 0, 0, true, Some(0))] && one[1..] == [];
    RegisteredConsistent(one, (name, second), [], 0, 1, 0);
    var devs := Registered(one, (name, second), [], 0, 1);
    assert devs == one + [DeviceRecord(name, second, [], 0, 0, true, Some(1))];
    FirstIs(devs, ActivePair((name, second)), 1);
    FirstIs(devs, ActiveNamed(name), 0);
    RequestReachesDevice(devs, (name, second), f, 0);
  }

  // --- what routing means ---

  /** `i` is the earliest active device, of that name if one is given. */
  ghost predicate Earliest(devs: seq<DeviceRecord>, i: nat, name: Option<Name>) {
    && i < |devs| && devs[i].active && (name.Some? ==> devs[i].name == name.value)
    && forall j | 0 <= j < i && devs[j].active :: name.Some? && devs[j].name != name.value
  }

  /** The request goes to the earliest active device of that name, over its connection. */
  ghost predicate GoesTo(devs: seq<DeviceRecord>, route: Route, name: Name, request: seq<byte>) {
    exists i: nat :: Earliest(devs, i, Some(name)) && route == OverConn(devs[i], request)
  }

  /** No record of a consistent registry is active without a connection. */
  function OverConn(d: DeviceRecord, request: seq<byte>): Route {
    if d.conn.Some? then ToDevice(d.conn.value, d.Id(), request) else Silent
  }

  predicate IsRefusal(route: Route) {
    route.Refused? && route.reply != [] && route.reply[0] == ST_ERR
  }

  lemma EarliestActive(devs: seq<DeviceRecord>)
    ensures match First(devs, Active)
            case Some(i) => Earliest(devs, i, None) && DefaultTarget(devs) == devs[i].Id()
            case None => (forall d | d in devs :: !d.active) && DefaultTarget(devs) == (SERVER, [])
  {
  }

  /** What becomes of any frame a client may send to a proxy. */
  lemma ProxyMeaning(devs: seq<DeviceRecord>, data: seq<byte>, op: byte)
    ensures var route := ResolveProxy(devs, data, op);
            match ParseTwoStrings(data)
            case None => route == Silent
            case Some((name, path)) =>
              if exists d :: d in devs && d.active && d.name == name then GoesTo(devs, route, name, Fs.Req(op, path))
              else IsRefusal(route)
  {
    hide ParseTwoStrings, Fs.Req;
    var parsed := ParseTwoStrings(data);
    if parsed.Some? {
      var name := parsed.value.0;
      var i := First(devs, ActiveNamed(name));
      if i.Some? {
        assert devs[i.value] in devs;
        FirstIs(devs, ActivePair(devs[i.value].Id()), i.value);
        assert Earliest(devs, i.value, Some(name));
      } else {
        assert forall d | d in devs :: !Matches(ActiveNamed(name), d);
      }
    }
  }

  /** What becomes of a request for a target, told from the records alone. */
  ghost predicate Dispatched(devs: seq<DeviceRecord>, target: Identity, f: seq<byte>, route: Route)
    requires f != []
  {
    if target.0 == SERVER then route == Local
    else if forall d | d in devs && d.name == target.0 && d.user == target.1 :: !d.active then IsRefusal(route)
    else
      && !route.Local?
      && (FitsU16(target.0) && Utf8.Valid(target.0) ==>
            var path := Fs.ParsePath(f);
            GoesTo(devs, route, target.0, Fs.Req(f[0], if path.Some? then path.value else Text("."))))
  }

  lemma PathAsked(f: seq<byte>)
    ensures PathOf(f) == if Fs.ParsePath(f).Some? then Fs.ParsePath(f).value else Text(".")
  {
    hide Fs.ParsePath;
    assert Text(".") == [0x2E];
  }

  lemma DispatchMeaning(devs: seq<DeviceRecord>, target: Identity, f: seq<byte>)
    requires f != []
    ensures Dispatched(devs, target, f, RouteOf(devs, target, f))
  {
    hide ParseTwoStrings, TwoStrings, Fs.ParsePath, Fs.Req, Utf8.Valid, GoesTo;
    var active := First(devs, ActivePair(target));
    if target.0 != SERVER && active.Some? {
      assert devs[active.value] in devs;
      var data := TwoStrings(ProxyOp(f[0]), target.0, PathOf(f));
      ProxyMeaning(devs, data, f[0]);
      PathOfFits(f);
      PathAsked(f);
      if FitsU16(target.0) && Utf8.Valid(target.0) {
        TwoStringsRoundTrip(ProxyOp(f[0]), target.0, PathOf(f));
      }
    } else {
      assert forall d | d in devs :: !Matches(ActivePair(target), d) || target.0 == SERVER;
    }
  }

  /** The device of an active target is asked exactly what the client asked. */
  lemma AskedUnchanged(devs: seq<DeviceRecord>, target: Identity, op: byte, path: seq<byte>, route: Route)
    requires Dispatched(devs, target, Fs.Req(op, path), route)
    requires FitsU16(path) && Utf8.Valid(path) && FitsU16(target.0) && Utf8.Valid(target.0)
    requires target.0 != SERVER && exists d :: d in devs && d.Id() == target && d.active
    ensures GoesTo(devs, route, target.0, Fs.Req(op, path))
  {
    hide Fs.ParsePath, Utf8.Valid, GoesTo;
    Fs.ReqRoundTrip(op, path);
    Fs.ReqLayout(op, path);
  }

  /** What one client connection remembers. */
  class Session {
    var target: Option<Identity>

    constructor ()
      ensures target == None
    {
      target := None;
    }

    /** Every target a session can have is the server or a registered pair. */
    predicate Valid(devs: seq<DeviceRecord>)
      reads this
    {
      target.Some? ==> ValidTarget(devs, target.value)
    }

    method DispatchFs(list: DeviceList, f: seq<byte>) returns (route: Route)
      requires f != [] && Valid(list.devices)
      modifies this
      ensures Valid(list.devices) && target.Some?
      ensures old(target).Some? ==> target == old(target)
      ensures old(target).None? && (forall d | d in list.devices :: !d.active) ==> target == Some((SERVER, []))
      ensures old(target).None? && (exists d :: d in list.devices && d.active) ==>
                exists i: nat :: Earliest(list.devices, i, None) && target == Some(list.devices[i].Id())
      ensures route == RouteOf(list.devices, target.value, f)
      ensures Dispatched(list.devices, target.value, f, route)
    {
      hide Dispatched;
      DefaultTargetValid(list.devices);
      EarliestActive(list.devices);
      DispatchMeaning(list.devices, if target.Some? then target.value else DefaultTarget(list.devices), f);
      if target.None? {
        var found := list.Find(Active);
        target := Some(if found.Some? then list.devices[found.value].Id() else (SERVER, []));
      }
      var id := target.value;
      if id.0 == SERVER { return Local; }
      var active := list.Find(ActivePair(id));
      if active.None? { return Refused(OfflineReply(id)); }
      var proxy := TwoStrings(ProxyOp(f[0]), id.0, PathOf(f));
      route := HandleProxy(list, proxy, f[0]);
    }

    method HandleProxy(list: DeviceList, data: seq<byte>, op: byte) returns (route: Route)
      ensures route == ResolveProxy(list.devices, data, op)
      ensures match ParseTwoStrings(data)
              case None => route == Silent
              case Some((name, path)) =>
                if exists d :: d in list.devices && d.active && d.name == name
                then GoesTo(list.devices, route, name, Fs.Req(op, path))
                else IsRefusal(route)
    {
      hide ParseTwoStrings, GoesTo;
      ProxyMeaning(list.devices, data, op);
      var parsed := ParseTwoStrings(data);
      if parsed.None? { return Silent; }
      var found := list.Find(ActiveNamed(parsed.value.0));
      if found.None? { return Refused(NotFoundReply(parsed.value.0)); }
      var id := list.devices[found.value].Id();
      var again := list.Find(ActivePair(id));
      if again.None? || list.devices[again.value].conn.None? { return Silent; }
      return ToDevice(list.devices[again.value].conn.value, id, Fs.Req(op, parsed.value.1));
    }

    /** Accepted exactly for the server itself and for registered pairs. */
    method HandleSetTarget(list: DeviceList, data: seq<byte>) returns (accepted: bool)
      requires Valid(list.devices)
      modifies this
      ensures Valid(list.devices)
      ensures var p := ParseTwoStrings(data);
              && (accepted <==>
                    && p.Some?
                    && (p.value == (SERVER, [])
                        || exists d :: d in list.devices && d.name == p.value.0 && d.user == p.value.1))
              && target == if accepted then p else old(target)
    {
      hide ParseTwoStrings;
      var parsed := ParseTwoStrings(data);
      if parsed.None? { return false; }
      var found := list.Find(OfPair(parsed.value));
      accepted := (parsed.value.0 == SERVER && parsed.value.1 == []) || found.Some?;
      if accepted {
        target := parsed;
      }
    }
  }
}
