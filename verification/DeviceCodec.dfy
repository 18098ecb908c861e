/** The device list and status payloads, and the client loops that read them. */
module DeviceCodec {
  import opened Common
  import opened Core
  import opened Registry
  import Proxy
  import Records
  import Utf8

  datatype DeviceInfo = DeviceInfo(kind: byte, name: seq<byte>, user: seq<byte>, addr: seq<byte>, connectedAt: nat,
      active: bool)

  // --- one device ---

  function Tail(d: DeviceInfo): seq<byte> {
    U64(d.connectedAt) + [if d.active then 1 else 0]
  }

  function DeviceBytes(d: DeviceInfo): seq<byte> {
    [d.kind] + (PushStr(d.name) + (PushStr(d.user) + (PushStr(d.addr) + Tail(d))))
  }

  function ReadTail(p: seq<byte>): Option<((nat, bool), seq<byte>)> {
    if |p| < 9 then None else Some(((ReadU64(p), p[8] != 0), p[9..]))
  }

  /** One turn of the `parse_device_list` cursor loop. */
  function ReadDevice(p: seq<byte>): (r: Option<(DeviceInfo, seq<byte>)>)
    ensures r.Some? ==> |r.value.1| < |p|
  {
    if p == [] then None
    else
      var (name, p1) :- ReadStr(p[1..]);
      var (user, p2) :- ReadStr(p1);
      var (addr, p3) :- ReadStr(p2);
      var (tail, rest) :- ReadTail(p3);
      Some((DeviceInfo(p[0], name, user, addr, tail.0, tail.1), rest))
  }

  predicate StrFits(s: seq<byte>) { FitsU16(s) && Utf8.Valid(s) }

  predicate DeviceFits(d: DeviceInfo) {
    StrFits(d.name) && StrFits(d.user) && StrFits(d.addr) && d.connectedAt < 0x1_0000_0000_0000_0000
  }

  lemma ReadTailCut(d: DeviceInfo, tail: seq<byte>, n: nat)
    requires d.connectedAt < 0x1_0000_0000_0000_0000 && n <= 9 + |tail|
    ensures |Tail(d)| == 9
    ensures ReadTail((Tail(d) + tail)[..n]) == if n < 9 then None else Some(((d.connectedAt, d.active), tail[..n - 9]))
  {
    hide U64, ReadU64;
    var p := (Tail(d) + tail)[..n];
    if n >= 9 {
      var after := [if d.active then 1 else 0] + tail[..n - 9];
      assert p == U64(d.connectedAt) + after;
      U64RoundTrip(d.connectedAt, after);
      assert p[9..] == tail[..n - 9];
    }
  }

  lemma ReadDeviceCut(d: DeviceInfo, tail: seq<byte>, n: nat)
    requires DeviceFits(d) && n <= |DeviceBytes(d)| + |tail|
    ensures ReadDevice((DeviceBytes(d) + tail)[..n])
         == if n < |DeviceBytes(d)| then None else Some((d, tail[..n - |DeviceBytes(d)|]))
  {
    hide ReadStr, PushStr, ReadTail, Tail, Utf8.Valid;
    var p := (DeviceBytes(d) + tail)[..n];
    var t3 := Tail(d) + tail;
    var t2 := PushStr(d.addr) + t3;
    var t1 := PushStr(d.user) + t2;
    ReadTailCut(d, tail, 0);
    if n >= 1 {
      assert p[1..] == (PushStr(d.name) + t1)[..n - 1];
      ReadStrCut(d.name, t1, n - 1);
      var n1 := n - 1 - |PushStr(d.name)|;
      if n1 >= 0 {
        ReadStrCut(d.user, t2, n1);
        var n2 := n1 - |PushStr(d.user)|;
        if n2 >= 0 {
          ReadStrCut(d.addr, t3, n2);
          var n3 := n2 - |PushStr(d.addr)|;
          if n3 >= 0 {
            ReadTailCut(d, tail, n3);
          }
        }
      }
    }
  }

  lemma DeviceCodec()
    ensures Records.Codec(DeviceBytes, ReadDevice, DeviceFits)
  {
    forall d: DeviceInfo, tail: seq<byte>, n: nat | DeviceFits(d) && n <= |DeviceBytes(d)| + |tail|
      ensures ReadDevice((DeviceBytes(d) + tail)[..n]) == Records.Cut(DeviceBytes, d, tail, n)
    {
      ReadDeviceCut(d, tail, n);
    }
  }

  // --- the device list ---

  function Info(d: DeviceRecord): DeviceInfo {
    DeviceInfo(1, d.name, d.user, d.addr, d.connectedAt, d.active)
  }

  function Infos(devs: seq<DeviceRecord>): (r: seq<DeviceInfo>)
    ensures |r| == |devs| && forall i | 0 <= i < |r| :: r[i] == Info(devs[i])
  {
    seq(|devs|, i requires 0 <= i < |devs| => Info(devs[i]))
  }

  function ServerInfo(user: seq<byte>, addr: seq<byte>, started: nat): DeviceInfo {
    DeviceInfo(0, SERVER, user, addr, started, true)
  }

  /** What a list says of the registry: first the server, then every record in order. */
  ghost predicate Lists(got: seq<DeviceInfo>, devs: seq<DeviceRecord>, user: seq<byte>, addr: seq<byte>, started: nat)
  {
    && |got| == |devs| + 1
    && got[0].kind == 0 && got[0].name == Text("server") && got[0].user == user && got[0].addr == addr
    && got[0].connectedAt == started && got[0].active
    && forall i | 0 <= i < |devs| ::
         && got[i + 1].kind == 1 && got[i + 1].name == devs[i].name && got[i + 1].user == devs[i].user
         && got[i + 1].addr == devs[i].addr && got[i + 1].connectedAt == devs[i].connectedAt
         && (got[i + 1].active <==> devs[i].active)
  }

  lemma AllListed(devs: seq<DeviceRecord>, user: seq<byte>, addr: seq<byte>, started: nat)
    ensures Lists([ServerInfo(user, addr, started)] + Infos(devs), devs, user, addr, started)
  {
    hide Infos, Text;
    ServerName();
    var infos, got := Infos(devs), [ServerInfo(user, addr, started)] + Infos(devs);
    forall i | 0 <= i < |devs| ensures got[i + 1] == Info(devs[i]) {
      assert got[i + 1] == infos[i];
    }
  }

  lemma ServerName()
    ensures Text("server") == SERVER
  {
  }

  /** `handle_device_list`: the server first, then every known device in order. */
  method HandleDeviceList(devs: seq<DeviceRecord>, user: seq<byte>, addr: seq<byte>, started: nat)
    returns (resp: seq<byte>)
    ensures resp == [ST_OK] + Records.EncodeList(DeviceBytes, [ServerInfo(user, addr, started)] + Infos(devs))
    ensures Lists([ServerInfo(user, addr, started)] + Infos(devs), devs, user, addr, started)
  {
    hide PushStr, U64, DeviceBytes, Lists;
    AllListed(devs, user, addr, started);
    var all := [ServerInfo(user, addr, started)] + Infos(devs);
    resp := [ST_OK];
    PushDevice(resp, all[0]);
    resp := resp + [0];
    resp := resp + PushStr(SERVER);
    resp := resp + PushStr(user);
    resp := resp + PushStr(addr);
    resp := resp + U64(started);
    resp := resp + [1];
    Records.EncodeListSnoc(DeviceBytes, [], all[0]);
    assert all[..1] == [] + [all[0]];
    assert resp == [ST_OK] + Records.EncodeList(DeviceBytes, all[..1]);
    for i := 0 to |devs|
      invariant resp == [ST_OK] + Records.EncodeList(DeviceBytes, all[..i + 1])
    {
      PushDevice(resp, all[i + 1]);
      resp := resp + [1];
      resp := resp + PushStr(devs[i].name);
      resp := resp + PushStr(devs[i].user);
      resp := resp + PushStr(devs[i].addr);
      resp := resp + U64(devs[i].connectedAt);
      resp := resp + [if devs[i].active then 1 else 0];
      Records.EncodeListSnoc(DeviceBytes, all[..i + 1], all[i + 1]);
      assert all[..i + 2] == all[..i + 1] + [all[i + 1]];
    }
    assert all[..|devs| + 1] == all;
  }

  lemma PushDevice(p: seq<byte>, d: DeviceInfo)
    ensures p + [d.kind] + PushStr(d.name) + PushStr(d.user) + PushStr(d.addr) + U64(d.connectedAt)
        + [if d.active then 1 else 0]
         == p + DeviceBytes(d)
  {
  }

  /** What `parse_device_list` returns. */
  function ListedDevices(data: seq<byte>): seq<DeviceInfo> {
    if data == [] || data[0] != ST_OK then [] else Records.DecodeList(ReadDevice, data[1..])
  }

  method ParseDeviceList(data: seq<byte>) returns (out: seq<DeviceInfo>)
    ensures out == ListedDevices(data)
  {
    hide ReadStr, ReadU64, ReadU16, Utf8.Lossy;
    out := [];
    if data == [] || data[0] != ST_OK { return; }
    var p := data[1..];
    while |p| >= 1
      invariant out + Records.DecodeList(ReadDevice, p) == Records.DecodeList(ReadDevice, data[1..])
      decreases |p|
    {
      ghost var start := p;
      var kind := p[0];
      p := p[1..];
      var name := ReadStr(p);
      if name.None? { break; }
      var user := ReadStr(name.value.1);
      if user.None? { break; }
      var addr := ReadStr(user.value.1);
      if addr.None? { break; }
      p := addr.value.1;
      if |p| < 8 { break; }
      var connectedAt := ReadU64(p);
      var after := p[8..];
      if after == [] { break; }
      var active := after[0] != 0;
      assert after[1..] == p[9..];
      p := after[1..];
      var d := DeviceInfo(kind, name.value.0, user.value.0, addr.value.0, connectedAt, active);
      assert ReadDevice(start) == Some((d, p));
      out := out + [d];
    }
  }

  /** The client's list is the server followed by every registered device in order;
      from any prefix that keeps the status byte it gets exactly the devices wholly
      contained in it. */
  lemma DeviceListDelivered(devs: seq<DeviceRecord>, user: seq<byte>, addr: seq<byte>, started: nat, n: nat)
    requires (forall d | d in [ServerInfo(user, addr, started)] + Infos(devs) :: DeviceFits(d))
    requires var all := [ServerInfo(user, addr, started)] + Infos(devs);
             1 <= n <= |[ST_OK] + Records.EncodeList(DeviceBytes, all)|
    ensures var all := [ServerInfo(user, addr, started)] + Infos(devs);
            var resp := [ST_OK] + Records.EncodeList(DeviceBytes, all);
            && ListedDevices(resp) == all && Lists(ListedDevices(resp), devs, user, addr, started)
            && ListedDevices(resp[..n]) == all[..Records.Whole(DeviceBytes, all, n - 1)]
  {
    hide DeviceBytes, ReadDevice, DeviceFits, Lists, ServerInfo, Infos, Records.Codec, Records.EncodeList,
         Records.DecodeList, Records.Whole;
    AllListed(devs, user, addr, started);
    var all := [ServerInfo(user, addr, started)] + Infos(devs);
    var body := Records.EncodeList(DeviceBytes, all);
    DeviceCodec();
    assert ReadDevice([]) == None by { NoDevice(); }
    Records.DecodePrefix(DeviceBytes, ReadDevice, DeviceFits, all, n - 1);
    Records.RoundTrip(DeviceBytes, ReadDevice, DeviceFits, all);
    assert ([ST_OK] + body)[1..] == body;
    assert ([ST_OK] + body)[..n][1..] == body[..n - 1];
  }

  const OP_SET_TARGET: byte := 65

  /** `device_cmd` with both ends: the server lists its devices, the client reads the
      list and asks for entry `k` of it. Every listed device is accepted and becomes the
      target. The server's own entry is listed with the user it runs as, and a target
      "server" must have no user: it is refused unless that user is empty or a device of
      that very pair is registered. */
  method SelectDevice(list: DeviceList, session: Proxy.Session, user: seq<byte>, addr: seq<byte>, started: nat, k: nat)
    returns (accepted: bool)
    requires session.Valid(list.devices) && k <= |list.devices|
    requires StrFits(user) && StrFits(addr) && started < 0x1_0000_0000_0000_0000
    requires forall d | d in list.devices ::
               StrFits(d.name) && StrFits(d.user) && StrFits(d.addr) && d.connectedAt < 0x1_0000_0000_0000_0000
    modifies session
    ensures session.Valid(list.devices)
    ensures k > 0 ==> accepted && session.target == Some((list.devices[k - 1].name, list.devices[k - 1].user))
    ensures k == 0 ==>
              (accepted <==> user == [] || exists d :: d in list.devices && d.name == SERVER && d.user == user)
    ensures k == 0 && accepted ==> session.target == Some((SERVER, user))
    ensures !accepted ==> session.target == old(session.target)
  {
    hide StrFits, DeviceBytes, ReadDevice, DeviceFits, Proxy.ParseTwoStrings, Proxy.TwoStrings;
    var devs := list.devices;
    var resp := HandleDeviceList(devs, user, addr, started);
    AllFit(devs, user, addr, started);
    DeviceListDelivered(devs, user, addr, started, |resp|);
    var got := ParseDeviceList(resp);
    PairArrives(got[k].name, got[k].user);
    accepted := session.HandleSetTarget(list, Proxy.TwoStrings(OP_SET_TARGET, got[k].name, got[k].user));
    if k > 0 { assert devs[k - 1] in devs; }
  }

  lemma AllFit(devs: seq<DeviceRecord>, user: seq<byte>, addr: seq<byte>, started: nat)
    requires StrFits(user) && StrFits(addr) && started < 0x1_0000_0000_0000_0000
    requires forall d | d in devs ::
               StrFits(d.name) && StrFits(d.user) && StrFits(d.addr) && d.connectedAt < 0x1_0000_0000_0000_0000
    ensures forall d | d in [ServerInfo(user, addr, started)] + Infos(devs) :: DeviceFits(d)
    ensures StrFits(SERVER)
  {
    hide Utf8.Valid;
    ServerFits();
    var all := [ServerInfo(user, addr, started)] + Infos(devs);
    forall i | 0 <= i < |all| ensures DeviceFits(all[i]) {
      if i > 0 { assert devs[i - 1] in devs; }
    }
  }

  lemma ServerFits()
    ensures StrFits(SERVER)
  {
    assert SERVER[1..][1..][1..][1..][1..][1..] == [];
  }

  lemma PairArrives(name: seq<byte>, user: seq<byte>)
    requires StrFits(name) && StrFits(user)
    ensures Proxy.ParseTwoStrings(Proxy.TwoStrings(OP_SET_TARGET, name, user)) == Some((name, user))
  {
    Proxy.TwoStringsRoundTrip(OP_SET_TARGET, name, user);
  }

  lemma NoDevice()
    ensures ReadDevice([]) == None
  {
  }

  // --- lists of names: status and the legacy device list ---

  lemma StrCodec()
    ensures Records.Codec(PushStr, ReadStr, StrFits)
  {
    forall s: seq<byte>, tail: seq<byte>, n: nat | StrFits(s) && n <= |PushStr(s)| + |tail|
      ensures ReadStr((PushStr(s) + tail)[..n]) == Records.Cut(PushStr, s, tail, n)
    {
      ReadStrCut(s, tail, n);
    }
  }

  /** `[ST_OK][u32 pid][u32 count]` and the peers. */
  function StatusBytes(pid: nat, peers: seq<seq<byte>>): seq<byte> {
    [ST_OK] + U32(pid) + U32(|peers|) + Records.EncodeList(PushStr, peers)
  }

  /** The server's reply to a status request; `peers` in the order of its hash map. */
  method HandleStatus(pid: nat, peers: seq<seq<byte>>) returns (resp: seq<byte>)
    ensures resp == StatusBytes(pid, peers)
  {
    hide U32, PushStr;
    resp := [ST_OK];
    resp := resp + U32(pid);
    resp := resp + U32(|peers|);
    ghost var head := resp;
    assert peers[..0] == [];
    for i := 0 to |peers|
      invariant resp == head + Records.EncodeList(PushStr, peers[..i])
    {
      Records.EncodeListSnoc(PushStr, peers[..i], peers[i]);
      assert peers[..i + 1] == peers[..i] + [peers[i]];
      resp := resp + PushStr(peers[i]);
    }
    assert peers[..|peers|] == peers;
  }

  datatype Status = Status(pid: nat, connections: seq<seq<byte>>)

  function FirstOf<T>(s: seq<T>, n: nat): seq<T> {
    if n < |s| then s[..n] else s
  }

  /** What `query_server_status` returns. */
  function ReadStatus(resp: seq<byte>): Option<Status> {
    if |resp| < 9 || resp[0] != ST_OK then None
    else Some(Status(ReadU32(resp[1..]), FirstOf(Records.DecodeList(ReadStr, resp[9..]), ReadU32(resp[5..]))))
  }

  /** The counted loop of `query_server_status`. */
  method QueryStatus(resp: seq<byte>) returns (r: Option<Status>)
    ensures r == ReadStatus(resp)
  {
    hide ReadStr, ReadU16, ReadU32, Utf8.Lossy;
    if |resp| < 9 || resp[0] != ST_OK { return None; }
    var pid := ReadU32(resp[1..]);
    var count := ReadU32(resp[5..]);
    var p := resp[9..];
    ghost var all := Records.DecodeList(ReadStr, p);
    var connections := [];
    assert connections + all == all;
    var i := 0;
    while i < count
      invariant 0 <= i <= count && |connections| == i
      invariant all == connections + Records.DecodeList(ReadStr, p)
    {
      ReadStrBySlices(p);
      if |p| < 2 { break; }
      var alen := ReadU16(p);
      if |p[2..]| < alen { break; }
      var one := Utf8.Lossy(p[2..][..alen]);
      assert ReadStr(p) == Some((one, p[2..][alen..]));
      ReadStrShrinks(p);
      assert Records.DecodeList(ReadStr, p) == [one] + Records.DecodeList(ReadStr, p[2..][alen..]);
      connections := connections + [one];
      p := p[2..][alen..];
      i := i + 1;
    }
    assert FirstOf(all, count) == connections;
    return Some(Status(pid, connections));
  }

  lemma ReadStrShrinks(p: seq<byte>)
    ensures ReadStr(p).Some? ==> |ReadStr(p).value.1| < |p|
  {
  }

  /** The status comes back whole: pid, and every peer in order. */
  lemma StatusRoundTrip(pid: nat, peers: seq<seq<byte>>)
    requires pid < 0x1_0000_0000 && |peers| < 0x1_0000_0000 && forall s | s in peers :: StrFits(s)
    ensures ReadStatus(StatusBytes(pid, peers)) == Some(Status(pid, peers))
  {
    hide ReadStr, PushStr, U32, ReadU32, StrFits;
    var names := Records.EncodeList(PushStr, peers);
    var resp := StatusBytes(pid, peers);
    assert resp[1..] == U32(pid) + (U32(|peers|) + names);
    U32RoundTrip(pid, U32(|peers|) + names);
    assert resp[5..] == U32(|peers|) + names;
    U32RoundTrip(|peers|, names);
    assert resp[9..] == names;
    StrCodec();
    assert ReadStr([]) == None by { ReadStrBySlices([]); }
    Records.RoundTrip(PushStr, ReadStr, StrFits, peers);
  }

  /** The legacy list of active names. */
  function ActiveNames(devs: seq<DeviceRecord>): seq<seq<byte>> {
    if devs == [] then []
    else (if devs[0].active then [devs[0].name] else []) + ActiveNames(devs[1..])
  }

  lemma {:induction false} ActiveNamesSnoc(devs: seq<DeviceRecord>, d: DeviceRecord)
    ensures ActiveNames(devs + [d]) == ActiveNames(devs) + (if d.active then [d.name] else [])
  {
    if devs == [] {
      assert devs + [d] == [d] && [d][1..] == [];
      assert ActiveNames([d]) == (if d.active then [d.name] else []) + ActiveNames([d][1..]);
    } else {
      ActiveNamesSnoc(devs[1..], d);
      assert (devs + [d])[1..] == devs[1..] + [d];
    }
  }

  /** `handle_reverse_list`. */
  method HandleReverseList(devs: seq<DeviceRecord>) returns (resp: seq<byte>)
    ensures resp == [ST_OK] + Records.EncodeList(PushStr, ActiveNames(devs))
  {
    hide PushStr, ActiveNames;
    resp := [ST_OK];
    assert devs[..0] == [];
    assert ActiveNames([]) == [] by { NoActiveNames(); }
    for i := 0 to |devs|
      invariant resp == [ST_OK] + Records.EncodeList(PushStr, ActiveNames(devs[..i]))
    {
      ActiveNamesSnoc(devs[..i], devs[i]);
      assert devs[..i + 1] == devs[..i] + [devs[i]];
      assert ActiveNames(devs[..i]) + [] == ActiveNames(devs[..i]);
      if devs[i].active {
        Records.EncodeListSnoc(PushStr, ActiveNames(devs[..i]), devs[i].name);
        resp := resp + PushStr(devs[i].name);
      }
    }
    assert devs[..|devs|] == devs;
  }

  lemma NoActiveNames()
    ensures ActiveNames([]) == []
  {
  }

  lemma {:induction false} ActiveNamesOf(devs: seq<DeviceRecord>, n: seq<byte>)
    ensures n in ActiveNames(devs) <==> exists i :: 0 <= i < |devs| && Matches(ActiveNamed(n), devs[i])
  {
    if devs != [] {
      ActiveNamesOf(devs[1..], n);
      if i :| 0 <= i < |devs| && Matches(ActiveNamed(n), devs[i]) {
        if i > 0 { assert devs[1..][i - 1] == devs[i]; }
      }
      if n in ActiveNames(devs[1..]) {
        var j :| 0 <= j < |devs[1..]| && Matches(ActiveNamed(n), devs[1..][j]);
        assert Matches(ActiveNamed(n), devs[j + 1]);
      }
    }
  }

  /** The client that lists them sees exactly the names of the active devices. */
  lemma ActiveNamesDelivered(devs: seq<DeviceRecord>, n: seq<byte>)
    requires forall i | 0 <= i < |devs| :: StrFits(devs[i].name)
    ensures Records.DecodeList(ReadStr, Records.EncodeList(PushStr, ActiveNames(devs))) == ActiveNames(devs)
    ensures n in ActiveNames(devs) <==> exists i :: 0 <= i < |devs| && Matches(ActiveNamed(n), devs[i])
  {
    forall s | s in ActiveNames(devs) ensures StrFits(s) {
      ActiveNamesOf(devs, s);
    }
    ActiveNamesOf(devs, n);
    StrCodec();
    Records.RoundTrip(PushStr, ReadStr, StrFits, ActiveNames(devs));
  }
}
