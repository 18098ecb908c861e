/** The registry of reverse clients: who is known, who is reachable, who is targeted. */
module Registry {
  import opened Common

  type Name = seq<byte>
  type Identity = (Name, Name)
  type ConnId = nat

  /** What the server knows of a device, connected or not. */
  datatype DeviceRecord = DeviceRecord(
    name: Name, user: Name, addr: seq<byte>,
    connectedAt: nat, lastSeen: nat, active: bool, conn: Option<ConnId>)
  {
    function Id(): Identity { (name, user) }
  }

  /** The four searches the server makes. */
  datatype Query = OfPair(id: Identity) | Active | ActiveNamed(name: Name) | ActivePair(id: Identity)

  predicate Matches(q: Query, d: DeviceRecord) {
    match q
    case OfPair(id) => d.Id() == id
    case Active => d.active
    case ActiveNamed(name) => d.name == name && d.active
    case ActivePair(id) => d.Id() == id && d.active
  }

  /** Position of the earliest-registered match. */
  function First(devs: seq<DeviceRecord>, q: Query): (r: Option<nat>)
    ensures r.Some? ==> r.value < |devs| && Matches(q, devs[r.value])
    ensures r.Some? ==> forall j | 0 <= j < r.value :: !Matches(q, devs[j])
    ensures r.None? ==> forall j | 0 <= j < |devs| :: !Matches(q, devs[j])
  {
    if devs == [] then None
    else if Matches(q, devs[0]) then Some(0)
    else
      var r := First(devs[1..], q);
      assert forall j | 1 <= j < |devs| :: devs[1..][j - 1] == devs[j];
      if r.Some? then Some(r.value + 1) else None
  }

  lemma FirstIs(devs: seq<DeviceRecord>, q: Query, i: nat)
    requires i < |devs| && Matches(q, devs[i]) && forall j | 0 <= j < i :: !Matches(q, devs[j])
    ensures First(devs, q) == Some(i)
  {
  }

  function ActiveCount(devs: seq<DeviceRecord>): nat {
    if devs == [] then 0 else ActiveCount(devs[1..]) + (if devs[0].active then 1 else 0)
  }

  const SERVER: Name := [0x73, 0x65, 0x72, 0x76, 0x65, 0x72]

  // --- what each critical section does to the list ---

  predicate Full(devs: seq<DeviceRecord>, maxDevices: nat) {
    maxDevices > 0 && ActiveCount(devs) >= maxDevices
  }

  /** An accepted registration: reconnect in place, or append. */
  function Registered(devs: seq<DeviceRecord>, id: Identity, addr: seq<byte>, now: nat, c: ConnId): seq<DeviceRecord> {
    match First(devs, OfPair(id))
    case Some(i) => devs[i := devs[i].(addr := addr, lastSeen := now, active := true, conn := Some(c))]
    case None => devs + [DeviceRecord(id.0, id.1, addr, now, now, true, Some(c))]
  }

  function Offline(devs: seq<DeviceRecord>, id: Identity, now: nat): seq<DeviceRecord> {
    match First(devs, OfPair(id))
    case Some(i) => devs[i := devs[i].(active := false, conn := None, lastSeen := now)]
    case None => devs
  }

  /** The connection stored for a pair, whether or not it is active. */
  function StoredConn(devs: seq<DeviceRecord>, id: Identity): Option<ConnId> {
    match First(devs, OfPair(id))
    case Some(i) => devs[i].conn
    case None => None
  }

  function ActiveConn(devs: seq<DeviceRecord>, id: Identity): Option<ConnId> {
    match First(devs, ActivePair(id))
    case Some(i) => devs[i].conn
    case None => None
  }

  function DefaultTarget(devs: seq<DeviceRecord>): Identity {
    match First(devs, Active)
    case Some(i) => devs[i].Id()
    case None => (SERVER, [])
  }

  predicate ValidTarget(devs: seq<DeviceRecord>, id: Identity) {
    id == (SERVER, []) || First(devs, OfPair(id)).Some?
  }

  function Identities(devs: seq<DeviceRecord>): (ids: seq<Identity>)
    ensures |ids| == |devs| && forall i | 0 <= i < |ids| :: ids[i] == devs[i].Id()
  {
    seq(|devs|, i requires 0 <= i < |devs| => devs[i].Id())
  }

  // --- the registry invariant ---

  ghost predicate Consistent(devs: seq<DeviceRecord>, maxDevices: nat) {
    && (forall i, j | 0 <= i < j < |devs| :: devs[i].Id() != devs[j].Id())
    && (forall i | 0 <= i < |devs| :: devs[i].active <==> devs[i].conn.Some?)
    && (maxDevices > 0 ==> ActiveCount(devs) <= maxDevices)
  }

  lemma {:induction false} CountUpdate(devs: seq<DeviceRecord>, i: nat, d: DeviceRecord)
    requires i < |devs|
    ensures ActiveCount(devs[i := d]) + (if devs[i].active then 1 else 0)
         == ActiveCount(devs) + (if d.active then 1 else 0)
  {
    if i == 0 {
      assert devs[i := d][1..] == devs[1..];
    } else {
      CountUpdate(devs[1..], i - 1, d);
      assert devs[i := d][1..] == devs[1..][i - 1 := d];
    }
  }

  lemma {:induction false} CountAppend(devs: seq<DeviceRecord>, d: DeviceRecord)
    ensures ActiveCount(devs + [d]) == ActiveCount(devs) + (if d.active then 1 else 0)
  {
    if devs == [] {
      assert devs + [d] == [d];
      assert [d][1..] == [];
    } else {
      CountAppend(devs[1..], d);
      assert (devs + [d])[1..] == devs[1..] + [d];
    }
  }

  /** A registration keeps the registry consistent and only ever appends to the
      list of identities. */
  lemma RegisteredConsistent(devs: seq<DeviceRecord>, id: Identity, addr: seq<byte>, now: nat, c: ConnId,
        maxDevices: nat)
    requires Consistent(devs, maxDevices) && !Full(devs, maxDevices)
    ensures var devs' := Registered(devs, id, addr, now, c);
            && Consistent(devs', maxDevices)
            && Identities(devs) <= Identities(devs')
            && StoredConn(devs', id) == Some(c)
            && (forall other | other != id :: StoredConn(devs', other) == StoredConn(devs, other))
  {
    var devs' := Registered(devs, id, addr, now, c);
    match First(devs, OfPair(id)) {
      case Some(i) =>
        CountUpdate(devs, i, devs'[i]);
      case None =>
        CountAppend(devs, devs'[|devs|]);
    }
    assert forall k | 0 <= k < |devs| :: devs'[k].Id() == devs[k].Id();
    forall other ensures StoredConn(devs', other) == if other == id then Some(c) else StoredConn(devs, other) {
      SameConn(devs, devs', other);
    }
  }

  /** The list after a registration, record by record: a known pair has the new address
      and connection and keeps the time it first connected; an unknown one is appended;
      every other record is as before. */
  ghost predicate Joins(devs: seq<DeviceRecord>, devs': seq<DeviceRecord>, id: Identity, addr: seq<byte>, now: nat,
        c: ConnId)
  {
    var known := exists d | d in devs :: d.name == id.0 && d.user == id.1;
    && |devs'| == (if known then |devs| else |devs| + 1)
    && (forall k | 0 <= k < |devs| ::
          if devs[k].name == id.0 && devs[k].user == id.1
          then devs'[k] == DeviceRecord(id.0, id.1, addr, devs[k].connectedAt, now, true, Some(c))
          else devs'[k] == devs[k])
    && (!known ==> devs'[|devs|] == DeviceRecord(id.0, id.1, addr, now, now, true, Some(c)))
  }

  lemma RegisteredJoins(devs: seq<DeviceRecord>, id: Identity, addr: seq<byte>, now: nat, c: ConnId, maxDevices: nat)
    requires Consistent(devs, maxDevices)
    ensures Joins(devs, Registered(devs, id, addr, now, c), id, addr, now, c)
  {
    var i := First(devs, OfPair(id));
    if i.Some? {
      assert devs[i.value] in devs;
      assert forall k | 0 <= k < |devs| && k != i.value :: devs[k].Id() != id;
    }
  }

  /** The list after a mark, record by record: only the pair's own record changes, and it
      keeps its address and the time it first connected. */
  ghost predicate Leaves(devs: seq<DeviceRecord>, devs': seq<DeviceRecord>, id: Identity, now: nat) {
    && |devs'| == |devs|
    && (forall k | 0 <= k < |devs| ::
          if devs[k].name == id.0 && devs[k].user == id.1
          then devs'[k] == DeviceRecord(id.0, id.1, devs[k].addr, devs[k].connectedAt, now, false, None)
          else devs'[k] == devs[k])
  }

  lemma OfflineLeaves(devs: seq<DeviceRecord>, id: Identity, now: nat, maxDevices: nat)
    requires Consistent(devs, maxDevices)
    ensures Leaves(devs, Offline(devs, id, now), id, now)
  {
    var i := First(devs, OfPair(id));
    if i.Some? {
      assert forall k | 0 <= k < |devs| && k != i.value :: devs[k].Id() != id;
    }
  }

  /** The conn stored for a pair changes only with the record that holds it. */
  lemma SameConn(devs: seq<DeviceRecord>, devs': seq<DeviceRecord>, id: Identity)
    requires |devs| <= |devs'| && forall k | 0 <= k < |devs| :: devs'[k].Id() == devs[k].Id()
    ensures match First(devs, OfPair(id))
            case Some(i) => StoredConn(devs', id) == devs'[i].conn
            case None => (forall k | |devs| <= k < |devs'| :: devs'[k].Id() != id) ==> StoredConn(devs', id) == None
    ensures First(devs, OfPair(id)).None? && |devs'| == |devs| + 1 && devs'[|devs|].Id() == id ==>
              StoredConn(devs', id) == devs'[|devs|].conn
  {
    match First(devs, OfPair(id)) {
      case Some(i) =>
        FirstIs(devs', OfPair(id), i);
      case None =>
        if |devs'| == |devs| + 1 && devs'[|devs|].Id() == id {
          FirstIs(devs', OfPair(id), |devs|);
        }
    }
  }

  lemma OfflineConsistent(devs: seq<DeviceRecord>, id: Identity, now: nat, maxDevices: nat)
    requires Consistent(devs, maxDevices)
    ensures var devs' := Offline(devs, id, now);
            && Consistent(devs', maxDevices)
            && Identities(devs') == Identities(devs)
            && StoredConn(devs', id) == None
            && (forall other | other != id :: StoredConn(devs', other) == StoredConn(devs, other))
  {
    var devs' := Offline(devs, id, now);
    if First(devs, OfPair(id)).Some? {
      var i := First(devs, OfPair(id)).value;
      CountUpdate(devs, i, devs'[i]);
    }
    forall other ensures StoredConn(devs', other) == if other == id then None else StoredConn(devs, other) {
      SameConn(devs, devs', other);
    }
  }

  /** A valid target stays valid while the identity list grows. */
  lemma TargetStaysValid(devs: seq<DeviceRecord>, devs': seq<DeviceRecord>, id: Identity)
    requires ValidTarget(devs, id) && Identities(devs) <= Identities(devs')
    ensures ValidTarget(devs', id)
  {
    if id != (SERVER, []) {
      var i := First(devs, OfPair(id)).value;
      assert Identities(devs')[i] == Identities(devs)[i];
      assert Matches(OfPair(id), devs'[i]);
    }
  }

  lemma DefaultTargetValid(devs: seq<DeviceRecord>)
    ensures ValidTarget(devs, DefaultTarget(devs))
  {
    if First(devs, Active).Some? {
      var i := First(devs, Active).value;
      assert Matches(OfPair(devs[i].Id()), devs[i]);
    }
  }

  // --- the list itself ---

  class DeviceList {
    var devices: seq<DeviceRecord>
    const maxDevices: nat

    ghost predicate Valid()
      reads this
    {
      Consistent(devices, maxDevices)
    }

    constructor (maxDevices: nat)
      ensures Valid() && devices == [] && this.maxDevices == maxDevices
    {
      this.maxDevices := maxDevices;
      devices := [];
    }

    /** `iter().find`. */
    method Find(q: Query) returns (r: Option<nat>)
      ensures r == First(devices, q)
    {
      var i := 0;
      while i < |devices|
        invariant 0 <= i <= |devices|
        invariant forall j | 0 <= j < i :: !Matches(q, devices[j])
      {
        if Matches(q, devices[i]) {
          FirstIs(devices, q, i);
          return Some(i);
        }
        i := i + 1;
      }
      return None;
    }

    method CountActive() returns (n: nat)
      ensures n == ActiveCount(devices)
    {
      n := 0;
      assert devices[..0] == [];
      for i := 0 to |devices|
        invariant n == ActiveCount(devices[..i])
      {
        CountAppend(devices[..i], devices[i]);
        assert devices[..i + 1] == devices[..i] + [devices[i]];
        if devices[i].active { n := n + 1; }
      }
      assert devices[..|devices|] == devices;
    }

    /** One registration under the list's mutex; refused when the limit is reached. */
    method Register(id: Identity, addr: seq<byte>, now: nat, c: ConnId) returns (accepted: bool)
      requires Valid()
      modifies this
      ensures Valid() && Identities(old(devices)) <= Identities(devices)
      ensures accepted <==> maxDevices == 0 || ActiveCount(old(devices)) < maxDevices
      ensures devices == if accepted then Registered(old(devices), id, addr, now, c) else old(devices)
      ensures accepted ==> Joins(old(devices), devices, id, addr, now, c)
    {
      hide Joins;
      RegisteredJoins(devices, id, addr, now, c, maxDevices);
      var count := CountActive();
      if maxDevices > 0 && count >= maxDevices {
        return false;
      }
      RegisteredConsistent(devices, id, addr, now, c, maxDevices);
      var found := Find(OfPair(id));
      match found {
        case Some(i) =>
          devices := devices[i := devices[i].(addr := addr, lastSeen := now, active := true, conn := Some(c))];
        case None =>
          devices := devices + [DeviceRecord(id.0, id.1, addr, now, now, true, Some(c))];
      }
      return true;
    }

    method MarkOffline(id: Identity, now: nat)
      requires Valid()
      modifies this
      ensures Valid() && Identities(devices) == Identities(old(devices))
      ensures devices == Offline(old(devices), id, now)
      ensures Leaves(old(devices), devices, id, now)
    {
      hide Leaves;
      OfflineLeaves(devices, id, now, maxDevices);
      OfflineConsistent(devices, id, now, maxDevices);
      var found := Find(OfPair(id));
      if found.Some? {
        devices := devices[found.value := devices[found.value].(active := false, conn := None, lastSeen := now)];
      }
    }
  }
}
