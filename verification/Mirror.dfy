/** `download_dir_recursive`: a remote tree, fetched path by path, becomes local. */
module Mirror {
  import opened Common
  import opened Core
  import Fs
  import Records
  import Utf8

  const SLASH: byte := 0x2F
  const DOT: seq<byte> := [0x2E]
  const DOTDOT: seq<byte> := [0x2E, 0x2E]

  type Name = seq<byte>

  // --- the remote side ---

  /** A finite tree of plain files and directories; `entries` is in the order in
      which the directory happens to be read. */
  datatype Node = File(content: seq<byte>) | Dir(entries: seq<Entry>)
  datatype Entry = Entry(name: Name, node: Node)

  function Lookup(entries: seq<Entry>, name: Name): Option<Node> {
    if entries == [] then None
    else if entries[0].name == name then Some(entries[0].node)
    else Lookup(entries[1..], name)
  }

  /** Path resolution: empty and "." components stay in a directory. */
  function Walk(node: Node, parts: seq<Name>): Option<Node>
    decreases |parts|
  {
    if parts == [] then Some(node)
    else if node.File? then None
    else if parts[0] == [] || parts[0] == DOT then Walk(node, parts[1..])
    else
      var child :- Lookup(node.entries, parts[0]);
      Walk(child, parts[1..])
  }

  function Resolve(server: Node, path: seq<byte>): Option<Node> {
    Walk(server, Split(SLASH, path))
  }

  function Entries(entries: seq<Entry>): (r: seq<Fs.FsEntry>)
    ensures |r| == |entries| && forall i | 0 <= i < |r| :: r[i] == Fs.FsEntry(entries[i].name, entries[i].node.Dir?)
  {
    seq(|entries|, i requires 0 <= i < |entries| => Fs.FsEntry(entries[i].name, entries[i].node.Dir?))
  }

  /** An LS exchange: request, listing and cursor loop. */
  function RemoteLs(server: Node, path: seq<byte>): Option<seq<Fs.FsEntry>> {
    var asked :- Fs.ParsePath(Fs.Req(Fs.OP_LS, path));
    var node :- Resolve(server, asked);
    if node.File? || 1 + |Fs.Listing(Entries(node.entries))| > MAX_FRAME then None
    else Some(Records.DecodeList(Fs.ReadEntry, Fs.Listing(Entries(node.entries))))
  }

  /** A GET exchange, which delivers the file at the path the server sees; None where
      no whole reply comes, as for a directory. */
  function RemoteGet(server: Node, path: seq<byte>): Option<seq<byte>> {
    var asked :- Fs.ParsePath(Fs.Req(Fs.OP_GET, path));
    var node :- Resolve(server, asked);
    if node.Dir? then None else Some(node.content)
  }

  // --- path strings ---

  /** `trim_end_matches('/')`. */
  function Trim(base: seq<byte>): seq<byte> {
    if base != [] && base[|base| - 1] == SLASH then Trim(base[..|base| - 1]) else base
  }

  /** `format!("{}/{}", base.trim_end_matches('/'), name)`. */
  function Child(base: seq<byte>, name: Name): seq<byte> {
    Trim(base) + [SLASH] + name
  }

  predicate PlainName(name: Name) {
    && name != [] && name != DOT && name != DOTDOT && SLASH !in name
    && FitsU16(name) && Utf8.Valid(name)
  }

  lemma {:induction false} WalkAppend(node: Node, a: seq<Name>, b: seq<Name>)
    ensures Walk(node, a + b) == match Walk(node, a) case None => None case Some(n) => Walk(n, b)
    decreases |a|
  {
    if a == [] {
      assert a + b == b;
    } else if node.Dir? {
      assert (a + b)[1..] == a[1..] + b;
      if a[0] == [] || a[0] == DOT {
        WalkAppend(node, a[1..], b);
      } else if Lookup(node.entries, a[0]).Some? {
        WalkAppend(Lookup(node.entries, a[0]).value, a[1..], b);
      }
    }
  }

  lemma {:induction false} ResolveTrimmed(server: Node, base: seq<byte>)
    requires Resolve(server, base).Some? && Resolve(server, base).value.Dir?
    ensures Resolve(server, Trim(base)) == Resolve(server, base)
  {
    if base != [] && base[|base| - 1] == SLASH {
      var front := base[..|base| - 1];
      assert base == front + [SLASH] + [];
      SplitAt(SLASH, front, []);
      WalkAppend(server, Split(SLASH, front), Split(SLASH, []));
      var n := Walk(server, Split(SLASH, front));
      assert Split(SLASH, []) == [[]];
      assert n.Some? && n.value.Dir? ==> Walk(n.value, [[]]) == Walk(n.value, [[]][1..]);
      ResolveTrimmed(server, front);
    }
  }

  /** The path of an entry resolves to that entry, whatever slashes end the base. */
  lemma ResolveChild(server: Node, base: seq<byte>, name: Name)
    requires PlainName(name)
    requires Resolve(server, base).Some? && Resolve(server, base).value.Dir?
    ensures Resolve(server, Child(base, name)) == Lookup(Resolve(server, base).value.entries, name)
  {
    ResolveTrimmed(server, base);
    SplitAt(SLASH, Trim(base), name);
    SplitNone(SLASH, name);
    WalkAppend(server, Split(SLASH, Trim(base)), [name]);
    var entries := Resolve(server, base).value.entries;
    assert [name][1..] == [];
    assert Walk(Dir(entries), [name])
        == match Lookup(entries, name) case None => None case Some(n) => Walk(n, [name][1..]);
  }

  predicate DistinctNames(entries: seq<Entry>) {
    forall i, j | 0 <= i < j < |entries| :: entries[i].name != entries[j].name
  }

  lemma {:induction false} LookupAt(entries: seq<Entry>, i: nat)
    requires DistinctNames(entries) && i < |entries|
    ensures Lookup(entries, entries[i].name) == Some(entries[i].node)
  {
    if i > 0 {
      assert entries[0].name != entries[i].name;
      LookupAt(entries[1..], i - 1);
    }
  }

  /** A tree of distinct, plain names whose paths fit their u16 lengths. */
  ghost predicate Sound(path: seq<byte>, node: Node)
    decreases node
  {
    && FitsU16(path) && Utf8.Valid(path)
    && (node.Dir? ==>
          && DistinctNames(node.entries)
          && forall e | e in node.entries :: PlainName(e.name) && Sound(Child(path, e.name), e.node))
  }

  predicate Listed(entries: seq<Entry>) {
    1 + |Fs.Listing(Entries(entries))| <= MAX_FRAME
  }

  lemma LsOfSound(server: Node, path: seq<byte>, node: Node)
    requires Sound(path, node) && node.Dir? && Resolve(server, path) == Some(node)
    ensures RemoteLs(server, path) == if Listed(node.entries) then Some(Entries(node.entries)) else None
  {
    Fs.ReqRoundTrip(Fs.OP_LS, path);
    var es := Entries(node.entries);
    forall e | e in es ensures Fs.EntryFits(e) {
      var i :| 0 <= i < |es| && es[i] == e;
      assert node.entries[i] in node.entries;
    }
    Fs.LsPrefix(es, 0);
  }

  /** Every listing in the tree fits a frame. */
  predicate Listable(node: Node)
    decreases node, 1
  {
    node.Dir? ==> Listed(node.entries) && ListableAll(node.entries)
  }

  predicate ListableAll(entries: seq<Entry>)
    decreases entries, 0
  {
    entries == [] || (ListableAll(entries[..|entries| - 1]) && Listable(entries[|entries| - 1].node))
  }

  /** How many exchanges the download of a tree takes. */
  function Exchanges(node: Node): nat
    decreases node, 1
  {
    match node
    case File(_) => 1
    case Dir(entries) => 1 + ExchangesAll(entries)
  }

  function ExchangesAll(entries: seq<Entry>): nat
    decreases entries, 0
  {
    if entries == [] then 0
    else ExchangesAll(entries[..|entries| - 1]) + Exchanges(entries[|entries| - 1].node)
  }

  // --- what becomes of the exchanges ---

  /** An exchange is answered; or a device behind the relay drops after the header and
      `kept` bytes of data, which the client cannot tell from the end of the file; or
      it fails after `kept` bytes. */
  datatype Fate = Answered | CutShort(kept: nat) | Lost(kept: nat)

  function FirstOf(fates: seq<Fate>): Fate {
    if fates == [] then Lost(0) else fates[0]
  }

  function From(fates: seq<Fate>, n: nat): seq<Fate> {
    if n <= |fates| then fates[n..] else []
  }

  lemma FromFrom(fates: seq<Fate>, a: nat, b: nat)
    ensures From(From(fates, a), b) == From(fates, a + b)
  {
  }

  function Kept(content: seq<byte>, fate: Fate): seq<byte> {
    if fate.Answered? || |content| <= fate.kept then content else content[..fate.kept]
  }

  /** The tree as it arrives; None when some exchange fails. Only a listing that is
      answered succeeds, but a file that is cut short does too. */
  function Deliver(node: Node, fates: seq<Fate>): Option<Node>
    decreases node, 1
  {
    match node
    case File(content) => if FirstOf(fates).Lost? then None else Some(File(Kept(content, FirstOf(fates))))
    case Dir(entries) =>
      if !FirstOf(fates).Answered? then None
      else
        var got :- DeliverAll(entries, From(fates, 1));
        Some(Dir(got))
  }

  function DeliverAll(entries: seq<Entry>, fates: seq<Fate>): Option<seq<Entry>>
    decreases entries, 0
  {
    if entries == [] then Some([])
    else
      var front, last := entries[..|entries| - 1], entries[|entries| - 1];
      var got :- DeliverAll(front, fates);
      var child :- Deliver(last.node, From(fates, ExchangesAll(front)));
      Some(got + [Entry(last.name, child)])
  }

  /** When every exchange is answered the tree arrives whole. */
  lemma {:induction false} AnsweredIsWhole(node: Node, fates: seq<Fate>)
    requires Exchanges(node) <= |fates| && forall i | 0 <= i < Exchanges(node) :: fates[i] == Answered
    ensures Deliver(node, fates) == Some(node)
    decreases node, 1
  {
    if node.Dir? {
      AnsweredIsWholeAll(node.entries, fates[1..]);
    }
  }

  lemma {:induction false} AnsweredIsWholeAll(entries: seq<Entry>, fates: seq<Fate>)
    requires ExchangesAll(entries) <= |fates| && forall i | 0 <= i < ExchangesAll(entries) :: fates[i] == Answered
    ensures DeliverAll(entries, fates) == Some(entries)
    decreases entries, 0
  {
    if entries != [] {
      var front, last := entries[..|entries| - 1], entries[|entries| - 1];
      AnsweredIsWholeAll(front, fates);
      AnsweredIsWhole(last.node, fates[ExchangesAll(front)..]);
      assert front + [last] == entries;
    }
  }

  /** A directory of one file, whose device drops right behind the header: the download
      succeeds and leaves an empty file. */
  lemma CutFileIsSuccess(name: Name, content: seq<byte>)
    requires content != []
    ensures var node, fates := Dir([Entry(name, File(content))]), [Answered, CutShort(0)];
            Deliver(node, fates) == Some(Dir([Entry(name, File([]))])) && Deliver(node, fates).value != node
  {
    var entries, fates := [Entry(name, File(content))], [Answered, CutShort(0)];
    assert entries[..0] == [] && From(fates, 1) == [CutShort(0)];
    assert From([CutShort(0)], 0) == [CutShort(0)];
    assert Deliver(File(content), [CutShort(0)]) == Some(File([]));
    assert DeliverAll(entries[..0], [CutShort(0)]) == Some([]);
    assert [] + [Entry(name, File([]))] == [Entry(name, File([]))];
    assert DeliverAll(entries, [CutShort(0)]) == Some([Entry(name, File([]))]);
  }

  /** The server, reached over a connection and perhaps a relay, with the fates of the
      exchanges to come, which no program can see. */
  class Remote {
    const server: Node
    var fates: seq<Fate>

    constructor (server: Node, fates: seq<Fate>)
      ensures this.server == server && this.fates == fates
    {
      this.server, this.fates := server, fates;
    }

    method Ls(path: seq<byte>) returns (r: Option<seq<Fs.FsEntry>>)
      modifies this
      ensures r == if FirstOf(old(fates)).Answered? then RemoteLs(server, path) else None
      ensures fates == From(old(fates), 1)
    {
      var fate := FirstOf(fates);
      fates := From(fates, 1);
      return if fate.Answered? then RemoteLs(server, path) else None;
    }

    /** `get_on_conn`: the data goes to a local file as it arrives; the declared size is
        returned also for a file that is cut short behind the relay. */
    method Get(path: seq<byte>, local: LocalFs, file: Path) returns (size: Option<nat>)
      requires IsFile(local.disk, file)
      modifies this, local
      ensures fates == From(old(fates), 1)
      ensures var got, fate := RemoteGet(server, path), FirstOf(old(fates));
              var data := if got.None? then [] else Kept(got.value, fate);
              && size == (if got.None? || fate.Lost? then None else Some(|got.value|))
              && local.disk == old(local.disk)[file := LocalFile(old(local.disk)[file].content + data)]
    {
      var got, fate := RemoteGet(server, path), FirstOf(fates);
      fates := From(fates, 1);
      local.Write(file, if got.None? then [] else Kept(got.value, fate));
      return if got.None? || fate.Lost? then None else Some(|got.value|);
    }
  }

  lemma GetOfSound(server: Node, path: seq<byte>, node: Node)
    requires Sound(path, node) && node.File? && Resolve(server, path) == Some(node)
    ensures RemoteGet(server, path) == Some(node.content)
  {
    Fs.ReqRoundTrip(Fs.OP_GET, path);
  }

  // --- the local side ---

  type Path = seq<Name>
  datatype Local = LocalDir | LocalFile(content: seq<byte>)
  type Disk = map<Path, Local>

  predicate IsDir(m: Disk, p: Path) {
    p == [] || (p in m && m[p].LocalDir?)
  }

  predicate IsFile(m: Disk, p: Path) {
    p in m && m[p].LocalFile?
  }

  class LocalFs {
    var disk: Disk

    constructor (disk: Disk)
      ensures this.disk == disk
    {
      this.disk := disk;
    }

    /** `create_dir_all`, whose parent exists here. */
    method CreateDir(p: Path) returns (ok: bool)
      requires p != [] && IsDir(disk, p[..|p| - 1])
      modifies this
      ensures ok <==> !IsFile(old(disk), p)
      ensures disk == if ok then old(disk)[p := LocalDir] else old(disk)
    {
      if p in disk && disk[p].LocalFile? {
        return false;
      }
      disk := disk[p := LocalDir];
      return true;
    }

    /** `File::create`: an empty file, replacing an older one. */
    method CreateFile(p: Path) returns (ok: bool)
      requires p != [] && IsDir(disk, p[..|p| - 1])
      modifies this
      ensures ok <==> !IsDir(old(disk), p)
      ensures disk == if ok then old(disk)[p := LocalFile([])] else old(disk)
    {
      if p in disk && disk[p].LocalDir? {
        return false;
      }
      disk := disk[p := LocalFile([])];
      return true;
    }

    method Write(p: Path, data: seq<byte>)
      requires IsFile(disk, p)
      modifies this
      ensures disk == old(disk)[p := LocalFile(old(disk)[p].content + data)]
    {
      disk := disk[p := LocalFile(disk[p].content + data)];
    }
  }

  // --- the mirror image ---

  /** The local nodes that mirror `node` at `p`. */
  function Tree(p: Path, node: Node): Disk
    decreases node, 1
  {
    match node
    case File(content) => map[p := LocalFile(content)]
    case Dir(entries) => map[p := LocalDir] + TreeAll(p, entries)
  }

  function TreeAll(p: Path, entries: seq<Entry>): Disk
    decreases entries, 0
  {
    if entries == [] then map[]
    else
      var last := entries[|entries| - 1];
      TreeAll(p, entries[..|entries| - 1]) + Tree(p + [last.name], last.node)
  }

  /** No local node is of the wrong type. */
  predicate Clear(m: Disk, p: Path, node: Node)
    decreases node, 1
  {
    match node
    case File(_) => !IsDir(m, p)
    case Dir(entries) => !IsFile(m, p) && ClearAll(m, p, entries)
  }

  predicate ClearAll(m: Disk, p: Path, entries: seq<Entry>)
    decreases entries, 0
  {
    entries == [] ||
    var last := entries[|entries| - 1];
    ClearAll(m, p, entries[..|entries| - 1]) && Clear(m, p + [last.name], last.node)
  }

  /** Everything in the mirror image lies at or below its root. */
  lemma {:induction false} TreeBelow(p: Path, node: Node, q: Path)
    requires q in Tree(p, node)
    ensures p <= q
    decreases node, 1
  {
    if node.Dir? && q != p {
      TreeAllBelow(p, node.entries, q);
    }
  }

  lemma {:induction false} TreeAllBelow(p: Path, entries: seq<Entry>, q: Path)
    requires q in TreeAll(p, entries)
    ensures |q| > |p| && p <= q && exists e :: e in entries && e.name == q[|p|]
    decreases entries, 0
  {
    var front, last := entries[..|entries| - 1], entries[|entries| - 1];
    if q in Tree(p + [last.name], last.node) {
      TreeBelow(p + [last.name], last.node, q);
      assert last in entries;
    } else {
      TreeAllBelow(p, front, q);
      var e :| e in front && e.name == q[|p|];
      assert e in entries;
    }
  }

  ghost predicate SameBelow(m: Disk, m': Disk, p: Path) {
    forall q | p <= q && (q in m || q in m') :: q in m && q in m' && m[q] == m'[q]
  }

  /** Whether a tree fits depends only on what is below its root. */
  lemma {:induction false} ClearSame(m: Disk, m': Disk, p: Path, node: Node)
    requires SameBelow(m, m', p)
    ensures Clear(m, p, node) == Clear(m', p, node)
    decreases node, 1
  {
    assert p <= p;
    assert (p in m <==> p in m') && (p in m ==> m[p] == m'[p]);
    if node.Dir? {
      ClearAllSame(m, m', p, node.entries);
    }
  }

  lemma {:induction false} ClearAllSame(m: Disk, m': Disk, p: Path, entries: seq<Entry>)
    requires SameBelow(m, m', p)
    ensures ClearAll(m, p, entries) == ClearAll(m', p, entries)
    decreases entries, 0
  {
    if entries != [] {
      var last := entries[|entries| - 1];
      ClearAllSame(m, m', p, entries[..|entries| - 1]);
      ClearSame(m, m', p + [last.name], last.node);
    }
  }

  // --- the download ---

  /** What was downloaded before an entry does not reach below it. */
  lemma EarlierElsewhere(m: Disk, p: Path, entries: seq<Entry>, i: nat, done: Disk)
    requires DistinctNames(entries) && i < |entries| && done.Keys == TreeAll(p, entries[..i]).Keys
    ensures SameBelow(m[p := LocalDir] + done, m, p + [entries[i].name])
    ensures IsDir(m[p := LocalDir] + done, p)
  {
    var child := p + [entries[i].name];
    forall q | child <= q ensures q != p && q !in done {
      assert q[|p|] == child[|p|];
      if q in TreeAll(p, entries[..i]) {
        TreeAllBelow(p, entries[..i], q);
      }
    }
    if p in TreeAll(p, entries[..i]) {
      TreeAllBelow(p, entries[..i], p);
    }
  }

  /** What the next entry needs of the disk, told from the disk at the start. */
  lemma NextEntry(m: Disk, p: Path, entries: seq<Entry>, i: nat, done: Disk)
    requires DistinctNames(entries) && i < |entries| && done.Keys == TreeAll(p, entries[..i]).Keys
    ensures var e := entries[i];
            Clear(m[p := LocalDir] + done, p + [e.name], e.node) <==> Clear(m, p + [e.name], e.node)
    ensures IsDir(m[p := LocalDir] + done, p)
  {
    EarlierElsewhere(m, p, entries, i, done);
    ClearSame(m[p := LocalDir] + done, m, p + [entries[i].name], entries[i].node);
  }

  /** Everything a download of the first entries depends on, one entry further. */
  lemma OneMore(m: Disk, p: Path, entries: seq<Entry>, i: nat, fates: seq<Fate>)
    requires i < |entries|
    ensures var e := entries[i];
            && (ClearAll(m, p, entries[..i + 1]) <==> ClearAll(m, p, entries[..i]) && Clear(m, p + [e.name], e.node))
            && (ListableAll(entries[..i + 1]) <==> ListableAll(entries[..i]) && Listable(e.node))
            && ExchangesAll(entries[..i + 1]) == ExchangesAll(entries[..i]) + Exchanges(e.node)
            && var front, child := DeliverAll(entries[..i], fates),
                                   Deliver(e.node, From(fates, ExchangesAll(entries[..i])));
               DeliverAll(entries[..i + 1], fates)
               == if front.Some? && child.Some? then Some(front.value + [Entry(e.name, child.value)]) else None
  {
    assert entries[..i + 1][..i] == entries[..i];
  }

  lemma TreeAllSnoc(p: Path, got: seq<Entry>, e: Entry)
    ensures TreeAll(p, got + [e]) == TreeAll(p, got) + Tree(p + [e.name], e.node)
  {
    assert (got + [e])[..|got|] == got;
  }

  lemma EntryOfSound(server: Node, path: seq<byte>, node: Node, i: nat)
    requires Sound(path, node) && node.Dir? && Resolve(server, path) == Some(node) && i < |node.entries|
    ensures PlainName(node.entries[i].name) && Sound(Child(path, node.entries[i].name), node.entries[i].node)
    ensures Resolve(server, Child(path, node.entries[i].name)) == Some(node.entries[i].node)
    ensures node.entries[i].node.File? ==>
              RemoteGet(server, Child(path, node.entries[i].name)) == Some(node.entries[i].node.content)
  {
    assert node.entries[i] in node.entries;
    ResolveChild(server, path, node.entries[i].name);
    LookupAt(node.entries, i);
    if node.entries[i].node.File? {
      GetOfSound(server, Child(path, node.entries[i].name), node.entries[i].node);
    }
  }

  /** `a` is `b`, or a file that is a prefix of the file `b`. */
  predicate Piece(a: Local, b: Local) {
    a == b || (a.LocalFile? && b.LocalFile? && a.content <= b.content)
  }

  /** The same places, and a piece of the other image in each. */
  ghost predicate Pieces(some: Disk, all: Disk) {
    some.Keys == all.Keys && forall q | q in some :: Piece(some[q], all[q])
  }

  /** The image of a tree as it arrived against the image of the tree itself. */
  lemma {:induction false} DeliveredPieces(p: Path, node: Node, fates: seq<Fate>)
    requires Deliver(node, fates).Some?
    ensures Pieces(Tree(p, Deliver(node, fates).value), Tree(p, node))
    decreases node, 1
  {
    if node.Dir? {
      DeliveredPiecesAll(p, node.entries, From(fates, 1));
    }
  }

  lemma {:induction false} DeliveredPiecesAll(p: Path, entries: seq<Entry>, fates: seq<Fate>)
    requires DeliverAll(entries, fates).Some?
    ensures Pieces(TreeAll(p, DeliverAll(entries, fates).value), TreeAll(p, entries))
    decreases entries, 0
  {
    if entries != [] {
      var front, last := entries[..|entries| - 1], entries[|entries| - 1];
      var rest := From(fates, ExchangesAll(front));
      DeliveredPiecesAll(p, front, fates);
      DeliveredPieces(p + [last.name], last.node, rest);
      TreeAllSnoc(p, DeliverAll(front, fates).value, Entry(last.name, Deliver(last.node, rest).value));
    }
  }

  /** Nothing is lost, and whatever is new is a part of `tree`. */
  ghost predicate Partly(m: Disk, m': Disk, tree: Disk) {
    && (forall q | q in m :: q in m')
    && (forall q | q in m' :: (q in m && m'[q] == m[q]) || (q in tree && Piece(m'[q], tree[q])))
  }

  lemma PiecesArePartly(m: Disk, some: Disk, all: Disk)
    requires Pieces(some, all)
    ensures Partly(m, m + some, all)
  {
  }

  /** No file is shorter than the one in `tree`. */
  ghost predicate Uncut(disk: Disk, tree: Disk) {
    forall q | q in tree && tree[q].LocalFile? :: IsFile(disk, q) && |disk[q].content| == |tree[q].content|
  }

  /** Pieces are everything exactly when none is too short. */
  lemma UncutIsWhole(m: Disk, some: Disk, all: Disk)
    requires Pieces(some, all)
    ensures m + some == m + all <==> Uncut(m + some, all)
  {
    if Uncut(m + some, all) {
      forall q | q in some ensures some[q] == all[q] {
        assert (m + some)[q] == some[q] && Piece(some[q], all[q]);
      }
    }
    if m + some == m + all {
      forall q | q in all && all[q].LocalFile?
        ensures IsFile(m + some, q) && |(m + some)[q].content| == |all[q].content|
      {
        assert (m + all)[q] == all[q];
      }
    }
  }

  ghost predicate Submap(a: Disk, b: Disk) {
    forall q | q in a :: q in b && b[q] == a[q]
  }

  /** The images of the entries, one by one or up to some point, are part of the image
      of the whole directory. */
  lemma {:induction false} EntriesInTree(p: Path, entries: seq<Entry>, i: nat)
    requires DistinctNames(entries) && i <= |entries|
    ensures Submap(TreeAll(p, entries[..i]), TreeAll(p, entries))
    ensures i < |entries| ==> Submap(Tree(p + [entries[i].name], entries[i].node), TreeAll(p, entries))
    decreases |entries|
  {
    if i == |entries| {
      assert entries[..i] == entries;
    } else {
      var front, last := entries[..|entries| - 1], entries[|entries| - 1];
      assert TreeAll(p, entries) == TreeAll(p, front) + Tree(p + [last.name], last.node);
      assert Submap(TreeAll(p, front), TreeAll(p, entries)) by { FrontApart(p, entries); }
      EntriesInTree(p, front, i);
      assert front[..i] == entries[..i];
    }
  }

  lemma FrontApart(p: Path, entries: seq<Entry>)
    requires DistinctNames(entries) && entries != []
    ensures var front, last := entries[..|entries| - 1], entries[|entries| - 1];
            forall q | q in TreeAll(p, front) :: q !in Tree(p + [last.name], last.node)
  {
    var front, last := entries[..|entries| - 1], entries[|entries| - 1];
    forall q | q in TreeAll(p, front) ensures q !in Tree(p + [last.name], last.node) {
      TreeAllBelow(p, front, q);
      var e :| e in front && e.name == q[|p|];
      var k :| 0 <= k < |front| && front[k] == e;
      assert entries[k].name != last.name;
      if q in Tree(p + [last.name], last.node) {
        TreeBelow(p + [last.name], last.node, q);
        assert false;
      }
    }
  }

  /** A directory downloaded up to an entry that got there only in part. */
  lemma PartlyDir(m: Disk, m': Disk, p: Path, node: Node, i: nat, done: Disk)
    requires node.Dir? && DistinctNames(node.entries) && i <= |node.entries|
    requires Pieces(done, TreeAll(p, node.entries[..i]))
    requires var now := m[p := LocalDir] + done;
             || m' == now
             || (i < |node.entries| && Partly(now, m', Tree(p + [node.entries[i].name], node.entries[i].node)))
    ensures Partly(m, m', Tree(p, node))
  {
    EntriesInTree(p, node.entries, i);
    var all := TreeAll(p, node.entries);
    assert Tree(p, node) == map[p := LocalDir] + all;
    assert Submap(all, Tree(p, node));
    if p in all { TreeAllBelow(p, node.entries, p); }
    assert Tree(p, node)[p] == LocalDir;
  }

  /** Whether a download succeeds: no local node is of the wrong type, every listing
      fits a frame, and no exchange fails. */
  predicate Succeeds(m: Disk, p: Path, node: Node, fates: seq<Fate>) {
    Clear(m, p, node) && Listable(node) && Deliver(node, fates).Some?
  }

  predicate SucceedsAll(m: Disk, p: Path, entries: seq<Entry>, fates: seq<Fate>) {
    ClearAll(m, p, entries) && ListableAll(entries) && DeliverAll(entries, fates).Some?
  }

  /** What a download does to the disk: on success the tree is there as it arrived,
      which is the whole tree exactly when no file is shorter than its declared size;
      in any case nothing else has changed but for parts of the tree. */
  ghost predicate Downloads(m: Disk, m': Disk, p: Path, node: Node, fates: seq<Fate>, ok: bool) {
    && (ok <==> Succeeds(m, p, node, fates))
    && (ok ==> m' == m + Tree(p, Deliver(node, fates).value))
    && (ok ==> (m' == m + Tree(p, node) <==> Uncut(m', Tree(p, node))))
    && Partly(m, m', Tree(p, node))
  }

  /** `download_dir_recursive`. The remote directory is `node`; the local root exists. */
  method DownloadDir(remote: Remote, base: seq<byte>, name: Name, root: Path, local: LocalFs, ghost node: Node)
    returns (ok: bool)
    requires PlainName(name) && node.Dir? && Resolve(remote.server, Child(base, name)) == Some(node)
    requires Sound(Child(base, name), node) && IsDir(local.disk, root)
    modifies remote, local
    ensures Downloads(old(local.disk), local.disk, root + [name], node, old(remote.fates), ok)
    ensures ok ==> remote.fates == From(old(remote.fates), Exchanges(node))
    decreases node, 0
  {
    hide Resolve, RemoteGet, RemoteLs, Sound, Clear, Succeeds, SucceedsAll, Downloads, PlainName, Tree, Child, Listed,
         Partly, Pieces, FirstOf, From, DeliverAll, Deliver;
    ghost var m, fates := local.disk, remote.fates;
    ghost var later := From(fates, 1);
    var remoteDir := Child(base, name);
    var localDir := root + [name];
    assert localDir[..|localDir| - 1] == root;
    SoundNames(remoteDir, node);
    SucceedsDir(m, localDir, node, fates);
    ok := local.CreateDir(localDir);
    if !ok {
      NothingDone(m, localDir, node, fates);
      return;
    }
    NoneYet(local.disk, m, localDir, node, later);
    LsOfSound(remote.server, remoteDir, node);
    var listing := remote.Ls(remoteDir);
    if listing.None? {
      DirFails(m, local.disk, localDir, node, fates, 0, map[]);
      return false;
    }
    var entries := listing.value;
    ghost var got: seq<Entry> := [];
    for i := 0 to |entries|
      invariant DeliverAll(node.entries[..i], later) == Some(got)
      invariant local.disk == m[localDir := LocalDir] + TreeAll(localDir, got)
      invariant SucceedsAll(m, localDir, node.entries[..i], later)
      invariant remote.fates == From(later, ExchangesAll(node.entries[..i]))
    {
      EntryOfSound(remote.server, remoteDir, node, i);
      DeliveredPiecesAll(localDir, node.entries[..i], later);
      EntrySucceeds(m, localDir, node.entries, i, TreeAll(localDir, got), later);
      ghost var child := node.entries[i].node;
      ok := DownloadEntry(remote, remoteDir, entries[i], localDir, local, child);
      if !ok {
        EntryFails(m, local.disk, localDir, node, fates, i, TreeAll(localDir, got));
        return;
      }
      got := EntryDone(m, local.disk, localDir, node.entries, i, got, later);
      FromFrom(later, ExchangesAll(node.entries[..i]), Exchanges(child));
    }
    assert node.entries[..|entries|] == node.entries;
    DirDone(m, localDir, node, fates, got);
    FromFrom(fates, 1, ExchangesAll(node.entries));
  }

  /** One turn of its loop. */
  method DownloadEntry(remote: Remote, remoteDir: seq<byte>, e: Fs.FsEntry, localDir: Path, local: LocalFs,
      ghost node: Node) returns (ok: bool)
    requires PlainName(e.name) && e.isDir == node.Dir? && IsDir(local.disk, localDir)
    requires Resolve(remote.server, Child(remoteDir, e.name)) == Some(node) && Sound(Child(remoteDir, e.name), node)
    requires node.File? ==> RemoteGet(remote.server, Child(remoteDir, e.name)) == Some(node.content)
    modifies remote, local
    ensures Downloads(old(local.disk), local.disk, localDir + [e.name], node, old(remote.fates), ok)
    ensures ok ==> remote.fates == From(old(remote.fates), Exchanges(node))
    decreases node, 1
  {
    hide Resolve, RemoteGet, Sound, Downloads, PlainName, Child, From;
    if e.isDir {
      ok := DownloadDir(remote, remoteDir, e.name, localDir, local, node);
    } else {
      ok := DownloadFile(remote, Child(remoteDir, e.name), localDir, e.name, local, node);
    }
  }

  /** One file of the directory. */
  method DownloadFile(remote: Remote, path: seq<byte>, localDir: Path, name: Name, local: LocalFs, ghost node: Node)
    returns (ok: bool)
    requires node.File? && RemoteGet(remote.server, path) == Some(node.content) && IsDir(local.disk, localDir)
    modifies remote, local
    ensures Downloads(old(local.disk), local.disk, localDir + [name], node, old(remote.fates), ok)
    ensures ok ==> remote.fates == From(old(remote.fates), Exchanges(node))
  {
    hide RemoteGet, From, Downloads, FirstOf, Kept;
    ghost var m, fates := local.disk, remote.fates;
    var localPath := localDir + [name];
    assert localPath[..|localPath| - 1] == localDir;
    ok := local.CreateFile(localPath);
    if ok {
      var size := remote.Get(path, local, localPath);
      ok := size.Some?;
    }
    FileDone(m, local.disk, localPath, node, fates, ok);
  }

  lemma FileDone(m: Disk, m': Disk, p: Path, node: Node, fates: seq<Fate>, ok: bool)
    requires node.File? && (ok <==> !IsDir(m, p) && !FirstOf(fates).Lost?)
    requires m' == if IsDir(m, p) then m
                   else m[p := LocalFile([])][p := LocalFile([] + Kept(node.content, FirstOf(fates)))]
    ensures Downloads(m, m', p, node, fates, ok)
  {
    var data := Kept(node.content, FirstOf(fates));
    assert [] + data == data && data <= node.content;
    if !IsDir(m, p) {
      assert m' == m + map[p := LocalFile(data)];
      UncutIsWhole(m, map[p := LocalFile(data)], Tree(p, node));
    }
  }

  lemma SucceedsDir(m: Disk, p: Path, node: Node, fates: seq<Fate>)
    requires node.Dir?
    ensures Succeeds(m, p, node, fates) <==>
              && !IsFile(m, p) && Listed(node.entries) && FirstOf(fates).Answered?
              && SucceedsAll(m, p, node.entries, From(fates, 1))
  {
    hide From, FirstOf, Listed;
  }

  lemma NothingDone(m: Disk, p: Path, node: Node, fates: seq<Fate>)
    requires !Succeeds(m, p, node, fates)
    ensures Downloads(m, m, p, node, fates, false)
  {
    hide Succeeds;
  }

  lemma DirFails(m: Disk, m': Disk, p: Path, node: Node, fates: seq<Fate>, i: nat, done: Disk)
    requires node.Dir? && DistinctNames(node.entries) && i <= |node.entries| && !Succeeds(m, p, node, fates)
    requires Pieces(done, TreeAll(p, node.entries[..i]))
    requires var now := m[p := LocalDir] + done;
             || m' == now
             || (i < |node.entries| && Partly(now, m', Tree(p + [node.entries[i].name], node.entries[i].node)))
    ensures Downloads(m, m', p, node, fates, false)
  {
    hide Succeeds, Partly, Pieces, Tree;
    PartlyDir(m, m', p, node, i, done);
  }

  /** The next entry, seen from the disk as it is and as it was. */
  lemma EntrySucceeds(m: Disk, p: Path, entries: seq<Entry>, i: nat, done: Disk, fates: seq<Fate>)
    requires DistinctNames(entries) && i < |entries| && Pieces(done, TreeAll(p, entries[..i]))
    ensures IsDir(m[p := LocalDir] + done, p)
    ensures SucceedsAll(m, p, entries[..i], fates) ==>
              (SucceedsAll(m, p, entries[..i + 1], fates) <==>
               Succeeds(m[p := LocalDir] + done, p + [entries[i].name], entries[i].node,
                        From(fates, ExchangesAll(entries[..i]))))
  {
    hide Clear, Tree, Listable, Deliver, From;
    NextEntry(m, p, entries, i, done);
    OneMore(m, p, entries, i, fates);
  }

  lemma EntryFails(m: Disk, m': Disk, p: Path, node: Node, fates: seq<Fate>, i: nat, done: Disk)
    requires node.Dir? && DistinctNames(node.entries) && i < |node.entries|
    requires Pieces(done, TreeAll(p, node.entries[..i]))
    requires SucceedsAll(m, p, node.entries[..i], From(fates, 1))
    requires var e := node.entries[i];
             Downloads(m[p := LocalDir] + done, m', p + [e.name], e.node,
                       From(From(fates, 1), ExchangesAll(node.entries[..i])), false)
    ensures Downloads(m, m', p, node, fates, false)
  {
    hide Clear, Tree, Listable, Listed, Deliver, DeliverAll, From, FirstOf, Partly, Pieces, Succeeds, SucceedsAll;
    EntrySucceeds(m, p, node.entries, i, done, From(fates, 1));
    SucceedsDir(m, p, node, fates);
    if Succeeds(m, p, node, fates) { Fails(m, p, node.entries, i + 1, From(fates, 1)); }
    DirFails(m, m', p, node, fates, i, done);
  }

  lemma EntryDone(m: Disk, m': Disk, p: Path, entries: seq<Entry>, i: nat, got: seq<Entry>, fates: seq<Fate>)
      returns (got': seq<Entry>)
    requires DistinctNames(entries) && i < |entries|
    requires DeliverAll(entries[..i], fates) == Some(got) && SucceedsAll(m, p, entries[..i], fates)
    requires Downloads(m[p := LocalDir] + TreeAll(p, got), m', p + [entries[i].name], entries[i].node,
                       From(fates, ExchangesAll(entries[..i])), true)
    ensures DeliverAll(entries[..i + 1], fates) == Some(got') && SucceedsAll(m, p, entries[..i + 1], fates)
    ensures ExchangesAll(entries[..i + 1]) == ExchangesAll(entries[..i]) + Exchanges(entries[i].node)
    ensures m' == m[p := LocalDir] + TreeAll(p, got')
  {
    hide Clear, Tree, TreeAll, Listable, Deliver, DeliverAll, From, Pieces, Partly, Uncut, SucceedsAll, ExchangesAll;
    DeliveredPiecesAll(p, entries[..i], fates);
    EntrySucceeds(m, p, entries, i, TreeAll(p, got), fates);
    OneMore(m, p, entries, i, fates);
    var child := Deliver(entries[i].node, From(fates, ExchangesAll(entries[..i]))).value;
    got' := got + [Entry(entries[i].name, child)];
    TreeAllSnoc(p, got, Entry(entries[i].name, child));
    assert m[p := LocalDir] + TreeAll(p, got) + Tree(p + [entries[i].name], child)
        == m[p := LocalDir] + TreeAll(p, got');
  }

  lemma DirDone(m: Disk, p: Path, node: Node, fates: seq<Fate>, got: seq<Entry>)
    requires node.Dir? && !IsFile(m, p) && Listed(node.entries) && FirstOf(fates).Answered?
    requires DeliverAll(node.entries, From(fates, 1)) == Some(got) && SucceedsAll(m, p, node.entries, From(fates, 1))
    ensures Downloads(m, m[p := LocalDir] + TreeAll(p, got), p, node, fates, true)
  {
    hide From, FirstOf, Listed, DeliverAll, ClearAll, ListableAll, Pieces, Partly, Uncut, TreeAll;
    SucceedsDir(m, p, node, fates);
    assert Deliver(node, fates) == Some(Dir(got));
    assert m[p := LocalDir] + TreeAll(p, got) == m + Tree(p, Dir(got));
    DeliveredPieces(p, node, fates);
    PiecesArePartly(m, Tree(p, Dir(got)), Tree(p, node));
    UncutIsWhole(m, Tree(p, Dir(got)), Tree(p, node));
  }

  /** What fails for the first entries fails for all. */
  lemma {:induction false} Fails(m: Disk, p: Path, entries: seq<Entry>, i: nat, fates: seq<Fate>)
    requires i <= |entries| && SucceedsAll(m, p, entries, fates)
    ensures SucceedsAll(m, p, entries[..i], fates)
    decreases |entries|
  {
    if i < |entries| {
      Fails(m, p, entries[..|entries| - 1], i, fates);
      assert entries[..|entries| - 1][..i] == entries[..i];
    } else {
      assert entries[..i] == entries;
    }
  }

  lemma NoneYet(disk: Disk, m: Disk, p: Path, node: Node, fates: seq<Fate>)
    requires node.Dir? && disk == m[p := LocalDir]
    ensures disk == m[p := LocalDir] + TreeAll(p, []) && disk == m[p := LocalDir] + map[]
    ensures SucceedsAll(m, p, node.entries[..0], fates) && DeliverAll(node.entries[..0], fates) == Some([])
    ensures From(fates, ExchangesAll(node.entries[..0])) == fates && Pieces(map[], TreeAll(p, node.entries[..0]))
  {
    assert node.entries[..0] == [];
  }

  lemma SoundNames(path: seq<byte>, node: Node)
    requires Sound(path, node) && node.Dir?
    ensures DistinctNames(node.entries)
  {
  }

  // --- what the mirror image contains ---

  predicate Components(rel: Path) {
    forall n | n in rel :: n != [] && n != DOT
  }

  lemma {:induction false} LookupSnoc(entries: seq<Entry>, name: Name)
    requires entries != [] && entries[|entries| - 1].name != name
    ensures Lookup(entries, name) == Lookup(entries[..|entries| - 1], name)
  {
    if |entries| > 1 && entries[0].name != name {
      LookupSnoc(entries[1..], name);
      assert entries[1..][..|entries| - 2] == entries[..|entries| - 1][1..];
    }
  }

  ghost predicate DistinctBelow(node: Node)
    decreases node
  {
    node.Dir? ==> DistinctNames(node.entries) && forall e | e in node.entries :: DistinctBelow(e.node)
  }

  function LocalOf(node: Node): Local {
    match node
    case File(content) => LocalFile(content)
    case Dir(_) => LocalDir
  }

  ghost predicate Mirrors(tree: Disk, q: Path, found: Option<Node>) {
    (q in tree <==> found.Some?) && (found.Some? ==> tree[q] == LocalOf(found.value))
  }

  /** The mirror image holds, under every relative path, exactly what the remote tree
      has there: the same file contents, a directory for a directory, nothing for
      nothing. */
  lemma {:induction false} TreeMirrorsRemote(p: Path, node: Node, rel: Path)
    requires DistinctBelow(node) && Components(rel)
    ensures Mirrors(Tree(p, node), p + rel, Walk(node, rel))
    decreases node, 1
  {
    if node.Dir? {
      if rel == [] {
        assert p + rel == p;
        if p in TreeAll(p, node.entries) { TreeAllBelow(p, node.entries, p); }
      } else {
        assert p + rel != p;
        assert rel[0] in rel;
        assert Walk(node, rel) == Found(node.entries, rel);
        TreeAllMirrors(p, node.entries, rel);
      }
    } else if rel == [] {
      assert p + rel == p;
    } else {
      assert p + rel != p;
    }
  }

  function Found(entries: seq<Entry>, rel: Path): Option<Node>
    requires rel != []
  {
    var child :- Lookup(entries, rel[0]);
    Walk(child, rel[1..])
  }

  lemma {:induction false} TreeAllMirrors(p: Path, entries: seq<Entry>, rel: Path)
    requires DistinctNames(entries) && (forall e | e in entries :: DistinctBelow(e.node))
    requires Components(rel) && rel != []
    ensures Mirrors(TreeAll(p, entries), p + rel, Found(entries, rel))
    decreases entries, 0
  {
    if entries != [] {
      var front, last := entries[..|entries| - 1], entries[|entries| - 1];
      var q := p + rel;
      assert last in entries && q[|p|] == rel[0];
      if last.name == rel[0] {
        LookupAt(entries, |entries| - 1);
        assert q == p + [last.name] + rel[1..];
        assert forall n | n in rel[1..] :: n in rel;
        TreeMirrorsRemote(p + [last.name], last.node, rel[1..]);
        if q in TreeAll(p, front) {
          TreeAllBelow(p, front, q);
          assert false;
        }
      } else {
        LookupSnoc(entries, rel[0]);
        TreeAllMirrors(p, front, rel);
        if q in Tree(p + [last.name], last.node) {
          TreeBelow(p + [last.name], last.node, q);
          assert false;
        }
      }
    }
  }

  lemma {:induction false} SoundIsDistinct(path: seq<byte>, node: Node)
    requires Sound(path, node)
    ensures DistinctBelow(node)
    decreases node
  {
    if node.Dir? {
      forall e | e in node.entries ensures DistinctBelow(e.node) {
        SoundIsDistinct(Child(path, e.name), e.node);
      }
    }
  }

  /** After a download of the whole tree every remote path has its local copy, and every
      local path that is not such a copy is as before. */
  lemma DownloadMirrors(m: Disk, p: Path, node: Node)
    requires DistinctBelow(node)
    ensures var m' := m + Tree(p, node);
            && (forall rel | Components(rel) && Walk(node, rel).Some? ::
                  p + rel in m' && m'[p + rel] == LocalOf(Walk(node, rel).value))
            && (forall q | !(p <= q) || (Components(q[|p|..]) && Walk(node, q[|p|..]).None?) ::
                  (q in m' <==> q in m) && (q in m ==> m'[q] == m[q]))
  {
    hide Walk, Tree;
    forall rel | Components(rel) ensures Mirrors(Tree(p, node), p + rel, Walk(node, rel)) {
      TreeMirrorsRemote(p, node, rel);
    }
    forall q | q in Tree(p, node) ensures p <= q {
      TreeBelow(p, node, q);
    }
    assert forall q: Path | p <= q :: p + q[|p|..] == q;
  }
}
