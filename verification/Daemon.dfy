/** The reverse daemon on a device: it answers file requests and ignores the rest. */
module Daemon {
  import opened Common
  import opened Core
  import opened Frames
  import opened Fetch
  import Exec
  import Fs
  import Mirror
  import Records
  import System
  import Utf8

  /** What reading a directory gave. */
  datatype Listed = NoDirectory | Refused(message: seq<byte>) | Entries(entries: seq<Fs.FsEntry>)

  /** The device's file system, fixed during an exchange. */
  datatype Files = Files(open: seq<byte> -> Opened, list: seq<byte> -> Listed)

  const CURRENT: seq<byte> := Text(".")

  function LsPath(path: seq<byte>): seq<byte> {
    if path == [] then CURRENT else path
  }

  /** The one frame that answers an LS. */
  function LsAnswer(listed: Listed): Frame {
    match listed
    case NoDirectory => [ST_NOT_FOUND]
    case Refused(message) => [ST_ERR] + message
    case Entries(entries) => [ST_OK] + Fs.Listing(entries)
  }

  /** The request decodes, its answer fits, and a file reads to its end. */
  predicate Servable(files: Files, f: Frame)
    requires System.IsRequest(f)
  {
    var path := Fs.ParsePath(f);
    && path.Some?
    && if f[0] == Fs.OP_LS then FrameFits(LsAnswer(files.list(LsPath(path.value))))
       else Sendable(files.open(path.value)) && Finishes(files.open(path.value))
  }

  /** `reply` is what the daemon writes for `f`, with some sizes of its reads. */
  ghost predicate RepliesTo(files: Files, f: Frame, reply: seq<Frame>) {
    if !System.IsRequest(f) || Fs.ParsePath(f).None? then reply == []
    else
      var path := Fs.ParsePath(f).value;
      if f[0] == Fs.OP_LS then
        var answer := LsAnswer(files.list(LsPath(path)));
        reply == if FrameFits(answer) then [answer] else []
      else if !Sendable(files.open(path)) then reply == []
      else exists chunks :: WholeFile(files.open(path), chunks) && reply == Answer(files.open(path), chunks)
  }

  ghost predicate WholeFile(file: Opened, chunks: seq<Frame>) {
    Chunking(chunks) && (file.File? ==> Flatten(chunks) == file.content)
  }

  /** `thru_fs::handle`; the daemon drops its error. */
  method Handle(files: Files, f: Frame, out: Stream) returns (ghost reply: seq<Frame>)
    requires System.IsRequest(f)
    modifies out
    ensures RepliesTo(files, f, reply)
    ensures out.bytes == old(out.bytes) + Carried(Wire(reply), old(out.room))
    ensures out.room == old(out.room) - |Carried(Wire(reply), old(out.room))|
  {
    hide Wire, FrameBytes, Carried, Answer, Chunking, Fs.ParsePath, Fs.Listing;
    WireNone();
    NothingCarried(out.bytes, out.room);
    reply := [];
    var path := Fs.ParsePath(f);
    if path.None? { return; }
    if f[0] == Fs.OP_LS {
      var listed := files.list(LsPath(path.value));
      var answer;
      match listed {
        case NoDirectory => answer := [ST_NOT_FOUND];
        case Refused(message) => answer := [ST_ERR] + message;
        case Entries(entries) => answer := Fs.HandleLs(entries);
      }
      var ok := out.WriteFrame(answer);
      if FrameFits(answer) {
        WireOne(answer);
        reply := [answer];
      }
    } else {
      var _, chunks := HandleGet(files.open(path.value), out);
      if Sendable(files.open(path.value)) {
        reply := Answer(files.open(path.value), chunks);
        assert WholeFile(files.open(path.value), chunks);
      }
    }
  }

  lemma NothingCarried(bytes: seq<byte>, room: nat)
    ensures bytes + Carried([], room) == bytes && |Carried([], room)| == 0
  {
  }

  function Join(replies: seq<seq<Frame>>): seq<Frame> {
    if replies == [] then [] else replies[0] + Join(replies[1..])
  }

  lemma {:induction false} JoinSnoc(replies: seq<seq<Frame>>, reply: seq<Frame>)
    ensures Join(replies + [reply]) == Join(replies) + reply
  {
    if replies == [] {
      assert Join([reply]) == reply + Join([]);
      assert [] + [reply] == [reply];
    } else {
      JoinSnoc(replies[1..], reply);
      assert (replies + [reply])[1..] == replies[1..] + [reply];
      assert replies[0] + Join(replies[1..]) + reply == replies[0] + (Join(replies[1..]) + reply);
    }
  }

  const OP_SHELL_OPEN: byte := 30

  /** Frames that open a shell or run a script; no proxy forwards one. */
  predicate StartsProcess(f: Frame) {
    f != [] && (f[0] == OP_SHELL_OPEN || f[0] == Exec.OP_EXEC_SCRIPT)
  }

  /** The request loop of `run_reverse_daemon`, until the connection ends: every frame
      that arrives whole is answered by its own reply, in order, and nothing else is
      ever sent. */
  method Run(files: Files, input: Stream, out: Stream) returns (ghost replies: seq<seq<Frame>>)
    requires input != out
    requires forall f | f in Records.DecodeList(ReadFrame, input.bytes) :: !StartsProcess(f)
    modifies input`bytes, out
    ensures var asked := Records.DecodeList(ReadFrame, old(input.bytes));
            && |replies| == |asked|
            && (forall i | 0 <= i < |asked| :: RepliesTo(files, asked[i], replies[i]))
            && out.bytes == old(out.bytes) + Carried(Wire(Join(replies)), old(out.room))
  {
    hide NextFrame, Wire, Carried, RepliesTo, Join;
    ghost var all := Records.DecodeList(ReadFrame, input.bytes);
    ghost var start, room := out.bytes, out.room;
    ghost var asked: seq<Frame> := [];
    replies := [];
    NoReplies(start, room);
    while true
      invariant asked + Records.DecodeList(ReadFrame, input.bytes) == all
      invariant |replies| == |asked| && forall i | 0 <= i < |asked| :: RepliesTo(files, asked[i], replies[i])
      invariant out.bytes == start + Carried(Wire(Join(replies)), room)
      invariant out.room == room - |Carried(Wire(Join(replies)), room)|
      decreases |input.bytes|
    {
      NextAsked(asked, input.bytes);
      var f := input.ReadFrame();
      if f.None? { break; }
      ghost var reply: seq<Frame> := [];
      if f.value != [] && Fs.OP_LS <= f.value[0] <= Fs.OP_GET {
        reply := Handle(files, f.value, out);
      } else {
        NoReply(files, f.value, out.bytes, out.room);
      }
      NextReply(start, room, replies, reply);
      asked, replies := asked + [f.value], replies + [reply];
    }
  }

  lemma NoReplies(start: seq<byte>, room: nat)
    ensures start + Carried(Wire(Join([])), room) == start && |Carried(Wire(Join([])), room)| == 0
  {
    WireNone();
  }

  lemma NextAsked(asked: seq<Frame>, p: seq<byte>)
    ensures match NextFrame(p)
            case Got(f, rest) =>
              && |rest| < |p|
              && asked + Records.DecodeList(ReadFrame, p) == asked + [f] + Records.DecodeList(ReadFrame, rest)
            case _ => asked + Records.DecodeList(ReadFrame, p) == asked
  {
    hide NextFrame;
  }

  lemma NoReply(files: Files, f: Frame, bytes: seq<byte>, room: nat)
    requires !System.IsRequest(f)
    ensures RepliesTo(files, f, [])
    ensures bytes == bytes + Carried(Wire([]), room) && |Carried(Wire([]), room)| == 0
  {
    WireNone();
  }

  lemma NextReply(start: seq<byte>, room: nat, replies: seq<seq<Frame>>, reply: seq<Frame>)
    ensures var before := Carried(Wire(Join(replies)), room);
            var out := Carried(Wire(reply), room - |before|);
            Carried(Wire(Join(replies + [reply])), room) == before + out
  {
    hide Wire;
    JoinSnoc(replies, reply);
    WireAppend(Join(replies), reply);
    CarriedAppend(Wire(Join(replies)), Wire(reply), room);
  }

  /** What the daemon writes for a request is a complete reply exactly when it can
      serve the request. Otherwise it writes a proper part of a reply, often nothing,
      never a reply that looks complete; and the proxy waits for the rest. */
  lemma DaemonCompletesReply(files: Files, f: Frame, reply: seq<Frame>)
    requires System.IsRequest(f) && RepliesTo(files, f, reply)
    ensures System.IsAnswer(f, reply)
    ensures System.IsReply(f, reply) <==> Servable(files, f)
    ensures !Servable(files, f) ==> exists whole :: System.IsReply(f, whole) && reply < whole
  {
    hide Fs.ParsePath, LsAnswer, Answer, System.IsReply;
    RefusalIsReply(f);
    var path := Fs.ParsePath(f);
    if path.Some? && f[0] == Fs.OP_LS {
      OneFrameIsReply(f, LsAnswer(files.list(LsPath(path.value))));
    } else if path.Some? && Sendable(files.open(path.value)) {
      var file := files.open(path.value);
      var chunks :| WholeFile(file, chunks) && reply == Answer(file, chunks);
      AnswerIsReply(f, file, chunks);
    }
  }

  lemma OneFrameIsReply(f: Frame, answer: Frame)
    requires System.IsRequest(f) && f[0] == Fs.OP_LS
    ensures System.IsReply(f, [answer]) && System.IsAnswer(f, [answer])
  {
  }

  // --- the daemon of a tree ---

  /** What the operating system finds at a path; the empty path names nothing. */
  function Named(tree: Mirror.Node, path: seq<byte>): Option<Mirror.Node> {
    if path == [] then None else Mirror.Resolve(tree, path)
  }

  /** The files of a tree on Unix: a directory lists its entries and opens, with some
      size of its own, but no read of it succeeds. */
  ghost predicate Serves(files: Files, tree: Mirror.Node) {
    forall path ::
      match Named(tree, path)
      case Some(File(content)) =>
        && (|content| < 0x1_0000_0000_0000_0000 ==> files.open(path) == File(|content|, content, true))
        && !files.list(path).Entries?
      case Some(Dir(entries)) =>
        && files.open(path).File? && files.open(path).content == [] && !files.open(path).whole
        && files.list(path) == Entries(Mirror.Entries(entries))
      case None => (files.open(path).Missing? || files.open(path).Refused?) && !files.list(path).Entries?
  }

  /** What `ls_on_conn` makes of the reply; None is an error. */
  function Understood(reply: seq<Frame>): Option<seq<Fs.FsEntry>> {
    if reply == [] || !IsOk(reply[0]) then None else Some(Records.DecodeList(Fs.ReadEntry, reply[0][1..]))
  }

  /** Listing the empty path lists the current directory, which is the root. */
  lemma CurrentIsRoot(tree: Mirror.Node)
    ensures CURRENT != [] && CURRENT == [0x2E]
    ensures Mirror.Resolve(tree, CURRENT) == Mirror.Resolve(tree, []) == if tree.Dir? then Some(tree) else None
  {
    assert CURRENT == Mirror.DOT;
    SplitNone(Mirror.SLASH, CURRENT);
    forall part: seq<byte> | part == [] || part == Mirror.DOT
      ensures Mirror.Walk(tree, [part]) == if tree.Dir? then Some(tree) else None
    {
      assert [part][1..] == [];
    }
  }

  /** The answer to an LS of any path that decodes: the directory of the tree at that
      path, entry by entry, the root for the empty path; nothing if the listing is too
      big for a frame; and a refusal, if it fits, where the tree has no directory. */
  lemma LsShowsDirectory(files: Files, tree: Mirror.Node, path: seq<byte>, reply: seq<Frame>)
    requires Serves(files, tree) && FitsU16(path) && Utf8.Valid(path)
    requires RepliesTo(files, Fs.Req(Fs.OP_LS, path), reply)
    ensures match Mirror.Resolve(tree, path)
            case Some(Dir(entries)) =>
              if 1 + |Fs.Listing(Mirror.Entries(entries))| > MAX_FRAME then reply == []
              else
                && Understood(reply).Some?
                && ((forall e | e in Mirror.Entries(entries) :: Fs.EntryFits(e)) ==>
                      Understood(reply).value == Mirror.Entries(entries))
            case _ => reply == [] || (|reply| == 1 && reply[0] != [] && reply[0][0] != ST_OK)
  {
    hide Mirror.Resolve, Fs.ParsePath, Fs.Listing, Fs.ReadEntry, Utf8.Valid;
    var f := Fs.Req(Fs.OP_LS, path);
    Fs.ReqLayout(Fs.OP_LS, path);
    Fs.ReqRoundTrip(Fs.OP_LS, path);
    CurrentIsRoot(tree);
    assert Named(tree, LsPath(path)) == Mirror.Resolve(tree, path);
    var listed := files.list(LsPath(path));
    if listed.Entries? {
      assert ([ST_OK] + Fs.Listing(listed.entries))[1..] == Fs.Listing(listed.entries);
      if forall e | e in listed.entries :: Fs.EntryFits(e) { Fs.LsPrefix(listed.entries, 0); }
    }
  }

  /** What a refusal says: not found, or an error with the message of the system. */
  lemma RefusalSaysWhy(files: Files, op: byte, path: seq<byte>, reply: seq<Frame>)
    requires System.IsFsOp(op) && path != [] && FitsU16(path) && Utf8.Valid(path)
    requires RepliesTo(files, Fs.Req(op, path), reply)
    ensures if op == Fs.OP_LS then
              match files.list(path)
              case NoDirectory => reply == [[ST_NOT_FOUND]]
              case Refused(message) => reply == if |message| < MAX_FRAME then [[ST_ERR] + message] else []
              case Entries(_) => reply == [] || (|reply| == 1 && IsOk(reply[0]))
            else
              match files.open(path)
              case Missing => reply == [[ST_NOT_FOUND]]
              case Refused(message) => reply == if |message| < MAX_FRAME then [[ST_ERR] + message] else []
              case NoMetadata => reply == []
              case File(_, _, _) => reply != [] && IsOk(reply[0])
  {
    hide Fs.ParsePath, Utf8.Valid, Chunking, Flatten;
    Fs.ReqLayout(op, path);
    Fs.ReqRoundTrip(op, path);
  }

  /** The LS exchange that a download makes is one with the daemon. */
  lemma RemoteLsIsExchange(files: Files, tree: Mirror.Node, path: seq<byte>, reply: seq<Frame>)
    requires Serves(files, tree) && RepliesTo(files, Fs.Req(Fs.OP_LS, path), reply)
    ensures Mirror.RemoteLs(tree, path) == Understood(reply)
  {
    hide Mirror.Resolve, Fs.ParsePath, Fs.Listing, Fs.ReadEntry, Utf8.Valid;
    var f := Fs.Req(Fs.OP_LS, path);
    Fs.ReqLayout(Fs.OP_LS, path);
    CurrentIsRoot(tree);
    var asked := Fs.ParsePath(f);
    if asked.Some? {
      assert Named(tree, LsPath(asked.value)) == Mirror.Resolve(tree, asked.value);
      var listed := files.list(LsPath(asked.value));
      if listed.Entries? {
        assert ([ST_OK] + Fs.Listing(listed.entries))[1..] == Fs.Listing(listed.entries);
      }
    }
  }

  /** The GET exchange that a download makes is one with the daemon: the client collects
      the whole file, with its size, or has no success and no data. */
  lemma RemoteGetIsExchange(files: Files, tree: Mirror.Node, path: seq<byte>, reply: seq<Frame>)
    requires Serves(files, tree) && RepliesTo(files, Fs.Req(Fs.OP_GET, path), reply)
    requires var got := Mirror.RemoteGet(tree, path); got.Some? ==> |got.value| < 0x1_0000_0000_0000_0000
    ensures match Mirror.RemoteGet(tree, path)
            case Some(content) => Collect(Wire(reply)) == Fetched(Some(|content|), content, [])
            case None => Collect(Wire(reply)).size == None && Collect(Wire(reply)).data == []
  {
    hide Mirror.Resolve, Fs.ParsePath, Collect, Wire, Header, Chunking, Flatten, Answer, Reply;
    var f := Fs.Req(Fs.OP_GET, path);
    Fs.ReqLayout(Fs.OP_GET, path);
    CurrentIsRoot(tree);
    NothingCollected();
    var asked := Fs.ParsePath(f);
    if asked.Some? && Sendable(files.open(asked.value)) {
      var node, file := Named(tree, asked.value), files.open(asked.value);
      var chunks :| WholeFile(file, chunks) && reply == Answer(file, chunks);
      assert Wire(reply) + [] == Wire(reply);
      if node.None? {
        RefusalCollected(file, chunks, []);
      } else if node.value.File? {
        CollectReply(file.size, chunks, []);
        AnswerOfFile(file, chunks);
      } else {
        HeaderCollected(file, chunks);
      }
    }
  }

  lemma NothingCollected()
    ensures Collect(Wire([])) == Fetched(None, [], [])
  {
    WireNone();
    NothingArrives();
  }

  lemma AnswerOfFile(file: Opened, chunks: seq<Frame>)
    requires file.File? && file.whole
    ensures Answer(file, chunks) == Reply(file.size, chunks)
  {
  }

  /** Of a directory only the header arrives. */
  lemma HeaderCollected(file: Opened, chunks: seq<Frame>)
    requires file.File? && file.content == [] && !file.whole && WholeFile(file, chunks)
    ensures Answer(file, chunks) == [Header(file.size)]
    ensures Collect(Wire(Answer(file, chunks))) == Fetched(None, [], [])
  {
    hide NextFrame, FrameBytes, Header;
    ChunksHoldBytes(chunks);
    assert [Header(file.size)] + chunks == [Header(file.size)];
    HeaderLength(file.size);
    WireOne(Header(file.size));
    NextFrameOf(Header(file.size), []);
    assert FrameBytes(Header(file.size)) + [] == FrameBytes(Header(file.size));
    NothingArrives();
  }

  /** A GET of a directory gets a header and then nothing, so its proxy waits. */
  lemma DirectoryNeverCompletes(files: Files, tree: Mirror.Node, path: seq<byte>, reply: seq<Frame>)
    requires Serves(files, tree) && path != [] && FitsU16(path) && Utf8.Valid(path)
    requires Mirror.Resolve(tree, path).Some? && Mirror.Resolve(tree, path).value.Dir?
    requires RepliesTo(files, Fs.Req(Fs.OP_GET, path), reply)
    ensures reply == [Header(files.open(path).size)]
    ensures System.IsRequest(Fs.Req(Fs.OP_GET, path)) && !System.IsReply(Fs.Req(Fs.OP_GET, path), reply)
  {
    hide Header, Fs.ParsePath, Mirror.Resolve, System.IsReply;
    var f := Fs.Req(Fs.OP_GET, path);
    Fs.ReqLayout(Fs.OP_GET, path);
    Fs.ReqRoundTrip(Fs.OP_GET, path);
    var file := files.open(path);
    var chunks :| WholeFile(file, chunks) && reply == Answer(file, chunks);
    ChunksHoldBytes(chunks);
    DaemonCompletesReply(files, f, reply);
  }

  lemma {:induction false} ChunksHoldBytes(chunks: seq<Frame>)
    requires Chunking(chunks)
    ensures |chunks| <= |Flatten(chunks)|
  {
    if chunks != [] {
      assert chunks[0] in chunks;
      ChunksHoldBytes(chunks[1..]);
    }
  }

  /** A path too long for its u16 length, which lossy decoding can make of a shorter
      one, gets no answer at all when the cut splits a character. */
  lemma UndecodableNeverAnswered(files: Files, op: byte, path: seq<byte>, reply: seq<Frame>)
    requires System.IsFsOp(op) && Utf8.Valid(path) && !Utf8.Valid(path[..|path| % 0x1_0000])
    requires RepliesTo(files, Fs.Req(op, path), reply)
    ensures reply == []
  {
    hide Utf8.Valid;
    Fs.LongPathIsCut(op, path);
  }

  /** Such a path: 30000 bytes that are no text, as a proxy decodes them. */
  lemma BadBytesNeverAnswered(files: Files, op: byte, reply: seq<Frame>)
    requires System.IsFsOp(op) && RepliesTo(files, Fs.Req(op, Utf8.Lossy(Utf8.Bad(30000))), reply)
    ensures reply == []
  {
    hide RepliesTo, Utf8.Bad, Utf8.Replacements, Utf8.Lossy, Utf8.Valid, Fs.Req;
    var path := Utf8.Replacements(30000);
    Utf8.LossyOfBad(30000);
    Utf8.LossyIdentity(Utf8.Bad(30000));
    assert |path| % 0x1_0000 == 24464;
    Utf8.CutReplacements(30000, 24464);
    UndecodableNeverAnswered(files, op, path, reply);
  }
}
