/** thru-fs: requests and directory listings. */
module Fs {
  import opened Common
  import opened Core
  import Records
  import Utf8

  const OP_LS: byte := 20
  const OP_GET: byte := 21
  const ET_FILE: byte := 0
  const ET_DIR: byte := 1
  const CHUNK: nat := 1024 * 1024

  // --- requests ---

  function Req(op: byte, path: seq<byte>): seq<byte> {
    [op] + U16(|path|) + path
  }

  /** None stands for the three I/O errors of `parse_path`. */
  function ParsePath(data: seq<byte>): Option<seq<byte>> {
    if |data| < 3 then None
    else
      var klen := ReadU16(data[1..]);
      if |data| < 3 + klen then None
      else if !Utf8.Valid(data[3..3 + klen]) then None
      else Some(data[3..3 + klen])
  }

  lemma ReqLayout(op: byte, path: seq<byte>)
    ensures var data := Req(op, path);
            && |data| == 3 + |path| && data[0] == op
            && ReadU16(data[1..]) == |path| % 0x1_0000
            && data[3..3 + |path|] == path
  {
    var data := Req(op, path);
    assert data[1..] == U16(|path|) + path;
    U16RoundTrip(|path|, path);
  }

  /** The path survives the request exactly when it is valid text short enough for
      its u16 length. */
  lemma ReqRoundTrip(op: byte, path: seq<byte>)
    ensures ParsePath(Req(op, path)) == Some(path) <==> FitsU16(path) && Utf8.Valid(path)
  {
    hide Utf8.Valid;
    ReqLayout(op, path);
    if !FitsU16(path) && ParsePath(Req(op, path)).Some? {
      assert |ParsePath(Req(op, path)).value| == |path| % 0x1_0000;
    }
  }

  /** Whatever the path, the server sees its first `|path| % 65536` bytes, or nothing
      it can decode. */
  lemma LongPathIsCut(op: byte, path: seq<byte>)
    ensures var cut := path[..|path| % 0x1_0000];
            ParsePath(Req(op, path)) == if Utf8.Valid(cut) then Some(cut) else None
  {
    hide Utf8.Valid;
    ReqLayout(op, path);
    var data, n := Req(op, path), |path| % 0x1_0000;
    assert data[3..3 + n] == data[3..3 + |path|][..n];
  }

  // --- directory listings ---

  datatype FsEntry = FsEntry(name: seq<byte>, isDir: bool)

  function EntryBytes(e: FsEntry): seq<byte> {
    [if e.isDir then ET_DIR else ET_FILE] + PushStr(e.name)
  }

  /** One turn of the `ls_on_conn` cursor loop. */
  function ReadEntry(p: seq<byte>): (r: Option<(FsEntry, seq<byte>)>)
    ensures r.Some? ==> |r.value.1| < |p|
  {
    if |p| < 3 then None
    else
      var (name, rest) :- ReadStr(p[1..]);
      Some((FsEntry(name, p[0] == ET_DIR), rest))
  }

  predicate EntryFits(e: FsEntry) {
    FitsU16(e.name) && Utf8.Valid(e.name)
  }

  lemma ReadEntryCut(e: FsEntry, tail: seq<byte>, n: nat)
    requires EntryFits(e) && n <= |EntryBytes(e)| + |tail|
    ensures ReadEntry((EntryBytes(e) + tail)[..n])
         == if n < |EntryBytes(e)| then None else Some((e, tail[..n - |EntryBytes(e)|]))
  {
    hide Utf8.Valid, ReadStr;
    var p := (EntryBytes(e) + tail)[..n];
    if n >= 1 {
      assert p[1..] == (PushStr(e.name) + tail)[..n - 1];
      ReadStrCut(e.name, tail, n - 1);
    }
  }

  lemma EntryCodec()
    ensures Records.Codec(EntryBytes, ReadEntry, EntryFits)
  {
    forall e: FsEntry, tail: seq<byte>, n: nat | EntryFits(e) && n <= |EntryBytes(e)| + |tail|
      ensures ReadEntry((EntryBytes(e) + tail)[..n]) == Records.Cut(EntryBytes, e, tail, n)
    {
      ReadEntryCut(e, tail, n);
    }
  }

  function Listing(entries: seq<FsEntry>): seq<byte> {
    Records.EncodeList(EntryBytes, entries)
  }

  /** The payload loop of `handle_ls`, in whatever order the directory is read. */
  method HandleLs(entries: seq<FsEntry>) returns (payload: seq<byte>)
    ensures payload == [ST_OK] + Listing(entries)
  {
    hide EntryBytes, PushStr;
    payload := [ST_OK];
    assert entries[..0] == [];
    for i := 0 to |entries|
      invariant payload == [ST_OK] + Listing(entries[..i])
    {
      assert entries[..i + 1] == entries[..i] + [entries[i]];
      Records.EncodeListSnoc(EntryBytes, entries[..i], entries[i]);
      PushEntry(payload, entries[i]);
      payload := payload + [if entries[i].isDir then ET_DIR else ET_FILE];
      payload := payload + PushStr(entries[i].name);
    }
    assert entries[..|entries|] == entries;
  }

  lemma PushEntry(p: seq<byte>, e: FsEntry)
    ensures p + [if e.isDir then ET_DIR else ET_FILE] + PushStr(e.name) == p + EntryBytes(e)
  {
  }

  /** The cursor loop of `ls_on_conn`, after the status byte. */
  method ParseLs(payload: seq<byte>) returns (out: seq<FsEntry>)
    ensures out == Records.DecodeList(ReadEntry, payload)
  {
    out := [];
    var p := payload;
    while |p| >= 3
      invariant out + Records.DecodeList(ReadEntry, p) == Records.DecodeList(ReadEntry, payload)
      decreases |p|
    {
      ghost var start := p;
      var et := p[0];
      ReadStrBySlices(start[1..]);
      var nlen := ReadU16(p[1..]);
      p := p[3..];
      assert p == start[1..][2..];
      if |p| < nlen { break; }
      var name := Utf8.Lossy(p[..nlen]);
      p := p[nlen..];
      assert ReadEntry(start) == Some((FsEntry(name, et == ET_DIR), p));
      out := out + [FsEntry(name, et == ET_DIR)];
    }
  }

  /** Any prefix of a listing yields exactly the entries it wholly holds; the whole
      listing yields all of them, in order. */
  lemma LsPrefix(entries: seq<FsEntry>, n: nat)
    requires (forall e | e in entries :: EntryFits(e)) && n <= |Listing(entries)|
    ensures Records.DecodeList(ReadEntry, Listing(entries)[..n]) == entries[..Records.Whole(EntryBytes, entries, n)]
    ensures Records.DecodeList(ReadEntry, Listing(entries)) == entries
  {
    EntryCodec();
    Records.DecodePrefix(EntryBytes, ReadEntry, EntryFits, entries, n);
    Records.RoundTrip(EntryBytes, ReadEntry, EntryFits, entries);
  }
}
