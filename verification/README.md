# Verified model of thru

thru is a small client/server tool: a shared dictionary, file listing and download, remote scripts and
an interactive shell, and a reverse tunnel through which a server reaches file systems of devices that
connected to it. Everything travels in length-prefixed frames over one TCP connection per peer.

This project models the parts of thru whose behaviour spans several functions, several requests or
several threads, and proves what they promise.

| files | part of thru |
|---|---|
| `Common.dfy`, `Utf8.dfy`, `Core.dfy`, `Records.dfy` | bytes, UTF-8 and lossy decoding, big-endian integers, length-prefixed strings, and one law for every record list |
| `Frames.dfy`, `Bodies.dfy` | the frame codec, a connection as a stream of bytes, and streams of frames closed by an empty one |
| `DictSpec.dfy`, `DictStore.dfy`, `DictRuns.dfy`, `DictListing.dfy`, `DictExamples.dfy` | the bounded LRU dictionary: one request, the store updated in place, whole runs, KEYS and ALL up to the client, and a run in which an APPEND loses its value |
| `Registry.dfy`, `Proxy.dfy`, `DeviceCodec.dfy` | the device registry, sessions and routing, the device list and status payloads |
| `System.dfy`, `SystemInv.dfy`, `SystemRuns.dfy`, `SystemTraces.dfy`, `SystemFailures.dfy`, `SystemExamples.dfy` | the server as interleaved threads with explicit mutexes: its steps, its invariant, what holds over all runs, where marks and requests come from, what failures lead to, and two runs that show where the provisos bite |
| `Fs.dfy`, `Fetch.dfy`, `Daemon.dfy`, `Mirror.dfy` | file requests and listings, streamed GET with its relay, the daemon on a device, recursive download |
| `Exec.dfy`, `Shell.dfy` | script output framing; keys and resizes sharing one stream |
| `Auth.dfy`, `ServerArgs.dfy` | the password handshake; starting a server: what `main` lets through and the two argument loops |

How the program's own world appears in the model:

- A connection is a `Frames.Stream`: the bytes written and not yet read, and `room`, the number of bytes it
  still carries before it fails. No program can see `room`, and every result holds for every value of it;
  once a write has failed nothing more gets out. A read returns any non-empty piece of what is there.
- A Rust `String` is its bytes, which are valid UTF-8; `from_utf8_lossy` is modelled byte for byte. Lengths
  cast to `u16` really are cut, so round trips carry their 65535-byte condition as one side of an
  equivalence wherever that condition is exact.
- The time of a request is a parameter that never decreases; equal times are allowed. The order of a
  `HashMap` is arbitrary. SHA-256 is an arbitrary function to 32-byte digests and the nonce is arbitrary.
- Code that updates state is a class with methods or a method with loops, tied to a specification function;
  the results about whole runs are lemmas about those functions.
- Threads are interleaved labelled steps. Taking a mutex and giving it back are steps of their own, and the
  currency check and the mark of a heartbeat monitor are two critical sections.

Results that are equivalences because the unconditional statement is false of the code:

- An APPEND whose eviction drops the very key it extends restarts the value with the new bytes. The
  dictionary is therefore a plain map in which a write may first drop keys (`DictSpec.Step`).
  `DictRuns.AppendExtends` gives the exact condition on the store before the call: the new bytes fit beside
  everything used no earlier than the key, or there was no value to lose. `DictExamples.AppendLosesItsValue`
  is a run that violates it, and `DictRuns.BoundedMatchesUnbounded` says which runs never drop anything.
- A listing reaches the client exactly if it fits a frame; `DictListing.CallAll` and `DictListing.CallKeys`
  give its size in terms of the store, and `DictExamples.TooLargeToList` reaches a store that cannot be listed.
- A monitor or a proxy can take a freshly reconnected device offline. `SystemTraces.MarkTakesOwnConnection`
  says when a mark does so, and `SystemExamples.StaleMark` is such a run.
- A requester that disconnects in the middle of a proxied GET leaves the rest of the answer on the device's
  connection. `SystemRuns.GivingUpLeavesFrames` says exactly when something is left, and
  `SystemTraces.NextReadGetsLeftover` that in every run the next read on the connection is given it, and
  `SystemExamples.NextProxyReadsLeftover` is a run in which a proxy takes it for its own reply.
- The daemon completes a reply exactly if it can decode the path, the answer fits a frame, and the file opens
  and reads to its end (`Daemon.DaemonCompletesReply`). Otherwise it writes a proper part of a reply: nothing
  for a long path cut inside a character (`Daemon.UndecodableNeverAnswered`, `Daemon.BadBytesNeverAnswered`), only a header for a GET of a directory on
  Unix (`Daemon.DirectoryNeverCompletes`); and the proxy waits.
- The proxy frame does not carry the user, and cuts a name that lossy decoding has made too long, so a request
  may reach another device; `Proxy.RequestReachesDevice` says exactly when it reaches the target, and
  `Proxy.OneNameTwoUsers` is a registry where it does not.
- The device list names the server with the user it runs as, and the client asks for a target by the listed name
  and user, but the target "server" must have no user (`src/reverse.rs:151-152`, `src/reverse.rs:185`,
  `src/client.rs:590-592`). `DeviceCodec.SelectDevice` says that every listed device can be selected, and the
  server itself exactly if that user is empty or a device of that very pair is registered.
- A literal U+001F key is taken for a resize; `Shell.ShellDemultiplexes` makes its absence the exact condition.
- `main` looks only at the first argument without a dash before it starts a server. When a further port or a
  device limit does not parse, the parent falls back to the default port while the daemon it starts gives up;
  `ServerArgs.StartServer` says when a session is cached for a server that is not there, and
  `ServerArgs.TooLargePort` is such an argument list.
- A relayed GET that the device breaks off behind the header ends in an ordinary terminator, so the client
  reports the declared size as if the file were whole (`src/reverse.rs:355-362`,
  `crates/thru-fs/src/lib.rs:190-195`). `Fetch.ProxiedGetCut` says when a success holds the whole file: exactly
  if as many bytes were received as declared, which no caller checks. `Fetch.CutBehindHeader` is a file that
  arrives empty, and `Fetch.CutAnywhere` shows that every prefix can arrive. A recursive download through the
  relay therefore leaves the tree as it arrived, which is the whole tree exactly if no file is shorter than
  declared (`Mirror.DownloadDir`); `Mirror.CutFileIsSuccess` is one that succeeds and is not.

One comment in the code says more than the code does: `run_reverse_daemon` is described as answering dictionary
requests, which it ignores (`src/reverse.rs:431-476`). The model follows the code.

Mutexes are all that `SystemRuns.NoCircularWait` speaks of. The code also writes refusals to a client's socket
while it holds the registry mutex (`src/reverse.rs:271-276`, `src/server.rs:233-236`), so a client that does not
read can hold up the registry; the sections of the model do no such I/O.

## Model

| member | source | states |
|---|---|---|
| Core.PushStrRoundTrip | crates/thru-core/src/lib.rs:69-72 | a valid string is read back, with the cursor just behind it, if and only if its length survives the u16 cast |
| Core.ReadStrCut | src/client.rs:437-445 | reading any prefix of a pushed string and what follows gives the string exactly when all of it is there |
| Utf8.LossyIdentity | crates/thru-fs/src/lib.rs:174-174 | lossy decoding always yields valid UTF-8 and is the identity exactly on valid UTF-8 |
| Records.DecodePrefix | crates/thru-fs/src/lib.rs:167-178 | a cursor loop on the first n bytes of a record list returns exactly the records wholly contained in them, in order |
| Records.WholeIsMaximal | crates/thru-fs/src/lib.rs:169-173 | the number of records that prefix yields is the largest whose bytes fit in it |
| Frames.NextFrameCut | crates/thru-core/src/lib.rs:19-44 | from any prefix of a frame and what follows the reader gets the payload, or an error when it is cut or over the limit, never anything else |
| Frames.FrameStreamCut | crates/thru-core/src/lib.rs:19-44 | a stream of frames cut anywhere yields exactly the frames it wholly holds; the whole stream yields all of them |
| Frames.FramesUnique | crates/thru-core/src/lib.rs:19-28 | two sequences of frames with the same bytes are the same sequence |
| Frames.Stream.ReadExact | crates/thru-core/src/lib.rs:31-43 | whatever the sizes of the pieces, exactly n bytes arrive and the stream stands behind them, or an error if fewer are left |
| Frames.Stream.ReadFrame | crates/thru-core/src/lib.rs:31-44 | delivers the next whole frame and leaves the stream at the following one; an error for a cut or over-limit frame |
| Frames.Stream.WriteFrame | crates/thru-core/src/lib.rs:19-28 | the bytes of the frame up to the failure of the connection; succeeds exactly when the payload is within MAX_FRAME and all of it gets out; an over-limit payload writes nothing |
| Bodies.BodyCut | src/reverse.rs:354-371 | a stream of frames closed by an empty one, cut anywhere, is read as exactly the frames it wholly holds, and as ended only when the empty frame is there |
| DictSpec.ReqRoundTrip | crates/thru-dict/src/lib.rs:27-34 | the server sees the operation, key and value the client meant if and only if the key is valid text of at most 65535 bytes |
| DictSpec.SizeRemove | crates/thru-dict/src/lib.rs:93-95 | the sum of all value lengths, however the map is enumerated, loses exactly the removed value |
| DictSpec.EvictsNothing | crates/thru-dict/src/lib.rs:77-79 | an exact LRU eviction drops nothing if and only if the bytes already fit |
| DictSpec.EvictionUnique | crates/thru-dict/src/lib.rs:82-97 | when access times differ the victims are determined by the store and the bytes needed |
| DictSpec.KeySpared | crates/thru-dict/src/lib.rs:156-158 | an eviction spares a key if the bytes fit beside everything used no earlier, and only if they fit beside everything used later; without ties this is one exact condition |
| DictStore.SortedListing | crates/thru-dict/src/lib.rs:82-87 | the sorted snapshot is ordered by last access and holds every key once |
| DictStore.Dict.Remove | crates/thru-dict/src/lib.rs:93-95 | takes out the key and exactly its bytes, so the total stays the sum of all value lengths |
| DictStore.Dict.EvictUntil | crates/thru-dict/src/lib.rs:76-98 | the store loses exactly the dropped keys; they are an exact LRU eviction (no victim newer than a survivor, and without the newest victim the bytes would not fit); fails only for more than 1 GiB |
| DictStore.Dict.EvictOldest | crates/thru-dict/src/lib.rs:89-97 | the same for the loop over the sorted snapshot |
| DictStore.Dict.Set | crates/thru-dict/src/lib.rs:128-148 | drops by LRU among the other keys, then stores the value at this time; the failed-eviction reply is unreachable |
| DictStore.Dict.Append | crates/thru-dict/src/lib.rs:149-167 | drops by LRU among all keys, then extends what is left of the value; the failed-eviction reply is unreachable |
| DictStore.Dict.Handle | crates/thru-dict/src/lib.rs:101-192 | every request is one step of a plain map in which a write may first drop keys: reply, new contents, access times and victims; the accounting invariant is kept |
| DictStore.Dict.All | crates/thru-dict/src/lib.rs:178-189 | one record per key, in some order of the keys |
| DictRuns.Serve | crates/thru-dict/src/lib.rs:64-72 | serving any requests at nondecreasing times from the empty dictionary is a run of such steps |
| DictRuns.ReachableWellFormed | crates/thru-dict/src/lib.rs:101-192 | in every reachable store the total is at most 1 GiB and every value at most 10 MiB, with access times in the past |
| DictRuns.NothingSaturates | crates/thru-dict/src/lib.rs:77-97 | in every reachable store no saturating addition or subtraction saturates |
| DictRuns.ReplyFitsFrame | crates/thru-dict/src/lib.rs:120-191 | every reply other than KEYS and ALL fits one frame; the size of those two is given exactly by the store |
| DictRuns.SucceedsExactly | crates/thru-dict/src/lib.rs:101-192 | malformed bytes get an error and change nothing; any other request succeeds if and only if it is a GET of a stored key, a write within the limit of one value, a DEL or a listing; not-found answers exactly a GET of a key that is not stored |
| DictRuns.RunAgreesWithHistory | crates/thru-dict/src/lib.rs:120-192 | over every run each key's value and last access are what its own history of successful requests and drops says; KEYS and ALL do not count as uses |
| DictRuns.GetReturnsHistory | crates/thru-dict/src/lib.rs:121-127 | every GET answers with the value the key's history gives, or with not-found exactly when it gives none |
| DictRuns.LastSetThenAppends | crates/thru-dict/src/lib.rs:139-166 | the value is the last SET followed by all APPENDs since |
| DictRuns.AbsentThenAppends | crates/thru-dict/src/lib.rs:159-166 | from absence the value is all APPENDs since |
| DictRuns.VictimsAreLeastRecentlyUsed | crates/thru-dict/src/lib.rs:82-96 | over every run whatever a write drops was last used no later than anything it leaves |
| DictRuns.DropsWhenTooBig | crates/thru-dict/src/lib.rs:77-79 | a step drops keys exactly when the undropped result would pass 1 GiB |
| DictRuns.AppendExtends | crates/thru-dict/src/lib.rs:149-167 | an accepted APPEND stores old and new bytes if and only if the new bytes fit beside everything used no earlier than the key or there was no old value; with ties in access times, one condition suffices and one is needed |
| DictExamples.AppendLosesItsValue | crates/thru-dict/src/lib.rs:156-166 | a run from the empty dictionary in which an accepted APPEND leaves only its own bytes |
| DictRuns.BoundedMatchesUnbounded | crates/thru-dict/src/lib.rs:101-192 | a run drops nothing if and only if the unbounded totals never pass 1 GiB, and then it matches the unbounded map reply for reply |
| DictListing.KeyListingFaithful | crates/thru-dict/src/lib.rs:242-250 | the client's split of the joined keys returns the list if and only if no key holds a newline and the list is not just the empty key |
| DictListing.ClientAll | crates/thru-dict/src/lib.rs:274-294 | the cursor loop returns every complete record and stops in bounds on any bytes |
| DictListing.AllPrefix | crates/thru-dict/src/lib.rs:183-187 | any prefix of an ALL payload yields exactly the pairs it wholly holds |
| DictListing.AllHoldsStore | crates/thru-dict/src/lib.rs:178-189 | in every reachable store the reply to ALL decodes to each key once with its value and nothing else |
| DictListing.CallAll | crates/thru-dict/src/lib.rs:274-294 | the client gets exactly the store if and only if the listing, whose size the store determines, fits a frame and the connection carries it; an error otherwise |
| DictExamples.TooLargeToList | crates/thru-dict/src/lib.rs:178-189 | a reachable store whose ALL reply exceeds a frame |
| DictListing.CallKeys | crates/thru-dict/src/lib.rs:242-250 | succeeds under the like condition, and then gives the keys if and only if none holds a newline and the store is not the empty key alone |
| Registry.First | src/reverse.rs:246-247 | the earliest-registered match, and none exactly when nothing matches |
| Registry.RegisteredConsistent | src/server.rs:231-257 | an accepted registration keeps pairs unique, active equal to having a connection, and the limit; it only appends identities, stores its connection, and leaves every other pair's connection alone |
| Registry.OfflineConsistent | src/reverse.rs:219-226 | taking a pair offline keeps all that, removes its connection and no other |
| Registry.RegisteredJoins | src/server.rs:239-257 | a registration replaces address, connection and last-seen time of a known pair, keeps the time it first connected, or appends the pair; every other record is as before |
| Registry.OfflineLeaves | src/reverse.rs:219-226 | a mark changes the record of its own pair only |
| Registry.TargetStaysValid | src/reverse.rs:185-190 | a valid target stays valid as the registry grows |
| Registry.DeviceList.Register | src/server.rs:231-257 | refused exactly when there is a limit and that many devices are active; otherwise, record by record, a known pair gets the new address and connection and keeps the time it first connected, an unknown pair is appended, and every other record is as before |
| Registry.DeviceList.MarkOffline | src/reverse.rs:219-226 | record by record: the pair's own record loses its connection and its activity and keeps everything else but the time last seen; every other record is as before |
| Registry.DeviceList.CountActive | src/server.rs:232-232 | the number of active records |
| Proxy.TwoStringsRoundTrip | src/reverse.rs:42-58 | both strings of a frame arrive if and only if both fit their u16 lengths |
| Proxy.RequestReachesDevice | src/reverse.rs:95-139 | a request for an active target goes, with its path unchanged, to the earliest active device of that name, and for a name over 65535 bytes to the one of the cut name if any; it is the target itself if and only if the name fits and no earlier active device shares it |
| Proxy.DistinctNamesReachTarget | src/reverse.rs:262-280 | with distinct active names it reaches the target if and only if the name fits its u16 length |
| Proxy.OneNameTwoUsers | src/reverse.rs:262-280 | for any two users of one device name, what is meant for the second goes to the first |
| Proxy.Session.DispatchFs | src/reverse.rs:96-139 | a target that is set stays; an unset one becomes the earliest active device, or the server if none is active. Told from the records: the request is served locally exactly if the target is named server, refused with an error if no record of the pair is active, and otherwise goes, for a name that fits, to the earliest active device of that name with the path asked for, "." if there is none |
| Proxy.DispatchMeaning | src/reverse.rs:102-139 | the same about the routing of any request on any registry |
| Proxy.ProxyMeaning | src/reverse.rs:262-280 | any bytes sent to a proxy: silence if they are no name and path, a refusal if no active device has the name, otherwise the earliest active one is asked for the path |
| Proxy.AskedUnchanged | src/reverse.rs:125-135 | the device is asked exactly what the client asked, for a name and a path that fit |
| Proxy.Session.HandleProxy | src/reverse.rs:262-280 | a malformed frame is silent, a name that no active device has is refused with an error, otherwise the earliest active device of that name is asked for the path over its connection |
| Proxy.Session.HandleSetTarget | src/reverse.rs:175-197 | accepted exactly for ("server", "") and for the name and user of some record; a refusal changes nothing |
| DeviceCodec.HandleDeviceList | src/reverse.rs:142-172 | the payload lists the server and then every known device in order, each with its own name, user, address, time and activity |
| DeviceCodec.ParseDeviceList | src/client.rs:428-458 | the cursor loop returns every complete record and stops in bounds on any bytes |
| DeviceCodec.DeviceListDelivered | src/client.rs:428-458 | field by field: the first entry the client gets is the server, and entry i+1 has the name, user, address and time of record i and is active if and only if the record is; from any prefix keeping the status byte it gets exactly the devices wholly in it |
| DeviceCodec.SelectDevice | src/client.rs:571-600 | the client asks for an entry of the list as a target: every listed device is accepted and becomes the target; the server's own entry is accepted if and only if the user it is listed with is empty or a device of that pair is registered |
| DeviceCodec.HandleStatus | src/server.rs:289-298 | the status payload holds the pid, the count and every peer |
| DeviceCodec.QueryStatus | src/reverse.rs:489-508 | the counted loop returns the first complete names, no more than announced |
| DeviceCodec.StatusRoundTrip | src/reverse.rs:489-508 | the client reads back the pid and all peers in order |
| DeviceCodec.HandleReverseList | src/reverse.rs:200-208 | the names of the active devices in order |
| DeviceCodec.ActiveNamesDelivered | src/server.rs:415-431 | the client that lists them sees exactly the names of the active devices |
| SystemRuns.InvariantKept | src/reverse.rs:219-372 | every step of every thread keeps the mutexes, the registry, the threads and the connections consistent |
| SystemRuns.RegistrySafe | src/server.rs:231-258 | in every reachable state pairs are unique, active means a connection is stored, the limit holds, and earlier identities are a prefix of the present ones |
| SystemRuns.NoCircularWait | src/reverse.rs:238-257 | also between deciding to release a mutex and releasing it, nobody holds the registry mutex and a device mutex together, and a thread that is waited for waits for nobody |
| SystemRuns.ProxyReadsItsReply | src/reverse.rs:314-372 | on an unbroken connection, for every daemon, the frames a proxy has read are a prefix of the answer to its own request; it stops exactly when they are a whole reply, and then leaves only ignored frames behind |
| SystemRuns.ProxyExchange | src/reverse.rs:282-372 | over every interleaving a finished proxy has read exactly a whole reply that the daemon chose for that request after this proxy wrote it and while it held the mutex |
| SystemRuns.GivingUpLeavesFrames | src/reverse.rs:348-367 | when the requester fails, what was read and what stays on the device's connection make up the daemon's answer; of a whole reply something stays if and only if it was not read completely |
| SystemTraces.MarkTakesOwnConnection | src/reverse.rs:219-257 | a mark, by a monitor or a proxy, touches only the pair its thread looked up before; it takes another connection than the one found then if and only if a registration of the pair was accepted in between and the pair is still connected |
| SystemTraces.ProxyRoute | src/reverse.rs:87-139 | a proxied request goes, with its path, to the connection stored for a pair that was earlier resolved as the earliest active device of a name; name and path still earlier came out of a proxy frame, of the client or written for its active target, which cuts what is too long |
| SystemTraces.IntoProxyUnchanged | src/reverse.rs:125-135 | a name and a path that fit their u16 lengths go through the proxy frame unchanged |
| SystemTraces.NextReadGetsLeftover | src/reverse.rs:354-371 | in every run, after a requester gave up in the middle of a reply, the next read on that connection, by whichever proxy, is given the frame of the old reply at which it stopped |
| SystemTraces.BrokenExactly | src/reverse.rs:242-368 | a connection counts as broken if and only if an earlier step was an I/O error on it or a requester giving up before the reply was complete |
| SystemFailures.FailedProxyMarks | src/reverse.rs:283-372 | when the device of a proxy fails, on writing the request or on reading the reply, the proxy does nothing but give back the mutex and wait for the registry, and its next section there is the mark: it removes the connection of the pair under which the proxy had found the one that failed, and touches no other pair |
| SystemFailures.MarkCameFromFailure | src/reverse.rs:283-372 | a proxy comes to a mark only from such a failure of the connection it had looked up, with no other section in between |
| SystemFailures.FailedPingIsChecked | src/reverse.rs:242-255 | after a failed ping the next section of a monitor is its check; it goes on to the mark exactly if the pair still has the connection that failed, and ends otherwise |
| SystemFailures.SectionComesNext | src/reverse.rs:219-372 | a thread on its way to a section of the registry only gives back what it holds and waits until it runs that section |
| SystemFailures.SectionsFollowRoute | src/reverse.rs:96-139 | the separate critical sections of a request, run on a registry that stands still, are the routing of the session: the request is written to a device, as the client asked it, exactly where the route goes to one |
| SystemRuns.StaleOnlyByRegistration | src/server.rs:239-257 | a thread's look at a pair becomes outdated only by an accepted registration of that pair |
| SystemRuns.MonitorSparesReconnected | src/reverse.rs:242-255 | with no registration of the pair between check and mark, a monitor never takes a reconnected device offline |
| SystemRuns.MonitorStopsAfterFailedPing | src/reverse.rs:236-257 | a monitor leaves its ping loop exactly when a ping fails, and never writes to the connection again |
| SystemRuns.TargetChangesOnlyWhenAsked | src/reverse.rs:87-102 | a session's target is always unset, the server or the pair of a record; a first request sets it to the default, and afterwards it changes exactly by a SET_TARGET of the server or a registered pair |
| SystemExamples.StaleMark | src/reverse.rs:244-254 | a run in which a monitor takes a working new connection offline |
| SystemExamples.NextProxyReadsLeftover | src/reverse.rs:354-371 | a run in which a proxy reads a chunk of another request's reply, takes it for a refusal and finishes before the daemon has seen its request |
| Fs.ReqRoundTrip | crates/thru-fs/src/lib.rs:30-48 | the path survives the request if and only if it is valid text of at most 65535 bytes |
| Fs.LongPathIsCut | crates/thru-fs/src/lib.rs:30-48 | the server sees the first length-modulo-65536 bytes of any path, or nothing if they are no text |
| Fs.HandleLs | crates/thru-fs/src/lib.rs:83-91 | the payload holds every entry in the order the directory is read |
| Fs.ParseLs | crates/thru-fs/src/lib.rs:167-178 | the cursor loop returns every complete entry and stops in bounds on any bytes |
| Fs.LsPrefix | crates/thru-fs/src/lib.rs:164-179 | any prefix of a listing yields exactly the entries wholly in it; the whole listing yields all |
| Fetch.HandleGet | crates/thru-fs/src/lib.rs:94-116 | header, then the file cut into pieces of 1 to CHUNK bytes, then the terminator, up to the failure of the connection; a refusal is one frame; nothing without metadata; no terminator after a read that fails |
| Fetch.RelayGet | src/reverse.rs:339-371 | told by when a reply is complete: if the frames that arrive hold a whole reply, a refusal included, it is passed on, the device stays online and what follows is left unread; otherwise the device goes offline and the requester gets what arrived, terminated, or a refusal when nothing did; all of it up to the failure of the requester |
| Fetch.RelayPasses | src/reverse.rs:339-371 | the same about the relay of any bytes |
| Fetch.AnswerIsReply | crates/thru-fs/src/lib.rs:94-116 | what the device writes for anything a path can name is never complete before its end, and a whole reply exactly when nothing fails behind the opening |
| Fetch.AnswerCut | src/reverse.rs:339-371 | for every file or refusal and a drop after any number of bytes: what arrived holds a whole reply if and only if the answer is one and all of it arrived |
| Fetch.GetOnConn | crates/thru-fs/src/lib.rs:182-196 | the local writer gets everything that arrives, up to its own failure, also when the stream breaks off; told by when a reply is complete, the declared size is returned exactly for a whole reply that is no refusal and whose data could be written |
| Fetch.CollectGets | crates/thru-fs/src/lib.rs:182-196 | what the client makes of any bytes: size and data of a whole reply with an OK header of nine bytes; without one no success, and the data that arrived |
| Fetch.RefusalCollected | crates/thru-fs/src/lib.rs:138-150 | a file that is not there is answered by not-found and one that does not open by an error with its message; the client has no success and no data of either |
| Fetch.ProxiedGetTransparent | src/reverse.rs:327-372 | for every file and every sizes of its reads the client gets exactly the file through the relay, and both connections end on a frame boundary |
| Fetch.ProxiedGetCut | src/reverse.rs:354-371 | when the device drops after any number of bytes the requester gets a refusal, or a success with a prefix of the file; the success holds the whole file if and only if all before the terminator arrived, and for a file of the declared size if and only if that many bytes were received; the device goes offline exactly when something is missing |
| Fetch.CutBehindHeader | src/reverse.rs:355-362 | a device that drops right behind the header makes a success without data of any non-empty file |
| Fetch.CutAnywhere | src/reverse.rs:355-362 | every prefix of every file is what some drop of the device makes a success of |
| Fetch.ProxiedGet | src/reverse.rs:327-372 | device, relay and client run one after the other for anything a path can name and a drop after any number of bytes: the device goes offline if and only if its answer stops before a complete reply; a refusal, or a drop within the header, is no success and leaves the local file alone; behind the header every drop is a success with a prefix of the file, the whole file if and only if all of it got out |
| Daemon.Handle | crates/thru-fs/src/lib.rs:62-116 | what the daemon writes for one file request, up to the failure of the connection, also when the file cannot be read to its end |
| Daemon.Run | src/reverse.rs:457-477 | every frame that arrives is answered by its own reply, in order, and pings by nothing |
| Daemon.DaemonCompletesReply | src/reverse.rs:465-468 | the daemon gives a complete reply if and only if it can decode the path, the answer fits a frame and the file reads to its end; otherwise it writes a proper part of a reply |
| Daemon.LsShowsDirectory | crates/thru-fs/src/lib.rs:74-92 | the reply to an LS of any path that decodes, read by the client's loop, gives the entries of the tree's directory at that path, the root for the empty path; nothing if the listing is too big for a frame; a status that is not OK where the tree has no directory |
| Daemon.RefusalSaysWhy | crates/thru-fs/src/lib.rs:74-102 | a path that does not exist is answered by not-found, any other failure by an error with the message of the system |
| Daemon.RemoteLsIsExchange | crates/thru-fs/src/lib.rs:164-179 | the listing a download works with is what the client makes of the daemon's reply, for every path |
| Daemon.RemoteGetIsExchange | crates/thru-fs/src/lib.rs:182-196 | the file a download works with is what the client collects of the daemon's reply, with its size; where there is none the client has no success and no data |
| Daemon.DirectoryNeverCompletes | crates/thru-fs/src/lib.rs:95-113 | a GET of a directory of the tree gets a header and nothing more |
| Daemon.UndecodableNeverAnswered | crates/thru-fs/src/lib.rs:38-48 | a valid path whose first length-modulo-65536 bytes are no text gets no answer |
| Daemon.BadBytesNeverAnswered | src/reverse.rs:56-56 | 30000 bytes that are no text in a proxy frame become such a path |
| Mirror.ResolveChild | src/client.rs:400-400 | the path built for an entry names that entry, whatever slashes end the base |
| Mirror.DownloadDir | src/client.rs:399-415 | succeeds if and only if no local node is of the wrong type, every listing fits a frame and no exchange fails; then it adds the tree as it arrived, files cut by a device behind the relay included, which is the mirror image if and only if no file is shorter than its declared size; otherwise what is new is part of that image; terminates by the size of the tree |
| Mirror.AnsweredIsWhole | src/client.rs:403-413 | when every exchange is answered the tree arrives whole |
| Mirror.CutFileIsSuccess | src/client.rs:409-411 | a directory whose one file is cut behind the header downloads successfully as an empty file |
| Mirror.DownloadFile | src/client.rs:409-411 | the local file holds exactly the remote content if the GET is answered, and a prefix of it if it is cut short, with success, or fails |
| Mirror.TreeMirrorsRemote | src/client.rs:404-413 | under every relative path the mirror image holds exactly what the remote tree has there |
| Mirror.DownloadMirrors | src/client.rs:399-415 | after a download of the whole tree every remote path has its local copy and every other local path is as before |
| Exec.ScriptArrives | crates/thru-exec/src/lib.rs:189-197 | the server extracts exactly the script that was sent |
| Exec.SendResult | crates/thru-exec/src/lib.rs:236-248 | stdout, stderr, code and terminator, up to an output too big for a frame or the failure of the connection |
| Exec.Collect | crates/thru-exec/src/lib.rs:260-277 | the frames up to the first empty one: the last is the exit code, the others are the output |
| Exec.ExecUnambiguous | crates/thru-exec/src/lib.rs:236-277 | for all outputs that fit a frame and every code, the client recovers stdout followed by stderr and the code, also when they are empty or four bytes long |
| Exec.ResultUnderstood | crates/thru-exec/src/lib.rs:236-277 | over a connection that may fail anywhere, the client gets a result from the frames that are sent if and only if both outputs fit a frame and nothing is lost, and then stdout followed by stderr and the code |
| Shell.EncodeKey | src/client.rs:75-108 | the bytes of a key are valid text, empty only for an unknown key without Alt, and look like a resize exactly for a bare U+001F |
| Shell.CharactersDistinct | src/client.rs:81-91 | characters without Ctrl, with and without Alt, are told apart by their bytes |
| Shell.NamedKeysUnderstood | src/client.rs:92-106 | the bytes of every named key are the control sequence a terminal takes for that key; Alt puts an escape before them |
| Shell.ControlCodes | src/client.rs:83-89 | Ctrl with a letter sends the last five bits of the letter, whatever its case; with anything else it makes no difference |
| Shell.UntilCtrlBracket | src/client.rs:48-51 | the events that are sent are exactly those before the first Ctrl+] |
| Shell.SendEvents | src/client.rs:45-70 | the frames of all events before Ctrl+] and then the empty frame, up to the failure of the connection |
| Shell.HandleShell | crates/thru-exec/src/lib.rs:154-178 | what the terminal receives and how the loop ends: by an empty frame, a lost connection, the exit of the child or a failing write |
| Shell.ServeEnds | crates/thru-exec/src/lib.rs:154-178 | for any bytes, any child and any terminal: which of the four endings it is, and what the terminal has received then |
| Shell.ShellDemultiplexes | src/client.rs:45-70 | over a whole session the terminal receives a prefix of what was typed and of the resizes; everything, with the final empty frame ending the session, exactly when the child outlives the frames and the terminal takes the input; then exactly what was typed if and only if no bare U+001F was pressed |
| Auth.ConstantTimeEq | src/auth.rs:237-246 | the xor/or loop is equality of sequences |
| Auth.HashedTextInjective | src/auth.rs:226-235 | password and nonce are both determined by the hashed text |
| Auth.ProvesByPrefix | src/auth.rs:138-145 | the server accepts a frame exactly when it begins with AUTH_PASS and the expected digest |
| Auth.EntitledIsSamePassword | src/auth.rs:143-145 | with a hash that does not collide on the two texts, equal digests mean equal passwords |
| Auth.Judge | src/auth.rs:137-155 | the verdict on any frame from the client: accepted, and AUTH_OK sent, exactly if it begins with the proof; AUTH_FAIL otherwise |
| Auth.Respond | src/auth.rs:170-203 | the client's reaction to any first frame: accepted at once exactly for AUTH_NONE, given up exactly for a challenge without a password to prove, a proof of the password for the nonce received, an error for anything else |
| Auth.Finish | src/auth.rs:203-211 | the client's result on any second frame: success exactly for AUTH_OK, failure exactly for AUTH_FAIL, otherwise an error |
| Auth.Handshake | src/auth.rs:129-215 | over connections that may fail anywhere: whoever reports success is right to, both sides that finish report the same, and without failures both finish except a server whose client has no password |
| ServerArgs.ParseParent | src/server.rs:108-129 | accepts exactly known options; the last port, password and log file win, and a port that does not parse counts as the default |
| ServerArgs.ParseDaemon | src/server.rs:146-173 | accepts exactly known options whose ports and device limits all parse; the last of each kind wins |
| ServerArgs.LastWins | src/server.rs:108-173 | the last password, log file, device limit and port of a list set what the server uses, wherever they stand |
| ServerArgs.Defaults | src/server.rs:108-173 | without an item of a kind its default is used |
| ServerArgs.WordsUnderstood | src/server.rs:108-173 | items written as words, with short or long option names, are read back as those items |
| ServerArgs.StartServer | src/main.rs:21-48 | a server runs if and only if `main` admits the arguments and each is sound, and then the cached session has its port and password; a session without a server arises if and only if they are admitted, all options are known and some port or limit does not parse; otherwise there is neither |
| ServerArgs.Admit | src/main.rs:21-47 | the arguments go on to the server exactly if the first is no subcommand and the first without a dash, if any, is a port |
| ServerArgs.TooLargePort | src/server.rs:126-126 | a second port over 65535 is admitted, counts as the default one for the parent and stops the daemon |
| ServerArgs.TooLargePortAlone | src/main.rs:43-46 | alone, the same port starts nothing |

## Left out

- Sockets, timeouts and operating-system threads: connections are streams, threads are interleaved steps. A proxy that waits for ever (see `Daemon.DaemonCompletesReply`) waits in the model too.
- Poisoned mutexes: no modelled critical section panics.
- The PTY, child processes, shell lookup and `.bat` generation: operating-system calls. `Exec.SendResult` takes the outputs and the code as given.
- The PTY's output thread: it copies bytes into frames one way.
- SHA-256 and random numbers: library calls.
- Terminal drawing, the file browser, the device selector and password prompt: what is typed at the prompt is a parameter of the handshake.
- Session and PID files, the spawning of daemons, and a start with `THRU_DAEMON` already set: operating-system calls and environment.
- Symbolic links, permissions, ".." and absolute paths of the operating system: the remote side is a fixed finite tree and "." or empty components stay in place.
- The spawning of threads: the threads of later clients exist from the start and idle, and a monitor appears in the step that registers its device.
- Daemon.Run: requires that no shell or script frame is asked; no proxy forwards one, and the daemon answers them in another way.
- Daemon.Handle: the error for a path that cannot be decoded is dropped by its caller, so only the absence of a reply is stated.
- Mirror.DownloadDir: requires paths of at most 65535 bytes; beyond that `Fs.LongPathIsCut` shows that the server is asked for another path, and the recursion need not follow the tree.
- Mirror.DownloadFile: counts a GET as one exchange, answered, cut short or failed, and takes the local disk to accept all data; that the streamed form delivers the same bytes, and what a failing writer keeps, is in `Fetch.dfy`.
- Proxy.Session.DispatchFs: reads one fixed registry; `SystemFailures.SectionsFollowRoute` ties it to the separate critical sections, and what these do in a changing registry is `SystemTraces.ProxyRoute`.
- DeviceCodec.SelectDevice: takes names, users and addresses that fit their u16 lengths, and any entry of the list; that the selector offers only active devices other than the client's own is not modelled.
- Fetch.ProxiedGet: its requester stays to the end; what a requester whose own connection fails gets is in `Fetch.RelayGet`.
- Proxy.Session.HandleProxy: writing the request and the reply half are in `Fetch.RelayGet` and `System.dfy`.
- Proxy.RequestReachesDevice: for a name over 65535 bytes it does not spell out the path that is taken from the rest of the name.
- `get_on_conn`, `set_on_conn` and `append_on_conn` of the dictionary: each writes one request and passes on the status of one reply.
- `resolve_addr`, `parse_password` and `format_duration`: they pick values out of the command line or print them, and no other part depends on how.
