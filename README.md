# node-filetransfer in Dafny

node-filetransfer is a small file-transfer service written for Node.js. It has two parts:

- **The server** (`server/server.js`) serves the files under `FILES_DIR` (`path.join(__dirname, 'files')`) over TCP port 5000 and UDP port 5001.
- **The client** (`client/client.js`) asks which protocol to use, then downloads a fixed list of four files into `downloads/`.

This project models the sequential logic under the socket and filesystem plumbing and proves properties of it.

**Server.**
- `getFilePath` normalises the requested path with the POSIX rules of Node's `path.normalize`. It strips leading `..` segments with a regular expression, joins the result to `FILES_DIR`, and checks for a literal prefix.
- The TCP request is the whole byte stream, trimmed on `'end'`. The UDP request is one datagram, trimmed.
- The server answers with one of two error lines or with the file. Over UDP it cuts the file into datagrams with the `sendChunk` offset loop.

**Client.**
- The TCP receiver and the UDP receiver check every chunk for the `ERROR` marker. The UDP receiver keeps one timer handle: the first datagram replaces the 5 s overall timer by the 1 s inactivity timer, and each later datagram replaces the inactivity timer by a fresh one.
- The batch loop `main` works through the file list.

Modules:

- `Common` (`common.dfy`): bytes, `Option`, concatenation of chunks, the UTF-8 encoding of the server's error strings, the `ERROR` byte-prefix test, and promise outcomes (only the first `resolve`/`reject` counts).
- `Text` (`text.dfy`): JavaScript's `String.prototype.trim` and `toUpperCase`.
- `PosixPath` (`posix_path.dfy`): Node's `path.posix.normalize` and `path.posix.join`, on the list of segments between slashes.
- `FilePath` (`file_path.dfy`): `getFilePath`, and the proof that it clamps every request into `FILES_DIR`.
- `Server` (`server.dfy`):
  - the server's file lookup and error selection;
  - the TCP connection as a class over `dataBuffer`;
  - the `sendChunk` loop as a method over `offset`;
  - the UDP `'message'` handler.
- `TcpClient` (`client_tcp.dfy`): `requestFileTCP` as a class over `fileBuffer`, with a state-machine function it is proved against.
- `UdpClient` (`client_udp.dfy`): `requestFileUDP` as a class over `fileData`, `timeoutHandle` and the socket's open flag, with its state-machine function.
- `Batch` (`client_batch.dfy`): `main`'s loop, with protocol dispatch, `break` and continue-after-failure.
- `EndToEnd` (`end_to_end.dfy`): the server's replies fed to the client receivers.

The state-changing code is modelled as classes and loops:
- `TcpSession`, `TcpReceiver` and `UdpReceiver` are classes.
- `ServeTcpConnection`, `SendFile`, `ReceiveTcp`, `ReceiveUdp` and `DownloadAll` are loops.

Each one is proved equal to a function of its inputs, and the properties are proved about those functions.

**Where the intended design and the code differ, the model follows the code:**
- TCP requests are not newline-framed. Every chunk up to `'end'` belongs to the request, and only surrounding whitespace is trimmed.
- Traversal is clamped, not rejected. `../../x` becomes `FILES_DIR/x` and `/etc/passwd` becomes `FILES_DIR/etc/passwd`, so `getFilePath` never returns `null` here.
- Both clients test every chunk, not only the first, for `ERROR`.
- The first UDP datagram replaces the overall timer, so the 5 s cap no longer applies after it.

## Model

| member | source | states |
|---|---|---|
| FilePath.StripLeadingDotDots | server/server.js:23 | the regex's replacement leaves a suffix of its input that does not itself start with a `..` segment |
| FilePath.StripLeadingDotDotsShape | server/server.js:23 | what the replacement drops is exactly a run of `../` and `..\` groups, ending in a bare `..` only when nothing is left, so only the longest leading match is removed |
| FilePath.StripRemovesDotDots | server/server.js:23 | once the leading `..` segments of a normalized path are stripped, no `..` segment is left anywhere |
| FilePath.SafePathHasNoDotDot | server/server.js:23 | `safePath` has no `..` segment, whatever the request |
| FilePath.GetFilePath | server/server.js:21-30 | a non-null result has FILES_DIR as a literal string prefix |
| FilePath.GetFilePathClamps | server/server.js:21-30 | for every request, `getFilePath` returns the join of FILES_DIR and `safePath`, never null, and the result is FILES_DIR itself or continues it after a `/` |
| FilePath.DotDotEscapeIsClamped | server/server.js:23-26 | `../../x` resolves to `FILES_DIR/x`: the escape is clamped, not rejected |
| FilePath.AbsoluteRequestIsReRooted | server/server.js:23-26 | an absolute request `/a/b` is re-rooted to `FILES_DIR/a/b` |
| FilePath.AbsoluteRequestIsClamped | server/server.js:23-26 | `/etc/passwd` resolves to `FILES_DIR/etc/passwd` |
| FilePath.BlankRequestIsFilesDir | server/server.js:23-26 | the empty request resolves to FILES_DIR itself |
| FilePath.JoinName | server/server.js:24 | joining one plain name to FILES_DIR appends `/name` |
| PosixPath.NormalizedDotDotsLead | server/server.js:23 | in the output of `path.normalize`, `..` segments can occur only at the start, and an absolute path keeps none |
| PosixPath.NormalizeIdempotent | server/server.js:23 | `path.normalize` is idempotent: a normalized path normalizes to itself |
| PosixPath.ResolveKeepsCanonical | server/server.js:23 | resolving segments keeps the stack free of empty, `.` and non-leading `..` segments, and keeps `..` out of an absolute stack |
| PosixPath.ResolveAppend | server/server.js:23 | resolving a concatenation of segment lists is resolving one after the other |
| PosixPath.JoinStaysUnder | server/server.js:24 | joining a path without `..` to a normalized absolute directory gives the directory, followed by `/` and the path's names, plus the trailing slash |
| PosixPath.JoinOneName | server/server.js:24 | joining one name to a normalized absolute directory appends `/name` |
| PosixPath.JoinChild | server/server.js:12 | `path.join` of a normalized absolute directory, the root included, and one name is the directory with that name added |
| PosixPath.JoinAbsoluteUnder | server/server.js:24 | joining an absolute normal path onto an absolute normal directory re-roots it under the directory |
| FilePath.FilesDirIsJoin | server/server.js:12 | `FilesDir(dirname)` is `path.join(__dirname, 'files')` |
| PosixPath.JoinOfSplit | server/server.js:23 | joining the segments of a path with `/` gives the path back |
| PosixPath.SplitOfJoin | server/server.js:23 | splitting a join of slash-free segments gives the segments back |
| Text.TrimIsPadded | server/server.js:43 | the trimmed request is an infix of the received text with only whitespace before and after it |
| Text.TrimHasNoPadding | server/server.js:43 | the trimmed request neither starts nor ends with whitespace |
| Text.TrimStartShape | server/server.js:89 | dropping leading whitespace leaves a suffix that does not start with whitespace, and everything dropped is whitespace |
| Text.TrimEndShape | server/server.js:89 | dropping trailing whitespace leaves a prefix that does not end with whitespace, and everything dropped is whitespace |
| Text.TrimOfTrimmed | server/server.js:43 | a request without surrounding whitespace is left unchanged |
| Text.TrimIdempotent | server/server.js:89 | trimming twice is trimming once |
| Text.TrimPadded | server/server.js:43 | whitespace added around a request does not change its trim |
| Text.ToUpper | client/client.js:167 | `toUpperCase` keeps the length and upper-cases each letter in place |
| Text.ToUpperIgnoresCase | client/client.js:167-169 | answers that differ only in letter case compare equal after `toUpperCase` |
| Common.Utf8Append | server/server.js:48 | the UTF-8 encoding of a concatenation is the concatenation of the encodings |
| Common.ErrorLineIsMarked | client/client.js:51 | every line the server builds as `ERROR...` encodes to bytes that start with the marker both clients test for |
| Common.ConcatAppend | client/client.js:59 | concatenating one more chunk extends the buffer by exactly that chunk |
| Server.ReadFile | server/server.js:57-67 | reading succeeds exactly on a regular file and returns its content |
| Server.Locate | server/server.js:46-47 | the path served is `getFilePath`'s own result, and there is one exactly when that result is non-null, non-empty and exists; it lies under FILES_DIR |
| Server.TcpReplyFor | server/server.js:42-67 | missing or refused paths get the not-found line, a readable file is piped (modelled as its bytes, see Left out), and an existing path that cannot be read ends the socket without data |
| Server.TcpSession.OnData | server/server.js:38-40 | `dataBuffer` grows by the chunk and nothing else changes |
| Server.TcpSession.OnEnd | server/server.js:42-43 | the reply is computed from the trimmed `dataBuffer` |
| Server.ServeTcpConnection | server/server.js:36-43 | the request the server resolves is the trim of the concatenation of every chunk received before `'end'` |
| Server.UdpPlanFor | server/server.js:88-111 | missing or refused paths get the not-found line, an existing but unreadable one the read-failure line, and exactly a readable file gets its bytes sent |
| Server.SameDenialOnBothTransports | server/server.js:47-48 | TCP sends the not-found line exactly when UDP does, and a located path gets it on neither; TCP pipes a file exactly when UDP sends its data |
| Server.ErrorLinesAreMarked | server/server.js:48 | both error lines begin with `ERROR` and they are different lines |
| Server.BlankRequestNamesFilesDir | server/server.js:43 | a blank request names FILES_DIR, which exists: TCP ends without data and UDP sends the read-failure line |
| Server.ChunksConcat | server/server.js:115-137 | `Chunks`, the slices `sendChunk` cuts at server/server.js:118-125 when every send succeeds, concatenated in order are the file data |
| Server.ChunksSizes | server/server.js:114 | every chunk is non-empty and at most 60000 bytes, and all but the last are exactly 60000 |
| Server.ChunksCount | server/server.js:119 | there are ceil(size/60000) chunks, so an empty file sends none |
| Server.ChunksFrom | server/server.js:124-125 | the chunks from an offset are the slice up to `min(offset + 60000, size)` followed by the chunks after it |
| Server.SendFile | server/server.js:114-137 | the loop sends a prefix of the chunks, exactly the successful sends, stopping at the first failure without advancing `offset`; what was sent is `data[0..offset]` and it is a proper prefix exactly when a send failed |
| Server.DeliveredPrefixUnique | server/server.js:126-133 | the send outcomes determine what was sent |
| Server.LosslessSend | server/server.js:115-137 | when every send succeeds, all chunks are sent and together they are the file |
| Server.SendPlan | server/server.js:95-97 | an error line is sent as one datagram, lost when its send fails |
| Server.ServeDatagram | server/server.js:88-111 | the datagram's trimmed text is the request, and what is sent is the error line or the delivered prefix of the chunks |
| TcpClient.TcpReceiver.OnData | client/client.js:51-60 | a chunk that starts with `ERROR` destroys the socket, unlinks the save path and rejects; any other chunk is appended |
| TcpClient.TcpReceiver.OnEnd | client/client.js:62-73 | `'end'` writes `fileBuffer` and resolves, or rejects if the write fails |
| TcpClient.TcpReceiver.OnError | client/client.js:75-79 | a socket error unlinks the save path and rejects |
| TcpClient.ReceiveTcp | client/client.js:44-79 | delivering the events to the handlers gives `Run(events)`, the fold of `Step`, which models the `'data'`, `'end'` and `'error'` listeners at client/client.js:51-79 |
| TcpClient.DataEvents | client/client.js:51 | one `'data'` event per chunk, in order |
| TcpClient.CleanChunksAccumulate | client/client.js:44-59 | chunks without the marker are appended to `fileBuffer` in arrival order |
| TcpClient.CleanDownloadSaves | client/client.js:44-64 | without an error chunk, `'end'` writes exactly the concatenation of the chunks and resolves |
| TcpClient.EmptyDownloadSavesEmptyFile | client/client.js:44-64 | `'end'` with no data writes an empty file |
| TcpClient.ErrorChunkAborts | client/client.js:51-57 | any chunk that starts with `ERROR`, not only the first, aborts: it is not appended, the save path is unlinked, nothing is written, the promise rejects, and later events change nothing |
| TcpClient.DeadStaysDead | client/client.js:52-53 | a destroyed or ended socket ignores later events |
| TcpClient.SettledStaysSettled | client/client.js:55-76 | once settled, the promise keeps its outcome |
| UdpClient.UdpReceiver.Close | client/client.js:149-151 | closing clears the pending timer |
| UdpClient.UdpReceiver.SettleOnce | client/client.js:106-138 | only the first `resolve`/`reject` takes effect |
| UdpClient.UdpReceiver.OnMessage | client/client.js:101-126 | an `ERROR` datagram clears the timer, closes and rejects; any other datagram is appended and replaces the single handle by the inactivity timer |
| UdpClient.UdpReceiver.OnTimer | client/client.js:113-140 | the pending timer writes `fileData`; the overall timer closes first, and the inactivity timer closes only after a successful write |
| UdpClient.UdpReceiver.OnError | client/client.js:142-147 | a socket error clears the timer, closes and rejects |
| UdpClient.UdpReceiver.OnRequestFailed | client/client.js:92-97 | a failed request send closes and rejects |
| UdpClient.ReceiveUdp | client/client.js:84-153 | delivering the events to the handlers gives `Run(events)`, the fold of `Step`, which models the `'message'`, timer, `'error'` and `'close'` callbacks at client/client.js:101-151 |
| UdpClient.MessageEvents | client/client.js:101 | one `'message'` event per datagram, in order |
| UdpClient.MessagesAccumulate | client/client.js:109-113 | datagrams without the marker are appended in arrival order, and after the first one the pending timer is the inactivity timer |
| UdpClient.HardTimerOnlyAtStart | client/client.js:89-129 | the overall timer is pending only while no event has arrived |
| UdpClient.HardTimerWritesEmptyFile | client/client.js:129-140 | so when the overall timer fires, it closes the socket and writes an empty file |
| UdpClient.TimerWritesFileData | client/client.js:113-140 | whichever timer fires writes exactly the current `fileData`, closes and resolves |
| UdpClient.ErrorDatagramAborts | client/client.js:102-107 | an `ERROR` datagram clears the timer, closes and rejects; `fileData` is unchanged and nothing is written |
| UdpClient.LosslessDownload | client/client.js:101-140 | when every datagram arrives and none is an error line, the timer that fires writes their concatenation, once; with no datagram it is the overall timer and the write is empty |
| UdpClient.HardTimerSaveFailureCloses | client/client.js:129-140 | when the overall timer's write fails, the socket is already closed, nothing is saved and the promise rejects with the save failure |
| UdpClient.SaveFailureKeepsListening | client/client.js:115-118 | a failed save on inactivity rejects but leaves the socket open, and a later datagram still leads to a write |
| UdpClient.SettledStaysSettled | client/client.js:106-146 | once settled, the promise keeps its outcome |
| UdpClient.ClosedStaysClosed | client/client.js:105-151 | a closed socket stays closed and nothing changes any more |
| Batch.DownloadAll | client/client.js:164-177 | with a known protocol, every file is attempted in list order with its save path and the loop goes on after a failure; with an unknown protocol, one error is reported and nothing is transferred |
| Batch.TcpAnyCase | client/client.js:167 | `ParseProtocol`, the `toUpperCase()` comparisons, selects TCP exactly when the answer is `tcp` in any mix of cases |
| Batch.UdpAnyCase | client/client.js:169 | `ParseProtocol` selects UDP exactly when the answer is `udp` in any mix of cases |
| Batch.DownloadsDirIsJoin | client/client.js:159 | the downloads directory is `path.join(__dirname, 'downloads')` |
| Batch.SavePathInDownloads | client/client.js:165 | each file is saved by its name directly inside `downloads` |
| Batch.FilesToDownloadSaved | client/client.js:14-19 | each of the four names in `filesToDownload` is saved as `downloads/<name>` |
| EndToEnd.NewlineFramingIsTrimmed | client/client.js:48 | the newline the TCP client appends to the path is dropped by the server's trim |
| EndToEnd.TransportsAgreeOnRequest | server/server.js:43 | however the TCP request is chunked, TCP denies a path exactly when UDP does |
| EndToEnd.TcpDenialRejects | client/client.js:51-57 | the not-found line sent over TCP makes the client reject, unlink the save path and write nothing |
| EndToEnd.SplitErrorLineIsSaved | client/client.js:51 | an error line delivered cut inside `ERROR` passes the per-chunk check and is saved as the file |
| EndToEnd.TcpDownloadIsLossless | server/server.js:57-58 | taking the pipe to deliver the file (see Left out), a readable file sent over TCP in chunks without the marker is saved exactly |
| EndToEnd.BlankTcpRequestSavesEmptyFile | server/server.js:64-67 | a blank TCP request ends without data, and the client, fed the bytes that reply puts on the socket (none), saves an empty file and resolves |
| EndToEnd.UdpDownloadIsLossless | server/server.js:114-137 | a file whose datagrams are all delivered, none an error line, is saved exactly, once |
| EndToEnd.EmptyUdpFileSavesEmptyFile | server/server.js:119 | an empty file sends nothing, and the client's overall timer saves an empty file |
| EndToEnd.UdpErrorReplyRejects | server/server.js:94-105 | either error line delivered over UDP makes the client close and reject before writing anything |

## Left out

- Sockets, `connect`/`listen`/`bind`, `fs.existsSync`/`createReadStream`/`readFile`/`writeFile`/`unlink`/`mkdirSync`, `readline` and `process.exit`. The filesystem is a map from paths to entries. Socket traffic is a sequence of events. The outcome of each write or send is a parameter (`writeOk`, `sendOk`, `succeeds`).
- The startup check that FILES_DIR exists (server/server.js:15-18). `__dirname` is taken to be absolute and normalized, and is given by its names.
- `askQuestion` and `getDurationInMilliseconds` (client/client.js:22-37). These are console input, wall-clock timing and floating point.
- Timer durations and concurrency. Timers are `TimerFire` events, and the world's choice of event order is the event sequence.
- UdpClient.UdpReceiver.OnTimer: the `fs.writeFile` callback is taken to run together with the timer that starts it. No event can come between a timer and the completion of its write.
- Events after a socket is finished and read errors in the middle of a TCP stream. A destroyed, ended or closed socket delivers nothing more.
- The liveness problem that the TCP server acts only on `'end'` while the client never half-closes its side (server/server.js:42, client/client.js:48).
- Server.TcpReplyFor: `readStream.pipe(socket)` (server/server.js:57-58) is modelled as delivering the file's bytes. The server is created without options (server/server.js:33), so with Node's default `allowHalfOpen: false` a socket ends its writable side as soon as its readable side ends. The pipe's writes come later, asynchronously, so a peer that half-closes may get no file bytes at all, the same as `EndWithoutData`. The error line written synchronously at server/server.js:49 is queued before that end and is unaffected.
- EndToEnd.TcpDownloadIsLossless: it assumes the pipe delivery above, so it states what the TCP path intends, not what Node's automatic end of the writable side lets through.
- UDP's `requestedPath.length`, which counts UTF-16 code units, not bytes. The UDP request is modelled as the string itself.
- UTF-8 decoding of received chunks:
  - Server.ServeTcpConnection: the chunks are modelled as already-decoded strings, so a character split across two chunks is not modelled.
  - The client's `ERROR` test is modelled as a byte-prefix test on the chunk, which agrees with `toString().startsWith('ERROR')` because those five characters are ASCII.
- Text.ToUpper: upper-cases ASCII letters only. That is exact for the comparisons with `TCP` and `UDP`, but not for the rest of Unicode (for example `ß`, which becomes `SS`).
- Text.Trim: the whitespace set is that of ECMAScript `trim` (WhiteSpace and LineTerminator, including the space separators). Characters outside it are kept.
- The Windows separator `\` is handled only where the stripping regex names it. Node's `path.win32` is not part of this model.
- Node's `path` module is not part of the repository. `PosixPath` models `path.posix.normalize` and `path.posix.join` as the POSIX rules describe them.
