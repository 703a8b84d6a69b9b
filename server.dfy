/** The request handling of server/server.js: how a TCP connection and a UDP
    datagram are turned into a path, which error line is chosen, and how a
    file is cut into datagrams by the `sendChunk` loop. */
module Server {
  import opened Common
  import opened Text
  import opened FilePath

  /** The reply to a path that `getFilePath` refuses or that does not exist,
      on both transports (server/server.js:48 and :94). */
  const NotFoundMessage: string := ErrorText + NotFoundDetail
  const NotFoundDetail: string := ": File tidak ditemukan atau akses ditolak.\n"

  /** The UDP reply when the file exists but cannot be read (server/server.js:105). */
  const ReadFailureMessage: string := ErrorText + ReadFailureDetail
  const ReadFailureDetail: string := ": Gagal membaca file.\n"

  /** `MAX_UDP_SIZE` (server/server.js:114). */
  const MaxUdpSize: nat := 60000

  /** What `fs` finds at a path: a regular file with its bytes, a directory
      (it exists, but reading it fails), or a file whose read fails. */
  datatype Entry = Regular(content: seq<byte>) | Directory | Unreadable

  /** The part of the filesystem the server can see, by absolute path. */
  type FileSystem = map<string, Entry>

  /** `fs.readFile` / `fs.createReadStream`: the bytes, or `None` for an error. */
  function ReadFile(fs: FileSystem, path: string): (r: Option<seq<byte>>)
    requires path in fs
    ensures r.Some? <==> fs[path].Regular?
    ensures r.Some? ==> r.value == fs[path].content
  {
    match fs[path]
    case Regular(content) => Some(content)
    case _ => None
  }

  /** `getFilePath` followed by the test `!filePath || !fs.existsSync(filePath)`:
      the path to serve, or `None` when the not-found line is sent. */
  function Locate(filesDir: string, fs: FileSystem, requestedPath: string): (r: Option<string>)
    ensures r.Some? <==> (GetFilePath(filesDir, requestedPath).Some?
                          && GetFilePath(filesDir, requestedPath).value != ""
                          && GetFilePath(filesDir, requestedPath).value in fs)
    ensures r.Some? ==> r.value == GetFilePath(filesDir, requestedPath).value
    ensures r.Some? ==> r.value in fs && filesDir <= r.value
  {
    var filePath := GetFilePath(filesDir, requestedPath);
    if filePath.None? || filePath.value == "" || filePath.value !in fs then None
    else filePath
  }

  // ---------------------------------------------------------------- TCP

  /** What the server does with a TCP connection once the request is known. */
  datatype TcpReply =
    | FileBytes(data: seq<byte>)       // the read stream piped into the socket
    | ErrorLine(message: string)       // `socket.write(errorMsg)` then `end()`
    | EndWithoutData                   // the read stream failed: `socket.end()`

  /** The `'end'` handler (server/server.js:42-67) for a trimmed request. */
  function TcpReplyFor(filesDir: string, fs: FileSystem, requestedPath: string): (r: TcpReply)
    ensures Locate(filesDir, fs, requestedPath).None? <==> r == ErrorLine(NotFoundMessage)
    ensures r.FileBytes? <==> (Locate(filesDir, fs, requestedPath).Some?
                               && fs[Locate(filesDir, fs, requestedPath).value].Regular?)
    ensures r.FileBytes? ==> r.data == fs[Locate(filesDir, fs, requestedPath).value].content
    ensures r == EndWithoutData <==> (Locate(filesDir, fs, requestedPath).Some?
                                      && !fs[Locate(filesDir, fs, requestedPath).value].Regular?)
  {
    match Locate(filesDir, fs, requestedPath)
    case None => ErrorLine(NotFoundMessage)
    case Some(filePath) =>
      match ReadFile(fs, filePath)
      case Some(data) => FileBytes(data)
      case None => EndWithoutData
  }

  /** The state of one TCP connection: `dataBuffer` grows with every `'data'`
      event and is read once, on `'end'`. */
  class TcpSession {
    var dataBuffer: string
    var reply: Option<TcpReply>

    constructor ()
      ensures dataBuffer == "" && reply == None
    {
      dataBuffer := "";
      reply := None;
    }

    /** `dataBuffer += data.toString()` (server/server.js:38-40). */
    method OnData(data: string)
      modifies this
      ensures dataBuffer == old(dataBuffer) + data
      ensures reply == old(reply)
    {
      dataBuffer := dataBuffer + data;
    }

    /** The `'end'` handler: the whole buffer, trimmed, is the request. */
    method OnEnd(filesDir: string, fs: FileSystem)
      modifies this
      ensures dataBuffer == old(dataBuffer)
      ensures reply == Some(TcpReplyFor(filesDir, fs, Trim(dataBuffer)))
    {
      reply := Some(TcpReplyFor(filesDir, fs, Trim(dataBuffer)));
    }
  }

  /** A whole connection: every chunk before `'end'` is part of the request,
      newlines included; only the surrounding whitespace of the concatenation
      is dropped. */
  method ServeTcpConnection(filesDir: string, fs: FileSystem, chunks: seq<string>)
    returns (reply: TcpReply)
    ensures reply == TcpReplyFor(filesDir, fs, Trim(Concat(chunks)))
  {
    var session := new TcpSession();
    var i := 0;
    while i < |chunks|
      invariant 0 <= i <= |chunks|
      invariant session.dataBuffer == Concat(chunks[..i])
    {
      ConcatAppend(chunks[..i], chunks[i]);
      assert chunks[..i + 1] == chunks[..i] + [chunks[i]];
      session.OnData(chunks[i]);
      i := i + 1;
    }
    assert chunks[..i] == chunks;
    session.OnEnd(filesDir, fs);
    reply := session.reply.value;
  }

  // ---------------------------------------------------------------- UDP

  /** What the `'message'` handler decides to send back. */
  datatype UdpPlan = SendError(message: string) | SendData(data: seq<byte>)

  /** The `'message'` handler (server/server.js:88-111) for a trimmed request. */
  function UdpPlanFor(filesDir: string, fs: FileSystem, requestedPath: string): (r: UdpPlan)
    ensures Locate(filesDir, fs, requestedPath).None? <==> r == SendError(NotFoundMessage)
    ensures r == SendError(ReadFailureMessage)
            <==> (Locate(filesDir, fs, requestedPath).Some?
                  && !fs[Locate(filesDir, fs, requestedPath).value].Regular?)
    ensures r.SendData? <==> (Locate(filesDir, fs, requestedPath).Some?
                              && fs[Locate(filesDir, fs, requestedPath).value].Regular?)
    ensures r.SendData? ==> r.data == fs[Locate(filesDir, fs, requestedPath).value].content
  {
    match Locate(filesDir, fs, requestedPath)
    case None => SendError(NotFoundMessage)
    case Some(filePath) =>
      match ReadFile(fs, filePath)
      case Some(data) => SendData(data)
      case None => SendError(ReadFailureMessage)
  }

  function Min(a: int, b: int): int
  {
    if a <= b then a else b
  }

  /** The chunks `sendChunk` cuts from `data` when every send succeeds:
      `data.slice(offset, min(offset + MAX_UDP_SIZE, totalSize))`, from
      offset 0 until the offset reaches the size. */
  function Chunks(data: seq<byte>): seq<seq<byte>>
    decreases |data|
  {
    if |data| == 0 then []
    else
      var end := Min(MaxUdpSize, |data|);
      [data[..end]] + Chunks(data[end..])
  }

  /** The chunks, concatenated in send order, are the file. */
  lemma {:induction false} ChunksConcat(data: seq<byte>)
    ensures Concat(Chunks(data)) == data
    decreases |data|
  {
    if |data| > 0 {
      var end := Min(MaxUdpSize, |data|);
      ChunksConcat(data[end..]);
      assert [data[..end]] + Chunks(data[end..]) == Chunks(data);
      assert data[..end] + data[end..] == data;
    }
  }

  /** Every chunk is non-empty and at most 60000 bytes; all but the last are
      exactly 60000. */
  lemma {:induction false} ChunksSizes(data: seq<byte>)
    ensures forall i :: 0 <= i < |Chunks(data)| ==> 0 < |Chunks(data)[i]| <= MaxUdpSize
    ensures forall i :: 0 <= i < |Chunks(data)| - 1 ==> |Chunks(data)[i]| == MaxUdpSize
    decreases |data|
  {
    if |data| > 0 {
      var end := Min(MaxUdpSize, |data|);
      var rest := Chunks(data[end..]);
      ChunksSizes(data[end..]);
      assert Chunks(data) == [data[..end]] + rest;
      if rest != [] {
        assert |data[end..]| > 0;
        assert end == MaxUdpSize;
      }
    }
  }

  /** The number of chunks is the size divided by 60000, rounded up; an
      empty file sends none. */
  lemma {:induction false} ChunksCount(data: seq<byte>)
    ensures |Chunks(data)| == (|data| + MaxUdpSize - 1) / MaxUdpSize
    decreases |data|
  {
    if |data| > 0 {
      var end := Min(MaxUdpSize, |data|);
      ChunksCount(data[end..]);
      if |data| <= MaxUdpSize {
        assert data[end..] == [];
      } else {
        assert |data[end..]| == |data| - MaxUdpSize;
      }
    }
  }

  /** One turn of the loop: the chunks from `offset` are the one cut there
      followed by the chunks from its end. */
  lemma ChunksFrom(data: seq<byte>, offset: nat)
    requires offset < |data|
    ensures var end := Min(offset + MaxUdpSize, |data|);
            Chunks(data[offset..]) == [data[offset..end]] + Chunks(data[end..])
  {
    var end := Min(offset + MaxUdpSize, |data|);
    var tail := data[offset..];
    assert tail[..Min(MaxUdpSize, |tail|)] == data[offset..end];
    assert tail[Min(MaxUdpSize, |tail|)..] == data[end..];
  }

  /** `sent` is what a sender delivers of `chunks` when the k-th send
      succeeds exactly if `sendOk(k)` and sending stops at the first failure:
      a prefix, all of whose sends succeeded, cut short only by a failed send. */
  predicate DeliveredPrefix(chunks: seq<seq<byte>>, sendOk: nat -> bool, sent: seq<seq<byte>>)
  {
    && sent <= chunks
    && (forall k :: 0 <= k < |sent| ==> sendOk(k))
    && (|sent| < |chunks| ==> !sendOk(|sent|))
  }

  /** Those three conditions leave one possible outcome. */
  lemma DeliveredPrefixUnique(chunks: seq<seq<byte>>, sendOk: nat -> bool, a: seq<seq<byte>>, b: seq<seq<byte>>)
    requires DeliveredPrefix(chunks, sendOk, a) && DeliveredPrefix(chunks, sendOk, b)
    ensures a == b
  {
    assert |a| == |b| by {
      if |a| < |b| {
        assert false;
      } else if |b| < |a| {
        assert false;
      }
    }
    assert a == chunks[..|a|] == b;
  }

  /** `sendChunk` (server/server.js:115-137). `sendOk(k)` is whether the k-th
      `udpServer.send` of this file succeeds. The offset advances only after
      a successful send; on the first failure the loop stops. */
  method SendFile(data: seq<byte>, sendOk: nat -> bool)
    returns (sent: seq<seq<byte>>, offset: nat, failed: bool)
    ensures DeliveredPrefix(Chunks(data), sendOk, sent)
    ensures failed <==> |sent| < |Chunks(data)|
    ensures offset <= |data| && Concat(sent) == data[..offset]
  {
    offset := 0;
    sent := [];
    failed := false;
    while offset < |data|
      invariant offset <= |data|
      invariant Chunks(data) == sent + Chunks(data[offset..])
      invariant Concat(sent) == data[..offset]
      invariant forall k :: 0 <= k < |sent| ==> sendOk(k)
      decreases |data| - offset
    {
      var end := Min(offset + MaxUdpSize, |data|);
      var chunk := data[offset..end];
      ChunksFrom(data, offset);
      if !sendOk(|sent|) {
        failed := true;
        return;
      }
      ConcatAppend(sent, chunk);
      assert data[..end] == data[..offset] + chunk;
      assert Chunks(data) == (sent + [chunk]) + Chunks(data[end..]);
      sent := sent + [chunk];
      offset := end;
    }
    assert data[offset..] == [];
  }

  /** When every send succeeds, the datagrams are the file's chunks and
      together they are the whole file. */
  lemma LosslessSend(data: seq<byte>, sendOk: nat -> bool, sent: seq<seq<byte>>)
    requires DeliveredPrefix(Chunks(data), sendOk, sent)
    requires forall k :: 0 <= k < |Chunks(data)| ==> sendOk(k)
    ensures sent == Chunks(data) && Concat(sent) == data
  {
    ChunksConcat(data);
  }

  /** What reaches the client for a plan: an error message as one datagram
      (lost if its send fails), or the file cut by `sendChunk`. */
  method SendPlan(plan: UdpPlan, sendOk: nat -> bool) returns (sent: seq<seq<byte>>)
    ensures plan.SendError? ==> sent == (if sendOk(0) then [Utf8(plan.message)] else [])
    ensures plan.SendData? ==> DeliveredPrefix(Chunks(plan.data), sendOk, sent)
  {
    match plan
    case SendError(message) =>
      sent := if sendOk(0) then [Utf8(message)] else [];
    case SendData(data) =>
      var offset, failed;
      sent, offset, failed := SendFile(data, sendOk);
  }

  /** The handling of one request datagram, from its text to the datagrams
      sent back. */
  method ServeDatagram(filesDir: string, fs: FileSystem, msg: string, sendOk: nat -> bool)
    returns (plan: UdpPlan, sent: seq<seq<byte>>)
    ensures plan == UdpPlanFor(filesDir, fs, Trim(msg))
    ensures plan.SendError? ==> sent == (if sendOk(0) then [Utf8(plan.message)] else [])
    ensures plan.SendData? ==> DeliveredPrefix(Chunks(plan.data), sendOk, sent)
  {
    plan := UdpPlanFor(filesDir, fs, Trim(msg));
    sent := SendPlan(plan, sendOk);
  }

  // ---------------------------------------------------------------- error lines

  /** Both error lines begin with the marker the client looks for, and they
      are different lines. */
  lemma ErrorLinesAreMarked()
    ensures StartsWithError(Utf8(NotFoundMessage))
    ensures StartsWithError(Utf8(ReadFailureMessage))
    ensures NotFoundMessage != ReadFailureMessage
  {
    ErrorLineIsMarked(NotFoundDetail);
    ErrorLineIsMarked(ReadFailureDetail);
    assert |NotFoundMessage| != |ReadFailureMessage|;
  }

  /** A refused or missing path gets the same line on both transports, and a
      path that exists never gets that line. */
  lemma SameDenialOnBothTransports(filesDir: string, fs: FileSystem, requestedPath: string)
    ensures TcpReplyFor(filesDir, fs, requestedPath) == ErrorLine(NotFoundMessage)
            <==> UdpPlanFor(filesDir, fs, requestedPath) == SendError(NotFoundMessage)
    ensures TcpReplyFor(filesDir, fs, requestedPath).FileBytes?
            <==> UdpPlanFor(filesDir, fs, requestedPath).SendData?
    ensures Locate(filesDir, fs, requestedPath).Some?
            ==> TcpReplyFor(filesDir, fs, requestedPath) != ErrorLine(NotFoundMessage)
                && UdpPlanFor(filesDir, fs, requestedPath) != SendError(NotFoundMessage)
  {
    ErrorLinesAreMarked();
  }

  /** An empty request, or one that is only whitespace, names FILES_DIR
      itself: it exists, so it is not denied, but it is a directory, so TCP
      ends the connection without data and UDP answers with the read-failure
      line. */
  lemma BlankRequestNamesFilesDir(dirname: seq<string>, fs: FileSystem, request: string)
    requires ValidDirname(dirname) && AllWhitespace(request)
    requires FilesDir(dirname) in fs && fs[FilesDir(dirname)] == Directory
    ensures Locate(FilesDir(dirname), fs, Trim(request)) == Some(FilesDir(dirname))
    ensures TcpReplyFor(FilesDir(dirname), fs, Trim(request)) == EndWithoutData
    ensures UdpPlanFor(FilesDir(dirname), fs, Trim(request)) == SendError(ReadFailureMessage)
  {
    assert Trim(request) == "" by {
      TrimPadded(request, "", []);
      assert request + "" + [] == request;
    }
    assert GetFilePath(FilesDir(dirname), "") == Some(FilesDir(dirname)) by {
      BlankRequestIsFilesDir(dirname);
    }
    ErrorLinesAreMarked();
  }
}
