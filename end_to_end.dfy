/** What a whole download looks like when the server's replies
    (server/server.js) are fed to the clients' receivers (client/client.js):
    the request framing the TCP client sends, the error lines, and the file
    bytes on both transports. */
module EndToEnd {
  import opened Common
  import opened Text
  import opened Server
  import FilePath
  import T = TcpClient
  import U = UdpClient

  // ---------------------------------------------------------------- requests

  /** The TCP client writes `requestedPath + '\n'`; the server's trim drops
      the newline again, so the request it resolves is the trimmed path the
      UDP server would resolve from the bare datagram. */
  lemma NewlineFramingIsTrimmed(path: string)
    ensures Trim(path + "\n") == Trim(path)
  {
    assert IsWhitespace('\n');
    assert path + "\n" == "" + path + "\n";
    TrimPadded("", path, "\n");
  }

  /** However the TCP request arrives in chunks, both transports answer the
      same path the same way: a denial on one is a denial on the other. */
  lemma TransportsAgreeOnRequest(filesDir: string, fs: FileSystem, path: string, chunks: seq<string>)
    requires Concat(chunks) == path + "\n"
    ensures TcpReplyFor(filesDir, fs, Trim(Concat(chunks))) == ErrorLine(NotFoundMessage)
            <==> UdpPlanFor(filesDir, fs, Trim(path)) == SendError(NotFoundMessage)
  {
    NewlineFramingIsTrimmed(path);
  }

  // ---------------------------------------------------------------- TCP

  /** A denied TCP request reaches the client as one chunk holding the error
      line: the client rejects with it, unlinks the save path and writes
      nothing, whatever follows. */
  lemma TcpDenialRejects(more: seq<T.TcpEvent>)
    ensures var st := T.Run(T.DataEvents([Utf8(NotFoundMessage)]) + more);
            && st.written == None && st.unlinked
            && st.outcome == Rejected(ServerError(Utf8(NotFoundMessage)))
  {
    var chunks := [Utf8(NotFoundMessage)];
    ErrorLinesAreMarked();
    assert chunks[..0] == [] && chunks[..1] == chunks;
    T.ErrorChunkAborts(chunks, 0, more);
  }

  /** The marker check looks at each chunk alone: an error line that the
      stream delivers cut inside "ERROR" passes it, and the client saves the
      error line as the downloaded file. */
  lemma SplitErrorLineIsSaved(m: seq<byte>, k: nat)
    requires StartsWithError(m) && 0 < k < |ErrorMarker|
    ensures var st := T.Run(T.DataEvents([m[..k], m[k..]]) + [T.End(true)]);
            && st.written == Some(m) && st.outcome == Resolved
  {
    assert m[k] == ErrorMarker[k];
    var chunks := [m[..k], m[k..]];
    assert NoErrorChunk(chunks) by {
      assert !StartsWithError(m[..k]);
      assert m[k..][0] == m[k];
    }
    assert Concat(chunks) == m by {
      assert chunks[1..] == [m[k..]];
      assert Concat([m[k..]]) == m[k..] + Concat([]);
    }
    T.CleanDownloadSaves(chunks);
  }

  /** A file the server can open is piped into the socket; if no chunk of it
      starts with "ERROR", the client saves exactly the file. */
  lemma TcpDownloadIsLossless(filesDir: string, fs: FileSystem, request: string, chunks: seq<seq<byte>>)
    requires TcpReplyFor(filesDir, fs, Trim(request)).FileBytes?
    requires Concat(chunks) == TcpReplyFor(filesDir, fs, Trim(request)).data
    requires NoErrorChunk(chunks)
    ensures var st := T.Run(T.DataEvents(chunks) + [T.End(true)]);
            st.written == Some(fs[Locate(filesDir, fs, Trim(request)).value].content)
            && st.outcome == Resolved
  {
    T.CleanDownloadSaves(chunks);
  }

  /** The bytes a reply puts on the socket before it ends, as the chunks the
      client's `'data'` listener sees when each write arrives whole: the
      file, the error line, or nothing at all. */
  function WireChunks(reply: TcpReply): seq<seq<byte>>
  {
    match reply
    case FileBytes(data) => [data]
    case ErrorLine(message) => [Utf8(message)]
    case EndWithoutData => []
  }

  /** A blank request names the files directory itself; its read stream
      fails, the server ends the socket without data, and the client saves
      an empty file and reports success. */
  lemma BlankTcpRequestSavesEmptyFile(dirname: seq<string>, fs: FileSystem, request: string)
    requires FilePath.ValidDirname(dirname) && AllWhitespace(request)
    requires FilePath.FilesDir(dirname) in fs && fs[FilePath.FilesDir(dirname)] == Directory
    ensures var reply := TcpReplyFor(FilePath.FilesDir(dirname), fs, Trim(request));
            var st := T.Run(T.DataEvents(WireChunks(reply)) + [T.End(true)]);
            && reply == EndWithoutData
            && st.written == Some([]) && st.outcome == Resolved
  {
    BlankRequestNamesFilesDir(dirname, fs, request);
    assert T.DataEvents([]) + [T.End(true)] == [T.End(true)];
    T.EmptyDownloadSavesEmptyFile();
  }

  // ---------------------------------------------------------------- UDP

  /** Every datagram of the file is delivered and none starts with "ERROR":
      the client's pending timer writes exactly the file, once. */
  lemma UdpDownloadIsLossless(data: seq<byte>, sendOk: nat -> bool, sent: seq<seq<byte>>)
    requires DeliveredPrefix(Chunks(data), sendOk, sent)
    requires forall k :: 0 <= k < |Chunks(data)| ==> sendOk(k)
    requires NoErrorChunk(Chunks(data))
    ensures U.Run(U.MessageEvents(sent) + [U.TimerFire(true)])
            == U.UdpState(data, U.NoTimer, false, [data], Resolved)
  {
    LosslessSend(data, sendOk, sent);
    U.LosslessDownload(sent);
  }

  /** An empty file sends no datagram at all; the client's overall timer
      fires and writes an empty file. */
  lemma EmptyUdpFileSavesEmptyFile(sendOk: nat -> bool, sent: seq<seq<byte>>)
    requires DeliveredPrefix(Chunks([]), sendOk, sent)
    ensures U.Run(U.MessageEvents(sent) + [U.TimerFire(true)])
            == U.UdpState([], U.NoTimer, false, [[]], Resolved)
  {
    assert Chunks([]) == [];
    assert sent == [];
    assert U.MessageEvents(sent) + [U.TimerFire(true)] == [U.TimerFire(true)];
    U.HardTimerWritesEmptyFile([]);
    assert [] + [U.TimerFire(true)] == [U.TimerFire(true)];
  }

  /** Either error line, once delivered, makes the UDP client close and
      reject with it before anything is written. */
  lemma UdpErrorReplyRejects(message: string)
    requires message == NotFoundMessage || message == ReadFailureMessage
    ensures var st := U.Run([U.Message(Utf8(message))]);
            && st.writes == [] && !st.open
            && st.outcome == Rejected(ServerError(Utf8(message)))
  {
    ErrorLinesAreMarked();
    U.RunSnoc([], U.Message(Utf8(message)));
    assert [] + [U.Message(Utf8(message))] == [U.Message(Utf8(message))];
  }
}
