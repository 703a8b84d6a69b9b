/** The batch driver `main` (client/client.js:156-182): one download per
    name in the list, over the protocol the user typed. */
module Batch {
  import opened Common
  import opened Text
  import opened PosixPath

  datatype Protocol = Tcp | Udp

  /** `filesToDownload` (client/client.js:14-19). */
  const FilesToDownload: seq<string> := ["10KB.txt", "100KB.txt", "1MB.txt", "5MB.txt"]

  /** The comparisons `protocol.toUpperCase() === 'TCP'` / `'UDP'`. */
  function ParseProtocol(answer: string): Option<Protocol>
  {
    var upper := ToUpper(answer);
    if upper == "TCP" then Some(Tcp) else if upper == "UDP" then Some(Udp) else None
  }

  /** What one turn of the loop records. */
  datatype LogEntry =
    | Attempt(protocol: Protocol, fileName: string, savePath: string, ok: bool)
    | UnknownProtocol

  /** The loop over the file list. `succeeds(i)` is whether the download of
      the i-th file resolves; a rejection is caught and the loop goes on. An
      unrecognised protocol is reported once and ends the loop before any
      transfer. */
  method DownloadAll(answer: string, files: seq<string>, saveDirectory: string, succeeds: nat -> bool)
    returns (log: seq<LogEntry>)
    ensures ParseProtocol(answer).None? ==> log == (if files == [] then [] else [UnknownProtocol])
    ensures ParseProtocol(answer).Some? ==>
              && |log| == |files|
              && forall i :: 0 <= i < |files| ==>
                   log[i] == Attempt(ParseProtocol(answer).value, files[i],
                                     Join(saveDirectory, files[i]), succeeds(i))
  {
    log := [];
    for i := 0 to |files|
      invariant ParseProtocol(answer).None? ==> i == 0 && log == []
      invariant ParseProtocol(answer).Some? ==>
                  && |log| == i
                  && forall k :: 0 <= k < i ==>
                       log[k] == Attempt(ParseProtocol(answer).value, files[k],
                                         Join(saveDirectory, files[k]), succeeds(k))
    {
      var savePath := Join(saveDirectory, files[i]);
      if ToUpper(answer) == "TCP" {
        log := log + [Attempt(Tcp, files[i], savePath, succeeds(i))];
      } else if ToUpper(answer) == "UDP" {
        log := log + [Attempt(Udp, files[i], savePath, succeeds(i))];
      } else {
        log := log + [UnknownProtocol];
        break;
      }
    }
  }

  lemma UpperCharIs(c: char, lower: char, upper: char)
    requires 'a' <= lower <= 'z' && upper as int == lower as int - 32
    ensures UpperChar(c) == upper <==> c == lower || c == upper
  {
  }

  /** The answer selects TCP exactly when it is "tcp" in any mix of cases. */
  lemma TcpAnyCase(answer: string)
    ensures ParseProtocol(answer) == Some(Tcp)
            <==> |answer| == 3 && answer[0] in "tT" && answer[1] in "cC" && answer[2] in "pP"
  {
    if |answer| == 3 {
      UpperCharIs(answer[0], 't', 'T');
      UpperCharIs(answer[1], 'c', 'C');
      UpperCharIs(answer[2], 'p', 'P');
      assert ToUpper(answer) == "TCP" <==>
        UpperChar(answer[0]) == 'T' && UpperChar(answer[1]) == 'C' && UpperChar(answer[2]) == 'P';
    }
  }

  /** The answer selects UDP exactly when it is "udp" in any mix of cases. */
  lemma UdpAnyCase(answer: string)
    ensures ParseProtocol(answer) == Some(Udp)
            <==> |answer| == 3 && answer[0] in "uU" && answer[1] in "dD" && answer[2] in "pP"
  {
    if |answer| == 3 {
      UpperCharIs(answer[0], 'u', 'U');
      UpperCharIs(answer[1], 'd', 'D');
      UpperCharIs(answer[2], 'p', 'P');
      assert ToUpper(answer) == "UDP" <==>
        UpperChar(answer[0]) == 'U' && UpperChar(answer[1]) == 'D' && UpperChar(answer[2]) == 'P';
    }
  }

  /** The downloads directory `AbsoluteDir(dirname + ["downloads"])` is
      `path.join(__dirname, 'downloads')`. */
  lemma DownloadsDirIsJoin(dirname: seq<string>)
    requires forall i :: 0 <= i < |dirname| ==> IsName(dirname[i])
    ensures AbsoluteDir(dirname + ["downloads"]) == Join(AbsoluteDir(dirname), "downloads")
  {
    JoinChild(dirname, "downloads");
  }

  /** Each file is saved as its name directly inside the downloads
      directory `path.join(__dirname, 'downloads')`. */
  lemma SavePathInDownloads(dirname: seq<string>, fileName: string)
    requires forall i :: 0 <= i < |dirname| ==> IsName(dirname[i])
    requires IsName(fileName)
    ensures Join(AbsoluteDir(dirname + ["downloads"]), fileName)
            == AbsoluteDir(dirname + ["downloads"]) + "/" + fileName
  {
    var names := dirname + ["downloads"];
    assert forall i :: 0 <= i < |names| ==> IsName(names[i]);
    JoinOneName(names, fileName);
  }

  /** All four names of `filesToDownload` are plain names, so each is saved
      as `downloads/<name>`. */
  lemma FilesToDownloadSaved(dirname: seq<string>)
    requires forall i :: 0 <= i < |dirname| ==> IsName(dirname[i])
    ensures forall i :: 0 <= i < |FilesToDownload| ==>
              Join(AbsoluteDir(dirname + ["downloads"]), FilesToDownload[i])
              == AbsoluteDir(dirname + ["downloads"]) + "/" + FilesToDownload[i]
  {
    forall i | 0 <= i < |FilesToDownload|
      ensures Join(AbsoluteDir(dirname + ["downloads"]), FilesToDownload[i])
              == AbsoluteDir(dirname + ["downloads"]) + "/" + FilesToDownload[i]
    {
      assert IsName(FilesToDownload[i]);
      SavePathInDownloads(dirname, FilesToDownload[i]);
    }
  }
}
