/** The receiving side of `requestFileTCP` (client/client.js:40-81): the
    handlers for `'data'`, `'end'` and `'error'` over the closure state
    `fileBuffer`, and what they do to the save path and to the promise. */
module TcpClient {
  import opened Common

  /** The socket events, in arrival order. `End(writeOk)` carries whether the
      `fs.writeFile` it starts succeeds. */
  datatype TcpEvent = Data(bytes: seq<byte>) | End(writeOk: bool) | Error

  /** The closure state of one download, with what it has done to the save
      path: the bytes last written there, and whether `fs.unlink` was called.
      `live` is false once the socket is destroyed, has ended or has failed:
      it delivers no events after that. */
  datatype TcpState = TcpState(
    fileBuffer: seq<byte>,
    live: bool,
    written: Option<seq<byte>>,
    unlinked: bool,
    outcome: Outcome)

  /** `fileBuffer = Buffer.alloc(0)`, before the socket connects. */
  const Start: TcpState := TcpState([], true, None, false, Pending)

  /** One handler. */
  function Step(st: TcpState, ev: TcpEvent): TcpState
  {
    if !st.live then st
    else match ev
      case Data(bytes) =>
        if StartsWithError(bytes) then
          // destroy(), unlink(savePath), reject(new Error(data.toString()))
          st.(live := false, unlinked := true,
              outcome := Settle(st.outcome, Rejected(ServerError(bytes))))
        else
          st.(fileBuffer := st.fileBuffer + bytes)
      case End(writeOk) =>
        st.(live := false,
            written := if writeOk then Some(st.fileBuffer) else st.written,
            outcome := Settle(st.outcome, if writeOk then Resolved else Rejected(SaveFailure)))
      case Error =>
        st.(live := false, unlinked := true,
            outcome := Settle(st.outcome, Rejected(SocketFailure)))
  }

  /** The state after a sequence of events. */
  function Run(events: seq<TcpEvent>): TcpState
  {
    if events == [] then Start
    else Step(Run(events[..|events| - 1]), events[|events| - 1])
  }

  /** The chunks as `'data'` events. */
  function DataEvents(chunks: seq<seq<byte>>): (r: seq<TcpEvent>)
    ensures |r| == |chunks|
    ensures forall i :: 0 <= i < |chunks| ==> r[i] == Data(chunks[i])
  {
    if chunks == [] then [] else [Data(chunks[0])] + DataEvents(chunks[1..])
  }

  /** The handlers as a class over the closure variables. */
  class TcpReceiver {
    var fileBuffer: seq<byte>
    var live: bool
    var written: Option<seq<byte>>
    var unlinked: bool
    var outcome: Outcome

    function State(): TcpState
      reads this
    {
      TcpState(fileBuffer, live, written, unlinked, outcome)
    }

    constructor ()
      ensures State() == Start
    {
      fileBuffer := [];
      live := true;
      written := None;
      unlinked := false;
      outcome := Pending;
    }

    /** `client.on('data', ...)` (client/client.js:51-60). */
    method OnData(data: seq<byte>)
      modifies this
      ensures State() == Step(old(State()), Data(data))
    {
      if !live {
        return;
      }
      if StartsWithError(data) {
        live := false;
        unlinked := true;
        if outcome == Pending {
          outcome := Rejected(ServerError(data));
        }
        return;
      }
      fileBuffer := fileBuffer + data;
    }

    /** `client.on('end', ...)` (client/client.js:62-73). */
    method OnEnd(writeOk: bool)
      modifies this
      ensures State() == Step(old(State()), End(writeOk))
    {
      if !live {
        return;
      }
      live := false;
      if writeOk {
        written := Some(fileBuffer);
      }
      if outcome == Pending {
        outcome := if writeOk then Resolved else Rejected(SaveFailure);
      }
    }

    /** `client.on('error', ...)` (client/client.js:75-79). */
    method OnError()
      modifies this
      ensures State() == Step(old(State()), Error)
    {
      if !live {
        return;
      }
      live := false;
      unlinked := true;
      if outcome == Pending {
        outcome := Rejected(SocketFailure);
      }
    }
  }

  /** Delivers the events to a fresh receiver, one handler call each. */
  method ReceiveTcp(events: seq<TcpEvent>) returns (st: TcpState)
    ensures st == Run(events)
  {
    var r := new TcpReceiver();
    var i := 0;
    while i < |events|
      invariant 0 <= i <= |events|
      invariant r.State() == Run(events[..i])
    {
      assert events[..i + 1][..i] == events[..i];
      match events[i] {
        case Data(bytes) => r.OnData(bytes);
        case End(writeOk) => r.OnEnd(writeOk);
        case Error => r.OnError();
      }
      i := i + 1;
    }
    assert events[..i] == events;
    st := r.State();
  }

  /** Run over a sequence extended at the end. */
  lemma RunSnoc(events: seq<TcpEvent>, ev: TcpEvent)
    ensures Run(events + [ev]) == Step(Run(events), ev)
  {
    assert (events + [ev])[..|events|] == events;
  }

  lemma DataEventsSnoc(chunks: seq<seq<byte>>, c: seq<byte>)
    ensures DataEvents(chunks + [c]) == DataEvents(chunks) + [Data(c)]
  {
  }

  /** While no chunk is an error line, the chunks are appended to
      `fileBuffer` in arrival order and nothing else happens. */
  lemma {:induction false} CleanChunksAccumulate(chunks: seq<seq<byte>>)
    requires NoErrorChunk(chunks)
    ensures Run(DataEvents(chunks)) == Start.(fileBuffer := Concat(chunks))
    decreases |chunks|
  {
    if chunks != [] {
      var init := chunks[..|chunks| - 1];
      var last := chunks[|chunks| - 1];
      assert chunks == init + [last];
      CleanChunksAccumulate(init);
      DataEventsSnoc(init, last);
      RunSnoc(DataEvents(init), Data(last));
      ConcatAppend(init, last);
    }
  }

  /** Without an error chunk, `'end'` writes exactly the concatenation of
      the chunks and resolves; nothing is unlinked. */
  lemma CleanDownloadSaves(chunks: seq<seq<byte>>)
    requires NoErrorChunk(chunks)
    ensures var st := Run(DataEvents(chunks) + [End(true)]);
            st.written == Some(Concat(chunks)) && st.outcome == Resolved && !st.unlinked
  {
    CleanChunksAccumulate(chunks);
    RunSnoc(DataEvents(chunks), End(true));
  }

  /** An `'end'` before any data writes an empty file. */
  lemma EmptyDownloadSavesEmptyFile()
    ensures Run([End(true)]).written == Some([]) && Run([End(true)]).outcome == Resolved
  {
    RunSnoc([], End(true));
  }

  /** Once the socket is no longer live, no event changes anything. */
  lemma {:induction false} DeadStaysDead(events: seq<TcpEvent>, more: seq<TcpEvent>)
    requires !Run(events).live
    ensures Run(events + more) == Run(events)
    decreases |more|
  {
    if more == [] {
      assert events + more == events;
    } else {
      var init := more[..|more| - 1];
      assert events + more == (events + init) + [more[|more| - 1]];
      DeadStaysDead(events, init);
      RunSnoc(events + init, more[|more| - 1]);
    }
  }

  /** Any chunk that starts with "ERROR", not only the first, aborts the
      download: the chunk is not kept, the save path is unlinked, the promise
      is rejected with that chunk, nothing is written, and later events
      change nothing. */
  lemma ErrorChunkAborts(chunks: seq<seq<byte>>, j: nat, more: seq<TcpEvent>)
    requires j < |chunks| && StartsWithError(chunks[j]) && NoErrorChunk(chunks[..j])
    ensures var st := Run(DataEvents(chunks[..j + 1]) + more);
            && st.fileBuffer == Concat(chunks[..j])
            && !st.live && st.unlinked && st.written == None
            && st.outcome == Rejected(ServerError(chunks[j]))
  {
    var before := chunks[..j];
    assert chunks[..j + 1] == before + [chunks[j]];
    CleanChunksAccumulate(before);
    DataEventsSnoc(before, chunks[j]);
    RunSnoc(DataEvents(before), Data(chunks[j]));
    DeadStaysDead(DataEvents(chunks[..j + 1]), more);
  }

  /** Once settled, the promise keeps its outcome. */
  lemma {:induction false} SettledStaysSettled(events: seq<TcpEvent>, more: seq<TcpEvent>)
    requires Run(events).outcome != Pending
    ensures Run(events + more).outcome == Run(events).outcome
    decreases |more|
  {
    if more == [] {
      assert events + more == events;
    } else {
      var init := more[..|more| - 1];
      assert events + more == (events + init) + [more[|more| - 1]];
      SettledStaysSettled(events, init);
      RunSnoc(events + init, more[|more| - 1]);
    }
  }
}
