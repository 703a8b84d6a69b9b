/** The receiving side of `requestFileUDP` (client/client.js:84-153): the
    closure state `fileData`, the single `timeoutHandle` that both the
    overall 5000 ms timer and the 1000 ms inactivity timer are stored in,
    and the socket's open/closed state. */
module UdpClient {
  import opened Common

  /** What `timeoutHandle` refers to: nothing pending, the overall timer set
      when the request is sent, or the inactivity timer set by a datagram. */
  datatype Timer = NoTimer | HardTimer | InactivityTimer

  /** The events of one download. `TimerFire(writeOk)` is the pending timer
      firing, with whether the `fs.writeFile` it starts succeeds. */
  datatype UdpEvent =
    | Message(payload: seq<byte>)
    | TimerFire(writeOk: bool)
    | SocketError
    | RequestSendFailed

  /** The closure state, with the contents of every successful write to the
      save path, in order. */
  datatype UdpState = UdpState(
    fileData: seq<byte>,
    timer: Timer,
    open: bool,
    writes: seq<seq<byte>>,
    outcome: Outcome)

  /** After `client.send(...)` and the overall `setTimeout` (client/client.js:86-140). */
  const Start: UdpState := UdpState([], HardTimer, true, [], Pending)

  /** `client.close()`: the `'close'` listener clears the timer. */
  function Closed(st: UdpState): UdpState
  {
    st.(open := false, timer := NoTimer)
  }

  /** One event; a closed socket delivers nothing and has no timer. */
  function Step(st: UdpState, ev: UdpEvent): UdpState
  {
    if !st.open then st
    else match ev
      case Message(payload) =>
        if StartsWithError(payload) then
          Closed(st).(outcome := Settle(st.outcome, Rejected(ServerError(payload))))
        else
          // append, then replace the one handle by a fresh inactivity timer
          st.(fileData := st.fileData + payload, timer := InactivityTimer)
      case TimerFire(writeOk) =>
        (match st.timer
        case NoTimer => st
        case HardTimer =>
          // close first, then write what has arrived
          Closed(st).(writes := if writeOk then st.writes + [st.fileData] else st.writes,
                      outcome := Settle(st.outcome, if writeOk then Resolved else Rejected(SaveFailure)))
        case InactivityTimer =>
          if writeOk then
            Closed(st).(writes := st.writes + [st.fileData], outcome := Settle(st.outcome, Resolved))
          else
            // the socket stays open, with no timer pending
            st.(timer := NoTimer, outcome := Settle(st.outcome, Rejected(SaveFailure))))
      case SocketError =>
        Closed(st).(outcome := Settle(st.outcome, Rejected(SocketFailure)))
      case RequestSendFailed =>
        Closed(st).(outcome := Settle(st.outcome, Rejected(RequestFailure)))
  }

  /** The state after a sequence of events. */
  function Run(events: seq<UdpEvent>): UdpState
  {
    if events == [] then Start
    else Step(Run(events[..|events| - 1]), events[|events| - 1])
  }

  /** The datagrams as `'message'` events. */
  function MessageEvents(chunks: seq<seq<byte>>): (r: seq<UdpEvent>)
    ensures |r| == |chunks|
    ensures forall i :: 0 <= i < |chunks| ==> r[i] == Message(chunks[i])
  {
    if chunks == [] then [] else [Message(chunks[0])] + MessageEvents(chunks[1..])
  }

  /** The handlers as a class over the closure variables. */
  class UdpReceiver {
    var fileData: seq<byte>
    var timeoutHandle: Timer
    var open: bool
    var writes: seq<seq<byte>>
    var outcome: Outcome

    function State(): UdpState
      reads this
    {
      UdpState(fileData, timeoutHandle, open, writes, outcome)
    }

    constructor ()
      ensures State() == Start
    {
      fileData := [];
      timeoutHandle := HardTimer;
      open := true;
      writes := [];
      outcome := Pending;
    }

    /** `client.close()` and the `'close'` listener (client/client.js:149-151). */
    method Close()
      modifies this
      ensures State() == Closed(old(State()))
    {
      open := false;
      timeoutHandle := NoTimer;
    }

    /** `resolve` / `reject`: only the first call counts. */
    method SettleOnce(next: Outcome)
      modifies this
      ensures State() == old(State()).(outcome := Settle(old(outcome), next))
    {
      if outcome == Pending {
        outcome := next;
      }
    }

    /** `client.on('message', ...)` (client/client.js:101-126). */
    method OnMessage(msg: seq<byte>)
      modifies this
      ensures State() == Step(old(State()), Message(msg))
    {
      if !open {
        return;
      }
      if StartsWithError(msg) {
        Close();
        SettleOnce(Rejected(ServerError(msg)));
        return;
      }
      fileData := fileData + msg;
      timeoutHandle := InactivityTimer;
    }

    /** The pending timer fires: the inactivity callback (client/client.js:113-125)
        or the overall one (client/client.js:129-140). */
    method OnTimer(writeOk: bool)
      modifies this
      ensures State() == Step(old(State()), TimerFire(writeOk))
    {
      if !open || timeoutHandle == NoTimer {
        return;
      }
      if timeoutHandle == HardTimer {
        Close();
        if writeOk {
          writes := writes + [fileData];
          SettleOnce(Resolved);
        } else {
          SettleOnce(Rejected(SaveFailure));
        }
      } else {
        timeoutHandle := NoTimer;
        if writeOk {
          writes := writes + [fileData];
          Close();
          SettleOnce(Resolved);
        } else {
          SettleOnce(Rejected(SaveFailure));
        }
      }
    }

    /** `client.on('error', ...)` (client/client.js:142-147). */
    method OnError()
      modifies this
      ensures State() == Step(old(State()), SocketError)
    {
      if !open {
        return;
      }
      Close();
      SettleOnce(Rejected(SocketFailure));
    }

    /** The callback of the request `client.send` with an error (client/client.js:92-97). */
    method OnRequestFailed()
      modifies this
      ensures State() == Step(old(State()), RequestSendFailed)
    {
      if !open {
        return;
      }
      Close();
      SettleOnce(Rejected(RequestFailure));
    }
  }

  /** Delivers the events to a fresh receiver, one handler call each. */
  method ReceiveUdp(events: seq<UdpEvent>) returns (st: UdpState)
    ensures st == Run(events)
  {
    var r := new UdpReceiver();
    var i := 0;
    while i < |events|
      invariant 0 <= i <= |events|
      invariant r.State() == Run(events[..i])
    {
      assert events[..i + 1][..i] == events[..i];
      match events[i] {
        case Message(payload) => r.OnMessage(payload);
        case TimerFire(writeOk) => r.OnTimer(writeOk);
        case SocketError => r.OnError();
        case RequestSendFailed => r.OnRequestFailed();
      }
      i := i + 1;
    }
    assert events[..i] == events;
    st := r.State();
  }

  lemma RunSnoc(events: seq<UdpEvent>, ev: UdpEvent)
    ensures Run(events + [ev]) == Step(Run(events), ev)
  {
    assert (events + [ev])[..|events|] == events;
  }

  lemma MessageEventsSnoc(chunks: seq<seq<byte>>, c: seq<byte>)
    ensures MessageEvents(chunks + [c]) == MessageEvents(chunks) + [Message(c)]
  {
  }

  /** Datagrams that are not error lines are appended to `fileData` in
      arrival order; after the first one the pending timer is the inactivity
      timer, so the overall timer can no longer fire. */
  lemma {:induction false} MessagesAccumulate(chunks: seq<seq<byte>>)
    requires NoErrorChunk(chunks)
    ensures Run(MessageEvents(chunks))
            == Start.(fileData := Concat(chunks),
                      timer := if chunks == [] then HardTimer else InactivityTimer)
    decreases |chunks|
  {
    if chunks != [] {
      var init := chunks[..|chunks| - 1];
      var last := chunks[|chunks| - 1];
      assert chunks == init + [last];
      MessagesAccumulate(init);
      MessageEventsSnoc(init, last);
      RunSnoc(MessageEvents(init), Message(last));
      ConcatAppend(init, last);
    }
  }

  /** The overall timer is pending only in the initial state: any event at
      all replaces or clears it. */
  lemma {:induction false} HardTimerOnlyAtStart(events: seq<UdpEvent>)
    ensures events != [] ==> Run(events).timer != HardTimer
    decreases |events|
  {
    if events != [] {
      var init := events[..|events| - 1];
      HardTimerOnlyAtStart(init);
      assert Run(init).timer != HardTimer || Run(init) == Start;
    }
  }

  /** So when the overall timer fires, no datagram has arrived: it closes
      the socket and writes an empty file. */
  lemma HardTimerWritesEmptyFile(events: seq<UdpEvent>)
    requires Run(events).timer == HardTimer
    ensures Run(events + [TimerFire(true)]) == UdpState([], NoTimer, false, [[]], Resolved)
  {
    HardTimerOnlyAtStart(events);
    RunSnoc(events, TimerFire(true));
  }

  /** Whichever timer fires on an open socket writes exactly the current
      `fileData`. */
  lemma TimerWritesFileData(st: UdpState)
    requires st.open && st.timer != NoTimer
    ensures Step(st, TimerFire(true)).writes == st.writes + [st.fileData]
    ensures !Step(st, TimerFire(true)).open
    ensures Step(st, TimerFire(true)).outcome == Settle(st.outcome, Resolved)
  {
  }

  /** A datagram that starts with "ERROR" clears the timer, closes the
      socket and rejects; `fileData` and the writes are unchanged. */
  lemma ErrorDatagramAborts(st: UdpState, payload: seq<byte>)
    requires st.open && StartsWithError(payload)
    ensures var next := Step(st, Message(payload));
            && next.fileData == st.fileData && next.writes == st.writes
            && next.timer == NoTimer && !next.open
            && next.outcome == Settle(st.outcome, Rejected(ServerError(payload)))
  {
  }

  /** The lossless run: every datagram arrives, none is an error line, and
      the pending timer fires once: the one write is their concatenation.
      With no datagram at all that timer is the overall one, which writes the
      empty concatenation. */
  lemma LosslessDownload(chunks: seq<seq<byte>>)
    requires NoErrorChunk(chunks)
    ensures Run(MessageEvents(chunks) + [TimerFire(true)])
            == UdpState(Concat(chunks), NoTimer, false, [Concat(chunks)], Resolved)
  {
    MessagesAccumulate(chunks);
    RunSnoc(MessageEvents(chunks), TimerFire(true));
  }

  /** When the overall timer's write fails, no datagram has arrived: the
      socket was closed before the write, nothing is saved and the promise
      rejects. */
  lemma HardTimerSaveFailureCloses(events: seq<UdpEvent>)
    requires Run(events).timer == HardTimer
    ensures Run(events + [TimerFire(false)]) == UdpState([], NoTimer, false, [], Rejected(SaveFailure))
  {
    HardTimerOnlyAtStart(events);
    RunSnoc(events, TimerFire(false));
  }

  /** A failed save on inactivity rejects but leaves the socket open; a
      later datagram restarts the inactivity timer, whose write still
      happens although the promise is already rejected. */
  lemma SaveFailureKeepsListening(st: UdpState, payload: seq<byte>)
    requires st.open && st.timer == InactivityTimer && st.outcome == Pending
    requires !StartsWithError(payload)
    ensures var failed := Step(st, TimerFire(false));
            var later := Step(Step(failed, Message(payload)), TimerFire(true));
            && failed.open && failed.timer == NoTimer
            && failed.outcome == Rejected(SaveFailure)
            && later.writes == st.writes + [st.fileData + payload]
            && later.outcome == Rejected(SaveFailure)
  {
  }

  /** Once settled, the promise keeps its outcome. */
  lemma {:induction false} SettledStaysSettled(events: seq<UdpEvent>, more: seq<UdpEvent>)
    requires Run(events).outcome != Pending
    ensures Run(events + more).outcome == Run(events).outcome
    decreases |more|
  {
    if more != [] {
      var init := more[..|more| - 1];
      assert events + more == (events + init) + [more[|more| - 1]];
      SettledStaysSettled(events, init);
      RunSnoc(events + init, more[|more| - 1]);
    } else {
      assert events + more == events;
    }
  }

  /** A closed socket stays closed and nothing changes any more. */
  lemma {:induction false} ClosedStaysClosed(events: seq<UdpEvent>, more: seq<UdpEvent>)
    requires !Run(events).open
    ensures Run(events + more) == Run(events)
    decreases |more|
  {
    if more != [] {
      var init := more[..|more| - 1];
      assert events + more == (events + init) + [more[|more| - 1]];
      ClosedStaysClosed(events, init);
      RunSnoc(events + init, more[|more| - 1]);
    } else {
      assert events + more == events;
    }
  }
}
