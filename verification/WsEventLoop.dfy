/** The WebSocket callbacks as the code runs them on a connection object. The two loops, over the queue
    of operations and over the frames that can be read at once, are proved to be runs of the protocol. */
module WsEventLoop {
  import opened WsReassembly
  import opened WsProtocol
  import opened WsInvariant
  import opened WsRuns

  /** An operation the game thread queues for the event thread. */
  predicate IsOp(a: Action) {
    a.OpConnect? || a.OpSend? || a.OpClose? || a.OpSetPing?
  }

  type Op = a: Action | IsOp(a) witness OpClose

  /** What the game thread writes into a connection without asking the event thread. */
  predicate IsWrite(a: Action) {
    a.MarkClosed? || a.SetPing? || a.SetReconnect?
  }

  type Write = a: Action | IsWrite(a) witness MarkClosed

  /** One turn of the frame loop: what the game thread writes just before it, and what the read gives. */
  datatype Turn = Turn(writes: seq<Write>, frame: Frame)

  function Connects(ops: seq<Op>): nat {
    if ops == [] then 0 else (if ops[0].OpConnect? then 1 else 0) + Connects(ops[1..])
  }

  /** The steps of the first turns of the frame loop. */
  function TurnActions(turns: seq<Turn>, n: nat): seq<Action>
    requires n <= |turns|
  {
    if n == 0 then []
    else TurnActions(turns, n - 1) + turns[n - 1].writes + [ReadFrame(turns[n - 1].frame)]
  }

  lemma OneStep(run: seq<Conn>, acts: seq<Action>, a: Action)
    requires Run(run, acts) && Enabled(run[|acts|], a)
    ensures Run(run + [Next(run[|acts|], a)], acts + [a])
  {
    hide Next, Enabled;
  }

  /** Every read finds the curl handle and the poll handle in place. */
  ghost predicate ReadsAttached(run: seq<Conn>, acts: seq<Action>) {
    |run| == |acts| + 1 && forall i :: 0 <= i < |acts| && acts[i].ReadFrame? ==> run[i].gear.curl && run[i].gear.poll
  }

  lemma OneRead(run: seq<Conn>, acts: seq<Action>, a: Action, d: Conn)
    requires ReadsAttached(run, acts) && (a.ReadFrame? ==> run[|acts|].gear.curl && run[|acts|].gear.poll)
    ensures ReadsAttached(run + [d], acts + [a])
  {
  }

  class Connection {
    var registered: bool
    var phase: Phase
    var handleClosed: bool
    var gear: Gear
    var closeSent: bool
    var closePushed: bool
    var pingInterval: nat
    var reconnectCount: nat
    var buffer: Buffer
    var events: seq<Event>
    var queue: seq<Op>              // ws_op_queue, as far as it is about this connection
    var maxReconnects: int
    ghost var connects: nat

    ghost function View(): Conn
      reads this
    {
      Conn(connects, registered, phase, handleClosed, gear, closeSent, closePushed, pingInterval, maxReconnects, reconnectCount, buffer, events)
    }

    ghost predicate Valid()
      reads this
    {
      Inv(View())
    }

    constructor ()
      ensures View() == Created() && Valid() && queue == []
    {
      hide Inv;
      registered, phase, handleClosed := false, CREATED, false;
      gear := NoGear;
      closeSent, closePushed, pingInterval, reconnectCount := false, false, 0, 0;
      buffer, events, queue := Empty, [], [];
      maxReconnects := 0;
      connects := 0;
      new;
      CreatedInv();
    }

    // ---- Calls of the game thread ----

    /** Close marks the handle, SetOption and SetReconnect store their values. */
    method GameWrite(a: Write)
      requires Valid()
      modifies this`handleClosed, this`pingInterval, this`maxReconnects
      ensures Valid() && View() == Next(old(View()), a)
    {
      hide Inv;
      StepKeeps(View(), a);
      match a
      case MarkClosed => handleClosed := true;
      case SetPing(interval) => pingInterval := interval;
      case SetReconnect(limit) => maxReconnects := limit;
    }

    // ---- Parts the callbacks share ----

    method PushEvent(e: Event)
      modifies this`events
      ensures events == old(events) + [e]
    {
      events := events + [e];
    }

    method PushWsClosedOnce(code: int)
      modifies this`events, this`closePushed
      ensures View() == PushClosedOnce(old(View()), code)
    {
      if closePushed { return; }
      closePushed := true;
      PushEvent(WsClosed(code));
    }

    method WsStopTimers()
      modifies this`gear
      ensures gear == StopTimers(old(gear))
    {
      if gear.close { gear := DropClose(gear); }
      if gear.ping { gear := DropPing(gear); }
      if gear.reconnect { gear := DropReconnect(gear); }
    }

    method WsCleanup(keep: bool)
      modifies this`gear, this`buffer, this`closeSent, this`phase, this`registered
      ensures View() == Cleanup(old(View()), keep) && !gear.poll
    {
      hide StopTimers;
      WsStopTimers();
      if gear.poll { gear := DropPoll(gear); }
      if gear.curl { gear := DropCurl(gear); }
      if keep {
        buffer := buffer.(bytes := [], fragmented := false);
        closeSent := false;
        phase := RECONNECTING;
      } else {
        phase := CLOSED;
        registered := false;
      }
    }

    method WsDisconnectOrReconnect(code: int)
      modifies this
      ensures View() == DisconnectOrReconnect(old(View()), code) && queue == old(queue) && !gear.poll
    {
      hide DropAll, PushClosedOnce;
      if !handleClosed && phase != CLOSING && maxReconnects != 0 && !(maxReconnects > 0 && reconnectCount >= maxReconnects) {
        WsCleanup(true);
        reconnectCount := reconnectCount + 1;
        gear := StartReconnect(gear);
      } else {
        WsCleanup(false);
        PushWsClosedOnce(code);
      }
    }

    /** Out of the table for good, with nothing left to give back. */
    method FinishClosed()
      modifies this`phase, this`registered, this`events, this`closePushed
      ensures View() == PushClosedOnce(old(View()).(phase := CLOSED, registered := false), 0)
    {
      hide PushClosedOnce;
      phase := CLOSED;
      registered := false;
      PushWsClosedOnce(0);
    }

    method WsInitCurl()
      modifies this`gear, this`phase
      ensures View() == InitCurl(old(View()))
    {
      gear := StartCurl(gear);
      phase := CONNECTING;
    }

    // ---- Operations ----

    method ProcessWsConnect(initOk: bool)
      modifies this
      ensures View() == ConnectStep(old(View()), initOk) && queue == old(queue)
    {
      connects := connects + 1;
      registered := true;
      if handleClosed { return; }
      if initOk {
        WsInitCurl();
      } else {
        PushEvent(WsError(-1));
        registered := false;
      }
    }

    method ProcessWsSend(result: int)
      modifies this`events
      ensures View() == SendStep(old(View()), result)
    {
      if !registered { return; }
      if handleClosed || !gear.curl || phase != CONNECTED { return; }
      if result != CURLE_OK && result != CURLE_AGAIN { PushEvent(WsError(result)); }
    }

    method ProcessWsClose()
      modifies this
      ensures View() == CloseStep(old(View())) && queue == old(queue)
    {
      hide Cleanup, StopTimers, PushClosedOnce;
      if !registered || phase == CLOSING || phase == CLOSED { return; }
      if phase == RECONNECTING {
        WsStopTimers();
        FinishClosed();
        return;
      }
      if gear.curl && gear.poll && phase == CONNECTED && !closeSent {
        phase := CLOSING;
        closeSent := true;
        gear := StartClose(gear);
      } else {
        WsCleanup(false);
        PushWsClosedOnce(0);
      }
    }

    method ProcessWsSetPing(interval: nat)
      modifies this`pingInterval, this`gear
      ensures View() == SetPingStep(old(View()), interval)
    {
      if !registered { return; }
      pingInterval := interval;
      if phase == CONNECTED {
        if gear.ping { gear := DropPing(gear); }
        if pingInterval > 0 { gear := StartPing(gear); }
      }
    }

    method ProcessOp(op: Op)
      requires Valid() && (op.OpConnect? ==> connects == 0)
      modifies this
      ensures Valid() && queue == old(queue)
      ensures Enabled(old(View()), op) && View() == Next(old(View()), op)
      ensures connects == old(connects) + if op.OpConnect? then 1 else 0
    {
      hide Inv, ConnectStep, SendStep, CloseStep, SetPingStep;
      StepKeeps(View(), op);
      OpConnects(View(), op);
      match op
      case OpConnect(ok) => ProcessWsConnect(ok);
      case OpSend(result) => ProcessWsSend(result);
      case OpClose => ProcessWsClose();
      case OpSetPing(interval) => ProcessWsSetPing(interval);
    }

    static lemma OpConnects(c: Conn, op: Op)
      ensures Next(c, op).connects == c.connects + if op.OpConnect? then 1 else 0
    {
    }

    /** The loop over the queue: one protocol step for each operation, in order. */
    method OnAsyncWsOp() returns (ghost run: seq<Conn>, ghost acts: seq<Action>)
      requires Valid() && connects + Connects(queue) <= 1
      modifies this
      ensures Valid() && queue == []
      ensures Run(run, acts) && run[0] == old(View()) && run[|acts|] == View() && acts == old(queue)
    {
      hide Inv, Next, Enabled, Run;
      run, acts := [View()], [];
      NoSteps(View());
      while queue != []
        invariant Valid() && connects + Connects(queue) <= 1
        invariant Run(run, acts) && run[0] == old(View()) && run[|acts|] == View()
        invariant acts + queue == old(queue)
        decreases |queue|
      {
        var op := queue[0];
        OneMoreOp(acts, queue);
        queue := queue[1..];
        ProcessOp(op);
        OneStep(run, acts, op);
        run, acts := run + [View()], acts + [op];
      }
    }

    static lemma NoSteps(c: Conn)
      ensures Run([c], [])
    {
    }

    static lemma OneMoreOp(acts: seq<Action>, ops: seq<Op>)
      requires ops != []
      ensures acts + ops == acts + [ops[0]] + ops[1..] && Connects(ops) == (if ops[0].OpConnect? then 1 else 0) + Connects(ops[1..])
    {
    }

    // ---- curl and timers ----

    method OnConnected()
      modifies this`gear, this`phase, this`reconnectCount, this`events
      ensures View() == ConnectedStep(old(View()))
    {
      hide StartPoll, StartPing;
      gear := StartPoll(gear);
      phase := CONNECTED;
      reconnectCount := 0;
      if pingInterval > 0 { gear := StartPing(gear); }
      PushEvent(WsConnected);
    }

    /** The WebSocket part of CheckCompletedJobs. */
    method OnConnectDone(result: int)
      requires Valid() && gear.connecting
      modifies this
      ensures View() == Next(old(View()), CurlDone(result)) && Valid() && queue == old(queue)
    {
      hide Inv, DisconnectOrReconnect, PushClosedOnce, ConnectedStep, DropCurl;
      StepKeeps(View(), CurlDone(result));
      gear := gear.(connecting := false);
      if handleClosed {
        gear := DropCurl(gear);
        FinishClosed();
      } else if result == CURLE_OK {
        OnConnected();
      } else {
        PushEvent(WsError(result));
        gear := DropCurl(gear);
        WsDisconnectOrReconnect(0);
      }
    }

    method OnWsCloseTimeout()
      requires Valid() && gear.close
      modifies this
      ensures View() == Next(old(View()), CloseTimeout) && Valid() && queue == old(queue)
    {
      hide Inv, Cleanup, PushClosedOnce;
      StepKeeps(View(), CloseTimeout);
      gear := DropClose(gear);
      WsCleanup(false);
      PushWsClosedOnce(0);
    }

    method OnWsReconnectTimer(initOk: bool)
      requires Valid() && gear.reconnect
      modifies this
      ensures View() == Next(old(View()), ReconnectTimer(initOk)) && Valid() && queue == old(queue)
    {
      hide Inv, PushClosedOnce, RetryStep, DropReconnect, ConnectStep, SendStep, CloseStep, SetPingStep, CurlDoneStep, PollStartStep, ReadFrameStep, CloseTimeoutStep, InitCurl;
      StepKeeps(View(), ReconnectTimer(initOk));
      gear := DropReconnect(gear);
      if handleClosed {
        FinishClosed();
      } else {
        WsReconnect(initOk);
      }
    }

    method WsReconnect(initOk: bool)
      modifies this`gear, this`phase, this`registered, this`events, this`closePushed
      ensures View() == RetryStep(old(View()), initOk)
    {
      hide PushClosedOnce, InitCurl;
      if initOk {
        WsInitCurl();
      } else {
        PushEvent(WsError(-1));
        FinishClosed();
      }
    }

    // ---- Frames ----

    /** A data frame joins the message under way, which may end it or make it too big. */
    method OnData(chunk: Chunk) returns (done: bool)
      modifies this
      ensures View() == DataStep(old(View()), chunk) && queue == old(queue)
      ensures !done ==> gear == old(gear)
      ensures done ==> !gear.poll
    {
      hide Cleanup, PushClosedOnce, Take;
      var o;
      buffer, o := TakeChunk(buffer, chunk);
      done := false;
      match o
      case Pending =>
      case Delivered(m) => PushEvent(WsMessage(m));
      case TooBig =>
        PushEvent(WsError(1009));
        closeSent := true;
        WsCleanup(false);
        PushWsClosedOnce(0);
        done := true;
    }

    /** One turn of the frame loop; `done` where the code leaves the loop. */
    method OnFrame(frame: Frame) returns (done: bool)
      requires Valid() && gear.curl && gear.poll
      modifies this
      ensures View() == Next(old(View()), ReadFrame(frame)) && Valid() && queue == old(queue)
      ensures !done ==> gear == old(gear)
      ensures done ==> !gear.poll || (frame.DataFrame? && handleClosed)
    {
      hide Inv, DisconnectOrReconnect, DataStep;
      StepKeeps(View(), ReadFrame(frame));
      match frame
      case Gone =>
        WsDisconnectOrReconnect(0);
        done := true;
      case Failed(code) =>
        PushEvent(WsError(code));
        WsDisconnectOrReconnect(0);
        done := true;
      case CloseFrame(code) =>
        closeSent := true;
        WsDisconnectOrReconnect(code);
        done := true;
      case Ping => done := false;
      case Pong(wanted) =>
        if wanted { PushEvent(WsPong); }
        done := false;
      case DataFrame(chunk) =>
        if handleClosed { return true; }
        done := OnData(chunk);
    }

    /** The checks before the frame loop; `done` where the code returns. */
    method OnPollStart(status: int) returns (done: bool)
      requires Valid() && gear.poll
      modifies this
      ensures View() == Next(old(View()), PollStart(status)) && Valid() && queue == old(queue)
      ensures !done ==> gear == old(gear)
      ensures done ==> !gear.poll
    {
      hide Inv, Cleanup, DisconnectOrReconnect, PushClosedOnce;
      StepKeeps(View(), PollStart(status));
      if handleClosed {
        WsCleanup(false);
        PushWsClosedOnce(0);
        return true;
      }
      if status < 0 {
        PushEvent(WsError(status));
        WsDisconnectOrReconnect(0);
        return true;
      }
      return false;
    }

    static lemma PollHasCurl(c: Conn)
      requires Inv(c) && c.gear.poll
      ensures c.gear.curl
    {
    }

    /** The whole callback: frames are read until there are no more or the code leaves the loop, and
        never on a connection that a frame before has torn down. */
    method OnWsPollActivity(status: int, turns: seq<Turn>) returns (read: nat, ghost run: seq<Conn>, ghost acts: seq<Action>)
      requires Valid() && gear.poll
      modifies this
      ensures Valid() && queue == old(queue) && read <= |turns|
      ensures Run(run, acts) && run[0] == old(View()) && run[|acts|] == View()
      ensures acts == [PollStart(status)] + TurnActions(turns, read)
      ensures ReadsAttached(run, acts)
      ensures read < |turns| ==> !gear.poll || (read > 0 && turns[read - 1].frame.DataFrame? && handleClosed)
    {
      hide Inv, Next, ReadsAttached;
      read := 0;
      run, acts := [View()], [];
      OneStep(run, acts, PollStart(status));
      NoReads(run);
      OneRead(run, acts, PollStart(status), Next(View(), PollStart(status)));
      var done := OnPollStart(status);
      run, acts := run + [View()], acts + [PollStart(status)];
      while read < |turns| && !done
        invariant Valid() && queue == old(queue) && read <= |turns| && (!done ==> gear.poll)
        invariant Run(run, acts) && run[0] == old(View()) && run[|acts|] == View()
        invariant acts == [PollStart(status)] + TurnActions(turns, read)
        invariant ReadsAttached(run, acts)
        invariant done ==> !gear.poll || (read > 0 && turns[read - 1].frame.DataFrame? && handleClosed)
        decreases |turns| - read
      {
        done, run, acts := OneTurn(turns, read, status, run, acts);
        read := read + 1;
      }
    }

    /** The game thread's writes between two frames. */
    method GameWrites(writes: seq<Write>, ghost run0: seq<Conn>, ghost acts0: seq<Action>)
      returns (ghost run: seq<Conn>, ghost acts: seq<Action>)
      requires Valid() && Run(run0, acts0) && run0[|acts0|] == View() && ReadsAttached(run0, acts0)
      modifies this`handleClosed, this`pingInterval, this`maxReconnects
      ensures Valid() && Run(run, acts) && run[|acts|] == View() && ReadsAttached(run, acts) && run[0] == run0[0]
      ensures acts == acts0 + writes
    {
      hide Inv, Next, ReadsAttached, Run;
      run, acts := run0, acts0;
      var i := 0;
      while i < |writes|
        invariant 0 <= i <= |writes| && Valid()
        invariant Run(run, acts) && run[|acts|] == View() && ReadsAttached(run, acts) && run[0] == run0[0]
        invariant acts == acts0 + writes[..i]
        decreases |writes| - i
      {
        OneStep(run, acts, writes[i]);
        OneRead(run, acts, writes[i], Next(View(), writes[i]));
        GameWrite(writes[i]);
        run, acts := run + [View()], acts + [writes[i]];
        i := i + 1;
      }
    }

    /** One turn: the game thread's writes, then a frame is read with the handles in place. */
    method OneTurn(turns: seq<Turn>, n: nat, ghost status: int, ghost run0: seq<Conn>, ghost acts0: seq<Action>)
      returns (done: bool, ghost run: seq<Conn>, ghost acts: seq<Action>)
      requires Valid() && gear.poll && n < |turns|
      requires Run(run0, acts0) && run0[|acts0|] == View() && ReadsAttached(run0, acts0)
      requires acts0 == [PollStart(status)] + TurnActions(turns, n)
      modifies this
      ensures Valid() && queue == old(queue) && (!done ==> gear.poll)
      ensures Run(run, acts) && run[|acts|] == View() && ReadsAttached(run, acts) && run[0] == run0[0]
      ensures acts == [PollStart(status)] + TurnActions(turns, n + 1)
      ensures done ==> !gear.poll || (turns[n].frame.DataFrame? && handleClosed)
    {
      hide Inv, Next, ReadsAttached, Run;
      MoreTurns(turns, n, acts0, status);
      var frame := turns[n].frame;
      run, acts := GameWrites(turns[n].writes, run0, acts0);
      PollHasCurl(View());
      OneStep(run, acts, ReadFrame(frame));
      OneRead(run, acts, ReadFrame(frame), Next(View(), ReadFrame(frame)));
      done := OnFrame(frame);
      run, acts := run + [View()], acts + [ReadFrame(frame)];
    }

    static lemma MoreTurns(turns: seq<Turn>, n: nat, acts: seq<Action>, status: int)
      requires n < |turns| && acts == [PollStart(status)] + TurnActions(turns, n)
      ensures acts + turns[n].writes + [ReadFrame(turns[n].frame)] == [PollStart(status)] + TurnActions(turns, n + 1)
    {
    }

    static lemma NoReads(run: seq<Conn>)
      requires |run| == 1
      ensures ReadsAttached(run, [])
    {
    }
  }
}
