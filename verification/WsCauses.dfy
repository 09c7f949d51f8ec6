/** Over every run of a WebSocket connection, what each step tells the game thread and where it leads. */
module WsCauses {
  import opened WsReassembly
  import opened WsProtocol
  import opened WsInvariant
  import opened WsEffects
  import opened WsRuns

  /** A connection that goes down tries again: it is not marked closed, no close handshake is under way,
      and as often as it tried since it last stood is under its limit; a negative limit is none. */
  predicate TriesAgain(c: Conn, begun: nat) {
    !c.handleClosed && c.phase != CLOSING && c.maxReconnects != 0 && (c.maxReconnects < 0 || begun < c.maxReconnects)
  }

  function DownPhase(c: Conn, begun: nat): Phase {
    if TriesAgain(c, begun) then RECONNECTING else CLOSED
  }

  /** The close event of a connection that goes down for good. */
  function DownSays(c: Conn, begun: nat, code: int): seq<Event> {
    if TriesAgain(c, begun) then [] else [WsClosed(code)]
  }

  /** What a step queues for the game thread. */
  function Says(c: Conn, begun: nat, a: Action): seq<Event> {
    match a
    case OpConnect(ok) => if c.handleClosed || ok then [] else [WsError(-1)]
    case OpSend(result) => if c.phase == CONNECTED && !c.handleClosed && result != 0 && result != 81 then [WsError(result)] else []
    case OpClose => if c.registered && c.phase != CONNECTED && c.phase != CLOSING then [WsClosed(0)] else []
    case CurlDone(result) =>
      if c.handleClosed then [WsClosed(0)]
      else if result == 0 then [WsConnected]
      else [WsError(result)] + DownSays(c, begun, 0)
    case PollStart(status) =>
      if c.handleClosed then [WsClosed(0)] else if status < 0 then [WsError(status)] + DownSays(c, begun, 0) else []
    case ReadFrame(frame) => FrameSays(c, begun, frame)
    case CloseTimeout => [WsClosed(0)]
    case ReconnectTimer(ok) => if c.handleClosed then [WsClosed(0)] else if ok then [] else [WsError(-1), WsClosed(0)]
    case _ => []
  }

  function FrameSays(c: Conn, begun: nat, f: Frame): seq<Event> {
    match f
    case Gone => DownSays(c, begun, 0)
    case Failed(code) => [WsError(code)] + DownSays(c, begun, 0)
    case CloseFrame(code) => DownSays(c, begun, code)
    case Ping => []
    case Pong(wanted) => if wanted then [WsPong] else []
    case DataFrame(chunk) =>
      if c.handleClosed then []
      else match Take(c.buffer, chunk).1
           case Pending => []
           case Delivered(m) => [WsMessage(m)]
           case TooBig => [WsError(1009), WsClosed(0)]
  }

  /** The phase a step leads to. */
  function Leads(c: Conn, begun: nat, a: Action): Phase {
    match a
    case OpConnect(ok) => if !c.handleClosed && ok then CONNECTING else CREATED
    case OpClose => if !c.registered || c.phase == CLOSING then c.phase else if c.phase == CONNECTED then CLOSING else CLOSED
    case CurlDone(result) => if c.handleClosed then CLOSED else if result == 0 then CONNECTED else DownPhase(c, begun)
    case PollStart(status) => if c.handleClosed then CLOSED else if status < 0 then DownPhase(c, begun) else c.phase
    case ReadFrame(frame) =>
      if frame.Gone? || frame.Failed? || frame.CloseFrame? then DownPhase(c, begun)
      else if frame.DataFrame? && !c.handleClosed && Take(c.buffer, frame.chunk).1.TooBig? then CLOSED
      else c.phase
    case CloseTimeout => CLOSED
    case ReconnectTimer(ok) => if c.handleClosed || !ok then CLOSED else CONNECTING
    case _ => c.phase
  }

  /** What the game thread has set, and whether the event thread still knows the connection. */
  predicate Settings(c: Conn, a: Action, d: Conn) {
    && d.handleClosed == (c.handleClosed || a.MarkClosed?)
    && d.maxReconnects == (if a.SetReconnect? then a.limit else c.maxReconnects)
    && d.pingInterval == (if a.SetPing? || (a.OpSetPing? && c.registered) then a.interval else c.pingInterval)
    && d.registered == (if a.OpConnect? then c.handleClosed || a.initOk else c.registered && d.phase != CLOSED)
  }

  ghost predicate Told(c: Conn, begun: nat, a: Action, d: Conn) {
    d.events == c.events + Says(c, begun, a) && d.phase == Leads(c, begun, a) && Settings(c, a, d)
  }

  /** Nobody closed twice: a standing connection has sent no close frame. */
  predicate Unsent(c: Conn) {
    c.phase != CLOSED && c.phase != CLOSING ==> !c.closeSent
  }

  /** A connection goes down, after the events it has queued. */
  lemma DisconnectTold(c: Conn, begun: nat, code: int)
    requires !c.closePushed && c.reconnectCount == begun && c.registered
    ensures var d := DisconnectOrReconnect(c, code);
            && d.events == c.events + DownSays(c, begun, code) && d.phase == DownPhase(c, begun)
            && d.handleClosed == c.handleClosed && d.maxReconnects == c.maxReconnects && d.pingInterval == c.pingInterval
            && d.registered == (d.phase != CLOSED) && Unsent(d)
  {
    hide DropAll;
  }

  lemma CloseTold(c: Conn, code: int)
    requires !c.closePushed
    ensures var d := PushClosedOnce(Cleanup(c, false), code);
            && d.events == c.events + [WsClosed(code)] && d.phase == CLOSED && !d.registered
            && d.handleClosed == c.handleClosed && d.maxReconnects == c.maxReconnects && d.pingInterval == c.pingInterval
  {
    hide DropAll;
  }

  lemma CurlDoneTold(c: Conn, begun: nat, result: int)
    requires Inv(c) && c.gear.connecting && c.reconnectCount == begun && Unsent(c)
    ensures var d := CurlDoneStep(c, result); Told(c, begun, CurlDone(result), d) && Unsent(d)
  {
    hide DisconnectOrReconnect, Closes, Balanced;
    var c1 := c.(gear := c.gear.(connecting := false));
    DisconnectTold(Push(c1, WsError(result)).(gear := DropCurl(c1.gear)), begun, 0);
  }

  lemma PollStartTold(c: Conn, begun: nat, status: int)
    requires Inv(c) && c.gear.poll && c.reconnectCount == begun && Unsent(c)
    ensures var d := PollStartStep(c, status); Told(c, begun, PollStart(status), d) && Unsent(d)
  {
    hide DisconnectOrReconnect, Closes, Balanced, PushClosedOnce, Cleanup;
    CloseTold(c, 0);
    DisconnectTold(Push(c, WsError(status)), begun, 0);
  }

  lemma FrameTold(c: Conn, begun: nat, f: Frame)
    requires Inv(c) && c.gear.poll && c.reconnectCount == begun && Unsent(c)
    ensures var d := ReadFrameStep(c, f); Told(c, begun, ReadFrame(f), d) && Unsent(d)
  {
    hide DisconnectOrReconnect, Closes, Balanced, PushClosedOnce, Cleanup, Take;
    match f
    case Gone => DisconnectTold(c, begun, 0);
    case Failed(code) => DisconnectTold(Push(c, WsError(code)), begun, 0);
    case CloseFrame(code) => DisconnectTold(c.(closeSent := true), begun, code);
    case DataFrame(chunk) => CloseTold(Push(c.(buffer := Take(c.buffer, chunk).0), WsError(1009)).(closeSent := true), 0);
    case _ =>
  }

  lemma CloseOpTold(c: Conn, begun: nat)
    requires Inv(c) && Unsent(c)
    ensures var d := CloseStep(c); Told(c, begun, OpClose, d) && Unsent(d)
  {
    hide Closes, Balanced, Cleanup, StopTimers;
    if c.registered && c.phase != CLOSED { CloseTold(c, 0); }
  }

  lemma TimerTold(c: Conn, begun: nat, a: Action)
    requires Inv(c) && Enabled(c, a) && Unsent(c) && (a.CloseTimeout? || a.ReconnectTimer?)
    ensures var d := Next(c, a); Told(c, begun, a, d) && Unsent(d)
  {
    hide Closes, Balanced, Cleanup;
    CloseTold(c.(gear := DropClose(c.gear)), 0);
  }

  lemma OtherTold(c: Conn, begun: nat, a: Action)
    requires Inv(c) && Enabled(c, a) && Unsent(c) && !a.CurlDone? && !a.PollStart? && !a.ReadFrame? && !a.OpClose? && !a.CloseTimeout? && !a.ReconnectTimer?
    ensures var d := Next(c, a); Told(c, begun, a, d) && Unsent(d)
  {
    hide Closes, Balanced;
  }

  lemma StepTold(c: Conn, begun: nat, a: Action)
    requires Inv(c) && Enabled(c, a) && Unsent(c) && c.reconnectCount == begun
    ensures var d := Next(c, a); Told(c, begun, a, d) && Unsent(d)
  {
    hide Inv, Told, Unsent, CloseStep, CurlDoneStep, PollStartStep, ReadFrameStep, CloseTimeoutStep, ReconnectStep;
    match a
    case CurlDone(result) => CurlDoneTold(c, begun, result);
    case PollStart(status) => PollStartTold(c, begun, status);
    case ReadFrame(f) => FrameTold(c, begun, f);
    case OpClose => CloseOpTold(c, begun);
    case CloseTimeout => TimerTold(c, begun, a);
    case ReconnectTimer(_) => TimerTold(c, begun, a);
    case _ => OtherTold(c, begun, a);
  }

  // ---- Over every run ----

  lemma {:induction false} AlwaysUnsent(run: seq<Conn>, acts: seq<Action>, i: nat)
    requires FullRun(run, acts) && i < |run|
    ensures Unsent(run[i])
  {
    hide Inv, Next, Enabled, Told;
    if i > 0 {
      AlwaysUnsent(run, acts, i - 1);
      RunKeeps(run, acts, i - 1);
      assert Enabled(run[i - 1], acts[i - 1]) && run[i] == Next(run[i - 1], acts[i - 1]);
      StepTold(run[i - 1], run[i - 1].reconnectCount, acts[i - 1]);
    }
  }

  /** Over every run each step queues exactly what `Says` says, leads where `Leads` says, and keeps the
      settings, by the fields of the connection and the reconnects counted from the run. */
  lemma TellsExactly(run: seq<Conn>, acts: seq<Action>, i: nat)
    requires FullRun(run, acts) && i < |acts|
    ensures Told(run[i], Begun(run, i), acts[i], run[i + 1])
  {
    hide Inv, Next, Enabled, Told, Unsent;
    AlwaysUnsent(run, acts, i);
    RunKeeps(run, acts, i);
    CountIsBegun(run, acts, i);
    assert Enabled(run[i], acts[i]) && run[i + 1] == Next(run[i], acts[i]);
    StepTold(run[i], Begun(run, i), acts[i]);
  }

  /** The events a step adds. */
  ghost function Added(run: seq<Conn>, i: nat): seq<Event>
    requires i + 1 < |run| && |run[i].events| <= |run[i + 1].events|
  {
    run[i + 1].events[|run[i].events|..]
  }

  /** Over every run a connection comes to stand, and says so, exactly when curl reports success and the
      handle is not closed; a failure is reported with curl's code and takes the connection down. */
  lemma StandsExactly(run: seq<Conn>, acts: seq<Action>, i: nat)
    requires FullRun(run, acts) && i < |acts|
    ensures |run[i].events| <= |run[i + 1].events|
    ensures Stands(run[i], run[i + 1]) <==> acts[i] == CurlDone(0) && !run[i].handleClosed
    ensures WsConnected in Added(run, i) <==> acts[i] == CurlDone(0) && !run[i].handleClosed
    ensures acts[i].CurlDone? && acts[i].result != 0 && !run[i].handleClosed ==>
              WsError(acts[i].result) in Added(run, i) && run[i + 1].phase in {CLOSED, RECONNECTING}
  {
    hide Inv, Next, Take;
    TellsExactly(run, acts, i);
    RunKeeps(run, acts, i);
    assert Enabled(run[i], acts[i]);
    AddedIs(run, acts, i);
    ConnectingIs(run[i]);
  }

  lemma AddedIs(run: seq<Conn>, acts: seq<Action>, i: nat)
    requires i < |acts| < |run| && Told(run[i], Begun(run, i), acts[i], run[i + 1])
    ensures |run[i].events| <= |run[i + 1].events| && Added(run, i) == Says(run[i], Begun(run, i), acts[i])
  {
    hide Says, Leads, Settings;
  }

  lemma ConnectingIs(c: Conn)
    requires Inv(c)
    ensures c.gear.connecting <==> c.phase == CONNECTING
    ensures c.gear.poll <==> c.phase == CONNECTED || c.phase == CLOSING
  {
    hide Closes, Balanced;
  }

  /** What can make a step report an error. */
  predicate FailsWith(c: Conn, a: Action, code: int) {
    match a
    case OpConnect(ok) => !ok && code == -1
    case OpSend(result) => c.phase == CONNECTED && code == result && result != 0 && result != 81
    case CurlDone(result) => code == result && result != 0
    case PollStart(status) => code == status && status < 0
    case ReadFrame(f) => f == Failed(code) || (f.DataFrame? && Take(c.buffer, f.chunk).1.TooBig? && code == 1009)
    case ReconnectTimer(ok) => !ok && code == -1
    case _ => false
  }

  /** Over every run an error is reported exactly when something failed with its code, and, except for
      a failing read, the handle was not closed. */
  lemma ErrsExactly(run: seq<Conn>, acts: seq<Action>, i: nat, code: int)
    requires FullRun(run, acts) && i < |acts|
    ensures |run[i].events| <= |run[i + 1].events|
    ensures WsError(code) in Added(run, i) <==>
              FailsWith(run[i], acts[i], code) && (!run[i].handleClosed || (acts[i].ReadFrame? && acts[i].frame.Failed?))
  {
    hide Inv, Next, Take;
    TellsExactly(run, acts, i);
    AddedIs(run, acts, i);
  }

  /** The code a close event carries: the one of the frame that closed the connection, or 0. */
  function CloseCode(a: Action): int {
    if a.ReadFrame? && a.frame.CloseFrame? then a.frame.code else 0
  }

  /** Over every run a close event is queued exactly by the step that closes the connection, with that code. */
  lemma ClosesExactly(run: seq<Conn>, acts: seq<Action>, i: nat, code: int)
    requires FullRun(run, acts) && i < |acts|
    ensures |run[i].events| <= |run[i + 1].events|
    ensures WsClosed(code) in Added(run, i) <==> run[i].phase != CLOSED && run[i + 1].phase == CLOSED && code == CloseCode(acts[i])
  {
    hide Inv, Next, Take;
    TellsExactly(run, acts, i);
    RunKeeps(run, acts, i);
    assert Enabled(run[i], acts[i]);
    AddedIs(run, acts, i);
    ConnectingIs(run[i]);
    GearIs(run[i]);
  }

  lemma GearIs(c: Conn)
    requires Inv(c)
    ensures (c.gear.close <==> c.phase == CLOSING) && (c.gear.reconnect <==> c.phase == RECONNECTING)
    ensures (c.connects == 0 ==> c.phase == CREATED) && (c.phase == CLOSED ==> !c.registered)
  {
    hide Closes, Balanced;
  }
}
