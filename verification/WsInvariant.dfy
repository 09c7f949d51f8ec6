/** Every step of a WebSocket connection keeps the invariant. */
module WsInvariant {
  import opened WsReassembly
  import opened WsProtocol

  lemma EventsOf(events: seq<Event>, e: Event)
    ensures Closes(events + [e]) == Closes(events) + if e.WsClosed? then 1 else 0
    ensures MessagesIn(events + [e]) == MessagesIn(events) + if e.WsMessage? then [e.message] else []
  {
    assert (events + [e])[..|events|] == events;
  }

  lemma CreatedInv()
    ensures Inv(Created())
  {
    hide Closes, Balanced, Fitted;
    NoEvents();
    UnusedFits(NoGear);
  }

  lemma UnusedFits(g: Gear)
    requires Unused(g) && g.made == g.closed
    ensures Balanced(g) && Fitted(CREATED, g)
  {
  }

  lemma NoEvents()
    ensures Closes([]) == 0 && MessagesIn([]) == []
  {
  }

  /** Dropping everything leaves nothing in use and the tallies even. */
  lemma DropAllBalances(g: Gear)
    requires Balanced(g) && (g.connecting ==> g.curl)
    ensures Balanced(DropAll(g)) && Unused(DropAll(g))
  {
  }

  lemma StopTimersBalances(g: Gear)
    requires Balanced(g)
    ensures var r := StopTimers(g);
            Balanced(r) && !r.ping && !r.close && !r.reconnect && r.curl == g.curl && r.connecting == g.connecting && r.poll == g.poll
  {
  }

  /** A connection that is still open, apart from what its phase says. */
  predicate Open(c: Conn) {
    && !c.closePushed && Closes(c.events) == 0 && c.connects > 0
    && Balanced(c.gear) && (c.gear.connecting ==> c.gear.curl)
  }

  lemma StaysOpen(c: Conn, e: Event)
    requires Open(c) && !e.WsClosed?
    ensures Open(Push(c, e))
  {
    EventsOf(c.events, e);
  }

  /** The close event ends a connection that nothing refers to any more. */
  lemma CloseForGood(c: Conn, code: int)
    requires Open(c) && Detached(c) && c.phase == CLOSED
    ensures Inv(PushClosedOnce(c, code))
  {
    EventsOf(c.events, WsClosed(code));
  }

  lemma CleanupCloses(c: Conn, code: int)
    requires Open(c)
    ensures Inv(PushClosedOnce(Cleanup(c, false), code))
  {
    hide DropAll, Balanced, Closes, PushClosedOnce;
    DropAllBalances(c.gear);
    CloseForGood(Cleanup(c, false), code);
  }

  lemma ReconnectingKeeps(c: Conn)
    requires Open(c) && c.registered && ShouldReconnect(c)
    ensures Inv(StartReconnecting(c))
  {
    hide DropAll, Closes;
    DropAllBalances(c.gear);
  }

  lemma DisconnectKeeps(c: Conn, code: int)
    requires Open(c) && c.registered
    ensures Inv(DisconnectOrReconnect(c, code))
  {
    hide PushClosedOnce, Cleanup, StartReconnecting, Inv, Open, ShouldReconnect;
    if ShouldReconnect(c) {
      ReconnectingKeeps(c);
    } else {
      CleanupCloses(c, code);
    }
  }

  lemma InvOpen(c: Conn)
    requires Inv(c) && c.registered && c.connects > 0
    ensures Open(c)
  {
    hide Balanced, Closes;
  }

  lemma ConnectKeeps(c: Conn, ok: bool)
    requires Inv(c) && c.connects == 0
    ensures Inv(ConnectStep(c, ok))
  {
    hide Closes;
    EventsOf(c.events, WsError(-1));
  }

  lemma SendKeeps(c: Conn, result: int)
    requires Inv(c)
    ensures Inv(SendStep(c, result))
  {
    hide Closes, Balanced, Fitted;
    EventsOf(c.events, WsError(result));
  }

  lemma CloseKeeps(c: Conn)
    requires Inv(c)
    ensures Inv(CloseStep(c))
  {
    hide PushClosedOnce, Cleanup, Closes, StopTimers;
    if c.registered && c.phase != CLOSING && c.phase != CLOSED {
      InvOpen(c);
      CleanupCloses(c, 0);
      if c.phase == RECONNECTING {
        StopTimersBalances(c.gear);
        CloseForGood(c.(gear := StopTimers(c.gear), phase := CLOSED, registered := false), 0);
      }
    }
  }

  lemma CurlDoneKeeps(c: Conn, result: int)
    requires Inv(c) && c.gear.connecting
    ensures Inv(CurlDoneStep(c, result))
  {
    hide PushClosedOnce, Closes, DisconnectOrReconnect, ConnectedStep, MessagesIn;
    var c1 := c.(gear := c.gear.(connecting := false));
    if c.handleClosed {
      CloseForGood(c1.(gear := DropCurl(c1.gear), phase := CLOSED, registered := false), 0);
    } else if result == 0 {
      ConnectedKeeps(c);
    } else {
      EventsOf(c.events, WsError(result));
      DisconnectKeeps(Push(c1, WsError(result)).(gear := DropCurl(c1.gear)), 0);
    }
  }

  lemma ConnectedKeeps(c: Conn)
    requires Inv(c) && c.gear.connecting
    ensures Inv(ConnectedStep(c.(gear := c.gear.(connecting := false))))
  {
    hide Closes, MessagesIn;
    EventsOf(c.events, WsConnected);
  }

  lemma DataKeeps(c: Conn, chunk: Chunk)
    requires Inv(c) && c.gear.poll
    ensures Inv(DataStep(c, chunk))
  {
    hide PushClosedOnce, Closes, MessagesIn, Take, Cleanup, Balanced, Fitted;
    InvPoll(c);
    var (b, o) := Take(c.buffer, chunk);
    match o
    case Pending =>
    case Delivered(m) => EventsOf(c.events, WsMessage(m));
    case TooBig =>
      StaysOpen(c.(buffer := b), WsError(1009));
      CleanupCloses(Push(c.(buffer := b), WsError(1009)).(closeSent := true), 0);
  }

  lemma InvPoll(c: Conn)
    requires Inv(c) && (c.gear.poll || c.gear.curl || c.gear.reconnect || c.gear.close)
    ensures Open(c) && c.registered
  {
    hide Closes, Balanced;
  }

  lemma ReadFrameKeeps(c: Conn, f: Frame)
    requires Inv(c) && c.gear.poll
    ensures Inv(ReadFrameStep(c, f))
  {
    hide DisconnectOrReconnect, DataStep, Closes, MessagesIn, Balanced, Fitted;
    InvPoll(c);
    match f
    case Gone => DisconnectKeeps(c, 0);
    case Failed(code) =>
      StaysOpen(c, WsError(code));
      DisconnectKeeps(Push(c, WsError(code)), 0);
    case CloseFrame(code) => DisconnectKeeps(c.(closeSent := true), code);
    case Ping =>
    case Pong(_) => EventsOf(c.events, WsPong);
    case DataFrame(chunk) => DataKeeps(c, chunk);
  }

  lemma SetPingKeeps(c: Conn, interval: nat)
    requires Inv(c)
    ensures Inv(SetPingStep(c, interval))
  {
    hide Closes;
  }

  lemma PollStartKeeps(c: Conn, status: int)
    requires Inv(c) && c.gear.poll
    ensures Inv(PollStartStep(c, status))
  {
    hide PushClosedOnce, Cleanup, DisconnectOrReconnect, Inv, Open;
    InvPoll(c);
    CleanupCloses(c, 0);
    StaysOpen(c, WsError(status));
    DisconnectKeeps(Push(c, WsError(status)), 0);
  }

  lemma CloseTimeoutKeeps(c: Conn)
    requires Inv(c) && c.gear.close
    ensures Inv(CloseTimeoutStep(c))
  {
    hide PushClosedOnce, Cleanup, Closes;
    InvPoll(c);
    CleanupCloses(c.(gear := DropClose(c.gear)), 0);
  }

  lemma ReconnectKeeps(c: Conn, ok: bool)
    requires Inv(c) && c.gear.reconnect
    ensures Inv(ReconnectStep(c, ok))
  {
    hide PushClosedOnce, Closes, MessagesIn;
    var c1 := c.(gear := DropReconnect(c.gear));
    EventsOf(c.events, WsError(-1));
    if c.handleClosed {
      CloseForGood(c1.(phase := CLOSED, registered := false), 0);
    } else if !ok {
      CloseForGood(Push(c1, WsError(-1)).(phase := CLOSED, registered := false), 0);
    }
  }

  lemma StepKeeps(c: Conn, a: Action)
    requires Inv(c) && Enabled(c, a)
    ensures Inv(Next(c, a))
  {
    hide ConnectStep, SendStep, CloseStep, SetPingStep, CurlDoneStep, PollStartStep, ReadFrameStep, CloseTimeoutStep, ReconnectStep,
         Closes, Balanced, Fitted;
    match a
    case OpConnect(ok) => ConnectKeeps(c, ok);
    case OpSend(result) => SendKeeps(c, result);
    case OpClose => CloseKeeps(c);
    case OpSetPing(interval) => SetPingKeeps(c, interval);
    case CurlDone(result) => CurlDoneKeeps(c, result);
    case PollStart(status) => PollStartKeeps(c, status);
    case ReadFrame(f) => ReadFrameKeeps(c, f);
    case CloseTimeout => CloseTimeoutKeeps(c);
    case ReconnectTimer(ok) => ReconnectKeeps(c, ok);
    case _ =>
  }
}
