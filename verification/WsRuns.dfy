/** What holds over every run of a WebSocket connection. */
module WsRuns {
  import opened WsReassembly
  import opened WsProtocol
  import opened WsInvariant
  import opened WsEffects

  /** Any sequence of callbacks and calls that can come. */
  ghost predicate Run(run: seq<Conn>, acts: seq<Action>): (b: bool)
    ensures b ==> |run| == |acts| + 1
  {
    |run| == |acts| + 1 && forall i :: 0 <= i < |acts| ==> Enabled(run[i], acts[i]) && run[i + 1] == Next(run[i], acts[i])
  }

  ghost predicate FullRun(run: seq<Conn>, acts: seq<Action>): (b: bool)
    ensures b ==> |run| == |acts| + 1
  {
    Run(run, acts) && run[0] == Created()
  }

  lemma {:induction false} RunKeeps(run: seq<Conn>, acts: seq<Action>, i: nat)
    requires FullRun(run, acts) && i < |run|
    ensures Inv(run[i])
  {
    hide Inv, Next, Enabled;
    if i == 0 {
      CreatedInv();
    } else {
      RunKeeps(run, acts, i - 1);
      assert run[i] == Next(run[i - 1], acts[i - 1]);
      StepKeeps(run[i - 1], acts[i - 1]);
    }
  }

  // ---- Closing ----

  /** Every run queues at most one close event, and once it is queued the connection is out of
      ws_connections_ and no poll handle, curl handle or timer refers to it; then no callback that
      would use the connection can come any more. */
  lemma ClosedAtMostOnce(run: seq<Conn>, acts: seq<Action>, i: nat)
    requires FullRun(run, acts) && i < |run|
    ensures Closes(run[i].events) <= 1
    ensures Closes(run[i].events) == 1 ==> Detached(run[i])
    ensures Closes(run[i].events) == 1 && i < |acts| ==>
              acts[i].MarkClosed? || acts[i].SetPing? || acts[i].SetReconnect? || acts[i].OpSend? || acts[i].OpClose? || acts[i].OpSetPing?
  {
    hide Closes, Next, Balanced;
    RunKeeps(run, acts, i);
  }

  /** After the close event nothing but the three fields the game thread writes can change. */
  lemma ClosedIsFinal(c: Conn, a: Action)
    requires Inv(c) && c.closePushed && Enabled(c, a)
    ensures var d := Next(c, a);
            d == c.(handleClosed := d.handleClosed, pingInterval := d.pingInterval, maxReconnects := d.maxReconnects)
  {
    hide Closes, Balanced;
  }

  // ---- Handles and timers ----

  /** In every state of every run, of the curl handles, poll handles and timers of each kind made so
      far all have been given back but the one in use, if there is one; after the close event, all. */
  lemma NothingLeaked(run: seq<Conn>, acts: seq<Action>, i: nat)
    requires FullRun(run, acts) && i < |run|
    ensures var g := run[i].gear;
            && g.made.curl - g.closed.curl == (if g.curl then 1 else 0) && g.made.poll - g.closed.poll == (if g.poll then 1 else 0)
            && g.made.ping - g.closed.ping == (if g.ping then 1 else 0) && g.made.close - g.closed.close == (if g.close then 1 else 0)
            && g.made.reconnect - g.closed.reconnect == (if g.reconnect then 1 else 0)
            && (Closes(run[i].events) == 1 ==> g.made == g.closed)
  {
    hide Closes, Next, Fitted;
    RunKeeps(run, acts, i);
  }

  // ---- Reconnects ----

  /** The reconnects begun since the connection last stood. */
  ghost function Begun(run: seq<Conn>, i: nat): nat
    requires i < |run|
  {
    if i == 0 then 0
    else if StartsOver(run[i - 1], run[i]) then Begun(run, i - 1) + 1
    else if Stands(run[i - 1], run[i]) then 0
    else Begun(run, i - 1)
  }

  lemma {:induction false} CountIsBegun(run: seq<Conn>, acts: seq<Action>, i: nat)
    requires FullRun(run, acts) && i < |run|
    ensures run[i].reconnectCount == Begun(run, i)
  {
    hide Inv, Next, Enabled;
    if i > 0 {
      CountIsBegun(run, acts, i - 1);
      RunKeeps(run, acts, i - 1);
      assert Enabled(run[i - 1], acts[i - 1]) && run[i] == Next(run[i - 1], acts[i - 1]);
      StepEffect(run[i - 1], acts[i - 1]);
    }
  }

  /** Over every run, whenever a reconnect begins, the limit in force then is not zero and, unless it is
      negative, not less than the reconnects begun since the connection last stood, this one included. */
  lemma ReconnectsAreBounded(run: seq<Conn>, acts: seq<Action>, i: nat)
    requires FullRun(run, acts) && i < |acts| && StartsOver(run[i], run[i + 1])
    ensures run[i].maxReconnects != 0 && (run[i].maxReconnects > 0 ==> Begun(run, i + 1) <= run[i].maxReconnects)
  {
    hide Inv, Next;
    RunKeeps(run, acts, i);
    CountIsBegun(run, acts, i);
    assert Enabled(run[i], acts[i]) && run[i + 1] == Next(run[i], acts[i]);
    StepEffect(run[i], acts[i]);
  }

  /** So while the game thread sets no limit outside 0 to most, there are never more than that many. */
  lemma {:induction false} NeverMoreThanSet(run: seq<Conn>, acts: seq<Action>, most: nat, i: nat)
    requires FullRun(run, acts) && i < |run|
    requires forall k :: 0 <= k < i && acts[k].SetReconnect? ==> 0 <= acts[k].limit <= most
    ensures Begun(run, i) <= most && 0 <= run[i].maxReconnects <= most
  {
    hide Inv, Next, Enabled;
    if i > 0 {
      NeverMoreThanSet(run, acts, most, i - 1);
      RunKeeps(run, acts, i - 1);
      assert Enabled(run[i - 1], acts[i - 1]) && run[i] == Next(run[i - 1], acts[i - 1]);
      StepEffect(run[i - 1], acts[i - 1]);
      if StartsOver(run[i - 1], run[i]) {
        ReconnectsAreBounded(run, acts, i - 1);
      }
    }
  }

  // ---- The ping timer ----

  /** The interval the event thread last applied: the one it found when the connection came to stand, or
      a later one it took from the queue. */
  ghost function Applied(run: seq<Conn>, acts: seq<Action>, i: nat): nat
    requires i <= |acts| < |run|
  {
    if i == 0 then 0
    else if Stands(run[i - 1], run[i]) then run[i - 1].pingInterval
    else if Restarts(run[i - 1], acts[i - 1]) then acts[i - 1].interval
    else Applied(run, acts, i - 1)
  }

  /** Over every run, while the connection stands there is a ping timer exactly when that is positive,
      however often it was restarted. */
  lemma {:induction false} PingFollowsInterval(run: seq<Conn>, acts: seq<Action>, i: nat)
    requires FullRun(run, acts) && i <= |acts| && run[i].phase == CONNECTED
    ensures run[i].gear.ping <==> Applied(run, acts, i) > 0
  {
    hide Inv, Next, Enabled;
    if i > 0 {
      RunKeeps(run, acts, i - 1);
      assert Enabled(run[i - 1], acts[i - 1]) && run[i] == Next(run[i - 1], acts[i - 1]);
      StepPing(run[i - 1], acts[i - 1]);
      if !Stands(run[i - 1], run[i]) {
        PingFollowsInterval(run, acts, i - 1);
      }
    }
  }
}
