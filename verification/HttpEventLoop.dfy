/** The callbacks of the event loop and the game thread's calls as the code runs them, each proved to
    be the protocol's steps in order. */
module HttpEventLoop {
  import opened HttpProtocol
  import opened HttpInvariant
  import opened HttpRuns

  /** What no field of the program holds: where the game thread is in a call, and the history. */
  datatype Log = Log(
    created: set<Id>, delivering: set<Id>, closing: seq<Id>, pushes: map<Id, nat>, attempts: map<Id, nat>, popped: set<Id>)

  /** The callbacks of some requests, one after the other. */
  function Deliveries(rs: seq<Id>): seq<Action> {
    if rs == [] then [] else [BeginDelivery, EndDelivery(rs[0])] + Deliveries(rs[1..])
  }

  lemma OneDelivery(acts: seq<Action>, rs: seq<Id>)
    requires rs != []
    ensures acts + Deliveries(rs) == acts + [BeginDelivery] + [EndDelivery(rs[0])] + Deliveries(rs[1..])
  {
  }

  class EventLoop {
    var reqs: map<Id, Req>
    var pending: seq<Id>
    var cancel: seq<Id>
    var done: seq<Id>
    var drained: seq<Id>
    var active: set<Id>
    var curl: set<Id>
    var timers: multiset<Id>
    var statsActive: int
    var statsPending: int
    var statsCompleted: int
    ghost var log: Log

    ghost function View(): State
      reads this
    {
      State(reqs, log.created, pending, cancel, done, drained, log.delivering, log.closing, active, curl, timers,
            statsActive, statsPending, statsCompleted, log.pushes, log.attempts, log.popped)
    }

    constructor ()
      ensures View() == Initial && Inv(View())
    {
      reqs, pending, cancel, done, drained := map[], [], [], [], [];
      active, curl, timers := {}, {}, multiset{};
      statsActive, statsPending, statsCompleted := 0, 0, 0;
      log := Log({}, {}, [], map[], map[], {});
      new;
      InitialInv();
    }

    // ---- Event thread ----

    method FinishRequest(r: Id)
      requires r in reqs
      modifies this
      ensures View() == Complete(old(View()), r)
    {
      reqs := reqs[r := reqs[r].(completed := true, inRetryWait := false)];
      statsCompleted := statsCompleted + 1;
      active := active - {r};
      done := done + [r];
      log := log.(pushes := log.pushes[r := Get(log.pushes, r) + 1]);
    }

    method ProcessCurlJob(r: Id)
      modifies this
      ensures View() == ToCurl(old(View()), r)
    {
      statsActive := statsActive + 1;
      curl := curl + {r};
      log := log.(attempts := log.attempts[r := Get(log.attempts, r) + 1]);
    }

    method RemoveFromCurl(r: Id)
      modifies this
      ensures View() == FromCurl(old(View()), r)
    {
      curl := curl - {r};
      statsActive := statsActive - 1;
    }

    /** One pending request: a closed one is finished unsent, any other goes to curl. */
    method AddOne()
      requires pending != [] && pending[0] in reqs
      modifies this
      ensures View() == AddPendingStep(old(View()))
    {
      hide Complete, ToCurl;
      var r := pending[0];
      pending := pending[1..];
      statsPending := statsPending - 1;
      active := active + {r};
      if reqs[r].handleClosed {
        FinishRequest(r);
      } else {
        ProcessCurlJob(r);
      }
    }

    method OnAsyncAdd() returns (ghost run: seq<State>, ghost acts: seq<Action>)
      requires Inv(View())
      modifies this
      ensures Run(run, acts) && run[0] == old(View()) && run[|acts|] == View()
      ensures Inv(View()) && pending == []
      ensures acts == seq(|old(pending)|, _ => AddPending)
    {
      hide Inv, AddPendingStep;
      run, acts := [View()], [];
      while pending != []
        invariant Run(run, acts) && run[0] == old(View()) && run[|acts|] == View()
        invariant Inv(View()) && |acts| + |pending| == |old(pending)|
        invariant acts == seq(|acts|, _ => AddPending)
        decreases |pending|
      {
        StepKeeps(View(), AddPending);
        OneFewerPending(View());
        AddOne();
        run, acts := run + [View()], acts + [AddPending];
      }
    }

    /** One cancel entry: skipped if its request is no longer active. */
    method CancelOne()
      requires cancel != [] && (cancel[0] in active ==> cancel[0] in reqs)
      modifies this
      ensures View() == PopCancelStep(old(View()))
    {
      hide Complete;
      var r := cancel[0];
      cancel := cancel[1..];
      log := log.(popped := log.popped + {r});
      if r !in active { return; }
      if reqs[r].inRetryWait {
        timers := timers - multiset{r};
      } else {
        RemoveFromCurl(r);
      }
      FinishRequest(r);
    }

    method OnAsyncCancel() returns (ghost run: seq<State>, ghost acts: seq<Action>)
      requires Inv(View())
      modifies this
      ensures Run(run, acts) && run[0] == old(View()) && run[|acts|] == View()
      ensures Inv(View()) && cancel == []
      ensures acts == seq(|old(cancel)|, _ => PopCancel)
    {
      hide Inv, PopCancelStep;
      run, acts := [View()], [];
      while cancel != []
        invariant Run(run, acts) && run[0] == old(View()) && run[|acts|] == View()
        invariant Inv(View()) && |acts| + |cancel| == |old(cancel)|
        invariant acts == seq(|acts|, _ => PopCancel)
        decreases |cancel|
      {
        StepKeeps(View(), PopCancel);
        OneFewerCancel(View());
        CancelOne();
        run, acts := run + [View()], acts + [PopCancel];
      }
    }

    /** One completion message: retry, or finish. */
    method OnCurlMessage(r: Id, result: Result)
      requires Inv(View()) && r in curl
      modifies this
      ensures Step(old(View()), CurlDone(r, result), View()) && Inv(View())
    {
      hide Inv;
      StepKeeps(View(), CurlDone(r, result));
      curl := curl - {r};
      statsActive := statsActive - 1;
      if ShouldRetry(reqs[r], result) {
        reqs := reqs[r := reqs[r].(retryCount := reqs[r].retryCount + 1, completed := false, inRetryWait := true)];
        timers := timers + multiset{r};
        return;
      }
      FinishRequest(r);
    }

    /** A retry timer fires. */
    method OnRetryTimer(r: Id)
      requires Inv(View()) && r in timers
      modifies this
      ensures Step(old(View()), RetryTimer(r), View()) && Inv(View())
    {
      hide Inv;
      StepKeeps(View(), RetryTimer(r));
      timers := timers - multiset{r};
      if reqs[r].completed { return; }
      reqs := reqs[r := reqs[r].(inRetryWait := false)];
      if reqs[r].handleClosed {
        FinishRequest(r);
        return;
      }
      ProcessCurlJob(r);
    }

    // ---- Game thread ----

    /** Queues a request unless it is unknown or already with the event thread. */
    method HttpExecute(r: Id) returns (code: int)
      requires Inv(View()) && r !in log.delivering
      modifies this
      ensures Inv(View())
      ensures code == if r in old(reqs) && !old(reqs[r].inEventThread) then 0 else 2
      ensures if code == 0 then Step(old(View()), Execute(r), View()) else View() == old(View())
    {
      hide Inv;
      if r !in reqs || reqs[r].inEventThread { return 2; }
      StepKeeps(View(), Execute(r));
      reqs := reqs[r := reqs[r].(inEventThread := true)];
      statsPending := statsPending + 1;
      pending := pending + [r];
      return 0;
    }

    /** Closes a request: one with the event thread is marked and cancelled, an idle one is freed, and
        one that is unknown or already marked is not found. */
    method HttpClose(r: Id) returns (code: int, ghost run: seq<State>, ghost acts: seq<Action>)
      requires Inv(View()) && r !in log.delivering && log.closing == []
      modifies this
      ensures Inv(View()) && log.closing == []
      ensures code == if r in old(reqs) && !old(reqs[r].handleClosed) then 0 else 2
      ensures code == 2 ==> acts == [] && View() == old(View())
      ensures Run(run, acts) && run[0] == old(View()) && run[|acts|] == View()
      ensures code == 0 && old(reqs[r].inEventThread) ==> acts == [MarkClosed(r), QueueCancel]
      ensures code == 0 && !old(reqs[r].inEventThread) ==> acts == [FreeIdle(r)]
    {
      hide Inv;
      run, acts := [View()], [];
      if r !in reqs || reqs[r].handleClosed { return 2, run, acts; }
      if reqs[r].inEventThread {
        StepKeeps(View(), MarkClosed(r));
        reqs := reqs[r := reqs[r].(handleClosed := true)];
        log := log.(closing := log.closing + [r]);
        run, acts := run + [View()], acts + [MarkClosed(r)];
        StepKeeps(View(), QueueCancel);
        cancel := cancel + [r];
        log := log.(closing := log.closing[1..]);
        run, acts := run + [View()], acts + [QueueCancel];
      } else {
        StepKeeps(View(), FreeIdle(r));
        reqs := reqs - {r};
        run, acts := run + [View()], acts + [FreeIdle(r)];
      }
      return 0, run, acts;
    }

    method BeginOne() returns (r: Id)
      requires Inv(View()) && drained != []
      modifies this
      ensures r == old(drained[0]) && Step(old(View()), BeginDelivery, View()) && Inv(View())
    {
      hide Inv;
      StepKeeps(View(), BeginDelivery);
      r := drained[0];
      reqs := reqs[r := reqs[r].(inEventThread := false)];
      drained := drained[1..];
      log := log.(delivering := log.delivering + {r});
    }

    method EndOne(r: Id)
      requires Inv(View()) && r in log.delivering
      modifies this
      ensures Step(old(View()), EndDelivery(r), View()) && Inv(View())
    {
      hide Inv;
      StepKeeps(View(), EndDelivery(r));
      reqs := reqs - {r};
      log := log.(delivering := log.delivering - {r});
    }

    /** Takes everything that is done and delivers it request by request; each is freed after its callback. */
    method OnGameFrame() returns (ghost run: seq<State>, ghost acts: seq<Action>)
      requires Inv(View()) && log.delivering == {}
      modifies this
      ensures Run(run, acts) && run[0] == old(View()) && run[|acts|] == View()
      ensures Inv(View()) && log.delivering == {} && done == [] && drained == []
      ensures acts == [Drain] + Deliveries(old(drained) + old(done))
    {
      hide Inv;
      StepKeeps(View(), Drain);
      run, acts := [View()], [Drain];
      drained := drained + done;
      done := [];
      run := run + [View()];
      while drained != []
        invariant Run(run, acts) && run[0] == old(View()) && run[|acts|] == View()
        invariant Inv(View()) && log.delivering == {} && done == []
        invariant acts + Deliveries(drained) == [Drain] + Deliveries(old(drained) + old(done))
        decreases |drained|
      {
        OneDelivery(acts, drained);
        var r := BeginOne();
        run, acts := run + [View()], acts + [BeginDelivery];
        EndOne(r);
        run, acts := run + [View()], acts + [EndDelivery(r)];
      }
    }
  }

  lemma OneFewerPending(s: State)
    requires s.pending != [] && s.pending[0] in s.reqs
    ensures |AddPendingStep(s).pending| == |s.pending| - 1
  {
  }

  lemma OneFewerCancel(s: State)
    requires s.cancel != [] && (s.cancel[0] in s.active ==> s.cancel[0] in s.reqs)
    ensures |PopCancelStep(s).cancel| == |s.cancel| - 1
  {
  }
}
