/** Over every interleaving, requests are taken up in the order they were executed, cancels in the order
    of the closes, and results are delivered in the order in which requests ended; none is dropped. */
module HttpOrders {
  import opened ByteStrings
  import opened HttpProtocol
  import opened HttpFacets
  import opened HttpInvariant
  import opened HttpRuns
  import opened HttpCauses

  /** The request a step ends, if it ends one: a closed one that was not sent, one that is cancelled in
      curl or in retry wait, one whose last attempt came back, or one closed during its retry wait. */
  function EndedBy(s: State, a: Action): seq<Id>
    requires Inv(s) && Enabled(s, a)
  {
    match a
    case AddPending => if Closed(Look(s, s.pending[0])) then [s.pending[0]] else []
    case PopCancel => if PlaceOf(Look(s, s.cancel[0])) in {InCurl, RetryWait} then [s.cancel[0]] else []
    case CurlDone(r, result) => if Look(s, r).req.Some? && WorthAnother(Look(s, r), result) then [] else [r]
    case RetryTimer(r) => if Closed(Look(s, r)) then [r] else []
    case _ => []
  }

  ghost predicate PendingOn(s: State, a: Action, t: State)
    requires Enabled(s, a)
  {
    t.pending == match a case Execute(r) => s.pending + [r] case AddPending => s.pending[1..] case _ => s.pending
  }

  ghost predicate CancelOn(s: State, a: Action, t: State)
    requires Enabled(s, a)
  {
    && t.closing == (match a case MarkClosed(r) => s.closing + [r] case QueueCancel => s.closing[1..] case _ => s.closing)
    && t.cancel == (match a case QueueCancel => s.cancel + [s.closing[0]] case PopCancel => s.cancel[1..] case _ => s.cancel)
  }

  ghost predicate DoneOn(s: State, a: Action, t: State, ended: seq<Id>)
    requires Enabled(s, a)
  {
    && t.done == (if a.Drain? then [] else s.done + ended)
    && t.drained == (match a case Drain => s.drained + s.done case BeginDelivery => s.drained[1..] case _ => s.drained)
    && t.statsCompleted == s.statsCompleted + |ended|
  }

  ghost predicate Stepped(s: State, a: Action, t: State)
    requires Inv(s) && Enabled(s, a)
  {
    PendingOn(s, a, t) && CancelOn(s, a, t) && DoneOn(s, a, t, EndedBy(s, a))
  }

  lemma AddStepped(s: State)
    requires Inv(s) && Enabled(s, AddPending) && Safe(s, AddPending)
    ensures Stepped(s, AddPending, Next(s, AddPending))
  {
    hide Inv;
  }

  lemma ActivePlace(s: State, r: Id)
    requires Inv(s)
    ensures r in s.active <==> PlaceOf(Look(s, r)) in {InCurl, RetryWait}
  {
    assert Look(s, r).Ok();
  }

  lemma WaitingIsOpen(s: State, r: Id)
    requires Inv(s) && r in s.timers && r in s.reqs
    ensures !s.reqs[r].completed && Look(s, r).req == Some(s.reqs[r])
  {
    assert Look(s, r).Ok();
  }

  lemma CancelStepped(s: State)
    requires Inv(s) && Enabled(s, PopCancel) && Safe(s, PopCancel)
    ensures Stepped(s, PopCancel, Next(s, PopCancel))
  {
    hide Inv, Look, PlaceOf;
    ActivePlace(s, s.cancel[0]);
  }

  lemma CurlStepped(s: State, r: Id, result: Result)
    requires Inv(s) && Enabled(s, CurlDone(r, result)) && Safe(s, CurlDone(r, result))
    ensures Stepped(s, CurlDone(r, result), Next(s, CurlDone(r, result)))
  {
    var f := Look(s, r);
    assert f.Ok();
    assert ShouldRetry(s.reqs[r], result) <==> WorthAnother(f, result);
    hide Inv, Look, ShouldRetry, WorthAnother;
  }

  lemma TimerStepped(s: State, r: Id)
    requires Inv(s) && Enabled(s, RetryTimer(r)) && Safe(s, RetryTimer(r))
    ensures Stepped(s, RetryTimer(r), Next(s, RetryTimer(r)))
  {
    hide Inv, Look;
    WaitingIsOpen(s, r);
  }

  lemma GameStepped(s: State, a: Action)
    requires Inv(s) && Enabled(s, a) && Safe(s, a) && !(a.AddPending? || a.PopCancel? || a.CurlDone? || a.RetryTimer?)
    ensures Stepped(s, a, Next(s, a))
  {
    hide Inv, Look;
  }

  lemma RunStepped(run: seq<State>, acts: seq<Action>, i: nat)
    requires FullRun(run, acts) && i < |acts|
    ensures Inv(run[i]) && Enabled(run[i], acts[i]) && Stepped(run[i], acts[i], run[i + 1])
  {
    hide Inv, Next, Enabled, Safe, Stepped;
    InitialInv();
    RunKeeps(run, acts, i);
    assert Step(run[i], acts[i], run[i + 1]);
    match acts[i]
    case AddPending => AddStepped(run[i]);
    case PopCancel => CancelStepped(run[i]);
    case CurlDone(r, result) => CurlStepped(run[i], r, result);
    case RetryTimer(r) => TimerStepped(run[i], r);
    case _ => GameStepped(run[i], acts[i]);
  }

  // ---- The histories ----

  ghost function Executed(acts: seq<Action>, i: nat): seq<Id>
    requires i <= |acts|
  {
    if i == 0 then [] else Executed(acts, i - 1) + if acts[i - 1].Execute? then [acts[i - 1].r] else []
  }

  ghost function TakenUp(run: seq<State>, acts: seq<Action>, i: nat): seq<Id>
    requires i <= |acts| < |run|
  {
    if i == 0 then []
    else TakenUp(run, acts, i - 1) + if acts[i - 1].AddPending? && run[i - 1].pending != [] then [run[i - 1].pending[0]] else []
  }

  ghost function ClosedIn(acts: seq<Action>, i: nat): seq<Id>
    requires i <= |acts|
  {
    if i == 0 then [] else ClosedIn(acts, i - 1) + if acts[i - 1].MarkClosed? then [acts[i - 1].r] else []
  }

  ghost function CancelsTaken(run: seq<State>, acts: seq<Action>, i: nat): seq<Id>
    requires i <= |acts| < |run|
  {
    if i == 0 then []
    else CancelsTaken(run, acts, i - 1) + if acts[i - 1].PopCancel? && run[i - 1].cancel != [] then [run[i - 1].cancel[0]] else []
  }

  ghost function Delivered(run: seq<State>, acts: seq<Action>, i: nat): seq<Id>
    requires i <= |acts| < |run|
  {
    if i == 0 then []
    else Delivered(run, acts, i - 1) + if acts[i - 1].BeginDelivery? && run[i - 1].drained != [] then [run[i - 1].drained[0]] else []
  }

  ghost function Ended(run: seq<State>, acts: seq<Action>, i: nat): seq<Id>
    requires i <= |acts| < |run|
  {
    if i == 0 then []
    else Ended(run, acts, i - 1) + if Inv(run[i - 1]) && Enabled(run[i - 1], acts[i - 1]) then EndedBy(run[i - 1], acts[i - 1]) else []
  }

  // ---- The laws ----

  lemma PendingPasses(all: seq<Id>, out: seq<Id>, s: State, a: Action, t: State)
    requires Enabled(s, a) && PendingOn(s, a, t) && all == out + s.pending
    ensures all + (if a.Execute? then [a.r] else []) == out + (if a.AddPending? && s.pending != [] then [s.pending[0]] else []) + t.pending
  {
    match a
    case Execute(r) => assert all + [r] == out + [] + (s.pending + [r]);
    case AddPending => assert s.pending == [s.pending[0]] + s.pending[1..];
    case _ =>
  }

  /** Over every run, what was executed has been taken up or is pending, in order. */
  lemma {:induction false} TakenInOrder(run: seq<State>, acts: seq<Action>, i: nat)
    requires FullRun(run, acts) && i <= |acts|
    ensures Executed(acts, i) == TakenUp(run, acts, i) + run[i].pending
  {
    hide Inv, Step, EndedBy, CancelOn, DoneOn, PendingOn, Enabled;
    if i > 0 {
      TakenInOrder(run, acts, i - 1);
      RunStepped(run, acts, i - 1);
      PendingPasses(Executed(acts, i - 1), TakenUp(run, acts, i - 1), run[i - 1], acts[i - 1], run[i]);
    }
  }

  lemma CancelPasses(all: seq<Id>, out: seq<Id>, s: State, a: Action, t: State)
    requires Enabled(s, a) && CancelOn(s, a, t) && all == out + s.cancel + s.closing
    ensures all + (if a.MarkClosed? then [a.r] else []) == out + (if a.PopCancel? && s.cancel != [] then [s.cancel[0]] else []) + t.cancel + t.closing
  {
    match a
    case MarkClosed(r) => assert all + [r] == out + [] + s.cancel + (s.closing + [r]);
    case QueueCancel => assert s.closing == [s.closing[0]] + s.closing[1..];
    case PopCancel => assert s.cancel == [s.cancel[0]] + s.cancel[1..];
    case _ =>
  }

  /** Over every run, every close has had its cancel taken, or the cancel is queued or about to be, in order. */
  lemma {:induction false} CancelledInOrder(run: seq<State>, acts: seq<Action>, i: nat)
    requires FullRun(run, acts) && i <= |acts|
    ensures ClosedIn(acts, i) == CancelsTaken(run, acts, i) + run[i].cancel + run[i].closing
  {
    hide Inv, Step, EndedBy, PendingOn, DoneOn, CancelOn, Enabled;
    if i > 0 {
      CancelledInOrder(run, acts, i - 1);
      RunStepped(run, acts, i - 1);
      CancelPasses(ClosedIn(acts, i - 1), CancelsTaken(run, acts, i - 1), run[i - 1], acts[i - 1], run[i]);
    }
  }

  lemma DonePasses(all: seq<Id>, out: seq<Id>, s: State, a: Action, t: State, ended: seq<Id>)
    requires Enabled(s, a) && DoneOn(s, a, t, ended) && all == out + s.drained + s.done && (a.Drain? || a.BeginDelivery? ==> ended == [])
    ensures all + ended == out + (if a.BeginDelivery? && s.drained != [] then [s.drained[0]] else []) + t.drained + t.done
  {
    match a
    case Drain => assert all + ended == out + [] + (s.drained + s.done) + [];
    case BeginDelivery =>
      assert s.drained == [s.drained[0]] + s.drained[1..];
      assert all + ended == out + [s.drained[0]] + s.drained[1..] + s.done;
    case _ => assert all + ended == out + [] + s.drained + (s.done + ended);
  }

  /** Over every run, what has ended was delivered or still waits for delivery, in the order in which it
      ended, and that many completions are counted. */
  lemma {:induction false} DeliveredInOrder(run: seq<State>, acts: seq<Action>, i: nat)
    requires FullRun(run, acts) && i <= |acts|
    ensures Ended(run, acts, i) == Delivered(run, acts, i) + run[i].drained + run[i].done
    ensures run[i].statsCompleted == |Ended(run, acts, i)|
  {
    hide Inv, Step, EndedBy, PendingOn, CancelOn, DoneOn, Enabled;
    if i > 0 {
      var s, a := run[i - 1], acts[i - 1];
      DeliveredInOrder(run, acts, i - 1);
      RunStepped(run, acts, i - 1);
      if a.Drain? || a.BeginDelivery? { NoneEnded(s, a); }
      DonePasses(Ended(run, acts, i - 1), Delivered(run, acts, i - 1), s, a, run[i], EndedBy(s, a));
      DoneCounts(s, a, run[i], EndedBy(s, a));
    }
  }

  lemma DoneCounts(s: State, a: Action, t: State, ended: seq<Id>)
    requires Enabled(s, a) && DoneOn(s, a, t, ended)
    ensures t.statsCompleted == s.statsCompleted + |ended|
  {
  }

  lemma NoneEnded(s: State, a: Action)
    requires Inv(s) && Enabled(s, a) && (a.Drain? || a.BeginDelivery?)
    ensures EndedBy(s, a) == []
  {
  }
}
