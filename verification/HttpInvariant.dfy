/** Every step of either thread keeps the invariant and touches only requests that exist. */
module HttpInvariant {
  import opened HttpProtocol
  import opened HttpFacets

  /** No step of the code touches a request that was freed. */
  lemma StepIsSafe(s: State, a: Action)
    requires Inv(s) && Enabled(s, a)
    ensures Safe(s, a)
  {
    if a.BeginDelivery? || a.AddPending? || a.PopCancel? || a.CurlDone? || a.RetryTimer? {
      var r := match a
               case BeginDelivery => s.drained[0]
               case AddPending => s.pending[0]
               case PopCancel => s.cancel[0]
               case CurlDone(r, _) => r
               case RetryTimer(r) => r;
      assert Look(s, r).Ok();
    }
  }

  lemma AddPendingKeeps(s: State)
    requires Inv(s) && Enabled(s, AddPending) && Safe(s, AddPending)
    ensures Inv(AddPendingStep(s))
  {
    hide Look, AddPendingStep;
    var r, after := s.pending[0], AddPendingStep(s);
    forall x ensures Look(after, x).Ok() {
      LookAddPending(s, x);
      assert Look(s, x).Ok();
      if x == r { AddPendingOk(s); }
    }
    AddPendingCounted(s);
  }

  lemma AddPendingOk(s: State)
    requires s.pending != [] && Look(s, s.pending[0]).Ok() && s.pending[0] in s.reqs
    ensures var f := Look(s, s.pending[0]); f.req.Some? && f.pending > 0 && AddPendingFacet(f).Ok()
  {
    PopFirst(s.pending);
  }

  lemma AddPendingCounted(s: State)
    requires Counted(s) && s.pending != [] && Look(s, s.pending[0]).Ok() && s.pending[0] in s.reqs
    ensures Counted(AddPendingStep(s))
  {
    PopFirst(s.pending);
  }

  lemma PopCancelKeeps(s: State)
    requires Inv(s) && Enabled(s, PopCancel) && Safe(s, PopCancel)
    ensures Inv(PopCancelStep(s))
  {
    hide Look, PopCancelStep;
    var r, after := s.cancel[0], PopCancelStep(s);
    PopCancelOk(s);
    forall x ensures Look(after, x).Ok() {
      LookPopCancel(s, x);
      assert Look(s, x).Ok();
    }
    PopCancelCounted(s);
  }

  lemma PopCancelOk(s: State)
    requires s.cancel != [] && Look(s, s.cancel[0]).Ok()
    ensures s.cancel[0] in s.active ==> s.timers[s.cancel[0]] <= 1
    ensures var f := Look(s, s.cancel[0]);
            (f.active ==> f.req.Some? && f.timers <= 1) && PopCancelFacet(f, s.cancel[0] in s.cancel[1..]).Ok()
  {
    PopFirst(s.cancel);
  }

  lemma PopCancelCounted(s: State)
    requires Counted(s) && s.cancel != [] && Look(s, s.cancel[0]).Ok() && (s.cancel[0] in s.active ==> s.cancel[0] in s.reqs)
    ensures Counted(PopCancelStep(s))
  {
  }

  lemma CurlDoneKeeps(s: State, r: Id, result: Result)
    requires Inv(s) && Enabled(s, CurlDone(r, result)) && Safe(s, CurlDone(r, result))
    ensures Inv(CurlDoneStep(s, r, result))
  {
    hide Look, CurlDoneStep;
    var after := CurlDoneStep(s, r, result);
    forall x ensures Look(after, x).Ok() {
      LookCurlDone(s, r, result, x);
      assert Look(s, x).Ok();
      if x == r { CurlDoneOk(s, r, result); }
    }
    CurlDoneCounted(s, r, result);
  }

  lemma CurlDoneOk(s: State, r: Id, result: Result)
    requires Look(s, r).Ok() && r in s.reqs && r in s.curl
    ensures CurlDoneFacet(Look(s, r), result).Ok()
  {
  }

  lemma CurlDoneCounted(s: State, r: Id, result: Result)
    requires Counted(s) && r in s.reqs && r in s.curl
    ensures Counted(CurlDoneStep(s, r, result))
  {
  }

  lemma RetryTimerKeeps(s: State, r: Id)
    requires Inv(s) && Enabled(s, RetryTimer(r)) && Safe(s, RetryTimer(r))
    ensures Inv(RetryTimerStep(s, r))
  {
    hide Look, RetryTimerStep;
    var after := RetryTimerStep(s, r);
    forall x ensures Look(after, x).Ok() {
      LookRetryTimer(s, r, x);
      assert Look(s, x).Ok();
      if x == r { RetryTimerOk(s, r); }
    }
    assert Look(s, r).Ok();
    RetryTimerCounted(s, r);
  }

  lemma RetryTimerOk(s: State, r: Id)
    requires Look(s, r).Ok() && r in s.reqs && r in s.timers
    ensures Look(s, r).req.Some? && Look(s, r).timers > 0 && RetryTimerFacet(Look(s, r)).Ok()
  {
  }

  lemma RetryTimerCounted(s: State, r: Id)
    requires Counted(s) && Look(s, r).Ok() && r in s.reqs && r in s.timers
    ensures Counted(RetryTimerStep(s, r))
  {
  }

  /** The steps of the game thread. */
  lemma GameStepKeeps(s: State, a: Action)
    requires Inv(s) && Enabled(s, a) && Safe(s, a)
    requires !a.AddPending? && !a.PopCancel? && !a.CurlDone? && !a.RetryTimer?
    ensures Inv(Next(s, a))
  {
    hide Inv;
    match a
    case New(r, m) => NewKeeps(s, r, m);
    case Execute(r) => ExecuteKeeps(s, r);
    case FreeIdle(r) => FreeIdleKeeps(s, r);
    case MarkClosed(r) => MarkClosedKeeps(s, r);
    case QueueCancel => QueueCancelKeeps(s);
    case Drain => DrainKeeps(s);
    case BeginDelivery => BeginDeliveryKeeps(s);
    case EndDelivery(r) => EndDeliveryKeeps(s, r);
  }

  lemma NewKeeps(s: State, r: Id, m: int)
    requires Inv(s) && Enabled(s, New(r, m))
    ensures Inv(Next(s, New(r, m)))
  {
    var after := Next(s, New(r, m));
    forall x ensures Look(after, x).Ok() { assert Look(s, x).Ok(); }
  }

  lemma ExecuteKeeps(s: State, r: Id)
    requires Inv(s) && Enabled(s, Execute(r))
    ensures Inv(Next(s, Execute(r)))
  {
    var after := Next(s, Execute(r));
    forall x ensures Look(after, x).Ok() { assert Look(s, x).Ok(); }
  }

  lemma FreeIdleKeeps(s: State, r: Id)
    requires Inv(s) && Enabled(s, FreeIdle(r))
    ensures Inv(Next(s, FreeIdle(r)))
  {
    var after := Next(s, FreeIdle(r));
    forall x ensures Look(after, x).Ok() { assert Look(s, x).Ok(); }
  }

  lemma MarkClosedKeeps(s: State, r: Id)
    requires Inv(s) && Enabled(s, MarkClosed(r))
    ensures Inv(Next(s, MarkClosed(r)))
  {
    var after := Next(s, MarkClosed(r));
    forall x ensures Look(after, x).Ok() { assert Look(s, x).Ok(); }
  }

  lemma QueueCancelKeeps(s: State)
    requires Inv(s) && Enabled(s, QueueCancel)
    ensures Inv(Next(s, QueueCancel))
  {
    PopFirst(s.closing);
    var after := Next(s, QueueCancel);
    forall x ensures Look(after, x).Ok() { assert Look(s, x).Ok(); }
  }

  lemma DrainKeeps(s: State)
    requires Inv(s)
    ensures Inv(Next(s, Drain))
  {
    var after := Next(s, Drain);
    forall x ensures Look(after, x).Ok() { assert Look(s, x).Ok(); }
  }

  lemma BeginDeliveryKeeps(s: State)
    requires Inv(s) && Enabled(s, BeginDelivery) && Safe(s, BeginDelivery)
    ensures Inv(Next(s, BeginDelivery))
  {
    PopFirst(s.drained);
    var after := Next(s, BeginDelivery);
    forall x ensures Look(after, x).Ok() { assert Look(s, x).Ok(); }
  }

  lemma EndDeliveryKeeps(s: State, r: Id)
    requires Inv(s) && Enabled(s, EndDelivery(r))
    ensures Inv(Next(s, EndDelivery(r)))
  {
    var after := Next(s, EndDelivery(r));
    forall x ensures Look(after, x).Ok() { assert Look(s, x).Ok(); }
  }

  lemma StepKeeps(s: State, a: Action)
    requires Inv(s) && Enabled(s, a)
    ensures Safe(s, a) && Inv(Next(s, a))
  {
    hide Inv;
    StepIsSafe(s, a);
    match a
    case AddPending => AddPendingKeeps(s);
    case PopCancel => PopCancelKeeps(s);
    case CurlDone(r, result) => CurlDoneKeeps(s, r, result);
    case RetryTimer(r) => RetryTimerKeeps(s, r);
    case _ => GameStepKeeps(s, a);
  }
}
