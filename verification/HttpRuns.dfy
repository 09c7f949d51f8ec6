/** What holds over every interleaving of the two threads. */
module HttpRuns {
  import opened HttpProtocol
  import opened HttpInvariant

  ghost predicate Step(s: State, a: Action, after: State) {
    Enabled(s, a) && Safe(s, a) && after == Next(s, a)
  }

  /** Any interleaving of the two threads, from any state. */
  ghost predicate Run(run: seq<State>, acts: seq<Action>): (b: bool)
    ensures b ==> |run| == |acts| + 1
  {
    |run| == |acts| + 1 && forall i :: 0 <= i < |acts| ==> Step(run[i], acts[i], run[i + 1])
  }

  ghost predicate FullRun(run: seq<State>, acts: seq<Action>) {
    Run(run, acts) && run[0] == Initial
  }

  lemma {:induction false} RunKeeps(run: seq<State>, acts: seq<Action>, i: nat)
    requires Run(run, acts) && Inv(run[0]) && i < |run|
    ensures Inv(run[i])
  {
    hide Inv;
    if i > 0 {
      RunKeeps(run, acts, i - 1);
      assert Step(run[i - 1], acts[i - 1], run[i]);
      StepKeeps(run[i - 1], acts[i - 1]);
    }
  }

  /** At every moment of every run a request with in_event_thread set is in exactly one place, in
      retry wait with exactly one timer, whatever comes next reads no freed request, and the counters
      are the sizes of what they count. */
  lemma AlwaysInOnePlace(run: seq<State>, acts: seq<Action>, i: nat, r: Id)
    requires FullRun(run, acts) && i < |run|
    ensures r in run[i].reqs ==> Look(run[i], r).Places() == if run[i].reqs[r].inEventThread then 1 else 0
    ensures r in run[i].reqs && run[i].reqs[r].inRetryWait ==> run[i].timers[r] == 1
    ensures r !in run[i].reqs ==> Look(run[i], r).Places() == 0
    ensures run[i].statsActive == |run[i].curl| && run[i].statsPending == |run[i].pending|
    ensures forall a :: Enabled(run[i], a) ==> Safe(run[i], a)
  {
    InitialInv();
    RunKeeps(run, acts, i);
    assert Look(run[i], r).Ok();
    forall a | Enabled(run[i], a) ensures Safe(run[i], a) {
      StepIsSafe(run[i], a);
    }
  }

  /** With a retry limit of zero or more, a request is handed to curl at most once more than that. */
  lemma AttemptsAreBounded(run: seq<State>, acts: seq<Action>, i: nat, r: Id)
    requires FullRun(run, acts) && i < |run| && r in run[i].reqs && run[i].reqs[r].maxRetries >= 0
    ensures Get(run[i].attempts, r) <= run[i].reqs[r].maxRetries + 1
  {
    hide Run;
    InitialInv();
    RunKeeps(run, acts, i);
    assert Look(run[i], r).Ok();
  }

  /** Step i puts r into done_queue. */
  ghost predicate PushedAt(run: seq<State>, i: nat, r: Id)
    requires i + 1 < |run|
  {
    multiset(run[i + 1].done)[r] > multiset(run[i].done)[r]
  }

  lemma PushIsCounted(s: State, a: Action, after: State, r: Id)
    requires Step(s, a, after)
    ensures Get(s.pushes, r) <= Get(after.pushes, r)
    ensures multiset(after.done)[r] > multiset(s.done)[r] ==> Get(s.pushes, r) < Get(after.pushes, r)
  {
    hide AddPendingStep, PopCancelStep, CurlDoneStep, RetryTimerStep;
    match a
    case AddPending => AddPendingPushes(s);
    case PopCancel => PopCancelPushes(s);
    case CurlDone(q, result) => CurlDonePushes(s, q, result);
    case RetryTimer(q) => RetryTimerPushes(s, q);
    case _ =>
  }

  /** Nothing is queued, or just q, and then it is counted. */
  predicate QueuesAtMost(s: State, after: State, q: Id) {
    || (after.done == s.done && after.pushes == s.pushes)
    || (after.done == s.done + [q] && after.pushes == s.pushes[q := Get(s.pushes, q) + 1])
  }

  lemma AddPendingPushes(s: State)
    requires s.pending != [] && s.pending[0] in s.reqs
    ensures QueuesAtMost(s, AddPendingStep(s), s.pending[0])
  {
  }

  lemma PopCancelPushes(s: State)
    requires s.cancel != [] && (s.cancel[0] in s.active ==> s.cancel[0] in s.reqs)
    ensures QueuesAtMost(s, PopCancelStep(s), s.cancel[0])
  {
  }

  lemma CurlDonePushes(s: State, r: Id, result: Result)
    requires r in s.reqs
    ensures QueuesAtMost(s, CurlDoneStep(s, r, result), r)
  {
  }

  lemma RetryTimerPushes(s: State, r: Id)
    requires r in s.reqs
    ensures QueuesAtMost(s, RetryTimerStep(s, r), r)
  {
  }

  lemma {:induction false} PushesGrow(run: seq<State>, acts: seq<Action>, i: nat, j: nat, r: Id)
    requires Run(run, acts) && i <= j < |run|
    ensures Get(run[i].pushes, r) <= Get(run[j].pushes, r)
    decreases j - i
  {
    hide Step;
    if i < j {
      PushesGrow(run, acts, i, j - 1, r);
      assert Step(run[j - 1], acts[j - 1], run[j]);
      PushIsCounted(run[j - 1], acts[j - 1], run[j], r);
    }
  }

  /** No run puts a request into done_queue twice. */
  lemma PushedAtMostOnce(run: seq<State>, acts: seq<Action>, i: nat, j: nat, r: Id)
    requires FullRun(run, acts) && i < j < |acts| && PushedAt(run, i, r)
    ensures !PushedAt(run, j, r)
  {
    hide Step;
    assert Step(run[i], acts[i], run[i + 1]) && Step(run[j], acts[j], run[j + 1]);
    PushIsCounted(run[i], acts[i], run[i + 1], r);
    PushesGrow(run, acts, i + 1, j, r);
    PushIsCounted(run[j], acts[j], run[j + 1], r);
    InitialInv();
    RunKeeps(run, acts, j + 1);
    assert Look(run[j + 1], r).Ok();
  }

  lemma PoppedStays(s: State, a: Action, after: State, r: Id)
    requires Step(s, a, after) && r in s.popped
    ensures r in after.popped
  {
  }

  lemma {:induction false} PoppedForGood(run: seq<State>, acts: seq<Action>, i: nat, j: nat, r: Id)
    requires Run(run, acts) && i <= j < |run| && r in run[i].popped
    ensures r in run[j].popped
    decreases j - i
  {
    hide Step;
    if i < j {
      PoppedForGood(run, acts, i, j - 1, r);
      assert Step(run[j - 1], acts[j - 1], run[j]);
      PoppedStays(run[j - 1], acts[j - 1], run[j], r);
    }
  }

  /** No cancel is lost: from the step that takes a request's cancel entry on, the request is never in
      curl or retry wait again; if it still exists it is pending and closed, done, or delivered. */
  lemma NoCancelIsLost(run: seq<State>, acts: seq<Action>, i: nat, j: nat, r: Id)
    requires FullRun(run, acts) && i < j < |run|
    requires acts[i] == PopCancel && run[i].cancel != [] && run[i].cancel[0] == r
    ensures r !in run[j].curl && run[j].timers[r] == 0 && r !in run[j].active
    ensures r in run[j].reqs && run[j].reqs[r].inEventThread ==>
              (r in run[j].pending && run[j].reqs[r].handleClosed) || r in run[j].done || r in run[j].drained
  {
    hide Run;
    assert r in run[i + 1].popped by {
      assert Step(run[i], acts[i], run[i + 1]) by { StepOf(run, acts, i); }
      PopIsRecorded(run[i], run[i + 1]);
    }
    PoppedForGood(run, acts, i + 1, j, r);
    InitialInv();
    RunKeeps(run, acts, j);
    assert Look(run[j], r).Ok();
  }

  lemma StepOf(run: seq<State>, acts: seq<Action>, i: nat)
    requires Run(run, acts) && i < |acts|
    ensures Step(run[i], acts[i], run[i + 1])
  {
  }

  lemma PopIsRecorded(s: State, after: State)
    requires Step(s, PopCancel, after)
    ensures s.cancel[0] in after.popped
  {
  }
}
