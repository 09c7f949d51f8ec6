/** Over every interleaving, where each step takes each request and why, and in what order requests are
    sent, cancelled and delivered. */
module HttpCauses {
  import opened ByteStrings
  import opened HttpProtocol
  import opened HttpFacets
  import opened HttpInvariant
  import opened HttpRuns

  datatype Place = Nowhere | Idle | Pending | InCurl | RetryWait | Done | Drained | Delivering

  function PlaceOf(f: Facet): Place {
    if f.req.None? then Nowhere
    else if f.pending > 0 then Pending
    else if f.curl then InCurl
    else if f.timers > 0 then RetryWait
    else if f.done > 0 then Done
    else if f.drained > 0 then Drained
    else if f.delivering then Delivering
    else Idle
  }

  /** An attempt is worth another one: it ended in a transport error, "too many requests" or a server
      error, nobody closed the request, and as often as it was handed to curl so far is within its
      limit; a negative limit is none. */
  predicate WorthAnother(f: Facet, result: Result)
    requires f.req.Some?
  {
    var limit := f.req.value.maxRetries;
    && (result.curlcode != 0 || result.status == 429 || result.status / 100 == 5)
    && !f.req.value.handleClosed && limit != 0 && (limit < 0 || f.attempts <= limit)
  }

  /** Where a step takes request r from where it is. */
  function Moved(s: State, a: Action, r: Id): Place
    requires Inv(s) && Enabled(s, a)
  {
    var f := Look(s, r);
    var here := PlaceOf(f);
    match a
    case New(x, _) => if x == r then Idle else here
    case Execute(x) => if x == r then Pending else here
    case FreeIdle(x) => if x == r then Nowhere else here
    case MarkClosed(_) => here
    case QueueCancel => here
    case Drain => if here == Done then Drained else here
    case BeginDelivery => if s.drained[0] == r then Delivering else here
    case EndDelivery(x) => if x == r then Nowhere else here
    case AddPending => if s.pending[0] != r then here else if Closed(f) then Done else InCurl
    case PopCancel => if s.cancel[0] == r && (here == InCurl || here == RetryWait) then Done else here
    case CurlDone(x, result) => if x != r then here else if f.req.Some? && WorthAnother(f, result) then RetryWait else Done
    case RetryTimer(x) => if x != r then here else if Closed(f) then Done else InCurl
  }

  predicate Closed(f: Facet) {
    f.req.Some? && f.req.value.handleClosed
  }

  lemma EventStepMoves(s: State, a: Action, r: Id)
    requires Inv(s) && Enabled(s, a) && Safe(s, a) && (a.AddPending? || a.PopCancel? || a.CurlDone? || a.RetryTimer?)
    ensures PlaceOf(Look(Next(s, a), r)) == Moved(s, a, r)
  {
    hide Look, AddPendingStep, PopCancelStep, CurlDoneStep, RetryTimerStep;
    assert Look(s, r).Ok();
    match a
    case AddPending => LookAddPending(s, r);
    case PopCancel =>
      PopCancelOk(s);
      LookPopCancel(s, r);
    case CurlDone(x, result) =>
      InCurlOnce(s, x);
      LookCurlDone(s, x, result, r);
    case RetryTimer(x) =>
      InWaitOnce(s, x);
      LookRetryTimer(s, x, r);
  }

  lemma InCurlOnce(s: State, x: Id)
    requires Inv(s) && x in s.curl
    ensures Look(s, x).curl && Look(s, x).req == (if x in s.reqs then Some(s.reqs[x]) else None)
  {
  }

  lemma InWaitOnce(s: State, x: Id)
    requires Inv(s) && x in s.timers
    ensures Look(s, x).timers > 0 && Look(s, x).req == (if x in s.reqs then Some(s.reqs[x]) else None)
  {
  }

  lemma QueueStepMoves(s: State, a: Action, r: Id)
    requires Inv(s) && Enabled(s, a) && Safe(s, a) && (a.Drain? || a.BeginDelivery? || a.EndDelivery?)
    ensures PlaceOf(Look(Next(s, a), r)) == Moved(s, a, r)
  {
    hide AddPendingStep, PopCancelStep, CurlDoneStep, RetryTimerStep;
    assert Look(s, r).Ok();
    match a
    case BeginDelivery => PopFirst(s.drained);
    case _ =>
  }

  lemma CallMoves(s: State, a: Action, r: Id)
    requires Inv(s) && Enabled(s, a) && Safe(s, a) && (a.New? || a.Execute? || a.FreeIdle? || a.MarkClosed? || a.QueueCancel?)
    ensures PlaceOf(Look(Next(s, a), r)) == Moved(s, a, r)
  {
    hide AddPendingStep, PopCancelStep, CurlDoneStep, RetryTimerStep;
    assert Look(s, r).Ok();
  }

  /** Over every run each step takes each request exactly where `Moved` says. */
  lemma MovesExactly(run: seq<State>, acts: seq<Action>, i: nat, r: Id)
    requires FullRun(run, acts) && i < |acts|
    ensures Inv(run[i]) && Enabled(run[i], acts[i]) && PlaceOf(Look(run[i + 1], r)) == Moved(run[i], acts[i], r)
  {
    hide Inv, Look, Moved, Next, Enabled, Safe;
    InitialInv();
    RunKeeps(run, acts, i);
    assert Step(run[i], acts[i], run[i + 1]);
    var a := acts[i];
    if a.AddPending? || a.PopCancel? || a.CurlDone? || a.RetryTimer? {
      EventStepMoves(run[i], a, r);
    } else if a.Drain? || a.BeginDelivery? || a.EndDelivery? {
      QueueStepMoves(run[i], a, r);
    } else {
      CallMoves(run[i], a, r);
    }
  }

  /** Over every run a request goes into retry wait, with one timer, exactly when an attempt ended
      in a transport error, status 429 or a status from 500 to 599, nobody closed the request, its limit is not zero, and the limit is
      negative or not less than the attempts so far. An attempt that ends otherwise is done at once. */
  lemma RetriedExactly(run: seq<State>, acts: seq<Action>, i: nat, r: Id, result: Result)
    requires FullRun(run, acts) && i < |acts| && acts[i] == CurlDone(r, result)
    ensures r in run[i].reqs
    ensures var q, n := run[i].reqs[r], Get(run[i].attempts, r);
            if (result.curlcode != 0 || result.status == 429 || result.status / 100 == 5) && !q.handleClosed && q.maxRetries != 0 && (q.maxRetries < 0 || n <= q.maxRetries)
            then run[i + 1].timers[r] == 1 && r !in run[i + 1].curl && r !in run[i + 1].done
            else run[i + 1].timers[r] == 0 && r !in run[i + 1].curl && r in run[i + 1].done
  {
    hide Inv, Next, Moved;
    InitialInv();
    RunKeeps(run, acts, i);
    RunKeeps(run, acts, i + 1);
    assert Step(run[i], acts[i], run[i + 1]);
    MovesExactly(run, acts, i, r);
    MovedFromCurl(run[i], r, result);
    PlaceIs(run[i + 1], r);
  }

  lemma MovedFromCurl(s: State, r: Id, result: Result)
    requires Inv(s) && Enabled(s, CurlDone(r, result)) && Safe(s, CurlDone(r, result))
    ensures var q, n := s.reqs[r], Get(s.attempts, r);
            Moved(s, CurlDone(r, result), r) ==
              if (result.curlcode != 0 || result.status == 429 || result.status / 100 == 5) && !q.handleClosed && q.maxRetries != 0 && (q.maxRetries < 0 || n <= q.maxRetries) then RetryWait else Done
  {
  }

  /** What a place says about the state. */
  lemma PlaceIs(s: State, r: Id)
    requires Inv(s)
    ensures var p := PlaceOf(Look(s, r));
            && (p == InCurl <==> r in s.curl) && (p == RetryWait <==> s.timers[r] == 1) && (p != RetryWait <==> s.timers[r] == 0)
            && (p == Pending <==> r in s.pending) && (p == Done <==> r in s.done) && (p == Drained <==> r in s.drained)
            && (p == Delivering <==> r in s.delivering) && (p == Nowhere <==> r !in s.reqs)
  {
    assert Look(s, r).Ok();
  }

  // ---- Sends ----

  /** The steps so far that handed the request to curl. */
  ghost function Sends(run: seq<State>, i: nat, r: Id): nat
    requires i < |run|
  {
    if i == 0 then 0 else Sends(run, i - 1, r) + if r !in run[i - 1].curl && r in run[i].curl then 1 else 0
  }

  /** Of one request, how often it was sent, whether it is in curl, and what is known of it. */
  lemma LookSays(s: State, r: Id)
    ensures var f := Look(s, r);
            f.attempts == Get(s.attempts, r) && f.curl == (r in s.curl) && f.req == if r in s.reqs then Some(s.reqs[r]) else None
  {
  }

  predicate SendsOn(f: Facet, g: Facet) {
    g.attempts == f.attempts + if !f.curl && g.curl then 1 else 0
  }

  /** The request keeps its limit, and is closed if it was or is marked now. */
  predicate KnownOn(f: Facet, g: Facet, marked: bool) {
    f.req.Some? && g.req.Some? ==>
      g.req.value.maxRetries == f.req.value.maxRetries && g.req.value.handleClosed == (f.req.value.handleClosed || marked)
  }

  lemma EventStepOn(s: State, a: Action, r: Id)
    requires Inv(s) && Enabled(s, a) && Safe(s, a) && (a.AddPending? || a.PopCancel? || a.CurlDone? || a.RetryTimer?)
    ensures var f, g := Look(s, r), Look(Next(s, a), r);
            SendsOn(f, g) && KnownOn(f, g, false) && f.req.Some? == g.req.Some?
  {
    hide Look, AddPendingStep, PopCancelStep, CurlDoneStep, RetryTimerStep;
    assert Look(s, r).Ok();
    match a
    case AddPending => LookAddPending(s, r);
    case PopCancel =>
      PopCancelOk(s);
      LookPopCancel(s, r);
    case CurlDone(x, result) =>
      InCurlOnce(s, x);
      LookCurlDone(s, x, result, r);
    case RetryTimer(x) =>
      InWaitOnce(s, x);
      LookRetryTimer(s, x, r);
  }

  lemma GameStepOn(s: State, a: Action, r: Id)
    requires Inv(s) && Enabled(s, a) && Safe(s, a) && !(a.AddPending? || a.PopCancel? || a.CurlDone? || a.RetryTimer?)
    ensures var t := Next(s, a);
            && t.attempts == s.attempts && t.curl == s.curl
            && (r in t.reqs ==>
                  if r in s.reqs then t.reqs[r].maxRetries == s.reqs[r].maxRetries && t.reqs[r].handleClosed == (s.reqs[r].handleClosed || a == MarkClosed(r))
                  else a == New(r, t.reqs[r].maxRetries) && !t.reqs[r].handleClosed)
  {
    hide AddPendingStep, PopCancelStep, CurlDoneStep, RetryTimerStep;
    assert Look(s, r).Ok();
  }

  lemma SendIsCounted(s: State, a: Action, r: Id)
    requires Inv(s) && Enabled(s, a) && Safe(s, a)
    ensures var t := Next(s, a);
            Get(t.attempts, r) == Get(s.attempts, r) + if r !in s.curl && r in t.curl then 1 else 0
  {
    hide Inv, Look, Next, Enabled, Safe, Get;
    LookSays(s, r);
    LookSays(Next(s, a), r);
    if a.AddPending? || a.PopCancel? || a.CurlDone? || a.RetryTimer? {
      EventStepOn(s, a, r);
    } else {
      GameStepOn(s, a, r);
    }
  }

  /** Over every run the attempts of a request are the steps that handed it to curl. */
  lemma {:induction false} AttemptsAreSends(run: seq<State>, acts: seq<Action>, i: nat, r: Id)
    requires FullRun(run, acts) && i < |run|
    ensures Get(run[i].attempts, r) == Sends(run, i, r)
  {
    hide Inv, Next, Enabled, Safe;
    if i > 0 {
      AttemptsAreSends(run, acts, i - 1, r);
      InitialInv();
      RunKeeps(run, acts, i - 1);
      assert Step(run[i - 1], acts[i - 1], run[i]);
      SendIsCounted(run[i - 1], acts[i - 1], r);
    }
  }

  // ---- What is known of a request ----

  /** The request has been closed, and was made with the limit. */
  ghost predicate Marked(acts: seq<Action>, i: nat, r: Id)
    requires i <= |acts|
  {
    exists j :: 0 <= j < i && acts[j] == MarkClosed(r)
  }

  ghost predicate MadeWith(acts: seq<Action>, i: nat, r: Id, limit: int)
    requires i <= |acts|
  {
    exists j :: 0 <= j < i && acts[j] == New(r, limit)
  }

  lemma FieldsAre(s: State, a: Action, r: Id)
    requires Inv(s) && Enabled(s, a) && Safe(s, a) && r in Next(s, a).reqs
    ensures var q := Next(s, a).reqs[r];
            if r in s.reqs then q.maxRetries == s.reqs[r].maxRetries && q.handleClosed == (s.reqs[r].handleClosed || a == MarkClosed(r))
            else a == New(r, q.maxRetries) && !q.handleClosed
  {
    hide Inv, Look, Next, Enabled, Safe;
    LookSays(s, r);
    LookSays(Next(s, a), r);
    if a.AddPending? || a.PopCancel? || a.CurlDone? || a.RetryTimer? {
      EventStepOn(s, a, r);
    } else {
      GameStepOn(s, a, r);
    }
  }

  lemma MarkedIsCreated(run: seq<State>, acts: seq<Action>, i: nat, j: nat, r: Id)
    requires FullRun(run, acts) && j < i < |run| && acts[j] == MarkClosed(r)
    ensures r in run[i].created
  {
    hide Next, Safe;
    InitialInv();
    RunKeeps(run, acts, j);
    assert Step(run[j], acts[j], run[j + 1]);
    assert Look(run[j], r).Ok();
    CreatedStays(run, acts, j, i, r);
  }

  lemma {:induction false} CreatedStays(run: seq<State>, acts: seq<Action>, i: nat, j: nat, r: Id)
    requires Run(run, acts) && i <= j < |run| && r in run[i].created
    ensures r in run[j].created
    decreases j - i
  {
    if i < j {
      CreatedStays(run, acts, i, j - 1, r);
      assert Step(run[j - 1], acts[j - 1], run[j]);
    }
  }

  lemma NewIsNew(s: State, a: Action)
    requires Enabled(s, a) && a.New?
    ensures a.r !in s.created
  {
  }

  /** Over every run a request counts as closed exactly when it was marked, and keeps the limit it was
      made with. */
  lemma {:induction false} KnownExactly(run: seq<State>, acts: seq<Action>, i: nat, r: Id)
    requires FullRun(run, acts) && i < |run| && r in run[i].reqs
    ensures run[i].reqs[r].handleClosed <==> Marked(acts, i, r)
    ensures MadeWith(acts, i, r, run[i].reqs[r].maxRetries)
  {
    hide Inv, Next, Enabled, Safe;
    InitialInv();
    if i > 0 {
      RunKeeps(run, acts, i - 1);
      assert Step(run[i - 1], acts[i - 1], run[i]);
      FieldsAre(run[i - 1], acts[i - 1], r);
      if r in run[i - 1].reqs {
        KnownExactly(run, acts, i - 1, r);
      } else if j :| 0 <= j < i && acts[j] == MarkClosed(r) {
        MarkedIsCreated(run, acts, i - 1, j, r);
        NewIsNew(run[i - 1], acts[i - 1]);
      }
    }
  }
}
