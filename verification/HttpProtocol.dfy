/** The life of HTTP requests between the game thread and the event thread, as a state machine over
    their steps (src/event_loop.cpp, src/http_request.cpp, src/natives_http.cpp, src/extension.cpp).
    Each step reads or writes at most one thing the other thread can touch, apart from one queue
    operation, so every interleaving of the two threads is a sequence of steps. */
module HttpProtocol {
  import opened ByteStrings

  type Id = nat

  datatype Req = Req(
    maxRetries: int,
    retryCount: nat,
    inEventThread: bool,
    handleClosed: bool,
    completed: bool,
    inRetryWait: bool)

  datatype State = State(
    reqs: map<Id, Req>,         // requests that exist; one that is freed is gone from here
    created: set<Id>,           // every identity handed out so far
    pending: seq<Id>,           // pending_queue
    cancel: seq<Id>,            // cancel_queue
    done: seq<Id>,              // done_queue
    drained: seq<Id>,           // taken from done_queue by the game thread, not yet delivered
    delivering: set<Id>,        // the request whose callback is running
    closing: seq<Id>,           // handle_closed is set, the cancel entry is about to be queued
    active: set<Id>,            // active_http_requests_
    curl: set<Id>,              // http_curl_handles_
    timers: multiset<Id>,       // retry_timers_, each by the request it carries
    statsActive: int,
    statsPending: int,
    statsCompleted: int,
    pushes: map<Id, nat>,       // history: times a request went into done_queue
    attempts: map<Id, nat>,     // history: times it was handed to curl
    popped: set<Id>)            // history: requests with a cancel entry taken from cancel_queue

  const Initial := State(map[], {}, [], [], [], [], {}, [], {}, {}, multiset{}, 0, 0, 0, map[], map[], {})

  /** How an attempt ended: the code of curl and the HTTP status. */
  datatype Result = Result(curlcode: int, status: int)

  datatype Action =
    | New(r: Id, maxRetries: int)
    | Execute(r: Id)
    | FreeIdle(r: Id)
    | MarkClosed(r: Id)
    | QueueCancel
    | Drain
    | BeginDelivery
    | EndDelivery(r: Id)
    | AddPending
    | PopCancel
    | CurlDone(r: Id, result: Result)
    | RetryTimer(r: Id)

  function Get(m: map<Id, nat>, r: Id): nat {
    if r in m then m[r] else 0
  }

  // ---- Steps that several callbacks share ----

  /** What every completion on the event thread does. */
  function Complete(s: State, r: Id): State
    requires r in s.reqs
  {
    s.(reqs := s.reqs[r := s.reqs[r].(completed := true, inRetryWait := false)],
       active := s.active - {r},
       done := s.done + [r],
       statsCompleted := s.statsCompleted + 1,
       pushes := s.pushes[r := Get(s.pushes, r) + 1])
  }

  /** Handing a request to curl. */
  function ToCurl(s: State, r: Id): State {
    s.(curl := s.curl + {r}, statsActive := s.statsActive + 1, attempts := s.attempts[r := Get(s.attempts, r) + 1])
  }

  function FromCurl(s: State, r: Id): State {
    s.(curl := s.curl - {r}, statsActive := s.statsActive - 1)
  }

  /** A transport error, or a status that asks for another try. */
  predicate Retryable(result: Result) {
    result.curlcode != 0 || result.status == 429 || 500 <= result.status < 600
  }

  /** A negative limit is none. */
  predicate ShouldRetry(q: Req, result: Result) {
    q.maxRetries != 0 && !(q.maxRetries > 0 && q.retryCount >= q.maxRetries) && !q.handleClosed && Retryable(result)
  }

  // ---- The steps ----

  /** When a step can happen. A callback neither closes nor re-executes its own request, and curl
      reports only handles it was given. */
  predicate Enabled(s: State, a: Action) {
    match a
    case New(r, _) => r !in s.created
    case Execute(r) => r in s.reqs && !s.reqs[r].inEventThread && r !in s.delivering
    case FreeIdle(r) => r in s.reqs && !s.reqs[r].inEventThread && r !in s.delivering
    case MarkClosed(r) => r in s.reqs && s.reqs[r].inEventThread
    case QueueCancel => s.closing != []
    case Drain => true
    case BeginDelivery => s.drained != []
    case EndDelivery(r) => r in s.delivering
    case AddPending => s.pending != []
    case PopCancel => s.cancel != []
    case CurlDone(r, _) => r in s.curl
    case RetryTimer(r) => r in s.timers
  }

  /** The request the step looks into has not been freed. */
  predicate Safe(s: State, a: Action)
    requires Enabled(s, a)
  {
    match a
    case BeginDelivery => s.drained[0] in s.reqs
    case AddPending => s.pending[0] in s.reqs
    case PopCancel => s.cancel[0] in s.active ==> s.cancel[0] in s.reqs
    case CurlDone(r, _) => r in s.reqs
    case RetryTimer(r) => r in s.reqs
    case _ => true
  }

  function Next(s: State, a: Action): State
    requires Enabled(s, a) && Safe(s, a)
  {
    match a
    case New(r, m) => s.(reqs := s.reqs[r := Req(m, 0, false, false, false, false)], created := s.created + {r})
    case Execute(r) =>
      s.(reqs := s.reqs[r := s.reqs[r].(inEventThread := true)], pending := s.pending + [r], statsPending := s.statsPending + 1)
    case FreeIdle(r) => s.(reqs := s.reqs - {r})
    case MarkClosed(r) => s.(reqs := s.reqs[r := s.reqs[r].(handleClosed := true)], closing := s.closing + [r])
    case QueueCancel => s.(cancel := s.cancel + [s.closing[0]], closing := s.closing[1..])
    case Drain => s.(drained := s.drained + s.done, done := [])
    case BeginDelivery =>
      var r := s.drained[0];
      s.(reqs := s.reqs[r := s.reqs[r].(inEventThread := false)], drained := s.drained[1..], delivering := s.delivering + {r})
    case EndDelivery(r) => s.(reqs := s.reqs - {r}, delivering := s.delivering - {r})
    case AddPending => AddPendingStep(s)
    case PopCancel => PopCancelStep(s)
    case CurlDone(r, result) => CurlDoneStep(s, r, result)
    case RetryTimer(r) => RetryTimerStep(s, r)
  }

  /** One turn of OnAsyncAdd. */
  function AddPendingStep(s: State): State
    requires s.pending != [] && s.pending[0] in s.reqs
  {
    var r := s.pending[0];
    var s1 := s.(pending := s.pending[1..], statsPending := s.statsPending - 1, active := s.active + {r});
    if s.reqs[r].handleClosed then Complete(s1, r) else ToCurl(s1, r)
  }

  /** One turn of OnAsyncCancel. */
  function PopCancelStep(s: State): State
    requires s.cancel != [] && (s.cancel[0] in s.active ==> s.cancel[0] in s.reqs)
  {
    var r := s.cancel[0];
    var s1 := s.(cancel := s.cancel[1..], popped := s.popped + {r});
    if r !in s.active then s1
    else if s.reqs[r].inRetryWait then Complete(s1.(timers := s1.timers - multiset{r}), r)
    else Complete(FromCurl(s1, r), r)
  }

  /** One message of CheckCompletedJobs. */
  function CurlDoneStep(s: State, r: Id, result: Result): State
    requires r in s.reqs
  {
    var s1 := FromCurl(s, r);
    if ShouldRetry(s.reqs[r], result) then
      s1.(reqs := s1.reqs[r := s1.reqs[r].(retryCount := s1.reqs[r].retryCount + 1, completed := false, inRetryWait := true)],
          timers := s1.timers + multiset{r})
    else Complete(s1, r)
  }

  /** OnRetryTimer. */
  function RetryTimerStep(s: State, r: Id): State
    requires r in s.reqs
  {
    var s1 := s.(timers := s.timers - multiset{r});
    if s.reqs[r].completed then s1
    else
      var s2 := s1.(reqs := s1.reqs[r := s1.reqs[r].(inRetryWait := false)]);
      if s.reqs[r].handleClosed then Complete(s2, r) else ToCurl(s2, r)
  }

  // ---- What every step keeps ----

  /** All that a state says about one request. */
  datatype Facet = Facet(
    req: Option<Req>, created: bool,
    pending: nat, curl: bool, timers: nat, done: nat, drained: nat, delivering: bool,
    closing: bool, cancel: bool, active: bool, pushes: nat, attempts: nat, popped: bool)
  {
    /** In how many places the two threads have the request. */
    function Places(): nat {
      pending + (if curl then 1 else 0) + timers + done + drained
    }

    predicate Finished() {
      done > 0 || drained > 0 || delivering
    }

    /** In exactly one place while in_event_thread is set, in none otherwise, and freed means gone. */
    predicate Placed() {
      && (req.Some? ==> created)
      && (delivering ==> req.Some?)
      && (pending > 0 || curl || timers > 0 || done > 0 || drained > 0 ==> req.Some?)
      && (req.Some? ==> Places() == if req.value.inEventThread then 1 else 0)
      && (delivering ==> !req.value.inEventThread)
    }

    /** The flags say where the request is. */
    predicate Flagged() {
      && (active <==> curl || timers > 0)
      && (req.Some? ==> (req.value.inRetryWait <==> timers > 0))
      && (req.Some? ==> (req.value.completed <==> Finished()))
    }

    /** Delivered at most once, and handed to curl at most once more than it was retried. */
    predicate Bounded() {
      && pushes <= 1
      && (!created ==> pushes == 0 && attempts == 0)
      && (req.Some? ==>
            var q := req.value;
            && (pushes == 1 <==> Finished())
            && (q.maxRetries >= 0 ==> q.retryCount <= q.maxRetries)
            && attempts <= q.retryCount + 1 && (curl ==> attempts == q.retryCount + 1)
            && (!curl && !Finished() ==> attempts == q.retryCount))
    }

    /** Cancel entries are for closed requests; one whose entry was taken is not in curl or retry wait. */
    predicate Cancelled() {
      && (closing || cancel || popped ==> created && (req.Some? ==> req.value.handleClosed))
      && (popped ==> !curl && timers == 0)
    }

    predicate Ok() {
      Placed() && Flagged() && Bounded() && Cancelled()
    }
  }

  function Look(s: State, r: Id): Facet {
    Facet(if r in s.reqs then Some(s.reqs[r]) else None, r in s.created,
          multiset(s.pending)[r], r in s.curl, s.timers[r], multiset(s.done)[r], multiset(s.drained)[r], r in s.delivering,
          r in s.closing, r in s.cancel, r in s.active, Get(s.pushes, r), Get(s.attempts, r), r in s.popped)
  }

  ghost predicate Counted(s: State) {
    s.statsActive == |s.curl| && s.statsPending == |s.pending|
  }

  ghost predicate Inv(s: State) {
    Counted(s) && forall r :: Look(s, r).Ok()
  }

  lemma InitialInv()
    ensures Inv(Initial)
  {
  }

  lemma PopFirst(q: seq<Id>)
    requires q != []
    ensures multiset(q) == multiset{q[0]} + multiset(q[1..])
    ensures forall r :: r in q <==> r == q[0] || r in q[1..]
  {
    assert q == [q[0]] + q[1..];
  }
}
