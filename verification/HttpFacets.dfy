/** What each step of the event thread does to one request at a time. */
module HttpFacets {
  import opened ByteStrings
  import opened HttpProtocol

  function CompleteFacet(f: Facet): Facet
    requires f.req.Some?
  {
    f.(req := Some(f.req.value.(completed := true, inRetryWait := false)), active := false, done := f.done + 1, pushes := f.pushes + 1)
  }

  function ToCurlFacet(f: Facet): Facet {
    f.(curl := true, attempts := f.attempts + 1)
  }

  function AddPendingFacet(f: Facet): Facet
    requires f.req.Some? && f.pending > 0
  {
    var f1 := f.(pending := f.pending - 1, active := true);
    if f.req.value.handleClosed then CompleteFacet(f1) else ToCurlFacet(f1)
  }

  /** `again` tells whether the queue holds another cancel entry for the request. */
  function PopCancelFacet(f: Facet, again: bool): Facet
    requires f.active ==> f.req.Some? && f.timers <= 1
  {
    var f1 := f.(cancel := again, popped := true);
    if !f.active then f1
    else if f.req.value.inRetryWait then CompleteFacet(f1.(timers := 0))
    else CompleteFacet(f1.(curl := false))
  }

  function CurlDoneFacet(f: Facet, result: Result): Facet
    requires f.req.Some?
  {
    var f1 := f.(curl := false);
    var q := f.req.value;
    if ShouldRetry(q, result) then
      f1.(req := Some(q.(retryCount := q.retryCount + 1, completed := false, inRetryWait := true)), timers := f1.timers + 1)
    else CompleteFacet(f1)
  }

  function RetryTimerFacet(f: Facet): Facet
    requires f.req.Some? && f.timers > 0
  {
    var f1 := f.(timers := f.timers - 1);
    var q := f.req.value;
    if q.completed then f1
    else
      var f2 := f1.(req := Some(q.(inRetryWait := false)));
      if q.handleClosed then CompleteFacet(f2) else ToCurlFacet(f2)
  }

  lemma LookComplete(s: State, r: Id, x: Id)
    requires r in s.reqs
    ensures Look(Complete(s, r), x) == if x == r then CompleteFacet(Look(s, x)) else Look(s, x)
  {
  }

  lemma LookToCurl(s: State, r: Id, x: Id)
    ensures Look(ToCurl(s, r), x) == if x == r then ToCurlFacet(Look(s, x)) else Look(s, x)
  {
  }

  lemma LookFromCurl(s: State, r: Id, x: Id)
    ensures Look(FromCurl(s, r), x) == if x == r then Look(s, x).(curl := false) else Look(s, x)
  {
  }

  lemma LookAddPending(s: State, x: Id)
    requires s.pending != [] && s.pending[0] in s.reqs
    ensures Look(s, s.pending[0]).req == Some(s.reqs[s.pending[0]]) && Look(s, s.pending[0]).pending > 0
    ensures Look(AddPendingStep(s), x) == if x == s.pending[0] then AddPendingFacet(Look(s, x)) else Look(s, x)
  {
    hide Look, Complete, ToCurl, CompleteFacet, ToCurlFacet;
    var r := s.pending[0];
    var s1 := s.(pending := s.pending[1..], statsPending := s.statsPending - 1, active := s.active + {r});
    LookTaken(s, x);
    LookTaken(s, r);
    LookComplete(s1, r, x);
    LookToCurl(s1, r, x);
  }

  lemma LookTaken(s: State, x: Id)
    requires s.pending != [] && s.pending[0] in s.reqs
    ensures var s1 := s.(pending := s.pending[1..], statsPending := s.statsPending - 1, active := s.active + {s.pending[0]});
            var f := Look(s, x);
            if x == s.pending[0] then f.req == Some(s.reqs[x]) && f.pending > 0 && Look(s1, x) == f.(pending := f.pending - 1, active := true)
            else Look(s1, x) == f
  {
    PopFirst(s.pending);
  }

  lemma LookPopCancel(s: State, x: Id)
    requires s.cancel != [] && (s.cancel[0] in s.active ==> s.cancel[0] in s.reqs && s.timers[s.cancel[0]] <= 1)
    ensures var f := Look(s, s.cancel[0]); f.active ==> f.req.Some? && f.timers <= 1
    ensures Look(PopCancelStep(s), x) == if x == s.cancel[0] then PopCancelFacet(Look(s, x), x in s.cancel[1..]) else Look(s, x)
  {
    hide Look, Complete, FromCurl, CompleteFacet;
    var r := s.cancel[0];
    var s1 := s.(cancel := s.cancel[1..], popped := s.popped + {r});
    LookCancelTaken(s, x);
    LookCancelTaken(s, r);
    if r in s.active {
      SameRequests(s1, r);
      LookComplete(s1.(timers := s1.timers - multiset{r}), r, x);
      LookFromCurl(s1, r, x);
      LookComplete(FromCurl(s1, r), r, x);
    }
  }

  lemma LookCancelTaken(s: State, x: Id)
    requires s.cancel != [] && (s.cancel[0] in s.active ==> s.cancel[0] in s.reqs && s.timers[s.cancel[0]] <= 1)
    ensures var r := s.cancel[0];
            var s1, f := s.(cancel := s.cancel[1..], popped := s.popped + {r}), Look(s, x);
            && (x == r ==> f.active == (r in s.active) && (f.active ==> f.req == Some(s.reqs[r]) && f.timers <= 1))
            && Look(s1, x) == (if x == r then f.(cancel := x in s.cancel[1..], popped := true) else f)
            && (r in s.active ==> Look(s1.(timers := s1.timers - multiset{r}), x) == if x == r then Look(s1, x).(timers := 0) else f)
  {
    PopFirst(s.cancel);
  }

  lemma SameRequests(s: State, r: Id)
    ensures FromCurl(s, r).reqs == s.reqs
  {
  }

  lemma LookCurlDone(s: State, r: Id, result: Result, x: Id)
    requires r in s.reqs
    ensures Look(CurlDoneStep(s, r, result), x) == if x == r then CurlDoneFacet(Look(s, x), result) else Look(s, x)
  {
    hide Complete, CompleteFacet, ShouldRetry;
    LookComplete(FromCurl(s, r), r, x);
  }

  lemma LookRetryTimer(s: State, r: Id, x: Id)
    requires r in s.reqs && r in s.timers
    ensures Look(RetryTimerStep(s, r), x) == if x == r then RetryTimerFacet(Look(s, x)) else Look(s, x)
  {
    hide Complete, CompleteFacet, ToCurl, ToCurlFacet;
    var s1 := s.(timers := s.timers - multiset{r});
    var s2 := s1.(reqs := s1.reqs[r := s1.reqs[r].(inRetryWait := false)]);
    LookComplete(s2, r, x);
    LookToCurl(s2, r, x);
  }
}
