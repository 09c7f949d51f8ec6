/** What a connection queues, told by the chunks it read: over every run, the messages of each session
    between two reconnects, put together as section 5.4 of RFC 6455 says. */
module WsDelivery {
  import opened WsReassembly
  import opened WsProtocol
  import opened WsInvariant
  import opened WsEffects
  import opened WsRuns

  // ---- A longer stream reads the same as far as the shorter one goes ----

  lemma {:induction false} SameStart(cs: seq<Chunk>, c: Chunk, k: nat)
    requires k <= |cs|
    ensures Start(cs + [c], k) == Start(cs, k)
  {
    if k > 0 && !IsFinal(cs[k - 1]) {
      SameStart(cs, c, k - 1);
    }
  }

  lemma {:induction false} SameJoined(cs: seq<Chunk>, c: Chunk, i: nat, j: nat)
    requires i <= j <= |cs|
    ensures Joined(cs + [c], i, j) == Joined(cs, i, j)
    decreases j
  {
    if i < j {
      SameJoined(cs, c, i, j - 1);
    }
  }

  lemma {:induction false} SameFirst(cs: seq<Chunk>, c: Chunk, i: nat, j: nat)
    requires i <= j <= |cs|
    ensures FirstData(cs + [c], i, j) == FirstData(cs, i, j)
    decreases j - i
  {
    if i < j && !cs[i].Data? {
      SameFirst(cs, c, i + 1, j);
    }
  }

  lemma {:induction false} SameMessages(cs: seq<Chunk>, c: Chunk, k: nat)
    requires k <= |cs|
    ensures Messages(cs + [c], k) == Messages(cs, k)
  {
    hide Joined, FirstData, Start;
    if k > 0 {
      SameMessages(cs, c, k - 1);
      SameStart(cs, c, k - 1);
      if IsFinal(cs[k - 1]) && Start(cs, k - 1) < k {
        SameJoined(cs, c, Start(cs, k - 1), k);
        SameFirst(cs, c, Start(cs, k - 1), k);
      }
    }
  }

  lemma SameOverflows(cs: seq<Chunk>, c: Chunk, k: nat)
    requires k < |cs|
    ensures Overflows(cs + [c], k) == Overflows(cs, k)
  {
    hide Joined, Start;
    SameStart(cs, c, k);
    SameJoined(cs, c, Start(cs, k), k);
  }

  lemma SameInStep(b: Buffer, cs: seq<Chunk>, c: Chunk)
    ensures InStep(b, cs + [c], |cs|) == InStep(b, cs, |cs|)
  {
    hide Joined, Start, FirstData;
    SameStart(cs, c, |cs|);
    SameJoined(cs, c, Start(cs, |cs|), |cs|);
    SameFirst(cs, c, Start(cs, |cs|), |cs|);
  }

  lemma SameNoOverflow(cs: seq<Chunk>, c: Chunk)
    ensures NoOverflow(cs + [c], |cs|) == NoOverflow(cs, |cs|)
  {
    hide Overflows;
    forall i | 0 <= i < |cs|
      ensures Overflows(cs + [c], i) == Overflows(cs, i)
    {
      SameOverflows(cs, c, i);
    }
  }

  // ---- The chunks and the messages of a run ----

  /** The chunks taken since the connection last began to wait for a reconnect. */
  ghost function Since(run: seq<Conn>, acts: seq<Action>, i: nat): seq<Chunk>
    requires i <= |acts| < |run|
  {
    if i == 0 || StartsOver(run[i - 1], run[i]) then []
    else if Takes(run[i - 1], acts[i - 1]) then Since(run, acts, i - 1) + [acts[i - 1].frame.chunk]
    else Since(run, acts, i - 1)
  }

  /** The messages queued before that. */
  ghost function Before(run: seq<Conn>, acts: seq<Action>, i: nat): seq<Message>
    requires i <= |acts| < |run|
  {
    if i == 0 then []
    else if StartsOver(run[i - 1], run[i]) then MessagesIn(run[i - 1].events)
    else Before(run, acts, i - 1)
  }

  /** While no message is over its limit the buffer is in step with the chunks; the chunk that takes one
      over is the last that is taken. */
  ghost predicate Told(c: Conn, cs: seq<Chunk>, before: seq<Message>) {
    || (NoOverflow(cs, |cs|) && InStep(c.buffer, cs, |cs|) && MessagesIn(c.events) == before + Messages(cs, |cs|))
    || (|cs| > 0 && NoOverflow(cs, |cs| - 1) && Overflows(cs, |cs| - 1) && c.phase == CLOSED
        && MessagesIn(c.events) == before + Messages(cs, |cs| - 1))
  }

  lemma ToldAnew(c: Conn)
    requires !c.buffer.fragmented
    ensures Told(c, [], MessagesIn(c.events))
  {
    NoneInStep(c.buffer, []);
  }

  lemma ToldMore(c: Conn, d: Conn, cs: seq<Chunk>, before: seq<Message>, chunk: Chunk)
    requires Told(c, cs, before) && c.phase != CLOSED
    requires var (b, o) := Take(c.buffer, chunk);
             && d.buffer == b && (o.TooBig? ==> d.phase == CLOSED)
             && MessagesIn(d.events) == MessagesIn(c.events) + if o.Delivered? then [o.message] else []
    ensures Told(d, cs + [chunk], before)
  {
    hide InStep, Take, Overflows, MessageOf, IsFinal, MessagesIn;
    var k, ds := |cs|, cs + [chunk];
    assert ds[k] == chunk;
    SameInStep(c.buffer, cs, chunk);
    SameNoOverflow(cs, chunk);
    SameMessages(cs, chunk, k);
    TakeTooBig(c.buffer, ds, k);
    if !Overflows(ds, k) {
      TakeStep(c.buffer, ds, k);
      assert MessagesIn(d.events) == before + Messages(ds, k + 1);
    }
  }

  lemma ToldSame(c: Conn, d: Conn, cs: seq<Chunk>, before: seq<Message>)
    requires Told(c, cs, before) && d.buffer == c.buffer && MessagesIn(d.events) == MessagesIn(c.events)
    requires c.phase == CLOSED ==> d.phase == CLOSED
    ensures Told(d, cs, before)
  {
    hide InStep, NoOverflow, Overflows, Messages, MessagesIn;
  }

  lemma {:induction false} AlwaysTold(run: seq<Conn>, acts: seq<Action>, i: nat)
    requires FullRun(run, acts) && i <= |acts|
    ensures Told(run[i], Since(run, acts, i), Before(run, acts, i))
  {
    hide Told, Next, Inv, Take, MessagesIn, Reset;
    if i == 0 {
      NoEvents();
      CreatedEmpty(run);
      ToldAnew(run[0]);
    } else {
      var c, a, d := run[i - 1], acts[i - 1], run[i];
      AlwaysTold(run, acts, i - 1);
      RunKeeps(run, acts, i - 1);
      assert Enabled(c, a) && d == Next(c, a);
      StepEffect(c, a);
      assert MessagesIn(c.events) + [] == MessagesIn(c.events);
      if StartsOver(c, d) {
        StartsOverTakesNothing(c, a);
        ResetIsEmpty(c.buffer);
        ToldAnew(d);
      } else if Takes(c, a) {
        TakesOpen(c, a);
        ToldMore(c, d, Since(run, acts, i - 1), Before(run, acts, i), a.frame.chunk);
      } else {
        ToldSame(c, d, Since(run, acts, i - 1), Before(run, acts, i));
      }
    }
  }

  lemma CreatedEmpty(run: seq<Conn>)
    requires |run| > 0 && run[0] == Created()
    ensures !run[0].buffer.fragmented && run[0].events == []
  {
  }

  lemma ResetIsEmpty(b: Buffer)
    ensures !Reset(b).fragmented
  {
  }

  /** A chunk is taken on an open connection, and ends it if it is too big. */
  lemma TakesOpen(c: Conn, a: Action)
    requires Inv(c) && Enabled(c, a) && Takes(c, a)
    ensures c.phase != CLOSED && (Take(c.buffer, a.frame.chunk).1.TooBig? ==> Next(c, a).phase == CLOSED)
  {
    hide Take, DataStep, Closes, Balanced;
    DataEffect(c, a.frame.chunk);
  }

  lemma StartsOverTakesNothing(c: Conn, a: Action)
    requires Inv(c) && Enabled(c, a) && StartsOver(c, Next(c, a))
    ensures !Takes(c, a)
  {
    hide Take, DataStep, Closes, Balanced;
    if Takes(c, a) {
      DataEffect(c, a.frame.chunk);
    }
  }

  /** Over every run, while no message is over its limit, the messages queued are those queued before
      the last reconnect followed by exactly the messages that the chunks read since then make. */
  lemma QueuesReassembled(run: seq<Conn>, acts: seq<Action>, i: nat)
    requires FullRun(run, acts) && i <= |acts|
    ensures var cs := Since(run, acts, i);
            NoOverflow(cs, |cs|) ==> MessagesIn(run[i].events) == Before(run, acts, i) + Messages(cs, |cs|)
  {
    hide Since, Before, MessagesIn, Messages, InStep, Overflows, FullRun;
    AlwaysTold(run, acts, i);
  }

  /** From the first chunk over the limit on, the messages completed before it are all there are. */
  lemma QueuesUpToOverflow(run: seq<Conn>, acts: seq<Action>, i: nat, k: nat)
    requires FullRun(run, acts) && i <= |acts| && k < |Since(run, acts, i)|
    requires Overflows(Since(run, acts, i), k) && NoOverflow(Since(run, acts, i), k)
    ensures MessagesIn(run[i].events) == Before(run, acts, i) + Messages(Since(run, acts, i), k)
    ensures k == |Since(run, acts, i)| - 1 && run[i].phase == CLOSED
  {
    hide Since, Before, MessagesIn, Messages, InStep, Overflows, FullRun;
    AlwaysTold(run, acts, i);
  }

  // ---- Session by session ----

  /** In either case the session has come to what the loop makes of its chunks, and so all that is known
      of the loop is known of every run. */
  lemma QueuesAccepted(run: seq<Conn>, acts: seq<Action>, i: nat)
    requires FullRun(run, acts) && i <= |acts|
    ensures var cs := Since(run, acts, i);
            MessagesIn(run[i].events) == Before(run, acts, i) + AcceptAll(Fresh, cs, |cs|).delivered
  {
    hide FullRun, Since, Before, InStep, Overflows, Messages, MessagesIn, AcceptAll;
    var cs := Since(run, acts, i);
    AlwaysTold(run, acts, i);
    if NoOverflow(cs, |cs|) {
      DeliversMessages(cs);
      QueuesReassembled(run, acts, i);
    } else {
      StopsAtOverflow(cs, |cs| - 1);
    }
  }

  /** The messages a session completes: all of them, or those before the first chunk over the limit. */
  ghost function Completed(cs: seq<Chunk>): seq<Message> {
    Messages(cs, FirstOverflow(cs, 0))
  }

  ghost function FirstOverflow(cs: seq<Chunk>, k: nat): (r: nat)
    requires k <= |cs|
    ensures k <= r <= |cs| && (r < |cs| ==> Overflows(cs, r)) && forall i :: k <= i < r ==> !Overflows(cs, i)
    decreases |cs| - k
  {
    if k == |cs| || Overflows(cs, k) then k else FirstOverflow(cs, k + 1)
  }

  /** The chunks taken in each session, a session ending where a reconnect begins. */
  ghost function Sessions(run: seq<Conn>, acts: seq<Action>, i: nat): (r: seq<seq<Chunk>>)
    requires i <= |acts| < |run|
    ensures |r| > 0
  {
    if i == 0 then [[]]
    else
      var before := Sessions(run, acts, i - 1);
      if StartsOver(run[i - 1], run[i]) then before + [[]]
      else if Takes(run[i - 1], acts[i - 1]) then before[..|before| - 1] + [before[|before| - 1] + [acts[i - 1].frame.chunk]]
      else before
  }

  ghost function AllCompleted(sessions: seq<seq<Chunk>>): seq<Message> {
    if sessions == [] then [] else AllCompleted(sessions[..|sessions| - 1]) + Completed(sessions[|sessions| - 1])
  }

  lemma {:induction false} LastSession(run: seq<Conn>, acts: seq<Action>, i: nat)
    requires FullRun(run, acts) && i <= |acts|
    ensures var s := Sessions(run, acts, i);
            s[|s| - 1] == Since(run, acts, i) && AllCompleted(s[..|s| - 1]) == Before(run, acts, i)
  {
    hide Next, MessagesIn, Completed, Enabled, AllCompleted;
    if i == 0 {
      NothingCompleted();
    } else {
      LastSession(run, acts, i - 1);
      var before, s := Sessions(run, acts, i - 1), Sessions(run, acts, i);
      assert s[..|s| - 1] == if StartsOver(run[i - 1], run[i]) then before else before[..|before| - 1];
      if StartsOver(run[i - 1], run[i]) {
        CompletedSoFar(run, acts, i - 1);
        AllCompletedLast(before);
      }
    }
  }

  lemma NothingCompleted()
    ensures AllCompleted([]) == []
  {
  }

  lemma AllCompletedLast(s: seq<seq<Chunk>>)
    requires s != []
    ensures AllCompleted(s) == AllCompleted(s[..|s| - 1]) + Completed(s[|s| - 1])
  {
  }

  lemma CompletedSoFar(run: seq<Conn>, acts: seq<Action>, i: nat)
    requires FullRun(run, acts) && i <= |acts|
    ensures MessagesIn(run[i].events) == Before(run, acts, i) + Completed(Since(run, acts, i))
  {
    hide Since, Before, MessagesIn, Messages, Overflows, FullRun;
    var cs := Since(run, acts, i);
    var k := FirstOverflow(cs, 0);
    if k < |cs| {
      QueuesUpToOverflow(run, acts, i, k);
    } else {
      QueuesReassembled(run, acts, i);
    }
  }

  /** The whole run at once: what is queued for the game thread is, session by session and in order,
      what the chunks read in that session make; nothing crosses from one session into another. */
  lemma QueuesEverySession(run: seq<Conn>, acts: seq<Action>, i: nat)
    requires FullRun(run, acts) && i <= |acts|
    ensures MessagesIn(run[i].events) == AllCompleted(Sessions(run, acts, i))
  {
    hide Since, Before, MessagesIn, Completed, FullRun, Sessions, AllCompleted;
    CompletedSoFar(run, acts, i);
    LastSession(run, acts, i);
    AllCompletedLast(Sessions(run, acts, i));
  }

  /** A step queues a message only for a final chunk, and the message fits that chunk's limit. */
  lemma QueuedWithinLimit(run: seq<Conn>, acts: seq<Action>, i: nat)
    requires FullRun(run, acts) && i < |acts| && MessagesIn(run[i + 1].events) != MessagesIn(run[i].events)
    ensures Takes(run[i], acts[i]) && IsFinal(acts[i].frame.chunk)
    ensures exists m :: MessagesIn(run[i + 1].events) == MessagesIn(run[i].events) + [m] && |m.payload| <= acts[i].frame.chunk.limit
  {
    hide Next, Inv, MessagesIn;
    RunKeeps(run, acts, i);
    assert Enabled(run[i], acts[i]) && run[i + 1] == Next(run[i], acts[i]);
    StepEffect(run[i], acts[i]);
    assert MessagesIn(run[i].events) + [] == MessagesIn(run[i].events);
    var m := Take(run[i].buffer, acts[i].frame.chunk).1.message;
    assert |m.payload| <= acts[i].frame.chunk.limit;
  }
}
