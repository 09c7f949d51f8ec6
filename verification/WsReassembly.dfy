/** Reassembly of WebSocket messages from the chunks curl hands out (the frame loop of
    OnWsPollActivity in src/event_loop.cpp; section 5.4 of RFC 6455). */
module WsReassembly {
  import opened ByteStrings

  /** One successful read: part of a data frame, or a control frame in between. `more` says that the
      frame is not the last of its message, `left` how much of the frame is still to come, and
      `limit` is max_message_size at that moment. */
  datatype Chunk =
    | Data(bytes: Bytes, binary: bool, more: bool, left: nat, limit: nat)
    | Control

  datatype Message = Message(binary: bool, payload: Bytes)

  /** The message under way: message_buf_, is_binary_message_ and in_fragmented_message_. */
  datatype Buffer = Buffer(bytes: Bytes, binary: bool, fragmented: bool)

  const Empty := Buffer([], false, false)

  datatype Outcome = Pending | Delivered(message: Message) | TooBig

  predicate IsFinal(c: Chunk) {
    c.Data? && !c.more && c.left == 0
  }

  // ---- What the loop does ----

  function Take(b: Buffer, c: Chunk): (Buffer, Outcome) {
    if c.Control? then (b, Pending)
    else
      var b1 := if b.fragmented then b else b.(binary := c.binary, bytes := []);
      if |b1.bytes| + |c.bytes| > c.limit then (b1, TooBig)
      else
        var b2 := b1.(bytes := b1.bytes + c.bytes);
        if !IsFinal(c) then (b2.(fragmented := true), Pending)
        else (b2.(fragmented := false, bytes := []), Delivered(Message(b2.binary, b2.bytes)))
  }

  /** One turn of the loop on a data chunk. */
  method TakeChunk(b: Buffer, c: Chunk) returns (r: Buffer, o: Outcome)
    ensures (r, o) == Take(b, c)
  {
    var bytes, binary, fragmented := b.bytes, b.binary, b.fragmented;
    if c.Control? { return b, Pending; }
    if !fragmented {
      binary := c.binary;
      bytes := [];
    }
    if |bytes| + |c.bytes| > c.limit { return Buffer(bytes, binary, fragmented), TooBig; }
    bytes := bytes + c.bytes;
    if c.more || c.left > 0 {
      fragmented := true;
      return Buffer(bytes, binary, fragmented), Pending;
    }
    fragmented := false;
    o := Delivered(Message(binary, bytes));
    bytes := [];
    r := Buffer(bytes, binary, fragmented);
  }

  /** A stretch of the loop: the buffer, what was delivered, and whether a message was too big. */
  datatype Assembly = Assembly(buffer: Buffer, delivered: seq<Message>, tooBig: bool)

  const Fresh := Assembly(Empty, [], false)

  function Accept(a: Assembly, c: Chunk): Assembly {
    if a.tooBig then a
    else
      var (b, o) := Take(a.buffer, c);
      Assembly(b, if o.Delivered? then a.delivered + [o.message] else a.delivered, o.TooBig?)
  }

  function AcceptAll(a: Assembly, cs: seq<Chunk>, k: nat): Assembly
    requires k <= |cs|
  {
    if k == 0 then a else Accept(AcceptAll(a, cs, k - 1), cs[k - 1])
  }

  // ---- What a stream of chunks means ----

  /** The payload bytes of the data chunks in cs[i..j]. */
  function Joined(cs: seq<Chunk>, i: nat, j: nat): Bytes
    requires i <= j <= |cs|
    decreases j
  {
    if i == j then [] else Joined(cs, i, j - 1) + if cs[j - 1].Data? then cs[j - 1].bytes else []
  }

  /** The first data chunk from i on, short of j, or j. */
  function FirstData(cs: seq<Chunk>, i: nat, j: nat): (r: nat)
    requires i <= j <= |cs|
    ensures i <= r <= j && (r < j ==> cs[r].Data?)
    decreases j - i
  {
    if i == j || cs[i].Data? then i else FirstData(cs, i + 1, j)
  }

  /** The message made of cs[i..j], which ends with a final chunk: every data byte in order, and the
      type of the first data frame. */
  function MessageOf(cs: seq<Chunk>, i: nat, j: nat): Message
    requires i < j <= |cs| && IsFinal(cs[j - 1])
  {
    var first := FirstData(cs, i, j);
    Message(first < j && cs[first].binary, Joined(cs, i, j))
  }

  /** Where the message under way at k began: just after the last final chunk before k. */
  function Start(cs: seq<Chunk>, k: nat): (r: nat)
    requires k <= |cs|
    ensures r <= k
  {
    if k == 0 then 0 else if IsFinal(cs[k - 1]) then k else Start(cs, k - 1)
  }

  /** The messages completed by the first k chunks. */
  function Messages(cs: seq<Chunk>, k: nat): seq<Message>
    requires k <= |cs|
  {
    if k == 0 then []
    else if IsFinal(cs[k - 1]) then Messages(cs, k - 1) + [MessageOf(cs, Start(cs, k - 1), k)]
    else Messages(cs, k - 1)
  }

  /** Chunk k would take the message under way over the limit in force. */
  predicate Overflows(cs: seq<Chunk>, k: nat)
    requires k < |cs|
  {
    cs[k].Data? && |Joined(cs, Start(cs, k), k)| + |cs[k].bytes| > cs[k].limit
  }

  // ---- The loop delivers exactly those messages ----

  lemma {:induction false} FirstDataGrows(cs: seq<Chunk>, i: nat, j: nat)
    requires i <= j < |cs|
    ensures FirstData(cs, i, j + 1) == if FirstData(cs, i, j) < j then FirstData(cs, i, j) else if cs[j].Data? then j else j + 1
    decreases j - i
  {
    if i < j && !cs[i].Data? {
      FirstDataGrows(cs, i + 1, j);
    }
  }

  /** What the buffer, the type and the flag hold between chunks. */
  ghost predicate InStep(b: Buffer, cs: seq<Chunk>, k: nat)
    requires k <= |cs|
  {
    var i := Start(cs, k);
    var first := FirstData(cs, i, k);
    && (b.fragmented <==> first < k)
    && (first < k ==> b.binary == cs[first].binary && b.bytes == Joined(cs, i, k))
    && (first == k ==> Joined(cs, i, k) == [])
  }

  lemma StartMore(cs: seq<Chunk>, k: nat)
    requires k < |cs|
    ensures Start(cs, k + 1) == if IsFinal(cs[k]) then k + 1 else Start(cs, k)
  {
  }

  lemma TakeControl(b: Buffer, cs: seq<Chunk>, k: nat)
    requires k < |cs| && InStep(b, cs, k) && cs[k].Control?
    ensures InStep(b, cs, k + 1)
  {
    hide FirstData, Joined, Start;
    StartMore(cs, k);
    FirstDataGrows(cs, Start(cs, k), k);
    JoinedMore(cs, Start(cs, k), k);
  }

  /** The bytes and the type after a data chunk within the limit. */
  lemma TakeData(b: Buffer, cs: seq<Chunk>, k: nat)
    requires k < |cs| && InStep(b, cs, k) && cs[k].Data? && !Overflows(cs, k)
    ensures var i, c := Start(cs, k), cs[k];
            var first := FirstData(cs, i, k + 1);
            && first <= k && Joined(cs, i, k + 1) == (if b.fragmented then b.bytes else []) + c.bytes
            && cs[first].binary == (if b.fragmented then b.binary else c.binary)
            && |(if b.fragmented then b.bytes else [])| + |c.bytes| <= c.limit
  {
    hide FirstData, Joined, Start;
    FirstDataGrows(cs, Start(cs, k), k);
    JoinedMore(cs, Start(cs, k), k);
  }

  /** A chunk within the limit keeps the buffer in step, and delivers exactly when it is final. */
  lemma TakeStep(b: Buffer, cs: seq<Chunk>, k: nat)
    requires k < |cs| && InStep(b, cs, k) && !Overflows(cs, k)
    ensures InStep(Take(b, cs[k]).0, cs, k + 1)
    ensures Take(b, cs[k]).1 == if IsFinal(cs[k]) then Delivered(MessageOf(cs, Start(cs, k), k + 1)) else Pending
  {
    hide FirstData, Joined, Start, Overflows;
    if cs[k].Control? {
      TakeControl(b, cs, k);
    } else {
      StartMore(cs, k);
      TakeData(b, cs, k);
      NothingYet(cs, k + 1);
    }
  }

  lemma JoinedMore(cs: seq<Chunk>, i: nat, j: nat)
    requires i <= j < |cs|
    ensures Joined(cs, i, j + 1) == Joined(cs, i, j) + if cs[j].Data? then cs[j].bytes else []
  {
  }

  lemma NothingYet(cs: seq<Chunk>, k: nat)
    requires k <= |cs|
    ensures Joined(cs, k, k) == [] && FirstData(cs, k, k) == k
  {
  }

  lemma TakeTooBig(b: Buffer, cs: seq<Chunk>, k: nat)
    requires k < |cs| && InStep(b, cs, k)
    ensures Take(b, cs[k]).1.TooBig? <==> Overflows(cs, k)
  {
  }

  lemma NoneInStep(b: Buffer, cs: seq<Chunk>)
    ensures InStep(b, cs, 0) <==> !b.fragmented
  {
  }

  ghost predicate NoOverflow(cs: seq<Chunk>, k: nat)
    requires k <= |cs|
  {
    forall i :: 0 <= i < k ==> !Overflows(cs, i)
  }

  lemma {:induction false} InStepAll(cs: seq<Chunk>, k: nat)
    requires k <= |cs| && NoOverflow(cs, k)
    ensures var a := AcceptAll(Fresh, cs, k); InStep(a.buffer, cs, k) && a.delivered == Messages(cs, k) && !a.tooBig
  {
    hide InStep, Take, Overflows, IsFinal, MessageOf;
    if k == 0 {
      NoneInStep(Empty, cs);
    } else {
      InStepAll(cs, k - 1);
      TakeStep(AcceptAll(Fresh, cs, k - 1).buffer, cs, k - 1);
    }
  }

  /** While no message is over the limit, what has been delivered is exactly the completed messages. */
  lemma DeliversMessages(cs: seq<Chunk>)
    requires NoOverflow(cs, |cs|)
    ensures AcceptAll(Fresh, cs, |cs|).delivered == Messages(cs, |cs|) && !AcceptAll(Fresh, cs, |cs|).tooBig
  {
    hide NoOverflow, Messages, AcceptAll, InStep;
    InStepAll(cs, |cs|);
  }

  lemma {:induction false} TooBigStays(a: Assembly, cs: seq<Chunk>, j: nat, k: nat)
    requires j <= k <= |cs| && AcceptAll(a, cs, j).tooBig
    ensures AcceptAll(a, cs, k) == AcceptAll(a, cs, j)
    decreases k - j
  {
    if j < k {
      TooBigStays(a, cs, j, k - 1);
    }
  }

  /** The first chunk over the limit stops delivery: the messages completed before it are out, no later one is. */
  lemma StopsAtOverflow(cs: seq<Chunk>, k: nat)
    requires k < |cs| && Overflows(cs, k) && NoOverflow(cs, k)
    ensures AcceptAll(Fresh, cs, |cs|).tooBig && AcceptAll(Fresh, cs, |cs|).delivered == Messages(cs, k)
  {
    hide Overflows, Messages, InStep, Take;
    InStepAll(cs, k);
    TakeTooBig(AcceptAll(Fresh, cs, k).buffer, cs, k);
    TooBigStays(Fresh, cs, k + 1, |cs|);
  }

  lemma AcceptDelivers(a: Assembly, c: Chunk)
    ensures var r := Accept(a, c).delivered;
            r == a.delivered || (IsFinal(c) && |r| == |a.delivered| + 1 && r[..|a.delivered|] == a.delivered && |r[|a.delivered|].payload| <= c.limit)
  {
  }

  /** Every message delivered was ended by a final chunk and fits the limit in force at that chunk: the
      d-th message is the one that chunk i delivers. */
  lemma {:induction false} NothingTooBig(cs: seq<Chunk>, k: nat, d: nat) returns (i: nat)
    requires k <= |cs| && d < |AcceptAll(Fresh, cs, k).delivered|
    ensures i < k && IsFinal(cs[i])
    ensures |AcceptAll(Fresh, cs, i).delivered| == d && |AcceptAll(Fresh, cs, i + 1).delivered| == d + 1
    ensures AcceptAll(Fresh, cs, i + 1).delivered[d] == AcceptAll(Fresh, cs, k).delivered[d]
    ensures |AcceptAll(Fresh, cs, k).delivered[d].payload| <= cs[i].limit
  {
    hide IsFinal, Accept;
    var before := AcceptAll(Fresh, cs, k - 1);
    AcceptDelivers(before, cs[k - 1]);
    if d < |before.delivered| {
      i := NothingTooBig(cs, k - 1, d);
      assert AcceptAll(Fresh, cs, k).delivered[..|before.delivered|][d] == before.delivered[d];
    } else {
      i := k - 1;
    }
  }

  // ---- Across a reconnect ----

  /** What WsCleanup does to the message under way when the connection is kept. */
  function Reset(b: Buffer): Buffer {
    b.(bytes := [], fragmented := false)
  }

  /** After a reconnect the stream is read as if it were the first: nothing is carried over. */
  lemma {:induction false} NothingCarriedOver(a: Assembly, cs: seq<Chunk>, k: nat)
    requires k <= |cs| && !a.tooBig
    ensures var r, f := AcceptAll(a.(buffer := Reset(a.buffer)), cs, k), AcceptAll(Fresh, cs, k);
            && r.delivered == a.delivered + f.delivered && r.tooBig == f.tooBig
            && r.buffer.fragmented == f.buffer.fragmented && (f.buffer.fragmented ==> r.buffer == f.buffer)
  {
    hide IsFinal;
    if k > 0 {
      NothingCarriedOver(a, cs, k - 1);
    }
  }
}
