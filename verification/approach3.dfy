/**
 * Approach 3, server-side polling: one shared offset `last_pos_3` and the
 * registry `clients_3`. Whenever a client's loop comes round it polls the
 * file from the shared offset and puts what it read, stripped, into every
 * listed queue, then sends the front of its own queue.
 */
module ServerPolling {
  import opened Wrappers
  import opened Text
  import opened DeltaRead
  import opened Fanout

  /** `clients_3` and `last_pos_3`. */
  datatype Server = Server(clients: Registry<string>, lastPos: nat)

  predicate Valid(s: Server)
  {
    Fanout.Valid(s.clients)
  }

  /** As written: no client, and the shared offset at the start of the file. */
  function InitialAsWritten(): (s: Server)
    ensures Valid(s) && s.clients.live == [] && s.lastPos == 0
  {
    Server(Empty(), 0)
  }

  /** Corrected: no client, and the shared offset at the end of the file as it is at start-up. */
  function Initial(content: string): (s: Server)
    ensures Valid(s) && s.clients.live == [] && ReadFrom(content, s.lastPos).raw.None?
  {
    Server(Empty(), |content|)
  }

  /** A client connects: a fresh empty queue is listed last. */
  function Connect(s: Server): (j: Subscribed<string>)
    requires Valid(s)
    ensures Fanout.Valid(j.registry) && j.id !in s.clients.queues
    ensures j.registry.queues.Keys == s.clients.queues.Keys + {j.id}
    ensures j.registry.live == s.clients.live + [j.id] && j.registry.queues[j.id] == []
    ensures forall k :: k in s.clients.queues ==> j.registry.queues[k] == s.clients.queues[k]
  {
    Subscribe(s.clients)
  }

  /**
   * One server-side poll: when the file holds text beyond the shared offset,
   * every listed queue gets that text, stripped, and the offset moves to the
   * end of the file; otherwise nothing changes.
   */
  function Poll(s: Server, content: string): (s': Server)
    requires Valid(s)
    ensures Valid(s') && s'.clients.live == s.clients.live
    ensures s'.clients.queues.Keys == s.clients.queues.Keys
    ensures |content| <= s.lastPos ==> s' == s
    ensures |content| > s.lastPos ==> s'.lastPos == |content|
    ensures forall k :: k in s.clients.queues && k in s.clients.live ==>
      s'.clients.queues[k] == s.clients.queues[k] + (if |content| > s.lastPos then [Strip(content[s.lastPos..])] else [])
    ensures forall k :: k in s.clients.queues && k !in s.clients.live ==> s'.clients.queues[k] == s.clients.queues[k]
  {
    var p := ReadFrom(content, s.lastPos);
    match p.raw
    case None => s
    case Some(data) =>
      assert data == content[s.lastPos..];
      Server(Publish(s.clients, Strip(data)), p.next)
  }

  /** One pass of a client's loop: poll, then take the front of its own queue if there is one. */
  datatype Iteration = Iteration(sent: Option<string>, server: Server)

  function Iterate(s: Server, id: QueueId, content: string): (it: Iteration)
    requires Valid(s) && id in s.clients.queues
    ensures Valid(it.server) && it.server.clients.live == s.clients.live
    ensures it.server.lastPos == Poll(s, content).lastPos
    ensures it.server.clients.queues.Keys == s.clients.queues.Keys
    ensures forall k :: k in s.clients.queues && k != id ==>
      it.server.clients.queues[k] == Poll(s, content).clients.queues[k]
    ensures it.sent.None? ==> it.server == Poll(s, content) && Poll(s, content).clients.queues[id] == []
    ensures it.sent.Some? ==> [it.sent.value] + it.server.clients.queues[id] == Poll(s, content).clients.queues[id]
    ensures s.clients.queues[id] != [] ==> it.sent == Some(s.clients.queues[id][0])
    ensures id in s.clients.live && s.clients.queues[id] == [] && |content| > s.lastPos ==>
      it.sent == Some(Strip(content[s.lastPos..]))
    ensures id in s.clients.live && it.sent.None? ==> it.server == s
  {
    var s1 := Poll(s, content);
    PollFront(s, content, id);
    match Take(s1.clients, id)
    case None => Iteration(None, s1)
    case Some(t) =>
      TakeKeepsValid(s1.clients, id);
      Iteration(Some(t.item), s1.(clients := t.registry))
  }

  /** The registry operations one poll performs: a publish when there is new text, otherwise none. */
  function PollSteps(s: Server, content: string): (steps: seq<Step<string>>)
    ensures |steps| <= 1
    ensures steps != [] <==> |content| > s.lastPos
  {
    if |content| > s.lastPos then [PublishStep(Strip(content[s.lastPos..]))] else []
  }

  /** Nothing, or the one message sent. */
  function SentSeq(sent: Option<string>): (r: seq<string>)
    ensures |r| <= 1 && (r == [] <==> sent.None?)
    ensures sent.Some? ==> r == [sent.value]
  {
    match sent
    case None => []
    case Some(m) => [m]
  }

  /**
   * One pass of a client's loop is, on the registry, the poll's publish
   * followed by the client's take: every property proved of runs of
   * registry operations, first-in first-out delivery included, holds for
   * the server's clients, and what the client sends is what it takes.
   */
  lemma IterateIsPublishThenTake(s: Server, id: QueueId, content: string)
    requires Valid(s) && id in s.clients.queues
    ensures var steps := PollSteps(s, content) + [TakeStep(id)];
      && Iterate(s, id, content).server.clients == Run(s.clients, steps)
      && Received(s.clients, steps, id) == SentSeq(Iterate(s, id, content).sent)
  {
    IterateTakesAfterPoll(s, id, content);
    PollThenTakeIsRun(s, id, content);
  }

  /** The client's loop takes from its queue as the registry's take step does, after the poll. */
  lemma IterateTakesAfterPoll(s: Server, id: QueueId, content: string)
    requires Valid(s) && id in s.clients.queues
    ensures Iterate(s, id, content).server.clients == Apply(Poll(s, content).clients, TakeStep(id))
    ensures SentSeq(Iterate(s, id, content).sent) == ReceivedNow(Poll(s, content).clients, TakeStep(id), id)
  {
    TakeIsApply(Poll(s, content).clients, id);
  }

  /** The poll's registry operations, then the take, as one run. */
  lemma PollThenTakeIsRun(s: Server, id: QueueId, content: string)
    requires Valid(s) && id in s.clients.queues
    ensures var steps := PollSteps(s, content) + [TakeStep(id)];
      && Run(s.clients, steps) == Apply(Poll(s, content).clients, TakeStep(id))
      && Received(s.clients, steps, id) == ReceivedNow(Poll(s, content).clients, TakeStep(id), id)
  {
    if |content| > s.lastPos {
      PublishThenTakeIsRun(s, id, content);
    } else {
      TakeOnlyIsRun(s, id, content);
    }
  }

  lemma PublishThenTakeIsRun(s: Server, id: QueueId, content: string)
    requires Valid(s) && id in s.clients.queues && |content| > s.lastPos
    ensures var steps := PollSteps(s, content) + [TakeStep(id)];
      && Run(s.clients, steps) == Apply(Poll(s, content).clients, TakeStep(id))
      && Received(s.clients, steps, id) == ReceivedNow(Poll(s, content).clients, TakeStep(id), id)
  {
    var publish: Step<string> := PublishStep(Strip(content[s.lastPos..]));
    PollIsPublish(s, content);
    PublishThenTake(s.clients, publish, Poll(s, content).clients, PollSteps(s, content), id);
  }

  lemma TakeOnlyIsRun(s: Server, id: QueueId, content: string)
    requires Valid(s) && id in s.clients.queues && |content| <= s.lastPos
    ensures var steps := PollSteps(s, content) + [TakeStep(id)];
      && Run(s.clients, steps) == Apply(Poll(s, content).clients, TakeStep(id))
      && Received(s.clients, steps, id) == ReceivedNow(Poll(s, content).clients, TakeStep(id), id)
  {
    assert PollSteps(s, content) + [TakeStep(id)] == [TakeStep(id)];
    OneTake(s.clients, id);
  }

  /** A poll that reads new text is the registry's publish step. */
  lemma PollIsPublish(s: Server, content: string)
    requires Valid(s) && |content| > s.lastPos
    ensures Poll(s, content).clients == Apply(s.clients, PublishStep(Strip(content[s.lastPos..])))
  {
    assert ReadFrom(content, s.lastPos).raw == Some(content[s.lastPos..]);
  }

  /** One take, as a run of registry operations. */
  lemma OneTake(r: Registry<string>, id: QueueId)
    requires Fanout.Valid(r)
    ensures Run(r, [TakeStep(id)]) == Apply(r, TakeStep(id))
    ensures Received(r, [TakeStep(id)], id) == ReceivedNow(r, TakeStep(id), id)
  {
    var steps: seq<Step<string>> := [TakeStep(id)];
    assert steps[1..] == [];
  }

  /** A publish, then a take, as a run of registry operations. */
  lemma PublishThenTake(r: Registry<string>, publish: Step<string>, r1: Registry<string>, pre: seq<Step<string>>, id: QueueId)
    requires Fanout.Valid(r) && publish.PublishStep? && r1 == Apply(r, publish) && pre == [publish]
    ensures Run(r, pre + [TakeStep(id)]) == Apply(r1, TakeStep(id))
    ensures Received(r, pre + [TakeStep(id)], id) == ReceivedNow(r1, TakeStep(id), id)
  {
    var steps := pre + [TakeStep(id)];
    assert steps[0] == publish && steps[1..] == [TakeStep(id)];
    OneTake(r1, id);
  }

  /** The take of the client's loop is the registry's take step. */
  lemma TakeIsApply(r: Registry<string>, id: QueueId)
    requires Fanout.Valid(r) && id in r.queues
    ensures Take(r, id).None? ==> Apply(r, TakeStep(id)) == r && ReceivedNow(r, TakeStep(id), id) == []
    ensures Take(r, id).Some? ==> Apply(r, TakeStep(id)) == Take(r, id).value.registry
    ensures Take(r, id).Some? ==> ReceivedNow(r, TakeStep(id), id) == [Take(r, id).value.item]
  {
  }

  /** What a poll does to the front of one queue. */
  lemma PollFront(s: Server, content: string, id: QueueId)
    requires Valid(s) && id in s.clients.queues
    ensures var q := Poll(s, content).clients.queues[id];
      && (s.clients.queues[id] != [] ==> q != [] && q[0] == s.clients.queues[id][0])
      && (id in s.clients.live && s.clients.queues[id] == [] && |content| > s.lastPos ==> q == [Strip(content[s.lastPos..])])
      && (id in s.clients.live && q == [] ==> Poll(s, content) == s)
  {
  }

  /** A client is cancelled: its queue leaves the list. */
  function Disconnect(s: Server, id: QueueId): (res: Result<Server, RegistryError>)
    requires Valid(s)
    ensures res.Success? <==> id in s.clients.live
    ensures res.Success? ==> Valid(res.value) && id !in res.value.clients.live
    ensures res.Success? ==> res.value.clients.queues == s.clients.queues && res.value.lastPos == s.lastPos
  {
    match Leave(s.clients, id)
    case Failure(e) => Failure(e)
    case Success(r) => Success(s.(clients := r))
  }

  /** Poll once per file state in `cs`. */
  function PollEach(s: Server, cs: seq<string>): (s': Server)
    requires Valid(s)
    ensures Valid(s') && s'.clients.live == s.clients.live && s'.clients.queues.Keys == s.clients.queues.Keys
    decreases |cs|
  {
    if cs == [] then s else PollEach(Poll(s, cs[0]), cs[1..])
  }

  /**
   * Across any run of polls, every listed queue receives exactly the
   * payloads a single reader polling from the shared offset would send,
   * in order, and the shared offset ends where that reader's would.
   */
  lemma {:induction false} PollEachFansOut(s: Server, cs: seq<string>)
    requires Valid(s)
    ensures PollEach(s, cs).lastPos == PollAll(cs, s.lastPos).offset
    ensures forall k :: k in s.clients.queues && k in s.clients.live ==>
      PollEach(s, cs).clients.queues[k] == s.clients.queues[k] + Emitted(cs, s.lastPos)
    ensures forall k :: k in s.clients.queues && k !in s.clients.live ==>
      PollEach(s, cs).clients.queues[k] == s.clients.queues[k]
    decreases |cs|
  {
    if cs != [] {
      var s1 := Poll(s, cs[0]);
      var p := ReadFrom(cs[0], s.lastPos);
      assert s1.lastPos == p.next;
      PollEachFansOut(s1, cs[1..]);
      EmittedCons(cs, s.lastPos);
      forall k | k in s.clients.queues && k in s.clients.live
        ensures PollEach(s, cs).clients.queues[k] == s.clients.queues[k] + Emitted(cs, s.lastPos)
      {
        assert s1.clients.queues[k] == s.clients.queues[k] + Sent(p);
        AppendAssoc(s.clients.queues[k], Sent(p), Emitted(cs[1..], p.next));
      }
    }
  }


  /** Regrouping a concatenation; kept apart so the fan-out proof does not search for it. */
  lemma AppendAssoc(a: seq<string>, b: seq<string>, c: seq<string>)
    ensures (a + b) + c == a + (b + c)
  {
  }

  /**
   * Over any run of polls, a server started at the end of the file gives
   * every listed client whose queue was empty, stripped and in order,
   * chunks that concatenate to exactly the text appended since start-up.
   * That the polls run at all is not stated: in the code they run only
   * inside client loops, which stop polling once every client waits.
   */
  lemma ServerDeliversAppended(cs: seq<string>, s: Server, id: QueueId)
    requires cs != [] && AppendOnly(cs) && Valid(s)
    requires id in s.clients.live && id in s.clients.queues && s.clients.queues[id] == []
    requires s.lastPos == Initial(cs[0]).lastPos
    ensures cs[0] <= cs[|cs| - 1]
    ensures var polled := PollAll(cs, |cs[0]|);
      && Concat(polled.chunks) == cs[|cs| - 1][|cs[0]|..]
      && PollEach(s, cs).clients.queues[id] == StripEach(polled.chunks)
  {
    PollAllReadsAppended(cs, |cs[0]|);
    PollEachFansOut(s, cs);
  }

  /** As written, the first poll puts the whole file, history included, into every listed queue. */
  lemma AsWrittenFirstPollSendsHistory(content: string)
    requires content != []
    ensures var j := Connect(InitialAsWritten());
      Poll(Server(j.registry, 0), content).clients.queues[j.id] == [Strip(content)]
  {
  }
}
