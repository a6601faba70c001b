/**
 * The subscriber registry of the push endpoints (`clients_3`, `clients_4`):
 * a list of per-client FIFO queues. A client joins by appending a fresh
 * queue, the producer puts every item into every listed queue, each client
 * takes from the front of its own queue, and a cancelled client removes its
 * queue from the list.
 *
 * Every step is modelled as one atomic sequential action; the asynchronous
 * scheduling around them is not modelled.
 */
module Fanout {
  import opened Wrappers
  import opened Seqs

  /** The identity of a queue object. */
  type QueueId = nat

  /**
   * `live` is the Python list, in registration order. `queues` holds every
   * queue created so far, keyed by identity: a client still owns its queue
   * after removing it from the list. `next` is the identity of the next
   * queue to be created.
   */
  datatype Registry<T> = Registry(live: seq<QueueId>, queues: map<QueueId, seq<T>>, next: QueueId)

  predicate Distinct(xs: seq<QueueId>)
  {
    forall i, j :: 0 <= i < j < |xs| ==> xs[i] != xs[j]
  }

  /** Each queue is listed at most once, every listed queue exists, and identities are never reused. */
  predicate Valid<T>(r: Registry<T>)
  {
    && Distinct(r.live)
    && (forall i :: 0 <= i < |r.live| ==> r.live[i] in r.queues)
    && (forall k :: k in r.queues ==> k < r.next)
  }

  /** The module-level `clients_3 = []` / `clients_4 = []`. */
  function Empty<T>(): (r: Registry<T>)
    ensures Valid(r)
  {
    Registry([], map[], 0)
  }

  datatype Subscribed<T> = Subscribed(registry: Registry<T>, id: QueueId)

  /** `queue = asyncio.Queue(); clients.append(queue)`. */
  function Subscribe<T>(r: Registry<T>): (j: Subscribed<T>)
    requires Valid(r)
    ensures Valid(j.registry)
    ensures j.id !in r.queues
    ensures j.registry.live == r.live + [j.id]
    ensures j.registry.queues.Keys == r.queues.Keys + {j.id}
    ensures j.registry.queues[j.id] == []
    ensures forall k :: k in r.queues ==> j.registry.queues[k] == r.queues[k]
  {
    Subscribed(Registry(r.live + [r.next], r.queues[r.next := []], r.next + 1), r.next)
  }

  /** `n` copies of `x`. */
  function Repeat<T>(x: T, n: nat): (r: seq<T>)
    ensures |r| == n
    ensures forall i :: 0 <= i < n ==> r[i] == x
  {
    if n == 0 then [] else [x] + Repeat(x, n - 1)
  }

  /**
   * `for q in targets: q.put_nowait(item)`: each queue gets one copy of
   * `item` at its back per time it occurs in `targets`; the others are
   * left alone.
   */
  function PutAll<T>(queues: map<QueueId, seq<T>>, targets: seq<QueueId>, item: T): (q: map<QueueId, seq<T>>)
    requires forall i :: 0 <= i < |targets| ==> targets[i] in queues
    ensures q.Keys == queues.Keys
    ensures forall k :: k in queues ==> q[k] == queues[k] + Repeat(item, multiset(targets)[k])
    decreases |targets|
  {
    if targets == [] then queues
    else
      var t := targets[0];
      var q1 := queues[t := queues[t] + [item]];
      var rest := targets[1..];
      TargetsStillIn(queues, targets, q1);
      var q := PutAll(q1, rest, item);
      assert targets == [t] + rest;
      PutAllStep(queues, t, rest, item, q);
      q
  }

  lemma TargetsStillIn<T>(queues: map<QueueId, seq<T>>, targets: seq<QueueId>, q1: map<QueueId, seq<T>>)
    requires targets != [] && queues.Keys == q1.Keys
    requires forall i :: 0 <= i < |targets| ==> targets[i] in queues
    ensures forall i :: 0 <= i < |targets[1..]| ==> targets[1..][i] in q1
  {
    forall i | 0 <= i < |targets[1..]| ensures targets[1..][i] in q1 {
      assert targets[1..][i] == targets[i + 1];
    }
  }

  /** Putting into the first target, then into the rest, is putting into all of them. */
  lemma PutAllStep<T>(queues: map<QueueId, seq<T>>, t: QueueId, rest: seq<QueueId>, item: T, q: map<QueueId, seq<T>>)
    requires t in queues
    requires forall k :: k in queues ==> k in q && q[k] == queues[t := queues[t] + [item]][k] + Repeat(item, multiset(rest)[k])
    ensures forall k :: k in queues ==> q[k] == queues[k] + Repeat(item, multiset([t] + rest)[k])
  {
    forall k | k in queues ensures q[k] == queues[k] + Repeat(item, multiset([t] + rest)[k]) {
      var n := multiset(rest)[k];
      if k == t {
        assert multiset([t] + rest)[k] == n + 1;
        assert Repeat(item, n + 1) == [item] + Repeat(item, n);
        assert q[k] == (queues[k] + [item]) + Repeat(item, n);
      } else {
        assert multiset([t] + rest)[k] == n;
      }
    }
  }

  /** In a list without repetitions a queue occurs once if listed and not at all otherwise. */
  lemma {:induction false} DistinctCount(xs: seq<QueueId>, k: QueueId)
    requires Distinct(xs)
    ensures multiset(xs)[k] == if k in xs then 1 else 0
  {
    if xs != [] {
      assert xs == [xs[0]] + xs[1..];
      assert Distinct(xs[1..]) by {
        forall i, j | 0 <= i < j < |xs[1..]| ensures xs[1..][i] != xs[1..][j] {
          assert xs[1..][i] == xs[i + 1] && xs[1..][j] == xs[j + 1];
        }
      }
      DistinctCount(xs[1..], k);
      assert xs[0] !in xs[1..] by {
        forall i | 0 <= i < |xs[1..]| ensures xs[1..][i] != xs[0] {
          assert xs[1..][i] == xs[i + 1];
        }
      }
    }
  }

  /**
   * The producer's fan-out: every listed queue gets `item` at its back,
   * exactly once, and no other queue changes.
   */
  function Publish<T>(r: Registry<T>, item: T): (r': Registry<T>)
    requires Valid(r)
    ensures Valid(r')
    ensures r'.live == r.live && r'.next == r.next
    ensures r'.queues.Keys == r.queues.Keys
    ensures forall k :: k in r.queues && k in r.live ==> r'.queues[k] == r.queues[k] + [item]
    ensures forall k :: k in r.queues && k !in r.live ==> r'.queues[k] == r.queues[k]
  {
    var q := PutAll(r.queues, r.live, item);
    PutOncePerListing(r, item, q);
    Registry(r.live, q, r.next)
  }

  /** Putting once per listing into a list without repetitions puts exactly once into each listed queue. */
  lemma PutOncePerListing<T>(r: Registry<T>, item: T, q: map<QueueId, seq<T>>)
    requires Valid(r)
    requires forall k :: k in r.queues ==> k in q && q[k] == r.queues[k] + Repeat(item, multiset(r.live)[k])
    ensures forall k :: k in r.queues && k in r.live ==> q[k] == r.queues[k] + [item]
    ensures forall k :: k in r.queues && k !in r.live ==> q[k] == r.queues[k]
  {
    forall k | k in r.queues
      ensures q[k] == r.queues[k] + (if k in r.live then [item] else [])
    {
      DistinctCount(r.live, k);
      assert Repeat(item, 1) == [item] + Repeat(item, 0);
    }
  }

  datatype Taken<T> = Taken(item: T, registry: Registry<T>)

  /**
   * `await queue.get()` by the client owning `id`: the front item, or
   * `None` when the queue is empty and the client would wait. Only that
   * client's queue changes.
   */
  function Take<T>(r: Registry<T>, id: QueueId): (t: Option<Taken<T>>)
    requires id in r.queues
    ensures t.None? <==> r.queues[id] == []
    ensures t.Some? ==> t.value.registry.queues.Keys == r.queues.Keys
    ensures t.Some? ==> [t.value.item] + t.value.registry.queues[id] == r.queues[id]
    ensures t.Some? ==> t.value.registry.live == r.live && t.value.registry.next == r.next
    ensures t.Some? ==> forall k :: k in r.queues && k != id ==> t.value.registry.queues[k] == r.queues[k]
  {
    var q := r.queues[id];
    if q == [] then None
    else Some(Taken(q[0], r.(queues := r.queues[id := q[1..]])))
  }

  /** Taking from a queue keeps the registry valid. */
  lemma TakeKeepsValid<T>(r: Registry<T>, id: QueueId)
    requires Valid(r) && id in r.queues && r.queues[id] != []
    ensures Valid(Take(r, id).value.registry)
  {
    var r' := Take(r, id).value.registry;
    assert r'.live == r.live && r'.queues.Keys == r.queues.Keys && r'.next == r.next;
  }

  /** `list.remove(x)`: the list without the first occurrence of `x`. */
  function RemoveFirst(xs: seq<QueueId>, x: QueueId): (r: seq<QueueId>)
    requires x in xs
    ensures r == xs[..IndexOf(xs, x)] + xs[IndexOf(xs, x) + 1..]
  {
    if xs[0] == x then xs[1..]
    else
      var j := IndexOf(xs[1..], x);
      assert IndexOf(xs, x) == j + 1;
      assert [xs[0]] + xs[1..][..j] == xs[..j + 1];
      assert xs[1..][j + 1..] == xs[j + 2..];
      [xs[0]] + RemoveFirst(xs[1..], x)
  }

  /** `list.remove` raises `ValueError` for a queue that is not in the list. */
  datatype RegistryError = NotListed

  /**
   * `clients.remove(queue)` on cancellation: the queue leaves the list, the
   * order of the others and every queue's contents stay as they were.
   */
  function Leave<T>(r: Registry<T>, id: QueueId): (res: Result<Registry<T>, RegistryError>)
    requires Valid(r)
    ensures res.Success? <==> id in r.live
    ensures res.Success? ==> Valid(res.value)
    ensures res.Success? ==> id !in res.value.live
    ensures res.Success? ==> res.value.live == RemoveFirst(r.live, id)
    ensures res.Success? ==> multiset(res.value.live) == multiset(r.live) - multiset{id}
    ensures res.Success? ==> res.value.queues == r.queues && res.value.next == r.next
  {
    if id !in r.live then Failure(NotListed)
    else
      var live := RemoveFirst(r.live, id);
      RemoveFirstDistinct(r.live, id);
      Success(r.(live := live))
  }

  /** Removing a queue from a list without repetitions removes it completely and keeps the rest. */
  lemma RemoveFirstDistinct(xs: seq<QueueId>, x: QueueId)
    requires Distinct(xs) && x in xs
    ensures Distinct(RemoveFirst(xs, x))
    ensures x !in RemoveFirst(xs, x)
    ensures multiset(RemoveFirst(xs, x)) == multiset(xs) - multiset{x}
    ensures forall j :: 0 <= j < |RemoveFirst(xs, x)| ==> RemoveFirst(xs, x)[j] in xs
  {
    RemoveFirstKeepsDistinct(xs, x);
    RemoveFirstDropsIt(xs, x);
    RemoveFirstCount(xs, x);
  }

  lemma RemoveFirstKeepsDistinct(xs: seq<QueueId>, x: QueueId)
    requires Distinct(xs) && x in xs
    ensures Distinct(RemoveFirst(xs, x))
  {
    var i := IndexOf(xs, x);
    var r := RemoveFirst(xs, x);
    RemoveFirstShifts(xs, x);
    forall a, b | 0 <= a < b < |r| ensures r[a] != r[b] {
      ShiftDistinct(xs, i, a, b);
    }
  }

  lemma RemoveFirstDropsIt(xs: seq<QueueId>, x: QueueId)
    requires Distinct(xs) && x in xs
    ensures x !in RemoveFirst(xs, x)
    ensures forall j :: 0 <= j < |RemoveFirst(xs, x)| ==> RemoveFirst(xs, x)[j] in xs
  {
    var i := IndexOf(xs, x);
    var r := RemoveFirst(xs, x);
    RemoveFirstShifts(xs, x);
    forall j | 0 <= j < |r| ensures r[j] != x && r[j] in xs {
      ShiftDistinct(xs, i, j, j);
    }
  }

  lemma RemoveFirstShifts(xs: seq<QueueId>, x: QueueId)
    requires x in xs
    ensures |RemoveFirst(xs, x)| == |xs| - 1
    ensures forall j :: 0 <= j < |xs| - 1 ==>
      RemoveFirst(xs, x)[j] == xs[if j < IndexOf(xs, x) then j else j + 1]
  {
    var i := IndexOf(xs, x);
    var r := RemoveFirst(xs, x);
    assert r == xs[..i] + xs[i + 1..];
    forall j | 0 <= j < |xs| - 1 ensures r[j] == xs[if j < i then j else j + 1] {
      SliceSkip(xs, i, j);
    }
  }

  lemma SliceSkip(xs: seq<QueueId>, i: nat, j: nat)
    requires i < |xs| && j < |xs| - 1
    ensures (xs[..i] + xs[i + 1..])[j] == xs[if j < i then j else j + 1]
  {
    if j < i {
      assert (xs[..i] + xs[i + 1..])[j] == xs[..i][j];
    } else {
      assert (xs[..i] + xs[i + 1..])[j] == xs[i + 1..][j - i];
    }
  }

  /** Skipping position `i` maps distinct positions to distinct, non-`i` positions. */
  lemma ShiftDistinct(xs: seq<QueueId>, i: nat, a: nat, b: nat)
    requires Distinct(xs) && i < |xs| && a <= b < |xs| - 1
    ensures xs[if a < i then a else a + 1] != xs[i]
    ensures a < b ==> xs[if a < i then a else a + 1] != xs[if b < i then b else b + 1]
  {
  }

  lemma {:induction false} RemoveFirstCount(xs: seq<QueueId>, x: QueueId)
    requires x in xs
    ensures multiset(RemoveFirst(xs, x)) == multiset(xs) - multiset{x}
  {
    assert xs == [xs[0]] + xs[1..];
    if xs[0] != x {
      RemoveFirstCount(xs[1..], x);
      assert RemoveFirst(xs, x) == [xs[0]] + RemoveFirst(xs[1..], x);
    }
  }

  /** One atomic action on the registry. */
  datatype Step<T> = SubscribeStep | PublishStep(item: T) | TakeStep(id: QueueId) | LeaveStep(id: QueueId)

  /** Apply one action; a take from an empty queue waits and a failed removal changes nothing. */
  function Apply<T>(r: Registry<T>, s: Step<T>): (r': Registry<T>)
    requires Valid(r)
    ensures Valid(r')
    ensures r.queues.Keys <= r'.queues.Keys
    ensures forall k :: k in r.queues && k !in r.live ==> k !in r'.live
  {
    match s
    case SubscribeStep => Subscribe(r).registry
    case PublishStep(x) => Publish(r, x)
    case TakeStep(id) =>
      if id in r.queues then
        match Take(r, id)
        case None => r
        case Some(t) => t.registry
      else r
    case LeaveStep(id) =>
      match Leave(r, id)
      case Failure(_) => r
      case Success(r') => r'
  }

  function Run<T>(r: Registry<T>, steps: seq<Step<T>>): (r': Registry<T>)
    requires Valid(r)
    ensures Valid(r')
    ensures r.queues.Keys <= r'.queues.Keys
    decreases |steps|
  {
    if steps == [] then r else Run(Apply(r, steps[0]), steps[1..])
  }

  /** The item the client owning `id` takes in step `s`, if any. */
  function ReceivedNow<T>(r: Registry<T>, s: Step<T>, id: QueueId): seq<T>
  {
    match s
    case TakeStep(i) =>
      if i == id && id in r.queues && r.queues[id] != [] then [r.queues[id][0]] else []
    case _ => []
  }

  /** The item step `s` puts into the queue `id`, if any. */
  function DeliveredNow<T>(r: Registry<T>, s: Step<T>, id: QueueId): seq<T>
  {
    match s
    case PublishStep(x) => if id in r.live then [x] else []
    case _ => []
  }

  /** The items the client owning `id` takes from its queue along `steps`. */
  function Received<T>(r: Registry<T>, steps: seq<Step<T>>, id: QueueId): seq<T>
    requires Valid(r)
    decreases |steps|
  {
    if steps == [] then []
    else ReceivedNow(r, steps[0], id) + Received(Apply(r, steps[0]), steps[1..], id)
  }

  /** The items published along `steps` while `id` is listed. */
  function Delivered<T>(r: Registry<T>, steps: seq<Step<T>>, id: QueueId): seq<T>
    requires Valid(r)
    decreases |steps|
  {
    if steps == [] then []
    else DeliveredNow(r, steps[0], id) + Delivered(Apply(r, steps[0]), steps[1..], id)
  }

  /** One step keeps the queue `id` first-in first-out. */
  lemma StepIsFifo<T>(r: Registry<T>, s: Step<T>, id: QueueId)
    requires Valid(r) && id in r.queues
    ensures id in Apply(r, s).queues
    ensures r.queues[id] + DeliveredNow(r, s, id) == ReceivedNow(r, s, id) + Apply(r, s).queues[id]
  {
    match s
    case SubscribeStep =>
      assert Apply(r, s).queues[id] == r.queues[id];
    case PublishStep(x) =>
      PublishIsFifo(r, x, id);
    case TakeStep(i) =>
      TakeIsFifo(r, i, id);
    case LeaveStep(i) =>
      LeaveIsFifo(r, i, id);
  }

  lemma PublishIsFifo<T>(r: Registry<T>, x: T, id: QueueId)
    requires Valid(r) && id in r.queues
    ensures id in Apply(r, PublishStep(x)).queues
    ensures r.queues[id] + DeliveredNow(r, PublishStep(x), id) == Apply(r, PublishStep(x)).queues[id]
  {
    assert Apply(r, PublishStep(x)) == Publish(r, x);
  }

  lemma LeaveIsFifo<T>(r: Registry<T>, i: QueueId, id: QueueId)
    requires Valid(r) && id in r.queues
    ensures Apply(r, LeaveStep(i)).queues == r.queues
  {
  }

  lemma TakeIsFifo<T>(r: Registry<T>, i: QueueId, id: QueueId)
    requires Valid(r) && id in r.queues
    ensures id in Apply(r, TakeStep(i)).queues
    ensures r.queues[id] == ReceivedNow(r, TakeStep(i), id) + Apply(r, TakeStep(i)).queues[id]
  {
    var r' := Apply(r, TakeStep(i));
    if i in r.queues && r.queues[i] != [] {
      var t := Take(r, i).value;
      assert r' == t.registry;
      if i == id {
        assert [t.item] + r'.queues[id] == r.queues[id];
      } else {
        assert r'.queues[id] == r.queues[id];
      }
    } else {
      assert r' == r;
    }
  }

  /**
   * Per-queue FIFO: what a client had queued plus everything published
   * while it was listed equals, in the same order, what it took plus what
   * is still queued. Nothing is lost, duplicated or reordered, whatever
   * the other clients do.
   */
  lemma {:induction false} QueueIsFifo<T>(r: Registry<T>, steps: seq<Step<T>>, id: QueueId)
    requires Valid(r) && id in r.queues
    ensures id in Run(r, steps).queues
    ensures r.queues[id] + Delivered(r, steps, id) == Received(r, steps, id) + Run(r, steps).queues[id]
    decreases |steps|
  {
    if steps != [] {
      var r1 := Apply(r, steps[0]);
      StepIsFifo(r, steps[0], id);
      QueueIsFifo(r1, steps[1..], id);
      var a, b, f := r.queues[id], r1.queues[id], Run(r1, steps[1..]).queues[id];
      var d0, d := DeliveredNow(r, steps[0], id), Delivered(r1, steps[1..], id);
      var c0, c := ReceivedNow(r, steps[0], id), Received(r1, steps[1..], id);
      Chain(a, b, f, d0, d, c0, c);
    }
  }

  /** Two FIFO stretches of a queue compose into one. */
  lemma Chain<T>(a: seq<T>, b: seq<T>, f: seq<T>, d0: seq<T>, d: seq<T>, c0: seq<T>, c: seq<T>)
    requires a + d0 == c0 + b && b + d == c + f
    ensures a + (d0 + d) == (c0 + c) + f
  {
    calc {
      a + (d0 + d);
      (a + d0) + d;
      (c0 + b) + d;
      c0 + (b + d);
      c0 + (c + f);
      (c0 + c) + f;
    }
  }

  /** A queue removed from the list never receives anything again. */
  lemma {:induction false} LeftQueueGetsNothing<T>(r: Registry<T>, steps: seq<Step<T>>, id: QueueId)
    requires Valid(r) && id in r.queues && id !in r.live
    ensures Delivered(r, steps, id) == []
    decreases |steps|
  {
    if steps != [] {
      LeftQueueGetsNothing(Apply(r, steps[0]), steps[1..], id);
    }
  }
}
