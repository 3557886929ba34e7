/**
 The event queue of libgwm/libgwm.c: any number of threads append events under
 a mutex and then post a semaphore; one thread waits on the semaphore, takes
 the mutex and removes events, dropping an event when the one behind it makes
 it redundant.  Dropping waits on the semaphore again with the mutex held.

 `System` is the state of all threads together and each of its methods is one
 atomic step of one thread, so a run is any sequence of calls whose
 preconditions hold: a thread blocked on the mutex or the semaphore is a step
 whose precondition does not hold.
 */
module EventQueue {
  import opened LinkedLists

  type Tid = nat

  const EVENT_UPDATE := 3
  const EVENT_MOTION := 5
  const EVENT_RESIZE_REQUEST := 10
  const EVENT_AGG := 0x4000000

  datatype Event = Event(evType: nat, win: nat)

  /** EventBuffer: a list node holding an event. */
  type Buffers = Heap<Event>

  /** `type & GWM_EVENT_AGG`, for the non-negative types there are. */
  predicate HasAggBit(t: nat) {
    t / EVENT_AGG % 2 == 1
  }

  /** The event behind makes this one redundant: what the documentation calls aggregation. */
  predicate Absorbs(behind: Event, ev: Event) {
    && behind.evType == ev.evType
    && (ev.evType == EVENT_MOTION
        || ((ev.evType == EVENT_UPDATE || ev.evType == EVENT_RESIZE_REQUEST || HasAggBit(ev.evType))
            && behind.win == ev.win))
  }

  /**
   Where a producer is: between calls, wanting the mutex, holding it, holding it with
   the event linked, about to post.
   */
  datatype Producer = Idle | Want(ev: Event) | Locked(ev: Event) | Enqueued | Posting

  /** Where the consumer is in gwmWaitEvent. */
  datatype Consumer =
    | Outside
    | Waiting                 // in the first sem_wait
    | HasToken                // past it, wanting the mutex
    | Taking                  // holding the mutex, about to remove an event
    | Deciding(ev: Event)     // removed ev
    | InnerWait(ev: Event)    // dropping ev: sem_wait with the mutex held
    | Returning(ev: Event)    // about to unlock and return ev

  datatype Holder = Free | HeldBy(t: Tid) | HeldByConsumer

  // ----- the list

  /** The pointers spell out q; lastEvent is stale, and not looked at, while q is empty. */
  ghost predicate Chain(heap: Buffers, first: Option<Ptr>, last: Option<Ptr>, q: seq<Ptr>) {
    Linked(heap, first, q) && (q != [] ==> last == Some(q[|q| - 1]))
  }

  ghost function Payloads(heap: Buffers, q: seq<Ptr>): (s: seq<Event>)
    requires forall i :: 0 <= i < |q| ==> q[i] in heap
    ensures |s| == |q| && forall i :: 0 <= i < |q| ==> s[i] == heap[q[i]].data
  {
    seq(|q|, i requires 0 <= i < |q| => heap[q[i]].data)
  }

  /** The enqueue code shared by the listening thread and gwmPostUpdateEx. */
  lemma AppendChains(heap: Buffers, first: Option<Ptr>, last: Option<Ptr>, q: seq<Ptr>, p: Ptr, ev: Event)
    requires Chain(heap, first, last, q) && p !in heap
    ensures (first == None <==> q == []) && (q != [] ==> last.Some? && last.value in heap)
    ensures var h := Append(heap, if first == None then None else last, p, ev);
            && Chain(h, if q == [] then Some(p) else first, Some(p), q + [p])
            && (forall i :: 0 <= i < |q| ==> q[i] in heap) && (forall i :: 0 <= i <= |q| ==> (q + [p])[i] in h)
            && Payloads(h, q + [p]) == Payloads(heap, q) + [ev]
  {
    hide Linked, Append;
    LinkedInHeap(heap, first, q);
    AppendLinks(heap, first, q, p, ev);
  }

  /** Taking the first node off; the node itself stays allocated, as in the source. */
  lemma RemoveChains(heap: Buffers, first: Option<Ptr>, last: Option<Ptr>, q: seq<Ptr>)
    requires Chain(heap, first, last, q) && q != []
    ensures first == Some(q[0]) && (forall i :: 0 <= i < |q| ==> q[i] in heap)
    ensures heap[q[0]].data == Payloads(heap, q)[0] && heap[q[0]].prev == None
    ensures heap[q[0]].next.Some? ==> heap[q[0]].next.value in heap
    ensures Chain(Unlink(heap, q[0]), heap[q[0]].next, last, q[1..])
    ensures forall i :: 1 <= i < |q| ==> q[i] in Unlink(heap, q[0])
    ensures Payloads(Unlink(heap, q[0]), q[1..]) == Payloads(heap, q)[1..]
  {
    hide Linked, Unlink, Without;
    LinkedInHeap(heap, first, q);
    NodeLinks(heap, first, q, 0);
    UnlinkLinks(heap, first, q, 0);
    LinkedInHeap(Unlink(heap, q[0]), heap[q[0]].next, Without(q, 0));
    assert Without(q, 0) == q[1..];
    assert forall i :: 1 <= i < |q| ==> q[i] == q[1..][i - 1];
  }

  lemma UnlinkFirst(h: Buffers, p: Ptr)
    requires p in h && h[p].prev == None && (h[p].next.Some? ==> h[p].next.value in h)
    ensures Unlink(h, p) ==
      if h[p].next.Some? then h[h[p].next.value := h[h[p].next.value].(prev := None)] else h
  {
  }

  lemma FirstOf(heap: Buffers, first: Option<Ptr>, last: Option<Ptr>, q: seq<Ptr>)
    requires Chain(heap, first, last, q)
    ensures first == None <==> q == []
    ensures q != [] ==> first == Some(q[0]) && q[0] in heap
  {
    LinkedInHeap(heap, first, q);
  }

  // ----- histories

  /** What became of an event that left the queue. */
  datatype Fate = Delivered | Dropped

  function Pick(log: seq<Event>, fates: seq<Fate>): seq<Event>
    requires |fates| <= |log|
  {
    if fates == [] then []
    else
      var n := |fates| - 1;
      Pick(log, fates[..n]) + (if fates[n] == Delivered then [log[n]] else [])
  }

  lemma {:induction false} PickPrefix(log: seq<Event>, more: seq<Event>, fates: seq<Fate>)
    requires |fates| <= |log|
    ensures Pick(log + more, fates) == Pick(log, fates)
  {
    if fates != [] {
      PickPrefix(log, more, fates[..|fates| - 1]);
    }
  }

  /** The producers whose event is in the queue but whose post is still to come. */
  ghost function Unposted(producers: map<Tid, Producer>): set<Tid> {
    set t | t in producers && (producers[t] == Enqueued || producers[t] == Posting)
  }

  /** The wait that the consumer has done for an event it has not removed yet. */
  function Outstanding(c: Consumer): nat {
    if c == HasToken || c == Taking then 1 else 0
  }

  /** The event that the consumer has removed and not yet decided on. */
  function InHand(c: Consumer): nat {
    if c.Deciding? then 1 else 0
  }

  predicate ConsumerHolds(c: Consumer) {
    c == Taking || c.Deciding? || c.InnerWait? || c.Returning?
  }

  // ----- the laws that every run keeps

  /** The counting law, on values: queue length, semaphore, unposted producers, outstanding wait. */
  ghost predicate CountingLaw(queued: nat, sem: nat, producers: map<Tid, Producer>, consumer: Consumer) {
    && queued == sem + |Unposted(producers)| + Outstanding(consumer)
    && (consumer.InnerWait? ==> queued > 0)
  }

  /** The mutex, on values. */
  ghost predicate MutexLaw(lock: Holder, producers: map<Tid, Producer>, consumer: Consumer) {
    && (lock == HeldByConsumer <==> ConsumerHolds(consumer))
    && (forall t :: t in producers ==> (lock == HeldBy(t) <==> producers[t].Locked? || producers[t] == Enqueued))
    && (lock.HeldBy? ==> lock.t in producers)
  }

  /** Motions, updates, resize requests, and events whose type has bit 26: no others may ever be dropped. */
  predicate MayBeDropped(evType: nat) {
    evType == 5 || evType == 3 || evType == 10 || evType / 0x400_0000 % 2 == 1
  }

  /**
   The history: of the events enqueued, some have a fate, one may be in the
   consumer's hand, and the rest are in the queue. Only redundant ones are dropped,
   and those delivered have been returned, but for the one about to be.
   */
  ghost predicate HistoryLaw(
    data: seq<Event>, log: seq<Event>, fates: seq<Fate>, returned: seq<Event>, consumer: Consumer
  ) {
    && |log| == |fates| + InHand(consumer) + |data|
    && log[|log| - |data|..] == data
    && (consumer.Deciding? ==> log[|fates|] == consumer.ev)
    && (forall i :: 0 <= i < |fates| && fates[i] == Dropped ==> i + 1 < |log| && Absorbs(log[i + 1], log[i]))
    && (forall i :: 0 <= i < |fates| && fates[i] == Dropped ==> MayBeDropped(log[i].evType))
    && (consumer.InnerWait? ==> |fates| > 0 && fates[|fates| - 1] == Dropped)
    && Pick(log, fates) == returned + (if consumer.Returning? then [consumer.ev] else [])
  }

  lemma NothingYet(producers: map<Tid, Producer>)
    requires forall t :: t in producers ==> producers[t] == Idle
    ensures MutexLaw(Free, producers, Outside) && CountingLaw(0, 0, producers, Outside)
    ensures HistoryLaw([], [], [], [], Outside)
  {
    assert Unposted(producers) == {};
  }

  lemma HistoryLinked(
    data: seq<Event>, log: seq<Event>, fates: seq<Fate>, returned: seq<Event>, consumer: Consumer, ev: Event
  )
    requires HistoryLaw(data, log, fates, returned, consumer)
    ensures HistoryLaw(data + [ev], log + [ev], fates, returned, consumer)
  {
    hide Pick;
    PickPrefix(log, [ev], fates);
    assert (log + [ev])[|log| - |data|..] == log[|log| - |data|..] + [ev];
  }

  lemma HistoryTaken(data: seq<Event>, log: seq<Event>, fates: seq<Fate>, returned: seq<Event>)
    requires HistoryLaw(data, log, fates, returned, Taking) && data != []
    ensures |fates| < |log| && data[0] == log[|fates|]
    ensures HistoryLaw(data[1..], log, fates, returned, Deciding(data[0]))
  {
    hide Pick;
    var k := |log| - |data|;
    assert log[k + 1..] == log[k..][1..] && log[k] == log[k..][0];
  }

  lemma HistoryDecided(
    data: seq<Event>, log: seq<Event>, fates: seq<Fate>, returned: seq<Event>, ev: Event, drop: bool
  )
    requires HistoryLaw(data, log, fates, returned, Deciding(ev))
    requires drop <==> data != [] && Absorbs(data[0], ev)
    ensures data != [] ==> log[|log| - |data|] == data[0]
    ensures HistoryLaw(data, log, fates + [if drop then Dropped else Delivered], returned,
                       if drop then InnerWait(ev) else Returning(ev))
  {
    AbsorbsFew(if data != [] then data[0] else ev, ev);
    hide Absorbs, MayBeDropped;
    var f := fates + [if drop then Dropped else Delivered];
    var k := |log| - |data|;
    assert f[..|fates|] == fates;
    assert data != [] ==> log[k] == log[k..][0];
  }

  /** One event absorbs another only as the four tests of the source say. */
  lemma AbsorbsFew(behind: Event, ev: Event)
    ensures Absorbs(behind, ev) ==> MayBeDropped(ev.evType)
    ensures Absorbs(behind, ev) <==>
      && behind.evType == ev.evType
      && (ev.evType == 5
          || ((ev.evType == 3 || ev.evType == 10 || ev.evType / 0x400_0000 % 2 == 1) && behind.win == ev.win))
  {
  }

  lemma HistoryReturned(data: seq<Event>, log: seq<Event>, fates: seq<Fate>, returned: seq<Event>, ev: Event)
    requires HistoryLaw(data, log, fates, returned, Returning(ev))
    ensures HistoryLaw(data, log, fates, returned + [ev], Outside)
  {
    hide Pick;
  }

  /** Waiting and locking are no events. */
  lemma HistoryWaits(
    data: seq<Event>, log: seq<Event>, fates: seq<Fate>, returned: seq<Event>, c: Consumer, d: Consumer
  )
    requires HistoryLaw(data, log, fates, returned, c) && !c.Deciding? && !c.Returning?
    requires !d.Deciding? && !d.Returning? && !d.InnerWait?
    ensures HistoryLaw(data, log, fates, returned, d)
  {
    hide Pick;
  }

  // ----- the system

  class System {
    var heap: Buffers
    var firstEvent: Option<Ptr>
    var lastEvent: Option<Ptr>
    var sem: nat
    var lock: Holder
    var producers: map<Tid, Producer>
    var consumer: Consumer
    // history: every event enqueued so far, what became of those removed, what was returned
    ghost var queue: seq<Ptr>
    ghost var log: seq<Event>
    ghost var fates: seq<Fate>
    ghost var returned: seq<Event>

    /** The mutex is held by the thread that is in a critical section, and by no other. */
    ghost predicate MutexRight()
      reads this
    {
      MutexLaw(lock, producers, consumer)
    }

    /** The counting law of the protocol. */
    ghost predicate TokensRight()
      reads this
    {
      CountingLaw(|queue|, sem, producers, consumer)
    }

    ghost predicate HistoryRight()
      reads this
    {
      && (forall i :: 0 <= i < |queue| ==> queue[i] in heap)
      && HistoryLaw(Payloads(heap, queue), log, fates, returned, consumer)
    }

    ghost predicate Valid()
      reads this
    {
      && Chain(heap, firstEvent, lastEvent, queue)
      && MutexRight() && TokensRight() && HistoryRight()
    }

    constructor (threads: set<Tid>)
      ensures Valid() && log == [] && returned == [] && consumer == Outside
      ensures producers.Keys == threads && forall t :: t in threads ==> producers[t] == Idle
    {
      hide HistoryLaw, CountingLaw, MutexLaw;
      heap := map[];
      firstEvent, lastEvent := None, None;
      sem := 0;
      lock := Free;
      producers := map t | t in threads :: Idle;
      consumer := Outside;
      queue, log, fates, returned := [], [], [], [];
      new;
      NothingYet(producers);
    }

    // ----- steps of a producer

    method Produce(t: Tid, ev: Event)
      requires Valid() && t in producers && producers[t] == Idle
      modifies this`producers
      ensures Valid() && producers == old(producers)[t := Want(ev)]
    {
      hide Chain, Payloads, HistoryLaw;
      producers := producers[t := Want(ev)];
      assert Unposted(producers) == Unposted(old(producers));
    }

    method ProducerLock(t: Tid)
      requires Valid() && t in producers && producers[t].Want? && lock == Free
      modifies this`producers, this`lock
      ensures Valid() && producers == old(producers)[t := Locked(old(producers)[t].ev)] && lock == HeldBy(t)
    {
      hide Chain, Payloads, HistoryLaw;
      producers := producers[t := Locked(producers[t].ev)];
      lock := HeldBy(t);
      assert Unposted(producers) == Unposted(old(producers));
    }

    /** The linking code of the listening thread and of gwmPostUpdateEx. */
    method Append(p: Ptr, ev: Event)
      requires Chain(heap, firstEvent, lastEvent, queue) && p !in heap
      modifies this`heap, this`firstEvent, this`lastEvent, this`queue
      ensures Chain(heap, firstEvent, lastEvent, queue) && queue == old(queue) + [p]
      ensures forall i :: 0 <= i < |old(queue)| ==> old(queue)[i] in old(heap)
      ensures forall i :: 0 <= i < |queue| ==> queue[i] in heap
      ensures Payloads(heap, queue) == Payloads(old(heap), old(queue)) + [ev]
    {
      hide Chain, Payloads;
      AppendChains(heap, firstEvent, lastEvent, queue, p, ev);
      if firstEvent == None {
        heap := heap[p := Node(None, None, ev)];
        firstEvent := Some(p);
        lastEvent := Some(p);
      } else {
        heap := heap[p := Node(lastEvent, None, ev)];
        heap := heap[lastEvent.value := heap[lastEvent.value].(next := Some(p))];
        lastEvent := Some(p);
      }
      assert heap == LinkedLists.Append(old(heap), if old(firstEvent) == None then None else old(lastEvent), p, ev);
      queue := queue + [p];
    }

    /** Append the event; malloc may return any unused address. */
    method ProducerLink(t: Tid, p: Ptr)
      requires Valid() && t in producers && producers[t].Locked? && p !in heap
      modifies this`producers, this`heap, this`firstEvent, this`lastEvent, this`queue, this`log
      ensures Valid() && producers == old(producers)[t := Enqueued]
      ensures queue == old(queue) + [p] && log == old(log) + [old(producers)[t].ev]
    {
      hide Chain, Payloads, HistoryLaw;
      var ev := producers[t].ev;
      HistoryLinked(Payloads(heap, queue), log, fates, returned, consumer, ev);
      Append(p, ev);
      log := log + [ev];
      producers := producers[t := Enqueued];
      assert Unposted(producers) == Unposted(old(producers)) + {t};
    }

    method ProducerUnlock(t: Tid)
      requires Valid() && t in producers && producers[t] == Enqueued
      modifies this`producers, this`lock
      ensures Valid() && producers == old(producers)[t := Posting] && lock == Free
    {
      hide Chain, Payloads, HistoryLaw;
      producers := producers[t := Posting];
      lock := Free;
      assert Unposted(producers) == Unposted(old(producers));
    }

    method ProducerPost(t: Tid)
      requires Valid() && t in producers && producers[t] == Posting
      modifies this`producers, this`sem
      ensures Valid() && producers == old(producers)[t := Idle] && sem == old(sem) + 1
    {
      hide Chain, Payloads, HistoryLaw;
      producers := producers[t := Idle];
      sem := sem + 1;
      assert Unposted(producers) == Unposted(old(producers)) - {t};
    }

    // ----- steps of the consumer

    method Call()
      requires Valid() && consumer == Outside
      modifies this`consumer
      ensures Valid() && consumer == Waiting
    {
      hide Chain, Payloads, HistoryLaw;
      HistoryWaits(Payloads(heap, queue), log, fates, returned, consumer, Waiting);
      consumer := Waiting;
    }

    method Wait()
      requires Valid() && consumer == Waiting && sem > 0
      modifies this`consumer, this`sem
      ensures Valid() && consumer == HasToken && sem == old(sem) - 1
    {
      hide Chain, Payloads, HistoryLaw;
      HistoryWaits(Payloads(heap, queue), log, fates, returned, consumer, HasToken);
      sem := sem - 1;
      consumer := HasToken;
    }

    method Lock()
      requires Valid() && consumer == HasToken && lock == Free
      modifies this`consumer, this`lock
      ensures Valid() && consumer == Taking && lock == HeldByConsumer
    {
      hide Chain, Payloads, HistoryLaw;
      HistoryWaits(Payloads(heap, queue), log, fates, returned, consumer, Taking);
      lock := HeldByConsumer;
      consumer := Taking;
    }

    /** Remove the first event.  firstEvent is not NULL here: the counting law says so. */
    method Take()
      requires Valid() && consumer == Taking
      modifies this`consumer, this`heap, this`firstEvent, this`queue
      ensures Valid() && old(queue) != [] && queue == old(queue)[1..] && |fates| < |log|
      ensures consumer == Deciding(log[|fates|])
    {
      hide Chain, Payloads, HistoryLaw, Unposted, Unlink;
      assert queue != [];
      HistoryTaken(Payloads(heap, queue), log, fates, returned);
      RemoveChains(heap, firstEvent, lastEvent, queue);
      ghost var h, p := heap, firstEvent.value;
      var ev := heap[firstEvent.value].data;
      firstEvent := heap[firstEvent.value].next;
      if firstEvent != None {
        heap := heap[firstEvent.value := heap[firstEvent.value].(prev := None)];
      }
      assert heap == Unlink(h, p) by { UnlinkFirst(h, p); }
      queue := queue[1..];
      consumer := Deciding(ev);
    }

    /** The aggregation tests, in the order of the source. */
    method Decide()
      requires Valid() && consumer.Deciding?
      modifies this`consumer, this`fates
      ensures Valid()
      ensures
        var ev := old(consumer).ev;
        var drop := queue != [] && Absorbs(log[|log| - |queue|], ev);
        && consumer == (if drop then InnerWait(ev) else Returning(ev))
        && fates == old(fates) + [if drop then Dropped else Delivered]
      ensures
        var ev := old(consumer).ev;
        consumer == InnerWait(ev) <==>
          && queue != []
          && var behind := log[|log| - |queue|];
          && behind.evType == ev.evType
          && (ev.evType == 5
              || ((ev.evType == 3 || ev.evType == 10 || ev.evType / 0x400_0000 % 2 == 1) && behind.win == ev.win))
    {
      hide Chain, HistoryLaw, Payloads;
      FirstOf(heap, firstEvent, lastEvent, queue);
      var ev := consumer.ev;
      var drop := false;
      ghost var data := Payloads(heap, queue);
      HistoryDecided(data, log, fates, returned, ev, queue != [] && Absorbs(data[0], ev));
      if ev.evType == EVENT_MOTION && firstEvent != None && heap[firstEvent.value].data.evType == EVENT_MOTION {
        drop := true;
      }
      if !drop && ev.evType == EVENT_UPDATE && firstEvent != None {
        var b := heap[firstEvent.value].data;
        if b.evType == EVENT_UPDATE && b.win == ev.win { drop := true; }
      }
      if !drop && HasAggBit(ev.evType) && firstEvent != None {
        var b := heap[firstEvent.value].data;
        if b.evType == ev.evType && b.win == ev.win { drop := true; }
      }
      if !drop && ev.evType == EVENT_RESIZE_REQUEST && firstEvent != None {
        var b := heap[firstEvent.value].data;
        if b.evType == EVENT_RESIZE_REQUEST && b.win == ev.win { drop := true; }
      }
      fates := fates + [if drop then Dropped else Delivered];
      consumer := if drop then InnerWait(ev) else Returning(ev);
    }

    /** The sem_wait with the mutex held; back to the top of the loop. */
    method WaitForNext()
      requires Valid() && consumer.InnerWait? && sem > 0
      modifies this`consumer, this`sem
      ensures Valid() && consumer == Taking && sem == old(sem) - 1
    {
      hide Chain, Payloads, HistoryLaw;
      HistoryWaits(Payloads(heap, queue), log, fates, returned, consumer, Taking);
      sem := sem - 1;
      consumer := Taking;
    }

    method Return() returns (ev: Event)
      requires Valid() && consumer.Returning?
      modifies this`consumer, this`lock, this`returned
      ensures Valid() && consumer == Outside && lock == Free
      ensures ev == old(consumer).ev && returned == old(returned) + [ev]
    {
      hide Chain, Payloads, HistoryLaw;
      ev := consumer.ev;
      HistoryReturned(Payloads(heap, queue), log, fates, returned, ev);
      lock := Free;
      returned := returned + [ev];
      consumer := Outside;
    }
  }

  // ----- what the invariant says about every run

  /** A thread other than the consumer that can take its next step now. */
  predicate CanStep(lock: Holder, p: Producer) {
    p.Locked? || p == Enqueued || p == Posting || (p.Want? && lock == Free)
  }

  /**
   The wait under the mutex cannot hang: either the semaphore is positive, or
   some producer is past its unlock with only its post to do.
   */
  lemma InnerWaitIsWoken(queued: nat, sem: nat, lock: Holder, producers: map<Tid, Producer>, consumer: Consumer)
    requires CountingLaw(queued, sem, producers, consumer) && MutexLaw(lock, producers, consumer)
    requires consumer.InnerWait?
    ensures sem > 0 || exists t :: t in producers && producers[t] == Posting
  {
    if sem == 0 {
      assert Unposted(producers) != {};
      var t :| t in Unposted(producers);
      assert lock != HeldBy(t);
    }
  }

  /**
   No wake-up is lost: a consumer that cannot get past its first wait, with no
   producer able to move, has nothing to read, and no event is on its way.
   */
  lemma BlockedMeansEmpty(queued: nat, sem: nat, lock: Holder, producers: map<Tid, Producer>, consumer: Consumer)
    requires CountingLaw(queued, sem, producers, consumer) && MutexLaw(lock, producers, consumer)
    requires consumer == Waiting && sem == 0
    requires forall t :: t in producers ==> !CanStep(lock, producers[t])
    ensures queued == 0 && forall t :: t in producers ==> producers[t] == Idle
  {
    assert Unposted(producers) == {};
    assert lock == Free;
  }

  /** No deadlock: unless the consumer waits for events that nobody is sending, some thread can move. */
  lemma NeverStuck(queued: nat, sem: nat, lock: Holder, producers: map<Tid, Producer>, consumer: Consumer)
    requires CountingLaw(queued, sem, producers, consumer) && MutexLaw(lock, producers, consumer)
    requires consumer != Outside
    ensures || (exists t :: t in producers && CanStep(lock, producers[t]))
            || (consumer == Waiting && sem > 0) || (consumer == HasToken && lock == Free)
            || consumer == Taking || consumer.Deciding? || (consumer.InnerWait? && sem > 0) || consumer.Returning?
            || (consumer == Waiting && queued == 0 && forall t :: t in producers ==> producers[t] == Idle)
  {
    if lock.HeldBy? {
      assert CanStep(lock, producers[lock.t]);
    }
    if forall t :: t in producers ==> !CanStep(lock, producers[t]) {
      if consumer == Waiting && sem == 0 {
        BlockedMeansEmpty(queued, sem, lock, producers, consumer);
      } else if consumer.InnerWait? {
        InnerWaitIsWoken(queued, sem, lock, producers, consumer);
      }
    }
  }

  /** In every run an event of any other type is delivered once it has left the queue. */
  lemma OthersAreDelivered(
    data: seq<Event>, log: seq<Event>, fates: seq<Fate>, returned: seq<Event>, consumer: Consumer, i: nat
  )
    requires HistoryLaw(data, log, fates, returned, consumer) && i < |fates|
    requires !(log[i].evType in {3, 5, 10}) && log[i].evType / 0x400_0000 % 2 == 0
    ensures fates[i] == Delivered
  {
    hide Pick;
  }

  /** Position i of the log belongs to the run of mutually redundant events that ends at position j. */
  ghost predicate RunTo(log: seq<Event>, i: nat, j: nat) {
    i <= j < |log| && forall k :: i <= k < j ==> Absorbs(log[k + 1], log[k])
  }

  /**
   Nothing is lost for good: behind every dropped event stands a run of events
   of its kind ending in one that was delivered or that the consumer has still
   to decide on.
   */
  lemma {:induction false} DroppedIsRepresented(log: seq<Event>, fates: seq<Fate>, i: nat) returns (j: nat)
    requires |fates| <= |log| && i < |fates|
    requires forall k :: 0 <= k < |fates| && fates[k] == Dropped ==> k + 1 < |log| && Absorbs(log[k + 1], log[k])
    ensures RunTo(log, i, j) && (j < |fates| ==> fates[j] == Delivered)
    ensures log[j].evType == log[i].evType && (log[i].evType != EVENT_MOTION ==> log[j].win == log[i].win)
    decreases |fates| - i
  {
    if fates[i] == Delivered {
      j := i;
    } else if i + 1 < |fates| {
      j := DroppedIsRepresented(log, fates, i + 1);
    } else {
      j := i + 1;
    }
  }

  ghost function Occurrences(fates: seq<Fate>): nat {
    if fates == [] then 0
    else Occurrences(fates[..|fates| - 1]) + (if fates[|fates| - 1] == Delivered then 1 else 0)
  }

  /** The returned events are those of the log marked delivered, in the order of the log. */
  lemma {:induction false} PickInOrder(log: seq<Event>, fates: seq<Fate>, i: nat)
    requires |fates| <= |log| && i < |fates| && fates[i] == Delivered
    ensures Occurrences(fates[..i]) < |Pick(log, fates)| == Occurrences(fates)
    ensures Pick(log, fates)[Occurrences(fates[..i])] == log[i]
  {
    var n := |fates| - 1;
    PickLength(log, fates[..n]);
    if i < n {
      PickInOrder(log, fates[..n], i);
      assert fates[..n][..i] == fates[..i];
    }
  }

  lemma {:induction false} PickLength(log: seq<Event>, fates: seq<Fate>)
    requires |fates| <= |log|
    ensures |Pick(log, fates)| == Occurrences(fates)
  {
    if fates != [] {
      PickLength(log, fates[..|fates| - 1]);
    }
  }
}
