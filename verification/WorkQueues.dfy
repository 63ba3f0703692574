/** Work items, and the two queues that run them. */
module WorkItems {
  import opened Collections

  // What invoking an item does: it queues more items, in order, and may start a load.
  datatype Item = Item(id: nat, loads: bool, queues: seq<Item>)

  function Size(item: Item): (n: nat)
    ensures n > 0
    decreases item, 1
  {
    1 + TotalSize(item.queues)
  }

  function TotalSize(items: seq<Item>): (n: nat)
    decreases items, 0
  {
    if items == [] then 0 else Size(items[0]) + TotalSize(items[1..])
  }

  lemma {:induction false} TotalSizeConcat(a: seq<Item>, b: seq<Item>)
    ensures TotalSize(a + b) == TotalSize(a) + TotalSize(b)
    decreases |a|
  {
    if a == [] {
      assert a + b == b;
    } else {
      assert (a + b)[1..] == a[1..] + b;
      TotalSizeConcat(a[1..], b);
    }
  }

  // Everything that a run of items queues, in order.
  function QueuedBy(run: seq<Item>): (r: seq<Item>) {
    if run == [] then [] else QueuedBy(run[..|run| - 1]) + run[|run| - 1].queues
  }

  lemma QueuedBySnoc(run: seq<Item>, item: Item)
    ensures QueuedBy(run + [item]) == QueuedBy(run) + item.queues
  {
    assert (run + [item])[..|run|] == run;
  }

  // No item but possibly the last one starts a load.
  ghost predicate QuietBeforeLast(run: seq<Item>) {
    forall i :: 0 <= i < |run| - 1 ==> !run[i].loads
  }

  lemma {:induction false} QueuedByCons(item: Item, run: seq<Item>)
    ensures QueuedBy([item] + run) == item.queues + QueuedBy(run)
    decreases |run|
  {
    if run == [] {
      assert [item] + run == [item] && [item][..0] == [];
    } else {
      var n := |run| - 1;
      QueuedByCons(item, run[..n]);
      assert ([item] + run)[..|run|] == [item] + run[..n] && ([item] + run)[|run|] == run[n];
      Associates(item.queues, QueuedBy(run[..n]), run[n].queues);
    }
  }

  lemma {:induction false} QueuedByPrefix(a: seq<Item>, b: seq<Item>)
    requires a <= b
    ensures QueuedBy(a) <= QueuedBy(b)
    decreases |b|
  {
    if a == b {
    } else {
      QueuedByPrefix(a, b[..|b| - 1]);
    }
  }

  // ----- processing a queue -----

  // The items run, what is left, and whether a load was started.
  datatype Ran = Ran(run: seq<Item>, rest: seq<Item>, loaded: bool)

  // What an item adds to the queue; nothing while the queue is frozen.
  function Added(item: Item, open: bool): seq<Item> { if open then item.queues else [] }

  function AllAdded(run: seq<Item>, open: bool): seq<Item> { if open then QueuedBy(run) else [] }

  // Items run in order, with those queued on the way, up to the first that starts a load.
  function RunQueue(q: seq<Item>, open: bool): (r: Ran)
    decreases TotalSize(q)
  {
    if q == [] then Ran([], [], false)
    else
      var item, next := q[0], q[1..] + Added(q[0], open);
      if item.loads then Ran([item], next, true)
      else
        NextSmaller(q, open);
        Prepend([item], RunQueue(next, open))
  }

  lemma NextSmaller(q: seq<Item>, open: bool)
    requires q != []
    ensures TotalSize(q[1..] + Added(q[0], open)) < TotalSize(q)
  {
    TotalSizeConcat(q[1..], Added(q[0], open));
    assert TotalSize(q) == Size(q[0]) + TotalSize(q[1..]);
  }

  function Prepend(run: seq<Item>, r: Ran): Ran { r.(run := run + r.run) }

  lemma PrependStep(run: seq<Item>, q: seq<Item>, open: bool)
    requires q != []
    ensures var next := q[1..] + Added(q[0], open);
      Prepend(run, RunQueue(q, open)) ==
        if q[0].loads then Ran(run + [q[0]], next, true) else Prepend(run + [q[0]], RunQueue(next, open))
  {
    RunQueueStep(q, open);
    Associates(run, [q[0]], RunQueue(q[1..] + Added(q[0], open), open).run);
  }

  lemma RunQueueStep(q: seq<Item>, open: bool)
    requires q != []
    ensures var next := q[1..] + Added(q[0], open);
      RunQueue(q, open) == if q[0].loads then Ran([q[0]], next, true) else Prepend([q[0]], RunQueue(next, open))
  {
  }

  // The items run and the items left are the old queue and everything queued on the way, in that order.
  lemma {:induction false} RunQueueBalance(q: seq<Item>, open: bool)
    ensures var r := RunQueue(q, open);
      && r.run + r.rest == q + AllAdded(r.run, open) && QuietBeforeLast(r.run)
      && (if r.loaded then r.run != [] && r.run[|r.run| - 1].loads else r.rest == [] && forall item :: item in r.run ==> !item.loads)
    decreases TotalSize(q)
  {
    if q != [] {
      var item, next := q[0], q[1..] + Added(q[0], open);
      RunQueueStep(q, open);
      assert q == [item] + q[1..];
      if item.loads {
        QueuedByCons(item, []);
        assert [item] + [] == [item];
        Associates([item], q[1..], Added(item, open));
      } else {
        NextSmaller(q, open);
        RunQueueBalance(next, open);
        var r := RunQueue(next, open);
        QueuedByCons(item, r.run);
        Shifted(item, q[1..], r.run, r.rest, Added(item, open), AllAdded(r.run, open));
      }
    }
  }

  lemma Shifted(item: Item, tail: seq<Item>, run: seq<Item>, rest: seq<Item>, own: seq<Item>, more: seq<Item>)
    requires run + rest == tail + own + more
    ensures [item] + run + rest == [item] + tail + (own + more)
  {
    assert [item] + run + rest == [item] + (run + rest);
    assert [item] + (tail + own + more) == [item] + tail + (own + more);
  }
}

/** The fixed array of 1024 slots, emptied only by clear. */
module WorkQueue {
  import opened Collections
  import opened Maybe
  import opened WorkItems

  const QUEUE_LENGTH := 1024

  // Overflow is the failed assertion that a slot is left.
  datatype Outcome = Drained | LoadStarted | Overflow

  class Queue {
    const theQueue: array<Option<Item>>
    var startOfQueue: nat
    var endOfQueue: nat
    var frozen: bool
    // Every item accepted since the last clear; the first startOfQueue of them have been dequeued.
    ghost var accepted: seq<Item>

    ghost predicate Valid()
      reads this, theQueue
    {
      && theQueue.Length == QUEUE_LENGTH
      && startOfQueue <= endOfQueue <= QUEUE_LENGTH && |accepted| == endOfQueue
      && forall i :: startOfQueue <= i < endOfQueue ==> theQueue[i] == Some(accepted[i])
    }

    ghost function Waiting(): seq<Item>
      reads this
      requires startOfQueue <= |accepted|
    {
      accepted[startOfQueue..]
    }

    constructor ()
      ensures Valid() && accepted == [] && startOfQueue == 0 && !frozen && fresh(theQueue)
    {
      theQueue := new Option<Item>[QUEUE_LENGTH](_ => None);
      startOfQueue, endOfQueue, frozen, accepted := 0, 0, false, [];
    }

    /** queue: the slot is asserted before the frozen flag is looked at. */
    method Enqueue(item: Item) returns (ok: bool)
      requires Valid()
      modifies this, theQueue
      ensures Valid() && startOfQueue == old(startOfQueue) && frozen == old(frozen)
      ensures ok == (old(endOfQueue) < 1024)
      ensures accepted == if ok && !frozen then old(accepted) + [item] else old(accepted)
    {
      if endOfQueue >= QUEUE_LENGTH { return false; }
      ok := true;
      if frozen { return; }
      theQueue[endOfQueue] := Some(item);
      endOfQueue := endOfQueue + 1;
      accepted := accepted + [item];
    }

    method Dequeue() returns (r: Option<Item>)
      requires Valid()
      modifies this
      ensures Valid() && accepted == old(accepted) && frozen == old(frozen)
      ensures r == if old(startOfQueue) == |accepted| then None else Some(accepted[old(startOfQueue)])
      ensures startOfQueue == if r == None then old(startOfQueue) else old(startOfQueue) + 1
    {
      if startOfQueue == endOfQueue { return None; }
      r := theQueue[startOfQueue];
      startOfQueue := startOfQueue + 1;
    }

    method Count() returns (n: nat)
      requires Valid()
      ensures n == |Waiting()|
    {
      n := endOfQueue - startOfQueue;
    }

    method Clear()
      requires Valid()
      modifies this, theQueue
      ensures Valid() && accepted == [] && startOfQueue == 0 && frozen == old(frozen)
      ensures forall i :: old(startOfQueue) <= i < old(endOfQueue) ==> theQueue[i] == None
    {
      for i := startOfQueue to endOfQueue
        modifies theQueue
        invariant forall j :: startOfQueue <= j < i ==> theQueue[j] == None
      {
        theQueue[i] := None;
      }
      startOfQueue, endOfQueue, accepted := 0, 0, [];
    }

    /** What an item does when invoked: queue its own items one by one, up to the first for which the
        slot assertion fails. */
    method Invoke(item: Item) returns (ok: bool)
      requires Valid()
      modifies this, theQueue
      ensures Valid() && startOfQueue == old(startOfQueue) && frozen == old(frozen)
      ensures ok <==> !OneOverflows(|old(accepted)|, item, !frozen)
      ensures accepted == Capped(old(accepted) + Added(item, !frozen))
    {
      for i := 0 to |item.queues|
        invariant Valid() && startOfQueue == old(startOfQueue) && frozen == old(frozen)
        invariant accepted == old(accepted) + if frozen then [] else item.queues[..i]
        invariant i > 0 ==> |old(accepted)| < QUEUE_LENGTH
      {
        ok := Enqueue(item.queues[i]);
        if !ok {
          PrefixCapped(old(accepted), item.queues, i);
          return;
        }
      }
      assert item.queues[..|item.queues|] == item.queues;
      ok := true;
    }

    ghost predicate Took(acc: seq<Item>, start: nat, run: seq<Item>)
      reads this, theQueue
    {
      Valid() && Taken(acc, start, run, accepted, startOfQueue, !frozen)
    }

    ghost predicate Running(acc: seq<Item>, start: nat, run: seq<Item>, startedLoad: bool)
      reads this, theQueue
    {
      Valid() && Continues(acc, start, run, accepted, startOfQueue, startedLoad, !frozen)
    }

    method RunNext(ghost acc: seq<Item>, ghost start: nat, ghost run: seq<Item>) returns (item: Item, ok: bool)
      requires Running(acc, start, run, false) && startOfQueue < endOfQueue
      modifies this, theQueue
      ensures Took(acc, start, run + [item]) && frozen == old(frozen)
      ensures run + [item] <= RunQueue(acc[start..], !frozen).run
      ensures ok <==> !Overflows(|acc|, run + [item], !frozen)
      ensures ok ==> Running(acc, start, run + [item], item.loads)
    {
      ghost var now, at := accepted, startOfQueue;
      var head := Dequeue();
      item := head.value;
      ok := Invoke(item);
      RanNext(acc, start, run, now, at, !frozen, item, accepted);
    }

    // What processing makes of a queue that held acc from start on and amounts to r. The slot assertion
    // fails exactly when the whole run needs more slots than there are, and at the first item that
    // asks for one too many; otherwise everything happens as in r.
    ghost predicate Processed(acc: seq<Item>, start: nat, r: Ran, run: seq<Item>, outcome: Outcome)
      reads this, theQueue
    {
      && Took(acc, start, run) && run <= r.run
      && (outcome.Overflow? <==> Overflows(|acc|, r.run, !frozen))
      && (outcome.Overflow? ==> run != [] && Overflows(|acc|, run, !frozen) && !Overflows(|acc|, run[..|run| - 1], !frozen))
      && (!outcome.Overflow? ==> r == Ran(run, Waiting(), outcome.LoadStarted?))
    }

    lemma Finished(acc: seq<Item>, start: nat, run: seq<Item>, startedLoad: bool)
      requires Running(acc, start, run, startedLoad) && (startedLoad || startOfQueue == endOfQueue)
      ensures Processed(acc, start, RunQueue(acc[start..], !frozen), run, if startedLoad then LoadStarted else Drained)
    {
      assert run + [] == run;
    }

    lemma Stopped(acc: seq<Item>, start: nat, r: Ran, run: seq<Item>, item: Item)
      requires Took(acc, start, run + [item]) && run + [item] <= r.run
      requires Overflows(|acc|, run + [item], !frozen) && !Overflows(|acc|, run, !frozen)
      ensures Processed(acc, start, r, run + [item], Overflow)
    {
      assert (run + [item])[..|run|] == run;
      OverflowsGrow(|acc|, run + [item], r.run, !frozen);
    }

    lemma Begun()
      requires Valid()
      ensures Running(accepted, startOfQueue, [], false)
    {
      assert AllAdded([], !frozen) == [] && accepted + [] == accepted;
      assert [] + RunQueue(Waiting(), !frozen).run == RunQueue(Waiting(), !frozen).run;
    }

    /** processWork: items run in arrival order, each once, up to and including the first that
        starts a load. */
    method ProcessWork() returns (outcome: Outcome, ghost run: seq<Item>)
      requires Valid()
      modifies this, theQueue
      ensures Processed(old(accepted), old(startOfQueue), RunQueue(old(Waiting()), !frozen), run, outcome)
      ensures frozen == old(frozen)
    {
      run := [];
      var startedLoad := false;
      ghost var acc, start := accepted, startOfQueue;
      Begun();
      while !startedLoad && startOfQueue < endOfQueue
        invariant Running(acc, start, run, startedLoad) && frozen == old(frozen)
        decreases QUEUE_LENGTH - startOfQueue
      {
        var item, ok := RunNext(acc, start, run);
        if !ok {
          Stopped(acc, start, RunQueue(acc[start..], !frozen), run, item);
          return Overflow, run + [item];
        }
        run := run + [item];
        startedLoad := item.loads;
      }
      Finished(acc, start, run, startedLoad);
      outcome := if startedLoad then LoadStarted else Drained;
    }

    // What the outcome tells the caller.
    lemma OutcomeMeans(acc: seq<Item>, start: nat, run: seq<Item>, outcome: Outcome)
      requires start <= |acc| && Processed(acc, start, RunQueue(acc[start..], !frozen), run, outcome)
      ensures QuietBeforeLast(run) && start + |run| <= 1024
      ensures outcome.Drained? ==> Waiting() == [] && forall item :: item in run ==> !item.loads
      ensures outcome.LoadStarted? ==> run != [] && run[|run| - 1].loads
    {
      RunQueueBalance(acc[start..], !frozen);
    }
  }

  // Since the queue held acc from start on, exactly the items of run have been taken, in order, and
  // nothing but their own items has been added.
  ghost predicate Taken(acc: seq<Item>, start: nat, run: seq<Item>, now: seq<Item>, at: nat, open: bool) {
    && start <= |acc| <= QUEUE_LENGTH && at == start + |run| <= |now| && run == now[start..at]
    && now == Capped(acc + AllAdded(run, open))
  }

  // In the middle of processing: no slot has been missing, and what is still to come completes what
  // the queue amounts to.
  ghost predicate Continues(acc: seq<Item>, start: nat, run: seq<Item>, now: seq<Item>, at: nat, startedLoad: bool, open: bool) {
    && Taken(acc, start, run, now, at, open) && !Overflows(|acc|, run, open)
    && RunQueue(acc[start..], open) == if startedLoad then Ran(run, now[at..], true) else Prepend(run, RunQueue(now[at..], open))
  }

  function Capped(s: seq<Item>): seq<Item> { if |s| <= QUEUE_LENGTH then s else s[..QUEUE_LENGTH] }

  // With n items accepted already, invoking the item asks for a slot when none is left.
  predicate OneOverflows(n: nat, item: Item, open: bool) {
    if open then n + |item.queues| > QUEUE_LENGTH else n >= QUEUE_LENGTH && item.queues != []
  }

  // The same for a run of items. A frozen queue asserts the slot as well and then drops the item.
  predicate Overflows(n: nat, run: seq<Item>, open: bool) {
    if open then n + |QueuedBy(run)| > QUEUE_LENGTH else n >= QUEUE_LENGTH && QueuedBy(run) != []
  }

  // One item that queues as many items as there are slots is enough for the assertion to fail.
  lemma SlotsRunOut()
    ensures var item := Item(0, true, seq(1024, _ => Item(1, false, [])));
      Overflows(1, RunQueue([item], true).run, true)
  {
    var item := Item(0, true, seq(1024, _ => Item(1, false, [])));
    QueuedByCons(item, []);
    assert [item] + [] == [item];
  }

  lemma OverflowsGrow(n: nat, a: seq<Item>, b: seq<Item>, open: bool)
    requires a <= b && Overflows(n, a, open)
    ensures Overflows(n, b, open)
  {
    QueuedByPrefix(a, b);
  }

  lemma PrefixCapped(acc: seq<Item>, more: seq<Item>, i: nat)
    requires i <= |more| && |acc| + i == QUEUE_LENGTH
    ensures acc + more[..i] == Capped(acc + more)
  {
  }

  lemma OverflowsNext(acc: seq<Item>, run: seq<Item>, now: seq<Item>, item: Item, open: bool)
    requires |acc| <= QUEUE_LENGTH && !Overflows(|acc|, run, open) && now == Capped(acc + AllAdded(run, open))
    ensures Overflows(|acc|, run + [item], open) <==> OneOverflows(|now|, item, open)
    ensures now + Added(item, open) == acc + AllAdded(run + [item], open)
    ensures |now| <= QUEUE_LENGTH && (!OneOverflows(|now|, item, open) ==> Capped(now + Added(item, open)) == now + Added(item, open))
  {
    assert now == acc + AllAdded(run, open);
    QueuedBySnoc(run, item);
    Associates(acc, AllAdded(run, open), Added(item, open));
  }

  // Taking the first waiting item and adding its own at the end.
  lemma TakenNext(now: seq<Item>, start: nat, run: seq<Item>, more: seq<Item>)
    requires start + |run| < |now| <= QUEUE_LENGTH && run == now[start..start + |run|]
    ensures var at, after := start + |run|, now + more;
      && |Capped(after)| > at && run + [now[at]] == Capped(after)[start..at + 1]
      && after[at + 1..] == now[at..][1..] + more
  {
  }

  lemma TakesOne(acc: seq<Item>, start: nat, run: seq<Item>, now: seq<Item>, at: nat, open: bool, item: Item, after: seq<Item>)
    requires Taken(acc, start, run, now, at, open) && !Overflows(|acc|, run, open) && at < |now|
    requires item == now[at] && after == Capped(now + Added(item, open))
    ensures Overflows(|acc|, run + [item], open) <==> OneOverflows(|now|, item, open)
    ensures Taken(acc, start, run + [item], after, at + 1, open)
    ensures !Overflows(|acc|, run + [item], open) ==> after[at + 1..] == now[at..][1..] + Added(item, open)
  {
    OverflowsNext(acc, run, now, item, open);
    TakenNext(now, start, run, Added(item, open));
  }

  lemma RunsOne(run: seq<Item>, q: seq<Item>, r: Ran, open: bool)
    requires q != [] && r == Prepend(run, RunQueue(q, open))
    ensures run + [q[0]] <= r.run
    ensures var next := q[1..] + Added(q[0], open);
      r == if q[0].loads then Ran(run + [q[0]], next, true) else Prepend(run + [q[0]], RunQueue(next, open))
  {
    PrependStep(run, q, open);
  }

  lemma RanNext(acc: seq<Item>, start: nat, run: seq<Item>, now: seq<Item>, at: nat, open: bool, item: Item, after: seq<Item>)
    requires Continues(acc, start, run, now, at, false, open) && at < |now|
    requires item == now[at] && after == Capped(now + Added(item, open))
    ensures Overflows(|acc|, run + [item], open) <==> OneOverflows(|now|, item, open)
    ensures Taken(acc, start, run + [item], after, at + 1, open) && run + [item] <= RunQueue(acc[start..], open).run
    ensures !Overflows(|acc|, run + [item], open) ==> Continues(acc, start, run + [item], after, at + 1, item.loads, open)
  {
    TakesOne(acc, start, run, now, at, open, item, after);
    RunsOne(run, now[at..], RunQueue(acc[start..], open), open);
  }
}

/** The deque that refuses new items once a load has been started. */
module WorkQueueManager {
  import opened Collections
  import opened WorkItems

  class Manager {
    var workQueue: seq<Item>
    var processing: bool
    // What has happened to items since the last clear.
    ghost var taken: seq<Item>
    ghost var invoked: seq<Item>
    ghost var refused: seq<Item>

    ghost function Now(): State
      reads this
    {
      State(workQueue, processing, taken, invoked, refused)
    }

    constructor ()
      ensures Now() == FRESH
    {
      workQueue, processing := [], false;
      taken, invoked, refused := [], [], [];
    }

    method Enqueue(item: Item) returns (accepted: bool)
      modifies this
      ensures accepted == !old(processing) && processing == old(processing)
      ensures workQueue == if accepted then old(workQueue) + [item] else old(workQueue)
      ensures Now() == Step(old(Now()), Call.Enqueue(item))
    {
      if processing {
        refused := refused + [item];
        return false;
      }
      workQueue, taken := workQueue + [item], taken + [item];
      accepted := true;
    }

    method ClearWorkQueue()
      modifies this
      ensures workQueue == [] && !processing && Now() == Step(old(Now()), Clear)
    {
      processing := false;
      workQueue := [];
      taken, invoked, refused := [], [], [];
    }

    /** What an item does when invoked: enqueue its own items one by one. */
    method Invoke(item: Item)
      requires !processing
      modifies this
      ensures !processing && workQueue == old(workQueue) + item.queues
      ensures taken == old(taken) + item.queues && invoked == old(invoked) && refused == old(refused)
    {
      for i := 0 to |item.queues|
        invariant !processing && workQueue == old(workQueue) + item.queues[..i]
        invariant taken == old(taken) + item.queues[..i] && invoked == old(invoked) && refused == old(refused)
      {
        var accepted := Enqueue(item.queues[i]);
      }
      assert item.queues[..|item.queues|] == item.queues;
    }

    // Takes the first item and invokes it.
    method RunFirst(ghost before: State, ghost run: seq<Item>) returns (item: Item)
      requires workQueue != [] && !processing && Continues(before, run, Now())
      modifies this
      ensures item == old(workQueue)[0] && TotalSize(workQueue) < old(TotalSize(workQueue))
      ensures Continues(before, run + [item], Now()) && processing == item.loads
    {
      item := workQueue[0];
      RunsNext(before, run, Now());
      workQueue := workQueue[1..];
      Invoke(item);
      invoked := invoked + [item];
      processing := item.loads;
    }

    /** processWorkQueue: as above, and afterwards the gate is shut exactly when a load was started. */
    method ProcessWorkQueue() returns (done: bool, ghost run: seq<Item>)
      modifies this
      ensures Now() == Step(old(Now()), Process)
      ensures Ran(run, workQueue, processing) == RunQueue(old(workQueue), true)
      ensures done == !processing && Outcome(old(workQueue), run, workQueue, done)
    {
      ghost var before := Now();
      run := [];
      processing := false;
      Begins(before, Now());
      while !processing && workQueue != []
        invariant Continues(before, run, Now())
        decreases TotalSize(workQueue), !processing
      {
        var item := RunFirst(before, run);
        run := run + [item];
      }
      RunsOut(before, run, Now());
      done := !processing;
    }
  }

  // From before on the items of run have been invoked, and running on from now completes what the
  // queue amounted to.
  ghost predicate Continues(before: State, run: seq<Item>, now: State) {
    && now.accepted == before.accepted + QueuedBy(run) && now.invoked == before.invoked + run && now.refused == before.refused
    && RunQueue(before.queue, true) == if now.processing then Ran(run, now.queue, true) else Prepend(run, RunQueue(now.queue, true))
  }

  lemma Begins(before: State, now: State)
    requires now == before.(processing := false)
    ensures Continues(before, [], now)
  {
    assert [] + RunQueue(before.queue, true).run == RunQueue(before.queue, true).run;
    assert before.accepted + [] == before.accepted && before.invoked + [] == before.invoked;
  }

  lemma RunsNext(before: State, run: seq<Item>, now: State)
    requires now.queue != [] && !now.processing && Continues(before, run, now)
    ensures var item := now.queue[0];
      Continues(before, run + [item], now.(queue := now.queue[1..] + item.queues, processing := item.loads,
                                           accepted := now.accepted + item.queues, invoked := now.invoked + [item]))
    ensures TotalSize(now.queue[1..] + now.queue[0].queues) < TotalSize(now.queue)
  {
    var item := now.queue[0];
    NextSmaller(now.queue, true);
    PrependStep(run, now.queue, true);
    QueuedBySnoc(run, item);
    Associates(before.accepted, QueuedBy(run), item.queues);
    Associates(before.invoked, run, [item]);
  }

  lemma RunsOut(before: State, run: seq<Item>, now: State)
    requires Continues(before, run, now) && (now.processing || now.queue == [])
    ensures Ran(run, now.queue, now.processing) == RunQueue(before.queue, true) && now == Step(before, Process)
    ensures Outcome(before.queue, run, now.queue, !now.processing)
  {
    assert run + [] == run;
    RunQueueBalance(before.queue, true);
  }

  // The queue q has been run: in order, up to the first load, and to the end if there was none.
  ghost predicate Outcome(q: seq<Item>, run: seq<Item>, rest: seq<Item>, done: bool) {
    && run + rest == q + QueuedBy(run) && QuietBeforeLast(run)
    && if done then rest == [] && forall item :: item in run ==> !item.loads else run != [] && run[|run| - 1].loads
  }

  // ----- every sequence of calls -----

  datatype Call = Enqueue(item: Item) | Process | Clear

  // The manager with what has happened to items since the last clear.
  datatype State = State(queue: seq<Item>, processing: bool, accepted: seq<Item>, invoked: seq<Item>, refused: seq<Item>)

  const FRESH := State([], false, [], [], [])

  function Step(s: State, call: Call): State {
    match call
    case Enqueue(item) =>
      if s.processing then s.(refused := s.refused + [item])
      else s.(queue := s.queue + [item], accepted := s.accepted + [item])
    case Process =>
      var r := RunQueue(s.queue, true);
      s.(queue := r.rest, processing := r.loaded, accepted := s.accepted + QueuedBy(r.run), invoked := s.invoked + r.run)
    case Clear => FRESH
  }

  function After(calls: seq<Call>): (s: State) {
    if calls == [] then FRESH else Step(After(calls[..|calls| - 1]), calls[|calls| - 1])
  }

  // Whatever is called in whatever order: accepted items are run in the order of their acceptance,
  // each at most once, and none is lost.
  lemma {:induction false} FirstInFirstOut(calls: seq<Call>)
    ensures var s := After(calls); s.invoked + s.queue == s.accepted
    decreases |calls|
  {
    if calls != [] {
      var n := |calls| - 1;
      FirstInFirstOut(calls[..n]);
      var s, call := After(calls[..n]), calls[n];
      if call.Enqueue? {
        assert s.invoked + (s.queue + [call.item]) == s.invoked + s.queue + [call.item];
      } else if call.Process? {
        RunQueueBalance(s.queue, true);
        Balance(s.invoked, s.queue, RunQueue(s.queue, true), s.accepted);
      }
    }
  }

  lemma Balance(invoked: seq<Item>, queue: seq<Item>, r: Ran, accepted: seq<Item>)
    requires invoked + queue == accepted && r.run + r.rest == queue + QueuedBy(r.run)
    ensures invoked + r.run + r.rest == accepted + QueuedBy(r.run)
  {
    assert invoked + r.run + r.rest == invoked + (r.run + r.rest);
    assert invoked + (queue + QueuedBy(r.run)) == invoked + queue + QueuedBy(r.run);
  }

  // An item is accepted whenever no load is pending, in particular after a clear.
  lemma AcceptedWhenIdle(calls: seq<Call>, item: Item)
    ensures var s, u := After(calls), After(calls + [Call.Enqueue(item)]);
      !s.processing ==> u == s.(queue := s.queue + [item], accepted := s.accepted + [item])
    ensures After(calls + [Clear]) == FRESH && !After(calls + [Clear]).processing
  {
    assert (calls + [Call.Enqueue(item)])[..|calls|] == calls && (calls + [Clear])[..|calls|] == calls;
  }

  // The k-th call processed the queue and started a load, and only offers have been made since.
  ghost predicate LoadPending(calls: seq<Call>, k: nat) {
    && k < |calls| && calls[k].Process? && RunQueue(After(calls[..k]).queue, true).loaded
    && forall j :: k < j < |calls| ==> calls[j].Enqueue?
  }

  lemma {:induction false} ProcessingIff(calls: seq<Call>)
    ensures After(calls).processing <==> exists k: nat :: LoadPending(calls, k)
    decreases |calls|
  {
    if calls != [] {
      var n := |calls| - 1;
      ProcessingIff(calls[..n]);
      if calls[n].Enqueue? {
        forall k: nat ensures LoadPending(calls, k) <==> LoadPending(calls[..n], k) { if k < n { assert calls[..n][..k] == calls[..k]; } }
      } else {
        forall k: nat ensures LoadPending(calls, k) ==> k == n { }
        if calls[n].Process? && RunQueue(After(calls[..n]).queue, true).loaded { assert LoadPending(calls, n); }
      }
    }
  }

  // After a process call that started a load, every item offered before the next process or clear
  // is refused and the queue stays as the load left it.
  lemma {:induction false} RefusedWhileLoading(calls: seq<Call>, offers: seq<Call>)
    requires After(calls).processing
    requires forall c :: c in offers ==> c.Enqueue?
    ensures var s, u := After(calls), After(calls + offers);
      u.processing && u.queue == s.queue && u.accepted == s.accepted && |u.refused| == |s.refused| + |offers|
    decreases |offers|
  {
    if offers == [] {
      assert calls + offers == calls;
    } else {
      var n := |offers| - 1;
      RefusedWhileLoading(calls, offers[..n]);
      assert (calls + offers)[..|calls| + n] == calls + offers[..n] && (calls + offers)[|calls| + n] == offers[n];
    }
  }
}
