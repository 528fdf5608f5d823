/** The main thread's bookkeeping of its handler threads: spawn and enqueue, sweep the queue for
    completed ones while it is being mutated, drain it at shutdown. */
module Server {
  import opened Bytes
  import opened Ledger
  import opened ThreadQueue

  class ThreadData {
    var clientFd: int
    var completed: bool

    constructor (fd: int)
      ensures clientFd == fd && !completed
    {
      clientFd, completed := fd, false;
    }
  }

  class ThreadInstance {
    const threadData: ThreadData

    constructor (d: ThreadData)
      ensures threadData == d
    {
      threadData := d;
    }
  }

  /** The completed flags. */
  ghost function FlagsOf(records: set<ThreadData>): map<ThreadData, bool>
    reads records
  {
    map d | d in records :: d.completed
  }

  /** What a handler may have done by the time the sweep reads its flag: nothing it can see, or all
      of its final steps, which clear the descriptor before they set the flag. */
  method HandlerProgress(d: ThreadData, finishes: bool, ghost records: set<ThreadData>)
    requires d in records && (d.completed ==> d.clientFd == -1)
    modifies d
    ensures d.completed == (old(d.completed) || finishes)
    ensures d.completed ==> d.clientFd == -1
    ensures !d.completed ==> d.clientFd == old(d.clientFd)
    ensures FlagsOf(records) == old(FlagsOf(records))[d := d.completed]
  {
    if finishes && !d.completed {
      d.clientFd := -1;
      d.completed := true;
    }
  }

  /** The flags still to be read: set already only if they will be read as set. */
  ghost predicate FlagsAhead(flags: map<ThreadData, bool>, q: seq<ThreadInstance>, seen: seq<bool>, v: nat)
    requires |seen| == |q|
  {
    forall i :: v <= i < |q| ==> q[i].threadData in flags && (flags[q[i].threadData] ==> seen[i])
  }

  /** No two instances share their data. */
  ghost predicate OwnData(s: seq<ThreadInstance>) {
    forall x, y {:trigger x.threadData, y.threadData} ::
      x in s && y in s && x != y ==> x.threadData != y.threadData
  }

  /** Each instance has data of its own, among `records`; a completed handler has cleared its
      descriptor. */
  ghost predicate Protocol(spawned: seq<ThreadInstance>, records: set<ThreadData>)
    reads records
  {
    && OwnData(spawned)
    && (forall x {:trigger x in spawned} :: x in spawned ==> x.threadData in records)
    && (forall d :: d in records && d.completed ==> d.clientFd == -1)
  }

  lemma ProtocolSnoc(spawned: seq<ThreadInstance>, records: set<ThreadData>, t: ThreadInstance)
    requires Protocol(spawned, records) && t.threadData !in records && !t.threadData.completed
    ensures t !in spawned && Protocol(spawned + [t], records + {t.threadData})
  {
  }

  /** Reading one flag leaves the others, which belong to other instances, as they are. */
  lemma FlagsStayAhead(flags: map<ThreadData, bool>, s: Threads<ThreadInstance>, seen: seq<bool>, v: nat)
    requires Accounted(s) && OwnData(s.spawned) && v < |s.queue| == |seen|
    requires FlagsAhead(flags, s.queue, seen, v)
    ensures FlagsAhead(flags[s.queue[v].threadData := seen[v]], s.queue, seen, v + 1)
  {
    QueueDistinct(s);
    QueuedOnce(s, s.queue[v]);
    forall i | v < i < |s.queue|
      ensures s.queue[i].threadData != s.queue[v].threadData
    {
      QueuedOnce(s, s.queue[i]);
    }
  }

  /** How accepting a connection ends: no memory for the thread data, no thread, no queue node, or well. */
  datatype AcceptOutcome = NoData | NotStarted | NotQueued | Queued

  /** The descriptors, -1 where the handler has cleared its own. */
  ghost function FdsOf(records: set<ThreadData>): map<ThreadData, int>
    reads records
  {
    map d | d in records :: d.clientFd
  }

  /** The instance, if its descriptor is not cleared. */
  ghost function IfOpen(inst: ThreadInstance, fds: map<ThreadData, int>): seq<ThreadInstance> {
    if inst.threadData in fds && fds[inst.threadData] != -1 then [inst] else []
  }

  /** The instances whose descriptor is not cleared. */
  ghost function StillOpen(q: seq<ThreadInstance>, fds: map<ThreadData, int>): seq<ThreadInstance> {
    if q == [] then [] else IfOpen(q[0], fds) + StillOpen(q[1..], fds)
  }

  lemma {:induction false} StillOpenHolds(q: seq<ThreadInstance>, fds: map<ThreadData, int>, x: ThreadInstance)
    ensures x in StillOpen(q, fds) <==> x in q && x.threadData in fds && fds[x.threadData] != -1
  {
    if q != [] {
      assert q == [q[0]] + q[1..];
      StillOpenHolds(q[1..], fds, x);
    }
  }

  /** `open` are those instances of the queue whose descriptor is not -1, each once and in order. */
  ghost predicate ClosesOpen(q: seq<ThreadInstance>, fds: map<ThreadData, int>, open: seq<ThreadInstance>) {
    && Distinct(open) && InOrder(open, q)
    && (forall x :: x in open ==> x in q && x.threadData in fds && fds[x.threadData] != -1)
    && (forall x :: x in q && x.threadData in fds && fds[x.threadData] != -1 ==> x in open)
  }

  lemma {:induction false} StillOpenMeaning(q: seq<ThreadInstance>, fds: map<ThreadData, int>)
    requires Distinct(q)
    ensures ClosesOpen(q, fds, StillOpen(q, fds))
  {
    var open := StillOpen(q, fds);
    forall x | x in open
      ensures x in q && x.threadData in fds && fds[x.threadData] != -1
    {
      StillOpenHolds(q, fds, x);
    }
    forall x | x in q && x.threadData in fds && fds[x.threadData] != -1
      ensures x in open
    {
      StillOpenHolds(q, fds, x);
    }
    if q != [] {
      var x, rest := q[0], q[1..];
      var later := StillOpen(rest, fds);
      StillOpenMeaning(rest, fds);
      assert q == [x] + rest && x !in rest && x !in later;
      InOrderCons(later, rest, x);
      assert open == later || open == [x] + later;
    }
  }

  /** The books and the closed descriptors at the end of a drain, one thread at a time. */
  ghost function DrainAll(s: Threads<ThreadInstance>, closed: seq<ThreadInstance>, fds: map<ThreadData, int>)
      : (Threads<ThreadInstance>, seq<ThreadInstance>)
    decreases |s.queue|
  {
    if s.queue == [] then (s, closed)
    else DrainAll(Reaped(s, s.queue[0]), closed + IfOpen(s.queue[0], fds), fds)
  }

  lemma DrainAllStep(s: Threads<ThreadInstance>, closed: seq<ThreadInstance>, fds: map<ThreadData, int>)
    requires s.queue != []
    ensures var x := s.queue[0];
            && DrainAll(Reaped(s, x), closed + IfOpen(x, fds), fds) == DrainAll(s, closed, fds)
            && |Reaped(s, x).queue| < |s.queue|
  {
  }

  lemma {:induction false} DrainAllIs(s: Threads<ThreadInstance>, closed: seq<ThreadInstance>,
                                      fds: map<ThreadData, int>)
    ensures DrainAll(s, closed, fds) == (Drain(s), closed + StillOpen(s.queue, fds))
    decreases |s.queue|
  {
    var q := s.queue;
    if q == [] {
      assert s.joined + [] == s.joined && closed + [] == closed;
    } else {
      DrainFront(s);
      DrainAllIs(Reaped(s, q[0]), closed + IfOpen(q[0], fds), fds);
      RemoveFirstFront(q);
      Regroup(closed, IfOpen(q[0], fds), StillOpen(q[1..], fds));
    }
  }

  class MainLoop {
    const queue: Queue<ThreadInstance>
    // every instance spawned, and those joined so far, in order
    ghost var spawned: seq<ThreadInstance>
    ghost var joined: seq<ThreadInstance>
    // the data of all instances ever spawned
    ghost var records: set<ThreadData>
    // the instances freed together with their data, and those whose descriptor the main thread
    // has closed, each in order
    ghost var freed: seq<ThreadInstance>
    ghost var closed: seq<ThreadInstance>

    ghost function View(): Threads<ThreadInstance>
      reads `joined, `spawned, queue`contents
    {
      Threads(queue.contents, joined, spawned)
    }

    /** Each instance spawned has data of its own and is either queued, neither joined nor freed,
        or has been joined and freed once, its data too. */
    ghost predicate Valid()
      reads `spawned, `joined, `freed, `records, queue, queue.footprint, records
    {
      && queue.Valid()
      && Accounted(View())
      && Protocol(spawned, records)
      && freed == joined
    }

    constructor ()
      ensures Valid() && View() == Threads([], [], []) && closed == []
    {
      queue := new Queue<ThreadInstance>();
      spawned, joined, freed, closed, records := [], [], [], [], {};
    }

    /** A connection is accepted: allocate its records, start its thread, enqueue it. Where that fails
        the main thread closes the descriptor and its books do not change; a thread already started
        by then is cancelled, and is neither queued nor ever joined. */
    method Spawn(clientFd: int, outcome: AcceptOutcome)
        returns (t: ThreadInstance?, cancelled: bool, fdClosed: bool)
      requires Valid()
      modifies this`spawned, this`records, queue, queue.footprint
      ensures Valid()
      ensures t != null <==> outcome in {NotQueued, Queued}
      ensures View() == if outcome == Queued then Ledger.Spawn(old(View()), t) else old(View())
      ensures queue.contents == old(queue.contents) + if outcome == Queued then [t] else []
      ensures t != null ==> t !in old(spawned) && t.threadData !in old(records) && t.threadData.clientFd == clientFd
      ensures t != null ==> fresh(t) && fresh(t.threadData)
      ensures cancelled == (outcome == NotQueued) && fdClosed == (outcome != Queued)
    {
      if outcome == NoData || outcome == NotStarted {
        return null, false, true;
      }
      var d := new ThreadData(clientFd);
      var inst := new ThreadInstance(d);
      assert inst !in spawned && d !in records;
      var ok := Register(inst, outcome == Queued);
      return inst, !ok, !ok;
    }

    /** Put a started thread into the queue, if its node can be allocated. */
    method Register(inst: ThreadInstance, granted: bool) returns (ok: bool)
      requires Valid() && inst.threadData !in records && !inst.threadData.completed
      modifies this`spawned, this`records, queue, queue.footprint
      ensures Valid() && ok == granted
      ensures View() == if ok then Ledger.Spawn(old(View()), inst) else old(View())
    {
      ghost var start := View();
      if granted {
        ProtocolSnoc(spawned, records, inst);
        SpawnAccounts(start, inst);
        spawned, records := spawned + [inst], records + {inst.threadData};
      }
      ok := PutLast(inst, granted);
      assert View() == if ok then Ledger.Spawn(start, inst) else start;
    }

    /** A sweep that started from `start` and sees the flags `seen`, at `node` after `v` visits. */
    ghost predicate Sweeping(start: Threads<ThreadInstance>, seen: seq<bool>, v: nat, k: nat,
                             node: Node?<ThreadInstance>)
      reads `spawned, `joined, `freed, `records, queue, queue.footprint, records
    {
      && Valid()
      && Cursor(start, seen, v, k, View())
      && node == queue.NodeAt(k)
      && FlagsAhead(FlagsOf(records), start.queue, seen, v)
    }

    /** One turn of the sweep. */
    method SweepStep(node: Node<ThreadInstance>, flag: bool,
                     ghost start: Threads<ThreadInstance>, ghost seen: seq<bool>, ghost v: nat, ghost k: nat)
        returns (next: Node?<ThreadInstance>)
      requires Accounted(start) && OwnData(start.spawned)
      requires Sweeping(start, seen, v, k, node) && v < |seen| && flag == seen[v]
      modifies this`joined, this`freed, this`closed, queue, queue.footprint, records
      ensures Sweeping(start, seen, v + 1, if flag then k else k + 1, next)
      ensures closed == old(closed) && queue.footprint == old(queue.footprint)
    {
      QueueDistinct(start);
      CursorSteps(start, seen, v, k, View());
      FlagsStayAhead(FlagsOf(records), start, seen, v);
      assert node.data == start.queue[v];
      assert node.data.threadData in FlagsOf(records);
      next := Visit(node, flag, k);
    }

    /** Look at one node of the queue: if its handler has completed, reap the instance. The node
        after it is read before the node can be freed. `seen` is the flag when it is read. */
    method Visit(node: Node<ThreadInstance>, seen: bool, ghost at: nat) returns (next: Node?<ThreadInstance>)
      requires Valid() && at < |queue.nodes| && node == queue.nodes[at]
      requires node.data.threadData.completed ==> seen
      modifies this`joined, this`freed, this`closed, queue, queue.footprint, node.data.threadData
      ensures Valid() && closed == old(closed)
      ensures queue.footprint == old(queue.footprint)
      ensures FlagsOf(records) == old(FlagsOf(records))[old(node.data).threadData := seen]
      ensures View() == if seen then Reaped(old(View()), old(node.data)) else old(View())
      ensures next == queue.NodeAt(if seen then at else at + 1)
    {
      assert node.live;
      var inst := node.data;
      next := node.next;
      assert next == queue.NodeAt(at + 1);
      assert inst == queue.contents[at] && inst in View().queue;
      Observe(inst, seen);
      if inst.threadData.completed {
        QueueDistinct(View());
        ghost var was := queue.contents;
        ghost var k := Reap(inst);
        assert was[k] == was[at] && k == at;
      }
    }

    /** Let the handler of a queued instance go on until its flag is read. Neither the instance nor its
        data has been freed. */
    method Observe(inst: ThreadInstance, seen: bool)
      requires Valid() && inst in queue.contents
      requires inst.threadData.completed ==> seen
      modifies inst.threadData
      ensures Valid() && inst.threadData.completed == seen
      ensures FlagsOf(records) == old(FlagsOf(records))[inst.threadData := seen]
    {
      assert inst in View().queue;
      QueuedOnce(View(), inst);
      assert inst !in freed;
      HandlerProgress(inst.threadData, seen, records);
    }

    /** Close, free and join one completed instance and take it out of the queue. */
    method Reap(inst: ThreadInstance) returns (ghost k: nat)
      requires Valid() && inst in queue.contents
      requires inst.threadData.completed
      modifies this`joined, this`freed, this`closed, queue, queue.footprint
      ensures Valid() && closed == old(closed)
      ensures queue.footprint == old(queue.footprint)
      ensures View() == Reaped(old(View()), inst)
      ensures FlagsOf(records) == old(FlagsOf(records))
      ensures k < |old(queue.contents)| && old(queue.contents)[k] == inst
      ensures queue.NodeAt(k) == old(queue.NodeAt(k + 1))
    {
      ghost var start := View();
      assert inst in start.queue;
      QueuedOnce(start, inst);
      ReapAccounts(start, inst);
      Release(inst);
      k := TakeOut(inst);
      assert View() == Reaped(start, inst);
    }

    /** Close the descriptor if need be, free the data, join, free the instance, which must not have
        been freed before. */
    method Release(inst: ThreadInstance)
      requires inst !in freed
      modifies this`closed, this`freed, this`joined
      ensures joined == old(joined) + [inst] && freed == old(freed) + [inst]
      ensures closed == old(closed) + if inst.threadData.clientFd != -1 then [inst] else []
    {
      if inst.threadData.clientFd != -1 {
        closed := closed + [inst];
      }
      freed, joined := freed + [inst], joined + [inst];
    }

    /** The sweep after each accept. `seen[i]` is the flag of the `i`-th queued instance when the
        sweep gets to it: handlers set flags meanwhile, but never clear them. Every node of the
        starting list is visited once, exactly the instances seen completed are joined and freed, in
        order, and the others stay queued, in order; the main thread closes no descriptor. */
    method Sweep(seen: seq<bool>)
      requires Valid() && |seen| == |queue.contents|
      requires FlagsAhead(FlagsOf(records), queue.contents, seen, 0)
      modifies this`joined, this`freed, this`closed, queue, queue.footprint, records
      ensures Valid() && closed == old(closed)
      ensures View() == Ledger.Sweep(old(View()), seen)
      ensures spawned == old(spawned) && old(joined) <= joined
      ensures Parts(old(queue.contents), seen, queue.contents, joined[|old(joined)|..])
    {
      ghost var start := View();
      QueueDistinct(start);
      SweepParts(start, seen);
      Traverse(seen);
      assert View() == Ledger.Sweep(start, seen);
    }

    /** The loop over the list. */
    method Traverse(seen: seq<bool>)
      requires Valid() && |seen| == |queue.contents|
      requires FlagsAhead(FlagsOf(records), queue.contents, seen, 0)
      modifies this`joined, this`freed, this`closed, queue, queue.footprint, records
      ensures Valid() && closed == old(closed)
      ensures View() == Ledger.Sweep(old(View()), seen)
    {
      ghost var start, k := View(), 0;
      QueueDistinct(start);
      CursorStarts(start, seen);
      var visited := 0;
      var node := queue.GetHead();
      while node != null
        invariant Sweeping(start, seen, visited, k, node)
        invariant closed == old(closed) && queue.footprint == old(queue.footprint)
        decreases |seen| - visited
      {
        node := SweepStep(node, seen[visited], start, seen, visited, k);
        k := if seen[visited] then k else k + 1;
        visited := visited + 1;
      }
      assert k >= |View().queue|;
      CursorEnds(start, seen, visited, k, View());
    }

    /** Take the front thread out of the queue, if there is one, close its descriptor if need be,
        free and join it. */
    method DrainOne() returns (more: bool)
      requires Valid()
      modifies this`joined, this`freed, this`closed, queue, queue.footprint
      ensures Valid() && queue.footprint == old(queue.footprint)
      ensures more == (old(queue.contents) != [])
      ensures View() == if more then Reaped(old(View()), old(queue.contents[0])) else old(View())
      ensures closed == if more then old(closed) + IfOpen(old(queue.contents[0]), old(FdsOf(records))) else old(closed)
      ensures FdsOf(records) == old(FdsOf(records))
    {
      ghost var start := View();
      var r := TakeFront();
      if r.None? {
        return false;
      }
      assert r.value in start.queue;
      QueuedOnce(start, r.value);
      ReapAccounts(start, r.value);
      Settle(r.value);
      return true;
    }

    /** Putting a thread into the queue touches no thread data, ... */
    method PutLast(inst: ThreadInstance, granted: bool) returns (ok: bool)
      requires queue.Valid() && Protocol(spawned, records)
      modifies queue, queue.footprint
      ensures queue.Valid() && Protocol(spawned, records)
      ensures ok == granted && queue.contents == old(queue.contents) + if ok then [inst] else []
    {
      ok := queue.Enqueue(inst, granted);
    }

    /** ... nor does taking one out ... */
    method TakeOut(inst: ThreadInstance) returns (ghost k: nat)
      requires queue.Valid() && Protocol(spawned, records) && inst in queue.contents
      modifies queue, queue.footprint
      ensures queue.Valid() && queue.footprint == old(queue.footprint)
      ensures Protocol(spawned, records) && FlagsOf(records) == old(FlagsOf(records))
      ensures queue.contents == RemoveFirst(old(queue.contents), inst)
      ensures k < |old(queue.contents)| && old(queue.contents)[k] == inst
      ensures queue.NodeAt(k) == old(queue.NodeAt(k + 1))
    {
      var found;
      found, k := queue.Remove(inst);
    }

    /** ... or taking the front one. */
    method TakeFront() returns (r: Option<ThreadInstance>)
      requires queue.Valid() && Protocol(spawned, records)
      modifies queue, queue.footprint
      ensures queue.Valid() && queue.footprint == old(queue.footprint)
      ensures Protocol(spawned, records) && FdsOf(records) == old(FdsOf(records))
      ensures if old(queue.contents) == [] then r == None && queue.contents == []
              else r == Some(old(queue.contents)[0]) && queue.contents == RemoveFirst(old(queue.contents), r.value)
    {
      r := queue.Dequeue();
    }

    /** Close, free and join an instance just taken from the queue. */
    method Settle(inst: ThreadInstance)
      requires queue.Valid() && Protocol(spawned, records) && freed == joined
      requires inst in spawned && inst !in joined && Accounted(Threads(queue.contents, joined + [inst], spawned))
      modifies this`joined, this`freed, this`closed
      ensures Valid() && joined == old(joined) + [inst]
      ensures closed == old(closed) + IfOpen(inst, FdsOf(records)) && FdsOf(records) == old(FdsOf(records))
    {
      Release(inst);
      assert View() == Threads(queue.contents, old(joined) + [inst], spawned);
    }

    /** Shutdown: whatever is still queued is joined and freed, front first, completed or not; the
        descriptors its handlers have not cleared are closed. */
    method Shutdown()
      requires Valid()
      modifies this`joined, this`freed, this`closed, queue, queue.footprint
      ensures Valid()
      ensures View() == Drain(old(View()))
      ensures queue.contents == [] && joined == old(joined) + old(queue.contents)
      ensures closed == old(closed) + StillOpen(old(queue.contents), old(FdsOf(records)))
      ensures old(closed) <= closed && ClosesOpen(old(queue.contents), old(FdsOf(records)), closed[|old(closed)|..])
      ensures forall x :: x in old(queue.contents) ==>
                x.threadData in old(FdsOf(records)) && old(FdsOf(records))[x.threadData] == old(x.threadData.clientFd)
    {
      forall x | x in queue.contents
        ensures x.threadData in records
      {
        assert x in View().queue;
        QueuedOnce(View(), x);
      }
      QueueDistinct(View());
      StillOpenMeaning(queue.contents, FdsOf(records));
      ghost var start, closed0, fds := View(), closed, FdsOf(records);
      var more := true;
      while more
        invariant Valid() && queue.footprint == old(queue.footprint) && fds == FdsOf(records)
        invariant DrainAll(View(), closed, fds) == DrainAll(start, closed0, fds)
        invariant !more ==> queue.contents == []
        decreases |queue.contents|, more
      {
        ghost var now, was := View(), closed;
        more := DrainOne();
        if more {
          DrainAllStep(now, was, fds);
        }
      }
      DrainAllIs(start, closed0, fds);
    }
  }
}
