/** What the server's main loop does to its set of threads, as a value: the queue, the threads joined
    so far, and every thread ever spawned. */
module Ledger {
  import opened Bytes
  import opened ThreadQueue

  /** The elements whose flag is not set, and those whose flag is, in order. */
  ghost function Kept<T>(s: seq<T>, done: seq<bool>): seq<T>
    requires |s| == |done|
  {
    if s == [] then []
    else
      var n := |s| - 1;
      Kept(s[..n], done[..n]) + if done[n] then [] else [s[n]]
  }

  ghost function Picked<T>(s: seq<T>, done: seq<bool>): seq<T>
    requires |s| == |done|
  {
    if s == [] then []
    else
      var n := |s| - 1;
      Picked(s[..n], done[..n]) + if done[n] then [s[n]] else []
  }

  /** The elements of `part` come in the same order in `s`. */
  ghost predicate InOrder<T>(part: seq<T>, s: seq<T>) {
    forall a, b, i, j ::
      (0 <= a < b < |part| && 0 <= i < |s| && 0 <= j < |s| && s[i] == part[a] && s[j] == part[b]) ==> i < j
  }

  lemma InOrderSnoc<T>(part: seq<T>, s: seq<T>, x: T)
    requires InOrder(part, s) && x !in s && forall y :: y in part ==> y in s
    ensures InOrder(part, s + [x]) && InOrder(part + [x], s + [x])
  {
    forall a, b, i, j | 0 <= a < b < |part + [x]| && 0 <= i < |s + [x]| && 0 <= j < |s + [x]| &&
      (s + [x])[i] == (part + [x])[a] && (s + [x])[j] == (part + [x])[b]
      ensures i < j
    {
      assert part[a] in s;
      assert b < |part| ==> part[b] in s;
    }
  }

  lemma InOrderCons<T>(part: seq<T>, s: seq<T>, x: T)
    requires InOrder(part, s) && x !in s && forall y :: y in part ==> y in s
    ensures InOrder(part, [x] + s) && InOrder([x] + part, [x] + s)
  {
    forall a, b, i, j | 0 <= a < b < |part| && 0 <= i < |s| + 1 && 0 <= j < |s| + 1 &&
      ([x] + s)[i] == part[a] && ([x] + s)[j] == part[b]
      ensures i < j
    {
      LaterIn(part, s, x, a, i);
      LaterIn(part, s, x, b, j);
    }
    forall a, b, i, j | 0 <= a < b < |part| + 1 && 0 <= i < |s| + 1 && 0 <= j < |s| + 1 &&
      ([x] + s)[i] == ([x] + part)[a] && ([x] + s)[j] == ([x] + part)[b]
      ensures i < j
    {
      LaterIn(part, s, x, b - 1, j);
      if a > 0 {
        LaterIn(part, s, x, a - 1, i);
      }
    }
  }

  lemma LaterIn<T>(part: seq<T>, s: seq<T>, x: T, a: nat, i: nat)
    requires x !in s && (forall y :: y in part ==> y in s)
    requires a < |part| && i <= |s| && ([x] + s)[i] == part[a]
    ensures i > 0 && s[i - 1] == part[a]
  {
    assert part[a] in s;
  }

  /** `kept` and `picked` part `s` by the flags, in order. */
  ghost predicate Parts<T>(s: seq<T>, done: seq<bool>, kept: seq<T>, picked: seq<T>)
    requires |s| == |done|
  {
    && Distinct(kept) && Distinct(picked)
    && InOrder(kept, s) && InOrder(picked, s)
    && (forall i :: 0 <= i < |s| ==> (s[i] in kept <==> !done[i]) && (s[i] in picked <==> done[i]))
    && (forall x :: x in kept ==> x in s)
    && (forall x :: x in picked ==> x in s)
  }

  lemma PartsSnoc<T>(s: seq<T>, done: seq<bool>, kept: seq<T>, picked: seq<T>, x: T, flag: bool)
    requires |s| == |done| && Parts(s, done, kept, picked) && x !in s
    ensures if flag then Parts(s + [x], done + [flag], kept, picked + [x])
            else Parts(s + [x], done + [flag], kept + [x], picked)
  {
    InOrderSnoc(kept, s, x);
    InOrderSnoc(picked, s, x);
  }

  /** Both parts keep the order, and every element is in exactly one of them. */
  lemma {:induction false} KeptAndPicked<T>(s: seq<T>, done: seq<bool>)
    requires |s| == |done| && Distinct(s)
    ensures Parts(s, done, Kept(s, done), Picked(s, done))
  {
    if s != [] {
      var n := |s| - 1;
      var front, seen := s[..n], done[..n];
      KeptAndPicked(front, seen);
      assert s == front + [s[n]] && done == seen + [done[n]];
      assert s[n] !in front;
      PartsSnoc(front, seen, Kept(front, seen), Picked(front, seen), s[n], done[n]);
      assert Kept(front, seen) + [] == Kept(front, seen) && Picked(front, seen) + [] == Picked(front, seen);
    }
  }

  datatype Threads<!T> = Threads(queue: seq<T>, joined: seq<T>, spawned: seq<T>)

  /** One pass over the queue: those seen completed are joined. */
  ghost function Sweep<T>(s: Threads<T>, done: seq<bool>): Threads<T>
    requires |done| == |s.queue|
  {
    s.(queue := Kept(s.queue, done), joined := s.joined + Picked(s.queue, done))
  }

  lemma SweepParts<T>(s: Threads<T>, done: seq<bool>)
    requires |done| == |s.queue| && Distinct(s.queue)
    ensures s.joined <= Sweep(s, done).joined && Sweep(s, done).spawned == s.spawned
    ensures Parts(s.queue, done, Sweep(s, done).queue, Sweep(s, done).joined[|s.joined|..])
  {
    KeptAndPicked(s.queue, done);
    assert (s.joined + Picked(s.queue, done))[|s.joined|..] == Picked(s.queue, done);
  }

  /** One queued thread is joined. */
  ghost function Reaped<T>(s: Threads<T>, x: T): Threads<T> {
    s.(queue := RemoveFirst(s.queue, x), joined := s.joined + [x])
  }

  /** The pass so far, one removal at a time: the first `|done|` threads have been looked at. */
  ghost function Midway<T>(s: Threads<T>, done: seq<bool>): Threads<T>
    requires |done| <= |s.queue|
  {
    if done == [] then s
    else
      var n := |done| - 1;
      if done[n] then Reaped(Midway(s, done[..n]), s.queue[n]) else Midway(s, done[..n])
  }

  /** How many of the threads looked at were kept. */
  ghost function KeptCount(done: seq<bool>): nat {
    if done == [] then 0
    else
      var n := |done| - 1;
      KeptCount(done[..n]) + if done[n] then 0 else 1
  }

  /** The kept threads followed by those not looked at yet. */
  ghost function Halfway<T>(s: Threads<T>, done: seq<bool>): Threads<T>
    requires |done| <= |s.queue|
  {
    var seen := s.queue[..|done|];
    s.(queue := Kept(seen, done) + s.queue[|done|..], joined := s.joined + Picked(seen, done))
  }

  lemma HalfwayStep<T>(s: Threads<T>, done: seq<bool>, gone: bool)
    requires |done| < |s.queue| && Distinct(s.queue)
    ensures Halfway(s, done + [gone]) ==
            if gone then Reaped(Halfway(s, done), s.queue[|done|]) else Halfway(s, done)
  {
    var n := |done|;
    var x, rest, seen := s.queue[n], s.queue[n + 1..], s.queue[..n];
    var kept, picked := Kept(seen, done), Picked(seen, done);
    assert s.queue[..n + 1][..n] == seen && (done + [gone])[..n] == done;
    assert s.queue[n..] == [x] + rest;
    if gone {
      KeptAndPicked(seen, done);
      assert x !in seen;
      RemoveBehind(kept, x, rest);
      Regroup(s.joined, picked, [x]);
    } else {
      Regroup(kept, [x], rest);
    }
  }

  /** Removing one by one amounts to keeping those not seen completed. */
  lemma {:induction false} MidwayShape<T>(s: Threads<T>, done: seq<bool>)
    requires |done| <= |s.queue| && Distinct(s.queue)
    ensures Midway(s, done) == Halfway(s, done)
  {
    if done == [] {
      assert s.queue[..0] == [] && [] + s.queue[0..] == s.queue;
      assert s.joined + [] == s.joined;
    } else {
      var n := |done| - 1;
      MidwayShape(s, done[..n]);
      assert done == done[..n] + [done[n]];
      HalfwayStep(s, done[..n], done[n]);
    }
  }

  lemma {:induction false} KeptCountIs<T>(s: seq<T>, done: seq<bool>)
    requires |s| == |done|
    ensures |Kept(s, done)| == KeptCount(done)
  {
    if s != [] {
      KeptCountIs(s[..|s| - 1], done[..|s| - 1]);
    }
  }

  /** The next thread to look at is the one right behind the kept ones. */
  lemma MidwayNext<T>(s: Threads<T>, done: seq<bool>)
    requires |done| <= |s.queue| && Distinct(s.queue)
    ensures |Midway(s, done).queue| == KeptCount(done) + |s.queue| - |done|
    ensures |done| < |s.queue| ==> Midway(s, done).queue[KeptCount(done)] == s.queue[|done|]
  {
    MidwayShape(s, done);
    KeptCountIs(s.queue[..|done|], done);
  }

  lemma MidwayEnds<T>(s: Threads<T>, done: seq<bool>)
    requires |done| == |s.queue| && Distinct(s.queue)
    ensures Midway(s, done) == Sweep(s, done)
  {
    MidwayShape(s, done);
    assert s.queue[..|s.queue|] == s.queue;
    assert Kept(s.queue, done) + s.queue[|done|..] == Kept(s.queue, done);
  }

  lemma MidwaySnoc<T>(s: Threads<T>, done: seq<bool>, gone: bool)
    requires |done| < |s.queue|
    ensures Midway(s, done + [gone]) == if gone then Reaped(Midway(s, done), s.queue[|done|]) else Midway(s, done)
    ensures KeptCount(done + [gone]) == KeptCount(done) + if gone then 0 else 1
  {
    assert (done + [gone])[..|done|] == done;
  }

  /** The pass after `v` threads: `now` is the ledger, and the next thread to look at is at index `k`
      of the queue, right behind the `k` kept ones. */
  ghost predicate Cursor<T>(start: Threads<T>, seen: seq<bool>, v: nat, k: nat, now: Threads<T>) {
    && v <= |seen| == |start.queue|
    && now == Midway(start, seen[..v]) && k == KeptCount(seen[..v])
    && |now.queue| == k + |start.queue| - v
    && (v < |start.queue| ==> now.queue[k] == start.queue[v])
  }

  lemma CursorStarts<T>(start: Threads<T>, seen: seq<bool>)
    requires Distinct(start.queue) && |seen| == |start.queue|
    ensures Cursor(start, seen, 0, 0, start)
  {
    assert seen[..0] == [];
    MidwayNext(start, []);
  }

  lemma CursorSteps<T>(start: Threads<T>, seen: seq<bool>, v: nat, k: nat, now: Threads<T>)
    requires Distinct(start.queue) && Cursor(start, seen, v, k, now) && v < |seen|
    ensures if seen[v] then Cursor(start, seen, v + 1, k, Reaped(now, start.queue[v]))
            else Cursor(start, seen, v + 1, k + 1, now)
  {
    assert seen[..v + 1] == seen[..v] + [seen[v]];
    MidwaySnoc(start, seen[..v], seen[v]);
    MidwayNext(start, seen[..v + 1]);
  }

  lemma CursorEnds<T>(start: Threads<T>, seen: seq<bool>, v: nat, k: nat, now: Threads<T>)
    requires Distinct(start.queue) && Cursor(start, seen, v, k, now) && k >= |now.queue|
    ensures now == Sweep(start, seen)
  {
    assert seen[..|seen|] == seen;
    MidwayEnds(start, seen);
  }

  /** A new thread enters at the end of the queue. */
  ghost function Spawn<T>(s: Threads<T>, x: T): Threads<T> {
    s.(queue := s.queue + [x], spawned := s.spawned + [x])
  }

  /** Shutdown joins whatever is left, in order. */
  ghost function Drain<T>(s: Threads<T>): Threads<T> {
    s.(queue := [], joined := s.joined + s.queue)
  }

  /** Every thread spawned is, once, in the queue or among the joined. */
  ghost predicate Accounted<T>(s: Threads<T>) {
    Distinct(s.spawned) && multiset(s.spawned) == multiset(s.queue) + multiset(s.joined)
  }

  lemma {:induction false} DistinctCount<T>(s: seq<T>, x: T)
    requires Distinct(s) && x in s
    ensures multiset(s)[x] == 1
  {
    var n := |s| - 1;
    assert s == s[..n] + [s[n]];
    if x == s[n] {
      assert x !in s[..n];
    } else {
      DistinctCount(s[..n], x);
    }
  }

  /** A queued thread was spawned and has not been joined ... */
  lemma QueuedOnce<T>(s: Threads<T>, x: T)
    requires Accounted(s) && x in s.queue
    ensures x in s.spawned && x !in s.joined && multiset(s.queue)[x] <= 1
  {
    assert x in multiset(s.queue);
    assert x in multiset(s.spawned);
    DistinctCount(s.spawned, x);
  }

  /** ... and no thread is queued twice. */
  lemma QueueDistinct<T>(s: Threads<T>)
    requires Accounted(s)
    ensures Distinct(s.queue)
  {
    forall i, j | 0 <= i < j < |s.queue|
      ensures s.queue[i] != s.queue[j]
    {
      var x := s.queue[j];
      QueuedOnce(s, x);
      assert s.queue == s.queue[..j] + [x] + s.queue[j + 1..];
      assert multiset(s.queue)[x] >= multiset(s.queue[..j])[x] + 1;
      assert x !in s.queue[..j];
      assert s.queue[..j][i] == s.queue[i];
    }
  }

  lemma SpawnAccounts<T>(s: Threads<T>, x: T)
    requires Accounted(s) && x !in s.spawned
    ensures Accounted(Spawn(s, x))
  {
  }

  /** An element more on either side of a split. */
  lemma SplitSnoc<T>(kept: seq<T>, picked: seq<T>, s: seq<T>, x: T)
    requires multiset(kept) + multiset(picked) == multiset(s)
    ensures multiset(kept + [x]) + multiset(picked + []) == multiset(s + [x])
    ensures multiset(kept + []) + multiset(picked + [x]) == multiset(s + [x])
  {
    assert kept + [] == kept && picked + [] == picked;
  }

  lemma {:induction false} KeptPickedMultiset<T>(s: seq<T>, done: seq<bool>)
    requires |s| == |done|
    ensures multiset(Kept(s, done)) + multiset(Picked(s, done)) == multiset(s)
  {
    if s != [] {
      var n := |s| - 1;
      KeptPickedMultiset(s[..n], done[..n]);
      var kept, picked := Kept(s[..n], done[..n]), Picked(s[..n], done[..n]);
      SplitSnoc(kept, picked, s[..n], s[n]);
      assert s == s[..n] + [s[n]];
      assert Kept(s, done) == kept + if done[n] then [] else [s[n]];
      assert Picked(s, done) == picked + if done[n] then [s[n]] else [];
    }
  }

  lemma SweepAccounts<T>(s: Threads<T>, done: seq<bool>)
    requires Accounted(s) && |done| == |s.queue|
    ensures Accounted(Sweep(s, done))
  {
    KeptPickedMultiset(s.queue, done);
  }

  /** Draining after joining the front thread is the same as draining. */
  lemma DrainFront<T>(s: Threads<T>)
    ensures s.queue != [] ==> Drain(Reaped(s, s.queue[0])) == Drain(s)
    ensures s.queue != [] ==> |Reaped(s, s.queue[0]).queue| < |s.queue|
  {
    if s.queue != [] {
      assert s.queue == [s.queue[0]] + s.queue[1..];
      assert s.joined + [s.queue[0]] + s.queue[1..] == s.joined + s.queue;
    }
  }

  lemma {:induction false} RemoveFirstMultiset<T>(s: seq<T>, x: T)
    requires x in s
    ensures multiset(RemoveFirst(s, x)) + multiset{x} == multiset(s)
  {
    assert s == [s[0]] + s[1..];
    if s[0] != x {
      RemoveFirstMultiset(s[1..], x);
    }
  }

  /** Moving one queued thread to the joined ones. */
  lemma ReapAccounts<T>(s: Threads<T>, x: T)
    requires Accounted(s) && x in s.queue
    ensures Accounted(Reaped(s, x))
  {
    RemoveFirstMultiset(s.queue, x);
  }

  lemma DrainAccounts<T>(s: Threads<T>)
    requires Accounted(s)
    ensures Accounted(Drain(s))
  {
  }

  /** One turn of the accept loop: a thread is spawned, then the queue is swept. */
  datatype Turn<!T> = Turn(spawn: T, done: seq<bool>)

  ghost predicate Fits<T>(s: Threads<T>, t: Turn<T>) {
    t.spawn !in s.spawned && |t.done| == |s.queue| + 1
  }

  ghost function RunTurns<T>(turns: seq<Turn<T>>): Option<Threads<T>> {
    if turns == [] then Some(Threads([], [], []))
    else
      var n := |turns| - 1;
      match RunTurns(turns[..n])
      case None => None
      case Some(s) => if Fits(s, turns[n]) then Some(Sweep(Spawn(s, turns[n].spawn), turns[n].done)) else None
  }

  /** Every run in which each thread is new and each sweep sees a flag for each queued one goes through. */
  lemma RunGoesOn<T>(turns: seq<Turn<T>>, t: Turn<T>)
    requires RunTurns(turns).Some?
    requires t.spawn !in RunTurns(turns).value.spawned
    requires |t.done| == |RunTurns(turns).value.queue| + 1
    ensures RunTurns(turns + [t]).Some?
  {
    assert (turns + [t])[..|turns|] == turns;
  }

  ghost function Spawns<T>(turns: seq<Turn<T>>): seq<T> {
    seq(|turns|, i requires 0 <= i < |turns| => turns[i].spawn)
  }

  lemma SpawnsLast<T>(turns: seq<Turn<T>>)
    requires turns != []
    ensures var n := |turns| - 1;
            Spawns(turns) == Spawns(turns[..n]) + [turns[n].spawn]
  {
  }

  lemma TurnAccounts<T>(s: Threads<T>, t: Turn<T>)
    requires Accounted(s) && Fits(s, t)
    ensures Accounted(Sweep(Spawn(s, t.spawn), t.done))
    ensures Sweep(Spawn(s, t.spawn), t.done).spawned == s.spawned + [t.spawn]
  {
    SpawnAccounts(s, t.spawn);
    SweepAccounts(Spawn(s, t.spawn), t.done);
  }

  /** Thread accounting over a whole server run, whatever each sweep sees. */
  lemma {:induction false} RunAccounts<T>(turns: seq<Turn<T>>)
    requires RunTurns(turns).Some?
    ensures Accounted(RunTurns(turns).value)
    ensures RunTurns(turns).value.spawned == Spawns(turns)
  {
    if turns != [] {
      var n := |turns| - 1;
      RunAccounts(turns[..n]);
      var s := RunTurns(turns[..n]).value;
      assert Fits(s, turns[n]) && RunTurns(turns) == Some(Sweep(Spawn(s, turns[n].spawn), turns[n].done));
      TurnAccounts(s, turns[n]);
      SpawnsLast(turns);
    }
  }

  /** After the shutdown drain the queue is empty and the joined threads are, up to order, exactly
      the threads spawned, each once. */
  lemma ShutdownJoinsEachOnce<T>(turns: seq<Turn<T>>)
    requires RunTurns(turns).Some?
    ensures var end := Drain(RunTurns(turns).value);
            end.queue == [] && Distinct(Spawns(turns)) && multiset(end.joined) == multiset(Spawns(turns))
  {
    RunAccounts(turns);
    DrainAccounts(RunTurns(turns).value);
  }
}
