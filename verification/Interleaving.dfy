/** Runs of the device: any interleaving of atomic calls made through any number of open files. */
module Interleaving {
  import opened Bytes
  import opened Layout
  import opened CommandLog
  import opened History
  import opened Reading

  /** One call. `Reposition` stands for whatever position `llseek` leaves in the file. */
  datatype Event =
    | WriteCall(data: seq<byte>, outcome: WriteOutcome, junk: seq<byte>)
    | ReadCall(handle: nat, count: nat, how: CopyOutcome)
    | SeekCall(handle: nat, cmd: nat, offset: nat)
    | Reposition(handle: nat, pos: nat)

  /** The device and the position of every open file; a file starts at position 0. */
  datatype World = World(log: Log, pos: map<nat, nat>)

  const START: World := World(EMPTY, map[])

  /** The device together with one open file. */
  function Alone(g: Log, handle: nat, pos: nat): World {
    World(g, map[handle := pos])
  }

  function PosOf(w: World, handle: nat): nat {
    if handle in w.pos then w.pos[handle] else 0
  }

  /** The bytes an event delivers to its caller. */
  function Delivered(w: World, e: Event): seq<byte> {
    if !e.ReadCall? then []
    else
      match ReadReturn(Live(w.log), PosOf(w, e.handle), e.count, e.how)
      case Data(b) => b
      case Failed(_) => []
  }

  function Step(w: World, e: Event): World {
    match e
    case WriteCall(data, outcome, junk) => w.(log := WriteStep(w.log, data, outcome, junk))
    case ReadCall(h, _, _) => w.(pos := w.pos[h := PosOf(w, h) + |Delivered(w, e)|])
    case SeekCall(h, cmd, offset) =>
      (match SeekTo(Live(w.log), cmd, offset)
       case None => w
       case Some(p) => w.(pos := w.pos[h := p]))
    case Reposition(h, p) => w.(pos := w.pos[h := p])
  }

  /** A call sees and changes only the device and its own file. */
  lemma StepIsLocal(w: World, e: Event, h: nat)
    ensures var own := Step(Alone(w.log, h, PosOf(w, h)), e);
            && own.log == Step(w, e).log
            && ((e.WriteCall? || e.handle != h) ==> PosOf(Step(w, e), h) == PosOf(w, h))
            && (!e.WriteCall? && e.handle == h ==> PosOf(Step(w, e), h) == PosOf(own, h))
            && (!e.WriteCall? ==> Step(w, e).log == w.log)
            && (e.Reposition? && e.handle == h ==> PosOf(Step(w, e), h) == e.pos)
  {
  }

  /** A read that could not get the mutex, or whose copy faults, delivers nothing and moves no file. */
  lemma FailedReadIsNothing(w: World, e: Event, h: nat)
    requires e.ReadCall? && e.how != Copied
    ensures Delivered(w, e) == []
    ensures Step(w, e).log == w.log && PosOf(Step(w, e), h) == PosOf(w, h)
  {
  }

  /** A read moves its own position by what it delivers. */
  lemma ReadStep(g: Log, h: nat, pos: nat, count: nat, how: CopyOutcome)
    ensures var r := ReadReturn(Live(g), pos, count, how);
            Step(Alone(g, h, pos), ReadCall(h, count, how)) ==
            Alone(g, h, pos + if r.Data? then |r.bytes| else 0)
  {
    var w := Alone(g, h, pos);
    var n := |Delivered(w, ReadCall(h, count, how))|;
    assert map[h := pos][h := pos + n] == map[h := pos + n];
  }

  /** An accepted seek sets its own position; a rejected one leaves it. */
  lemma SeekStep(g: Log, h: nat, pos: nat, cmd: nat, offset: nat)
    ensures var p := SeekTo(Live(g), cmd, offset);
            Step(Alone(g, h, pos), SeekCall(h, cmd, offset)) ==
            Alone(g, h, if p.Some? then p.value else pos)
  {
    var p := SeekTo(Live(g), cmd, offset);
    if p.Some? {
      assert map[h := pos][h := p.value] == map[h := p.value];
    }
  }

  function Run(w: World, es: seq<Event>): World {
    if es == [] then w else Step(Run(w, es[..|es| - 1]), es[|es| - 1])
  }

  /** What the calls require: a write that gets the mutex has something staged or to stage and is
      clean, and a read is at a position the driver can decode. */
  ghost predicate Allowed(w: World, e: Event) {
    match e
    case WriteCall(data, outcome, _) =>
      (outcome != Interrupted ==> StagingSize(w.log.staging) + |data| > 0) && Clean(w.log, outcome)
    case ReadCall(h, _, _) => Readable(Live(w.log), PosOf(w, h))
    case _ => true
  }

  ghost predicate AllowedRun(es: seq<Event>) {
    forall i :: 0 <= i < |es| ==> Allowed(Run(START, es[..i]), es[i])
  }

  /** A call that is allowed in any state of a short run: a write of at least one byte that does not run
      out of memory, and nothing that puts a position at 2^63 or beyond. */
  predicate Modest(e: Event) {
    match e
    case WriteCall(data, outcome, _) => data != [] && outcome != NoMemory
    case Reposition(_, pos) => pos < TWO63
    case _ => true
  }

  /** Any run of such calls is allowed while less than 2^31 bytes are accepted. */
  lemma {:induction false} ModestRunIsAllowed(es: seq<Event>)
    requires (forall e :: e in es ==> Modest(e)) && |Accepted(es)| < 0x8000_0000
    ensures AllowedRun(es)
    ensures forall h: nat :: PosOf(Run(START, es), h) < TWO63
  {
    if es != [] {
      var n := |es| - 1;
      var w, e := Run(START, es[..n]), es[n];
      AcceptedGrows(es, n);
      ModestRunIsAllowed(es[..n]);
      RunConserves(es[..n]);
      assert e in es;
      forall h: nat
        ensures Readable(Live(w.log), PosOf(w, h)) && PosOf(Step(w, e), h) < TWO63
      {
        ModestStep(w, e, h);
      }
      forall i | 0 <= i < |es|
        ensures Allowed(Run(START, es[..i]), es[i])
      {
        if i < n {
          assert es[..n][..i] == es[..i] && es[..n][i] == es[i];
        }
      }
    }
  }

  lemma ModestStep(w: World, e: Event, h: nat)
    requires Modest(e) && w.log.staging.Held? && |Stream(w.log)| < 0x8000_0000 && PosOf(w, h) < TWO63
    ensures Readable(Live(w.log), PosOf(w, h))
    ensures PosOf(Step(w, e), h) < TWO63
  {
    ShortIsReadable(Live(w.log), PosOf(w, h));
    if e.ReadCall? && e.handle == h {
      DeliveredIsWindow(w, e);
    }
    if e.SeekCall? && e.handle == h {
      SeekInRange(Live(w.log), e.cmd, e.offset);
    }
  }

  /** The bytes accepted by the device: the data of all successful writes, in order. */
  function Accepted(es: seq<Event>): seq<byte> {
    Flat(StoredChunks(es))
  }

  function StoredChunks(es: seq<Event>): seq<seq<byte>> {
    if es == [] then []
    else
      var front, e := StoredChunks(es[..|es| - 1]), es[|es| - 1];
      if e.WriteCall? && e.outcome == Stored then front + [e.data] else front
  }

  lemma AllowedPrefix(es: seq<Event>, n: nat)
    requires AllowedRun(es) && n <= |es|
    ensures AllowedRun(es[..n])
  {
    forall i | 0 <= i < n
      ensures Allowed(Run(START, es[..n][..i]), es[..n][i])
    {
      assert es[..n][..i] == es[..i];
    }
  }

  /** History refinement over every allowed run: whatever else was called in between, and however
      calls failed, the log is the one that just the successful writes produce. */
  lemma {:induction false} RunIsHistory(es: seq<Event>)
    requires AllowedRun(es)
    ensures Run(START, es).log == StoreAll(StoredChunks(es))
    ensures Run(START, es).log == Log(Group(StoredChunks(es)).groups, Held(Group(StoredChunks(es)).rest))
    ensures Healthy(Run(START, es).log)
  {
    CommitsAreGroups(StoredChunks(es));
    if es != [] {
      var n := |es| - 1;
      AllowedPrefix(es, n);
      RunIsHistory(es[..n]);
      assert Allowed(Run(START, es[..n]), es[n]);
      StoredStep(Run(START, es[..n]), es[n], StoredChunks(es[..n]));
    }
  }

  lemma StoredStep(w: World, e: Event, chunks: seq<seq<byte>>)
    requires Allowed(w, e) && Healthy(w.log) && w.log == StoreAll(chunks)
    ensures e.WriteCall? && e.outcome == Stored ==> Step(w, e).log == StoreAll(chunks + [e.data])
    ensures !(e.WriteCall? && e.outcome == Stored) ==> Step(w, e).log == w.log
  {
    if e.WriteCall? && e.outcome == Stored {
      assert (chunks + [e.data])[..|chunks|] == chunks;
    }
  }

  /** In every run at all, reallocation failures included, every command committed ends in a newline. */
  lemma {:induction false} RunClosesCommits(es: seq<Event>)
    ensures CommitsClosed(Run(START, es).log)
  {
    if es != [] {
      var n := |es| - 1;
      RunClosesCommits(es[..n]);
      if es[n].WriteCall? {
        CommitsStayClosed(Run(START, es[..n]).log, es[n].data, es[n].outcome, es[n].junk);
      }
    }
  }

  // one byte is staged, the next write's reallocation fails, and the third commits a fresh buffer
  const LOSING: seq<Event> :=
    [WriteCall([120], Stored, []), WriteCall([121], NoMemory, []), WriteCall([NEWLINE], Stored, [0])]

  lemma LosingRun()
    ensures Run(START, LOSING).log == Log([[0, NEWLINE]], Held([]))
  {
    var x, y, z := LOSING[0], LOSING[1], LOSING[2];
    RunSnoc(START, [], x);
    RunSnoc(START, [x], y);
    RunSnoc(START, [x, y], z);
    assert [] + [x] == [x] && [x] + [y] == [x, y] && [x, y] + [z] == LOSING;
    assert Run(START, [x]).log == Log([], Held([120]));
    assert Run(START, [x, y]).log == Log([], Lost(1));
    assert Recovered(Lost(1), [0]) + z.data == [0, NEWLINE];
  }

  lemma LosingAccepts()
    ensures Accepted(LOSING) == [120, NEWLINE]
  {
    var x, y, z := LOSING[0], LOSING[1], LOSING[2];
    assert LOSING[..2] == [x, y] && [x, y][..1] == [x] && [x][..0] == [];
    assert StoredChunks([x]) == [] + [x.data];
    assert StoredChunks(LOSING) == [] + [x.data] + [z.data];
    FlatSnoc([], x.data);
    FlatSnoc([] + [x.data], z.data);
  }

  /** A run that is not clean can break it. */
  lemma NoMemoryBreaksStream()
    ensures Run(START, LOSING).log == Log([[0, NEWLINE]], Held([]))
    ensures Accepted(LOSING) == [120, NEWLINE]
    ensures Stream(Run(START, LOSING).log) != Accepted(LOSING)
  {
    LosingRun();
    LosingAccepts();
    StreamIsFlat(Run(START, LOSING).log);
    FlatSnoc([], [0, NEWLINE]);
    assert [] + [[0, NEWLINE]] == [[0, NEWLINE]];
    assert Stream(Run(START, LOSING).log)[0] == 0;
  }

  /** Byte conservation over every allowed run: evicted ++ live ++ staged == accepted. */
  lemma {:induction false} RunConserves(es: seq<Event>)
    requires AllowedRun(es)
    ensures Run(START, es).log.staging.Held?
    ensures Stream(Run(START, es).log) == Accepted(es)
  {
    RunIsHistory(es);
    StreamIsFlat(Run(START, es).log);
    GroupsFlat(StoredChunks(es));
  }

  /** In every run at all, reallocation failures included, no byte count is lost: the committed bytes
      and the staging size add up to what was accepted. */
  lemma {:induction false} RunKeepsLength(es: seq<Event>)
    ensures var g := Run(START, es).log;
            |Evicted(g)| + |Flat(Live(g))| + StagingSize(g.staging) == |Accepted(es)|
  {
    CommitsSplit(Run(START, es).log);
    if es != [] {
      var n := |es| - 1;
      RunKeepsLength(es[..n]);
      var g := Run(START, es[..n]).log;
      CommitsSplit(g);
      if es[n].WriteCall? {
        WriteMeaning(g, es[n].data, es[n].outcome, es[n].junk);
        if es[n].outcome == Stored {
          FlatSnoc(StoredChunks(es[..n]), es[n].data);
        }
      }
    }
  }

  lemma CommitsSplit(g: Log)
    ensures |Evicted(g)| + |Flat(Live(g))| == |Flat(g.commits)|
  {
    StreamIsFlat(g.(staging := Held([])));
  }

  /** Grouping loses nothing. */
  lemma {:induction false} GroupsFlat(chunks: seq<seq<byte>>)
    ensures Flat(Group(chunks).groups) + Group(chunks).rest == Flat(chunks)
  {
    if chunks != [] {
      var front, c := chunks[..|chunks| - 1], chunks[|chunks| - 1];
      GroupsFlat(front);
      assert chunks == front + [c];
      GroupSnoc(front, c);
      FlatSnoc(front, c);
      FlatSnoc(Group(front).groups, Group(front).rest + c);
    }
  }

  // ----- the stream window -----

  /** The place in the accepted stream that a file position stands for. */
  function StreamPos(w: World, handle: nat): nat {
    |Evicted(w.log)| + PosOf(w, handle)
  }

  /** What one read delivers, seen in the flat content. */
  lemma DeliveredIsWindow(w: World, e: Event)
    requires e.ReadCall?
    ensures var content, pos, b := Flat(Live(w.log)), PosOf(w, e.handle), Delivered(w, e);
            && (b != [] ==> IsWindow(content, pos, b))
            && (e.how == Copied && e.count > 0 ==> (b == [] <==> pos >= |content|))
  {
    ReadIsWindow(Live(w.log), PosOf(w, e.handle), e.count);
  }

  predicate IsWindow(content: seq<byte>, pos: nat, b: seq<byte>) {
    pos + |b| <= |content| && b == content[pos..pos + |b|]
  }

  lemma WindowAppend(content: seq<byte>, pos: nat, a: seq<byte>, b: seq<byte>)
    requires a == [] || IsWindow(content, pos, a)
    requires IsWindow(content, pos + |a|, b)
    ensures IsWindow(content, pos, a + b)
  {
    assert content[pos..pos + |a| + |b|] == content[pos..pos + |a|] + content[pos + |a|..pos + |a| + |b|];
  }

  /** A window of the live content is a window of the stream, the evicted bytes further on. */
  lemma WindowInStream(g: Log, pos: nat, b: seq<byte>)
    requires g.staging.Held? && IsWindow(Flat(Live(g)), pos, b)
    ensures IsWindow(Stream(g), |Evicted(g)| + pos, b)
  {
    var at := |Evicted(g)| + pos;
    var x := Stream(g)[at..at + |b|];
    assert forall i :: 0 <= i < |b| ==> x[i] == b[i];
  }

  /** Whatever a read delivers, in any interleaving, is the window of the accepted stream at the
      position of its file. */
  lemma StreamWindow(es: seq<Event>, i: nat)
    requires AllowedRun(es) && i < |es| && es[i].ReadCall?
    ensures var w := Run(START, es[..i]);
            var b, at, stream := Delivered(w, es[i]), |Evicted(w.log)| + PosOf(w, es[i].handle), Accepted(es[..i]);
            b != [] ==> at + |b| <= |stream| && b == stream[at..at + |b|]
  {
    AllowedPrefix(es, i);
    RunConserves(es[..i]);
    DeliveredInStream(Run(START, es[..i]), es[i]);
  }

  lemma DeliveredInStream(w: World, e: Event)
    requires w.log.staging.Held? && e.ReadCall?
    ensures Delivered(w, e) != [] ==> IsWindow(Stream(w.log), StreamPos(w, e.handle), Delivered(w, e))
  {
    if Delivered(w, e) != [] {
      DeliveredIsWindow(w, e);
      WindowInStream(w.log, PosOf(w, e.handle), Delivered(w, e));
    }
  }

  /** The accepted stream only grows. */
  lemma {:induction false} AcceptedGrows(es: seq<Event>, i: nat)
    requires i <= |es|
    ensures Accepted(es[..i]) <= Accepted(es)
    decreases |es|
  {
    if i < |es| {
      var n := |es| - 1;
      AcceptedGrows(es[..n], i);
      assert es[..n][..i] == es[..i];
      if es[n].WriteCall? && es[n].outcome == Stored {
        FlatSnoc(StoredChunks(es[..n]), es[n].data);
      }
    } else {
      assert es[..i] == es;
    }
  }

  /** `handle` is not moved by a seek. */
  predicate NeverSeeks(es: seq<Event>, handle: nat) {
    forall e :: e in es ==> !(e.SeekCall? && e.handle == handle) && !(e.Reposition? && e.handle == handle)
  }

  /** All bytes delivered to `handle` during `es`, in order. */
  function AllDelivered(w: World, es: seq<Event>, handle: nat): seq<byte> {
    if es == [] then []
    else
      var n := |es| - 1;
      AllDelivered(w, es[..n], handle) +
      if es[n].ReadCall? && es[n].handle == handle then Delivered(Run(w, es[..n]), es[n]) else []
  }

  /** A file that is never moved by a seek advances by exactly what is delivered to it; in the
      stream it also jumps over whatever is evicted meanwhile, read or not. */
  lemma {:induction false} ReaderAdvances(w: World, es: seq<Event>, handle: nat)
    requires NeverSeeks(es, handle)
    ensures PosOf(Run(w, es), handle) == PosOf(w, handle) + |AllDelivered(w, es, handle)|
    ensures Evicted(w.log) <= Evicted(Run(w, es).log)
    ensures StreamPos(Run(w, es), handle) ==
              StreamPos(w, handle) + |AllDelivered(w, es, handle)| + (|Evicted(Run(w, es).log)| - |Evicted(w.log)|)
  {
    if es != [] {
      var n := |es| - 1;
      var v, e := Run(w, es[..n]), es[n];
      ReaderAdvances(w, es[..n], handle);
      assert e in es;
      if e.WriteCall? {
        EvictedGrows(v.log, e.data, e.outcome, e.junk);
      }
    }
  }

  /** A file that is only read is, from position 0 on, where its reads have brought it. */
  lemma ReadsFromStart(es: seq<Event>, handle: nat)
    requires forall e :: e in es ==> e.WriteCall? || e.ReadCall?
    ensures PosOf(Run(START, es), handle) == |AllDelivered(START, es, handle)|
  {
    ReaderAdvances(START, es, handle);
  }

  lemma RunSnoc(w: World, es: seq<Event>, e: Event)
    ensures Run(w, es + [e]) == Step(Run(w, es), e)
  {
    assert (es + [e])[..|es|] == es;
  }

  lemma {:induction false} RunConcat(w: World, a: seq<Event>, b: seq<Event>)
    ensures Run(w, a + b) == Run(Run(w, a), b)
  {
    if b == [] {
      assert a + b == a;
    } else {
      var front, e := b[..|b| - 1], b[|b| - 1];
      RunConcat(w, a, front);
      RunSnoc(w, a + front, e);
      assert a + b == a + front + [e];
    }
  }

  /** Two reads by one file with no seek between them: the second window starts where the first
      ended, plus what was delivered to the file in between, plus the bytes evicted in between. So
      successive windows are disjoint and in order, and a file skips exactly the evicted bytes. */
  lemma ReadGap(es: seq<Event>, i: nat, j: nat)
    requires i < j < |es| && es[i].ReadCall? && es[j].ReadCall? && es[i].handle == es[j].handle
    requires NeverSeeks(es[i + 1..j], es[i].handle)
    ensures var h := es[i].handle;
            var first, second := Run(START, es[..i]), Run(START, es[..j]);
            var end := StreamPos(first, h) + |Delivered(first, es[i])|;
            var between := AllDelivered(Run(START, es[..i + 1]), es[i + 1..j], h);
            && |Evicted(first.log)| <= |Evicted(second.log)|
            && StreamPos(second, h) == end + |between| + (|Evicted(second.log)| - |Evicted(first.log)|)
  {
    var mid := Run(START, es[..i + 1]);
    assert es[..i + 1][..i] == es[..i];
    assert mid == Step(Run(START, es[..i]), es[i]);
    assert es[..j] == es[..i + 1] + es[i + 1..j];
    RunConcat(START, es[..i + 1], es[i + 1..j]);
    ReaderAdvances(mid, es[i + 1..j], es[i].handle);
  }

  // ----- draining -----

  /** Commits are never taken back. */
  lemma {:induction false} CommitsOnlyGrow(w: World, es: seq<Event>)
    ensures w.log.commits <= Run(w, es).log.commits
  {
    if es != [] {
      CommitsOnlyGrow(w, es[..|es| - 1]);
    }
  }

  /** A run that commits nothing commits nothing up to its last event. */
  lemma NothingCommitted(w: World, es: seq<Event>)
    requires es != [] && Run(w, es).log.commits == w.log.commits
    ensures Run(w, es[..|es| - 1]).log.commits == w.log.commits
  {
    var n := |es| - 1;
    var v := Run(w, es[..n]);
    CommitsOnlyGrow(w, es[..n]);
    assert [es[n]][..0] == [];
    CommitsOnlyGrow(v, [es[n]]);
    assert Run(v, [es[n]]) == Step(v, es[n]);
  }

  lemma NeverSeeksPrefix(es: seq<Event>, handle: nat)
    requires es != [] && NeverSeeks(es, handle)
    ensures NeverSeeks(es[..|es| - 1], handle)
  {
  }

  /** One more read extends what has been read so far. */
  lemma ExtendWindow(v: World, e: Event, content: seq<byte>, pos: nat, a: seq<byte>)
    requires e.ReadCall? && content == Flat(Live(v.log)) && PosOf(v, e.handle) == pos + |a|
    requires a != [] ==> IsWindow(content, pos, a)
    ensures a + Delivered(v, e) != [] ==> IsWindow(content, pos, a + Delivered(v, e))
  {
    if Delivered(v, e) != [] {
      DeliveredIsWindow(v, e);
      WindowAppend(content, pos, a, Delivered(v, e));
    } else {
      assert a + Delivered(v, e) == a;
    }
  }

  /** While nothing is committed, what a file reads is one contiguous stretch of the content. */
  lemma {:induction false} DrainIsContiguous(w: World, es: seq<Event>, handle: nat)
    requires NeverSeeks(es, handle)
    requires Run(w, es).log.commits == w.log.commits
    ensures AllDelivered(w, es, handle) != [] ==>
              IsWindow(Flat(Live(w.log)), PosOf(w, handle), AllDelivered(w, es, handle))
  {
    if es != [] {
      var n := |es| - 1;
      var v, e := Run(w, es[..n]), es[n];
      NothingCommitted(w, es);
      NeverSeeksPrefix(es, handle);
      DrainIsContiguous(w, es[..n], handle);
      ReaderAdvances(w, es[..n], handle);
      if e.ReadCall? && e.handle == handle {
        ExtendWindow(v, e, Flat(Live(w.log)), PosOf(w, handle), AllDelivered(w, es[..n], handle));
      }
    }
  }

  /** ... and once a copied, positive-count read has delivered nothing, all of the rest was read. */
  lemma DrainIsComplete(w: World, es: seq<Event>, e: Event)
    requires e.ReadCall? && e.count > 0 && e.how == Copied
    requires NeverSeeks(es, e.handle) && Run(w, es).log.commits == w.log.commits
    requires PosOf(w, e.handle) <= |Flat(Live(w.log))|
    ensures Delivered(Run(w, es), e) == [] <==>
            AllDelivered(w, es, e.handle) == Flat(Live(w.log))[PosOf(w, e.handle)..]
  {
    var content, pos, b := Flat(Live(w.log)), PosOf(w, e.handle), AllDelivered(w, es, e.handle);
    DrainIsContiguous(w, es, e.handle);
    ReaderAdvances(w, es, e.handle);
    DeliveredIsWindow(Run(w, es), e);
    assert b == content[pos..] <==> pos + |b| == |content|;
  }

  /** A seek from end to end: after an accepted one, while nothing is committed and the file is not
      moved again, reads until the first empty one deliver exactly the content from that byte of that
      command on. */
  lemma SeekThenDrain(w: World, cmd: nat, offset: nat, es: seq<Event>, e: Event)
    requires SeekTo(Live(w.log), cmd, offset).Some?
    requires e.ReadCall? && e.count > 0 && e.how == Copied && NeverSeeks(es, e.handle)
    requires var v := Step(w, SeekCall(e.handle, cmd, offset));
             Run(v, es).log.commits == w.log.commits && Delivered(Run(v, es), e) == []
    ensures var content, start := Flat(Live(w.log)), Sum(Sizes(Live(w.log))[..cmd]) + offset;
            start <= |content| &&
            AllDelivered(Step(w, SeekCall(e.handle, cmd, offset)), es, e.handle) == content[start..]
  {
    SeekInRange(Live(w.log), cmd, offset);
    DrainIsComplete(Step(w, SeekCall(e.handle, cmd, offset)), es, e);
  }

  /** How many reads by `handle` delivered something. */
  function Productive(w: World, es: seq<Event>, handle: nat): nat {
    if es == [] then 0
    else
      var n := |es| - 1;
      var hit := es[n].ReadCall? && es[n].handle == handle && Delivered(Run(w, es[..n]), es[n]) != [];
      Productive(w, es[..n], handle) + if hit then 1 else 0
  }

  /** Reads that deliver something are counted, one by one, and nothing else is. */
  lemma ProductiveCounts(w: World, es: seq<Event>, e: Event, handle: nat)
    ensures var more := AllDelivered(w, es + [e], handle) != AllDelivered(w, es, handle);
            Productive(w, es + [e], handle) == Productive(w, es, handle) + if more then 1 else 0
    ensures Productive(w, [], handle) == 0
  {
    assert (es + [e])[..|es|] == es;
    var before := AllDelivered(w, es, handle);
    assert before + [] == before;
  }

  /** The index of the command holding `pos`, or their number when there is none. */
  function EntryIndex(live: seq<seq<byte>>, pos: nat): nat {
    match Locate(Sizes(live), pos)
    case None => |live|
    case Some(p) => p.entry
  }

  /** The position where an entry ends belongs to a later entry, or to none. */
  lemma EntryAfter(sizes: seq<nat>, k: nat)
    requires k < |sizes|
    ensures var p := Locate(sizes, Sum(sizes[..k + 1]));
            p.Some? ==> k < p.value.entry < |sizes|
  {
    var end := Sum(sizes[..k + 1]);
    LocateMeaning(sizes, end);
    if Locate(sizes, end).Some? {
      var q := Locate(sizes, end).value;
      if q.entry <= k {
        SumMonotone(sizes, q.entry + 1, k + 1);
        SumTake(sizes, q.entry);
      }
    }
  }

  /** A read whose count covers the command it starts in ends at the start of a later one. */
  lemma FullReadMovesOn(live: seq<seq<byte>>, pos: nat, count: nat)
    requires forall c :: c in live ==> |c| <= count
    requires ReadAt(live, pos, count) != []
    ensures EntryIndex(live, pos) < EntryIndex(live, pos + |ReadAt(live, pos, count)|) <= |live|
  {
    var sizes := Sizes(live);
    LocateMeaning(sizes, pos);
    var p := Locate(sizes, pos).value;
    assert live[p.entry] in live;
    SumTake(sizes, p.entry);
    assert pos + |ReadAt(live, pos, count)| == Sum(sizes[..p.entry + 1]);
    EntryAfter(sizes, p.entry);
  }

  /** While nothing is committed, reads that each cover the longest command drain a file in at most
      as many productive reads as there are commands left, hence in at most ten. */
  lemma {:induction false} DrainInTen(w: World, es: seq<Event>, handle: nat)
    requires NeverSeeks(es, handle)
    requires Run(w, es).log.commits == w.log.commits
    requires forall e, c :: e in es && e.ReadCall? && e.handle == handle && c in Live(w.log) ==> |c| <= e.count
    ensures EntryIndex(Live(w.log), PosOf(w, handle)) + Productive(w, es, handle)
              <= EntryIndex(Live(w.log), PosOf(Run(w, es), handle)) <= |Live(w.log)| <= 10
  {
    var live := Live(w.log);
    if es == [] {
      LocateMeaning(Sizes(live), PosOf(w, handle));
    } else {
      var n := |es| - 1;
      NothingCommitted(w, es);
      NeverSeeksPrefix(es, handle);
      assert forall x :: x in es[..n] ==> x in es;
      DrainInTen(w, es[..n], handle);
      assert es[n] in es && NeverSeeks([es[n]], handle);
      MovesOn(Run(w, es[..n]), es[n], handle);
    }
  }

  lemma MovesOn(v: World, e: Event, handle: nat)
    requires e.ReadCall? && e.handle == handle ==> forall c :: c in Live(v.log) ==> |c| <= e.count
    requires NeverSeeks([e], handle)
    ensures var live, before, after := Live(v.log), PosOf(v, handle), PosOf(Step(v, e), handle);
            if e.ReadCall? && e.handle == handle && Delivered(v, e) != []
            then EntryIndex(live, before) < EntryIndex(live, after) <= |live|
            else before == after
  {
    assert e in [e];
    if e.ReadCall? && e.handle == handle && Delivered(v, e) != [] {
      FullReadMovesOn(Live(v.log), PosOf(v, handle), e.count);
    }
  }

  // ----- llseek -----

  /** The size `llseek` computes is not the stored length: after storing one newline it is 10. */
  lemma LlseekSizeWrong()
    ensures var es := [WriteCall([NEWLINE], Stored, [])];
            AllowedRun(es) &&
            var g := Run(START, es).log;
            |Flat(Live(g))| == 1 && LlseekSize(StagingSize(g.staging)) == 10
  {
    var es := [WriteCall([NEWLINE], Stored, [])];
    assert es[..0] == [];
    assert Run(START, es) == Step(START, es[0]);
    assert [] + [NEWLINE] == [NEWLINE];
    var g := Run(START, es).log;
    assert g.commits == [[NEWLINE]];
    assert Flat([[NEWLINE]]) == [NEWLINE] + Flat([]);
  }
}
