/** The server's data file is the driver's device: what stdio writes out are the driver's writes. */
module DataFile {
  import opened Bytes
  import opened CommandLog
  import opened History
  import opened Sessions
  import Interleaving

  /** The write a step makes, if it makes one; the driver is not called for no bytes. */
  function Writes(w: System, s: Step): seq<seq<byte>>
    requires Enabled(w, s)
  {
    if s.Spawn? then []
    else
      var out := Output(w.handlers[s.t], s);
      if out == [] then [] else [out]
  }

  /** A run of the server that makes these writes. */
  ghost predicate Recorded(steps: seq<Step>, w: System, chunks: seq<seq<byte>>)
  {
    if steps == [] then w == IDLE && chunks == []
    else
      var n := |steps| - 1;
      exists v, front ::
        Recorded(steps[..n], v, front) && Enabled(v, steps[n]) && w == Next(v, steps[n]) &&
        chunks == front + Writes(v, steps[n])
  }

  lemma RecordedSnoc(steps: seq<Step>, v: System, front: seq<seq<byte>>, s: Step)
    requires Recorded(steps, v, front) && Enabled(v, s)
    ensures Recorded(steps + [s], Next(v, s), front + Writes(v, s))
  {
    var all := steps + [s];
    assert all[..|all| - 1] == steps;
  }

  /** Recording changes nothing, and the writes are what the data file holds. */
  lemma {:induction false} RecordedIsRun(steps: seq<Step>, w: System, chunks: seq<seq<byte>>)
    requires Recorded(steps, w, chunks)
    ensures Run(steps, w) && w.device == Flat(chunks)
  {
    if steps != [] {
      var n := |steps| - 1;
      var v, front :|
        Recorded(steps[..n], v, front) && Enabled(v, steps[n]) && w == Next(v, steps[n]) &&
        chunks == front + Writes(v, steps[n]);
      RecordedIsRun(steps[..n], v, front);
      WritesGrow(v, front, steps[n]);
    }
  }

  lemma WritesGrow(v: System, front: seq<seq<byte>>, s: Step)
    requires Enabled(v, s) && v.device == Flat(front)
    ensures Next(v, s).device == Flat(front + Writes(v, s))
  {
    if Writes(v, s) == [] {
      assert front + [] == front && v.device + [] == v.device;
    } else {
      FlatSnoc(front, Output(v.handlers[s.t], s));
    }
  }

  // ----- what a session contributes -----

  /** The payloads of the sessions in `order`, one by one, less the empty ones. */
  function SessionChunks(w: System, order: seq<nat>): seq<seq<byte>>
    requires forall t :: t in order ==> t in w.handlers
  {
    if order == [] then []
    else
      var n := |order| - 1;
      var c := PayloadOf(w.handlers[order[n]]);
      SessionChunks(w, order[..n]) + if c == [] then [] else [c]
  }

  /** Each of the sessions in `order` contributes one line or nothing. */
  ghost predicate OneLineEach(w: System, order: seq<nat>)
    requires forall t :: t in order ==> t in w.handlers
  {
    forall t :: t in order ==> PayloadOf(w.handlers[t]) == [] || IsLine(PayloadOf(w.handlers[t]))
  }

  lemma {:induction false} ChunksOfSessions(w: System, order: seq<nat>)
    requires forall t :: t in order ==> t in w.handlers
    ensures Flat(SessionChunks(w, order)) == Payloads(w, order)
    ensures OneLineEach(w, order) <==> forall c :: c in SessionChunks(w, order) ==> IsLine(c)
  {
    if order != [] {
      var n := |order| - 1;
      var c := PayloadOf(w.handlers[order[n]]);
      assert order == order[..n] + [order[n]];
      ChunksOfSessions(w, order[..n]);
      if c == [] {
        assert SessionChunks(w, order) == SessionChunks(w, order[..n]);
        assert Payloads(w, order) == Payloads(w, order[..n]);
      } else {
        FlatSnoc(SessionChunks(w, order[..n]), c);
      }
    }
  }

  // ----- lines are commits -----

  /** Lines written one at a time are the groups. */
  lemma {:induction false} LinesAreGroups(lines: seq<seq<byte>>)
    requires forall c :: c in lines ==> IsLine(c)
    ensures Group(lines) == Grouping(lines, [])
    ensures Lines(Flat(lines)) == Grouping(lines, [])
  {
    if lines != [] {
      var front, c := lines[..|lines| - 1], lines[|lines| - 1];
      assert lines == front + [c];
      LinesAreGroups(front);
      GroupSnoc(front, c);
      assert IsLine(lines[|lines| - 1]);
      assert Extend(Grouping(front, []), c) == Grouping(front + [[] + c], []);
      assert [] + c == c;
    } else {
      assert FirstClosing(lines) == 0 && Flat(lines) == [];
    }
    CommitsAreLinesIff(lines);
  }

  // ----- every write is part of one line -----

  /** A piece of what has been appended, which is a part of the payload `p`. */
  lemma PieceShaped(p: seq<byte>, s: seq<byte>, before: seq<byte>, b: seq<byte>, after: seq<byte>)
    requires LineShaped(p) && s <= p && s == before + b + after
    ensures LineShaped(b)
  {
    forall i | 0 <= i < |b| - 1
      ensures b[i] != NEWLINE
    {
      assert b[i] == s[|before| + i] == p[|before| + i];
    }
  }

  /** What a handler writes is a piece of its payload. */
  lemma OutputShaped(h: Handler, s: Step)
    requires InputOk(h) && BufferOk(h) && At(h, s) && LineShaped(PayloadOf(h))
    ensures LineShaped(Output(h, s))
  {
    var out := Output(h, s);
    if out != [] {
      SoFarIsPrefix(h);
      assert h.buffered == out + h.buffered[|out|..];
      FromBuffer(PayloadOf(h), SoFar(h), h.buffered, |out|);
    }
  }

  lemma FromBuffer(p: seq<byte>, s: seq<byte>, b: seq<byte>, n: nat)
    requires LineShaped(p) && s <= p && IsSuffix(b, s) && n <= |b|
    ensures LineShaped(b[..n])
  {
    var k := |s| - |b|;
    assert s == s[..k] + b && b == b[..n] + b[n..];
    Regroup(s[..k], b[..n], b[n..]);
    PieceShaped(p, s, s[..k], b[..n], b[n..]);
  }

  ghost predicate ShapedPayloads(w: System) {
    forall t :: t in w.handlers ==> LineShaped(PayloadOf(w.handlers[t]))
  }

  /** A handler's payload is fixed once its file is open. */
  lemma ShapedBefore(v: System, s: Step)
    requires EachOk(v) && Enabled(v, s) && ShapedPayloads(Next(v, s))
    ensures ShapedPayloads(v)
  {
    forall t | t in v.handlers
      ensures LineShaped(PayloadOf(v.handlers[t]))
    {
      var h, h' := v.handlers[t], Next(v, s).handlers[t];
      assert h'.input == h.input && (h.hasFile ==> h'.hasFile);
    }
  }

  lemma {:induction false} WritesShaped(steps: seq<Step>, w: System, chunks: seq<seq<byte>>)
    requires Recorded(steps, w, chunks) && ShapedPayloads(w)
    ensures forall c :: c in chunks ==> LineShaped(c)
  {
    if steps != [] {
      var n := |steps| - 1;
      var v, front :|
        Recorded(steps[..n], v, front) && Enabled(v, steps[n]) && w == Next(v, steps[n]) &&
        chunks == front + Writes(v, steps[n]);
      RecordedIsRun(steps[..n], v, front);
      RunInvariant(steps[..n], v);
      RunBuffers(steps[..n], v);
      ShapedBefore(v, steps[n]);
      WritesShaped(steps[..n], v, front);
      if !steps[n].Spawn? {
        OutputShaped(v.handlers[steps[n].t], steps[n]);
      }
    }
  }

  /** However stdio cuts them up, the writes then leave the lines of the data file as commits. */
  lemma DeviceHoldsLines(steps: seq<Step>, w: System, chunks: seq<seq<byte>>)
    requires Recorded(steps, w, chunks)
    requires forall c :: c in chunks ==> LineShaped(c)
    ensures StoreAll(chunks) == Log(Lines(w.device).groups, Held(Lines(w.device).rest))
  {
    RecordedIsRun(steps, w, chunks);
    CommitsAreGroups(chunks);
    CommitsAreLinesIff(chunks);
  }

  lemma OneLineIsShaped(w: System)
    requires EachOk(w) && Ordered(w) && OneLineEach(w, w.order)
    ensures ShapedPayloads(w)
  {
    forall t | t in w.handlers
      ensures LineShaped(PayloadOf(w.handlers[t]))
    {
      assert t !in w.order ==> PayloadOf(w.handlers[t]) == [];
    }
  }

  lemma ShapedRun(steps: seq<Step>, w: System, chunks: seq<seq<byte>>)
    requires Recorded(steps, w, chunks)
    requires forall t :: t in w.order ==> t in w.handlers
    requires OneLineEach(w, w.order)
    ensures Run(steps, w)
    ensures forall t :: t in w.handlers ==> InputOk(w.handlers[t]) && LineShaped(PayloadOf(w.handlers[t]))
    ensures StoreAll(chunks) == Log(Lines(w.device).groups, Held(Lines(w.device).rest))
  {
    RecordedIsRun(steps, w, chunks);
    RunInvariant(steps, w);
    OneLineIsShaped(w);
    WritesShaped(steps, w, chunks);
    DeviceHoldsLines(steps, w, chunks);
  }

  /** Whole lines and a part of one. */
  lemma LinesAndPart(lines: seq<seq<byte>>, part: seq<byte>)
    requires (forall c :: c in lines ==> IsLine(c)) && LineShaped(part)
    ensures var g := Lines(Flat(lines) + part);
            Log(g.groups, Held(g.rest)) == Append(Log(lines, Held([])), part)
  {
    LinesAreGroups(lines);
    LinesSnoc(Flat(lines), part);
    assert [] + part == part;
  }

  /** With the mutex free and every session one line or nothing, the commits are the payloads. */
  lemma SessionsAreCommits(steps: seq<Step>, w: System, chunks: seq<seq<byte>>)
    requires Recorded(steps, w, chunks) && w.holder == None
    requires forall t :: t in w.order ==> t in w.handlers
    requires OneLineEach(w, w.order)
    ensures StoreAll(chunks) == Log(SessionChunks(w, w.order), Held([]))
  {
    ShapedRun(steps, w, chunks);
    SessionsSerialised(steps, w);
    ChunksOfSessions(w, w.order);
    LinesAreGroups(SessionChunks(w, w.order));
  }

  /** With it held, the driver holds those of the earlier sessions, and the holder's if all of it has
      been written out, or else the written part as the open command. */
  lemma SessionInProgress(steps: seq<Step>, w: System, chunks: seq<seq<byte>>)
    requires Recorded(steps, w, chunks) && w.holder.Some?
    requires forall t :: t in w.order ==> t in w.handlers
    requires OneLineEach(w, w.order)
    ensures w.order != [] && w.holder.value == w.order[|w.order| - 1]
    ensures var n, h := |w.order| - 1, w.handlers[w.holder.value];
            && BufferOk(h)
            && StoreAll(chunks) == Append(Log(SessionChunks(w, w.order[..n]), Held([])), WrittenOut(h))
  {
    ShapedRun(steps, w, chunks);
    SessionsSerialised(steps, w);
    var n, h := |w.order| - 1, w.handlers[w.holder.value];
    assert forall t :: t in w.order[..n] ==> t in w.order;
    ChunksOfSessions(w, w.order[..n]);
    PrefixShaped(PayloadOf(h), SoFar(h), |SoFar(h)| - |h.buffered|);
    LinesAndPart(SessionChunks(w, w.order[..n]), WrittenOut(h));
  }

  lemma PrefixShaped(p: seq<byte>, s: seq<byte>, k: nat)
    requires LineShaped(p) && s <= p && k <= |s|
    ensures LineShaped(s[..k])
  {
    forall i | 0 <= i < k - 1
      ensures s[i] != NEWLINE
    {
      assert s[i] == p[i];
    }
  }

  // ----- the other direction: one byte at a time -----

  predicate SingleBytes(chunks: seq<seq<byte>>) {
    forall c :: c in chunks ==> |c| == 1
  }

  /** A flush may as well write each byte on its own. */
  lemma FlushBytes(steps: seq<Step>, v: System, front: seq<seq<byte>>, t: nat, n: nat)
      returns (all: seq<Step>, chunks: seq<seq<byte>>)
    requires Recorded(steps, v, front) && SingleBytes(front) && Enabled(v, Flush(t, n))
    ensures Recorded(all, Next(v, Flush(t, n)), chunks) && SingleBytes(chunks)
  {
    if n == 0 {
      FlushNothing(v, t);
      return steps, front;
    }
    all, chunks := FlushBytes(steps, v, front, t, n - 1);
    all, chunks := OneByteMore(all, v, chunks, t, n);
  }

  lemma OneByteMore(steps: seq<Step>, v: System, front: seq<seq<byte>>, t: nat, n: nat)
      returns (all: seq<Step>, chunks: seq<seq<byte>>)
    requires n > 0 && Enabled(v, Flush(t, n)) && Enabled(v, Flush(t, n - 1))
    requires Recorded(steps, Next(v, Flush(t, n - 1)), front) && SingleBytes(front)
    ensures Recorded(all, Next(v, Flush(t, n)), chunks) && SingleBytes(chunks)
  {
    var u, s := Next(v, Flush(t, n - 1)), Flush(t, 1);
    FlushOneMore(v, t, n);
    RecordedSnoc(steps, u, front, s);
    return steps + [s], front + Writes(u, s);
  }

  lemma FlushNothing(v: System, t: nat)
    requires Enabled(v, Flush(t, 0))
    ensures Next(v, Flush(t, 0)) == v
  {
    assert v.device + [] == v.device;
    assert v.handlers[t := v.handlers[t]] == v.handlers;
  }

  lemma FlushOneMore(v: System, t: nat, n: nat)
    requires n > 0 && Enabled(v, Flush(t, n))
    ensures Enabled(v, Flush(t, n - 1))
    ensures var u := Next(v, Flush(t, n - 1));
            && Enabled(u, Flush(t, 1)) && Next(u, Flush(t, 1)) == Next(v, Flush(t, n))
            && |Output(u.handlers[t], Flush(t, 1))| == 1
  {
    var b := v.handlers[t].buffered;
    assert b[n - 1..][1..] == b[n..] && b[..n - 1] + b[n - 1..][..1] == b[..n];
    Regroup(v.device, b[..n - 1], b[n - 1..][..1]);
  }

  lemma CloseAfterFlush(v: System, t: nat)
    requires Enabled(v, CloseFile(t))
    ensures var n := |v.handlers[t].buffered|;
            && Enabled(v, Flush(t, n)) && var u := Next(v, Flush(t, n));
            Enabled(u, CloseFile(t)) && Next(u, CloseFile(t)) == Next(v, CloseFile(t)) && Writes(u, CloseFile(t)) == []
  {
    var b := v.handlers[t].buffered;
    assert b[..|b|] == b && v.device + b + [] == v.device + b;
  }

  /** Every reachable state is reached by a run that writes single bytes. */
  lemma {:induction false} ByteRun(steps: seq<Step>, w: System) returns (all: seq<Step>, chunks: seq<seq<byte>>)
    requires Run(steps, w)
    ensures Recorded(all, w, chunks) && SingleBytes(chunks)
    decreases |steps|
  {
    if steps == [] {
      return [], [];
    }
    var n := |steps| - 1;
    var s := steps[n];
    var v :| Run(steps[..n], v) && Enabled(v, s) && w == Next(v, s);
    all, chunks := ByteRun(steps[..n], v);
    if s.Flush? {
      all, chunks := FlushBytes(all, v, chunks, s.t, s.n);
      return;
    }
    if s.CloseFile? {
      var k := |v.handlers[s.t].buffered|;
      CloseAfterFlush(v, s.t);
      all, chunks := FlushBytes(all, v, chunks, s.t, k);
      v := Next(v, Flush(s.t, k));
    }
    RecordedSnoc(all, v, chunks, s);
    all, chunks := all + [s], chunks + Writes(v, s);
  }

  /** Whichever run of the server led to `w`, the driver holds these commits and nothing staged. */
  ghost predicate AlwaysHolds(w: System, commits: seq<seq<byte>>) {
    forall steps, chunks :: Recorded(steps, w, chunks) ==> StoreAll(chunks) == Log(commits, Held([]))
  }

  lemma BytesTell(steps: seq<Step>, w: System)
    requires Run(steps, w) && forall t :: t in w.order ==> t in w.handlers
    requires AlwaysHolds(w, SessionChunks(w, w.order))
    ensures OneLineEach(w, w.order)
  {
    var all, chunks := ByteRun(steps, w);
    assert forall c :: c in chunks ==> LineShaped(c);
    DeviceHoldsLines(all, w, chunks);
    LinesMeaning(w.device);
    ChunksOfSessions(w, w.order);
  }

  lemma OrderKnown(steps: seq<Step>, w: System)
    requires Run(steps, w)
    ensures forall t :: t in w.order ==> t in w.handlers
  {
    RunInvariant(steps, w);
  }

  /** From the client to the driver: with the mutex free, the commits are exactly the payloads of the
      sessions, in lock order, whatever stdio writes out and when, if and only if each session
      contributes one line or nothing. */
  lemma SessionsAreCommitsIff(steps: seq<Step>, w: System)
    requires Run(steps, w) && w.holder == None
    ensures forall t :: t in w.order ==> t in w.handlers
    ensures AlwaysHolds(w, SessionChunks(w, w.order)) <==> OneLineEach(w, w.order)
  {
    OrderKnown(steps, w);
    if OneLineEach(w, w.order) {
      forall all, chunks | Recorded(all, w, chunks)
        ensures StoreAll(chunks) == Log(SessionChunks(w, w.order), Held([]))
      {
        SessionsAreCommits(all, w, chunks);
      }
    }
    if AlwaysHolds(w, SessionChunks(w, w.order)) {
      BytesTell(steps, w);
    }
  }

  /** So a reader of the device sees the last ten sessions, each as one command, however other calls of
      the driver come in between and fail. */
  lemma ReadersSeeSessions(steps: seq<Step>, w: System, es: seq<Interleaving.Event>)
    requires Interleaving.AllowedRun(es) && Recorded(steps, w, Interleaving.StoredChunks(es))
    requires w.holder == None
    requires forall t :: t in w.order ==> t in w.handlers
    requires OneLineEach(w, w.order)
    ensures Live(Interleaving.Run(Interleaving.START, es).log) == Last(SessionChunks(w, w.order), CAPACITY)
  {
    Interleaving.RunIsHistory(es);
    SessionsAreCommits(steps, w, Interleaving.StoredChunks(es));
  }

  const TWO_LINES: seq<byte> := [120, NEWLINE, 121, NEWLINE]

  /** A state where it fails: one session has sent two lines in one chunk. */
  lemma TwoLinesBreakIt() returns (steps: seq<Step>, w: System)
    ensures Run(steps, w) && w.holder == None && w.order == [0] && 0 in w.handlers
    ensures PayloadOf(w.handlers[0]) == TWO_LINES && !AlwaysHolds(w, SessionChunks(w, w.order))
  {
    assert TWO_LINES[1] == NEWLINE;
    steps, w := OneSession(TWO_LINES);
    assert Payload([TWO_LINES]) == TWO_LINES + [] == TWO_LINES;
    assert 0 in w.order && !LineShaped(TWO_LINES);
    SessionsAreCommitsIff(steps, w);
  }

  /** One session with this one chunk to come has opened the data file. */
  lemma Opened(chunk: seq<byte>) returns (steps: seq<Step>, w: System)
    ensures Run(steps, w) && w.holder == Some(0) && w.order == [0] && 0 in w.handlers
    ensures w.handlers[0] == Handler(Receiving, [chunk], 0, true, [], 3, false, 0)
  {
    var s, l, o := Spawn(0, 3, [chunk]), Lock(0), Open(0, true);
    steps, w := [], IDLE;
    RunSnoc(steps, w, s);
    steps, w := steps + [s], Next(w, s);
    RunSnoc(steps, w, l);
    steps, w := steps + [l], Next(w, l);
    RunSnoc(steps, w, o);
    steps, w := steps + [o], Next(w, o);
  }

  /** It has gone on to unlock the mutex. */
  lemma OneSession(chunk: seq<byte>) returns (steps: seq<Step>, w: System)
    requires HasNewline(chunk)
    ensures Run(steps, w) && w.holder == None && w.order == [0] && 0 in w.handlers
    ensures w.handlers[0].hasFile && w.handlers[0].input == [chunk]
  {
    steps, w := Opened(chunk);
    var r, p, c, u := Receive(0), Replied(0), CloseFile(0), Unlock(0);
    RunSnoc(steps, w, r);
    steps, w := steps + [r], Next(w, r);
    RunSnoc(steps, w, p);
    steps, w := steps + [p], Next(w, p);
    RunSnoc(steps, w, c);
    steps, w := steps + [c], Next(w, c);
    RunSnoc(steps, w, u);
    steps, w := steps + [u], Next(w, u);
  }
}
