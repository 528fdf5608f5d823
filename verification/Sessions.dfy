/** The server's handler threads, its one mutex and the sweep of the main thread, as a step relation:
    any interleaving of single steps, one handler's step being one use of shared state. */
module Sessions {
  import opened Bytes

  const KEYWORD: seq<byte> := [65, 69, 83, 68, 67, 72, 65, 82, 95, 73, 79, 67, 83, 69, 69, 75, 84, 79]

  /** A chunk is a seek command when it starts with the keyword. */
  predicate IsSeekto(chunk: seq<byte>) {
    |chunk| >= |KEYWORD| && chunk[..|KEYWORD|] == KEYWORD
  }

  predicate HasNewline(chunk: seq<byte>) {
    exists i :: 0 <= i < |chunk| && chunk[i] == NEWLINE
  }

  /** Where a handler is in `connection_handler`. */
  datatype Pc =
    | Waiting      // before the mutex is locked
    | Opening      // holds the mutex, about to open the data file
    | Receiving    // in the receive loop
    | Replying     // in the reply loop
    | ClosingFile  // at fclose
    | Unlocking    // at the unlock
    | ClosingFd    // at close of the client descriptor
    | ClearingFd   // about to set it to -1
    | Logging      // about to log the peer's address
    | Completing   // about to set the completed flag
    | Returned

  function Rank(pc: Pc): nat {
    match pc
    case Waiting => 0
    case Opening => 1
    case Receiving => 2
    case Replying => 3
    case ClosingFile => 4
    case Unlocking => 5
    case ClosingFd => 6
    case ClearingFd => 7
    case Logging => 8
    case Completing => 9
    case Returned => 10
  }

  /** A handler: the chunks its client will send, how many of them it has received, the bytes still
      in its stdio buffer, whether its file could be opened, and its shared thread data. */
  datatype Handler = Handler(
    pc: Pc, input: seq<seq<byte>>, received: nat, hasFile: bool, buffered: seq<byte>,
    clientFd: int, completed: bool, closes: nat)

  /** `device` is what has been written to the data file; `order` the handlers in the order they
      locked the mutex; `freed` those whose thread data has been freed. */
  datatype System = System(
    handlers: map<nat, Handler>, holder: Option<nat>, device: seq<byte>, order: seq<nat>, freed: set<nat>)

  const IDLE: System := System(map[], None, [], [], {})

  datatype Step =
    | Spawn(t: nat, fd: int, input: seq<seq<byte>>)
    | Lock(t: nat)
    | Open(t: nat, ok: bool)
    | Receive(t: nat)
    | EndOfInput(t: nat)
    | Flush(t: nat, n: nat)      // stdio writes out the first n buffered bytes, at any time up to fclose
    | Replied(t: nat)
    | CloseFile(t: nat)
    | Unlock(t: nat)
    | CloseFd(t: nat)
    | ClearFd(t: nat)
    | LogClosed(t: nat)
    | Complete(t: nat)
    | Reap(t: nat)               // the sweep sees the flag, closes if need be and frees

  /** What a handler appends for one chunk. */
  function Written(chunk: seq<byte>): seq<byte> {
    if IsSeekto(chunk) then [] else chunk
  }

  /** What a handler appends for several. */
  function AllWritten(chunks: seq<seq<byte>>): seq<byte> {
    if chunks == [] then [] else AllWritten(chunks[..|chunks| - 1]) + Written(chunks[|chunks| - 1])
  }

  /** The pc a step of a handler starts from; Spawn and Reap are steps of the main thread. */
  predicate At(h: Handler, s: Step) {
    match s
    case Spawn(_, _, _) => false
    case Lock(_) => h.pc == Waiting
    case Open(_, _) => h.pc == Opening
    case Receive(_) => h.pc == Receiving && h.received < |h.input|
    case EndOfInput(_) => h.pc == Receiving && h.received == |h.input|
    case Flush(_, n) => h.pc in {Receiving, Replying, ClosingFile} && n <= |h.buffered|
    case Replied(_) => h.pc == Replying
    case CloseFile(_) => h.pc == ClosingFile
    case Unlock(_) => h.pc == Unlocking
    case CloseFd(_) => h.pc == ClosingFd
    case ClearFd(_) => h.pc == ClearingFd
    case LogClosed(_) => h.pc == Logging
    case Complete(_) => h.pc == Completing
    case Reap(_) => h.completed
  }

  predicate Enabled(w: System, s: Step) {
    if s.Spawn? then s.t !in w.handlers && s.fd >= 0
    else
      && s.t in w.handlers && At(w.handlers[s.t], s)
      && (s.Lock? ==> w.holder == None)
      && (s.Reap? ==> s.t !in w.freed)
  }

  /** The handler after its step. */
  function Moved(h: Handler, s: Step): Handler
    requires At(h, s)
  {
    match s
    case Lock(_) => h.(pc := Opening)
    case Open(_, ok) => h.(pc := if ok then Receiving else Unlocking, hasFile := ok)
    case Receive(_) =>
      var chunk := h.input[h.received];
      h.(pc := if HasNewline(chunk) then Replying else Receiving,
         received := h.received + 1, buffered := h.buffered + Written(chunk))
    case EndOfInput(_) => h.(pc := ClosingFile)
    case Flush(_, n) => h.(buffered := h.buffered[n..])
    case Replied(_) => h.(pc := ClosingFile)
    case CloseFile(_) => h.(pc := Unlocking, buffered := [])
    case Unlock(_) => h.(pc := ClosingFd)
    case CloseFd(_) => h.(pc := ClearingFd, closes := h.closes + 1)
    case ClearFd(_) => h.(pc := Logging, clientFd := -1)
    case LogClosed(_) => h.(pc := Completing)
    case Complete(_) => h.(pc := Returned, completed := true)
    case Reap(_) => if h.clientFd != -1 then h.(closes := h.closes + 1) else h
  }

  /** What a step writes to the data file. */
  function Output(h: Handler, s: Step): seq<byte>
    requires At(h, s)
  {
    match s
    case Flush(_, n) => h.buffered[..n]
    case CloseFile(_) => h.buffered
    case _ => []
  }

  function Next(w: System, s: Step): System
    requires Enabled(w, s)
  {
    if s.Spawn? then
      w.(handlers := w.handlers[s.t := Handler(Waiting, s.input, 0, false, [], s.fd, false, 0)])
    else
      var h := w.handlers[s.t];
      System(
        w.handlers[s.t := Moved(h, s)],
        (if s.Lock? then Some(s.t) else if s.Unlock? then None else w.holder),
        w.device + Output(h, s),
        (if s.Lock? then w.order + [s.t] else w.order),
        (if s.Reap? then w.freed + {s.t} else w.freed))
  }

  ghost predicate Run(steps: seq<Step>, w: System)
  {
    if steps == [] then w == IDLE
    else
      var n := |steps| - 1;
      exists v :: Run(steps[..n], v) && Enabled(v, steps[n]) && w == Next(v, steps[n])
  }

  lemma RunSnoc(steps: seq<Step>, v: System, s: Step)
    requires Run(steps, v) && Enabled(v, s)
    ensures Run(steps + [s], Next(v, s))
  {
    var all := steps + [s];
    assert all[..|all| - 1] == steps;
  }

  // ----- one session -----

  /** The payload of a session, from its input alone: the chunks up to the first one with a newline,
      less the seek commands. */
  function Payload(input: seq<seq<byte>>): seq<byte> {
    if input == [] then []
    else Written(input[0]) + if HasNewline(input[0]) then [] else Payload(input[1..])
  }

  lemma AllWrittenSnoc(chunks: seq<seq<byte>>, c: seq<byte>)
    ensures AllWritten(chunks + [c]) == AllWritten(chunks) + Written(c)
  {
    assert (chunks + [c])[..|chunks|] == chunks;
  }

  lemma {:induction false} AllWrittenCons(c: seq<byte>, chunks: seq<seq<byte>>)
    ensures AllWritten([c] + chunks) == Written(c) + AllWritten(chunks)
  {
    if chunks == [] {
      AllWrittenSnoc([], c);
      assert [c] + chunks == [] + [c];
    } else {
      var front, last := chunks[..|chunks| - 1], chunks[|chunks| - 1];
      assert chunks == front + [last] && [c] + chunks == ([c] + front) + [last];
      AllWrittenCons(c, front);
      AllWrittenSnoc([c] + front, last);
      Regroup(Written(c), AllWritten(front), Written(last));
    }
  }

  /** The payload is what has been written when the receive loop ends after `chunks`. */
  lemma {:induction false} PayloadIs(chunks: seq<seq<byte>>, rest: seq<seq<byte>>)
    requires forall i :: 0 <= i < |chunks| - 1 ==> !HasNewline(chunks[i])
    requires (chunks != [] && HasNewline(chunks[|chunks| - 1])) || rest == []
    ensures Payload(chunks + rest) == AllWritten(chunks)
  {
    if chunks == [] {
      assert chunks + rest == [];
    } else {
      var c, more := chunks[0], chunks[1..];
      assert chunks == [c] + more;
      assert (chunks + rest)[1..] == more + rest;
      AllWrittenCons(c, more);
      if !HasNewline(c) {
        PayloadIs(more, rest);
      }
    }
  }

  /** As long as no newline has come, the rest of the input adds the rest of the payload. */
  lemma {:induction false} PayloadSplit(chunks: seq<seq<byte>>, rest: seq<seq<byte>>)
    requires forall i :: 0 <= i < |chunks| ==> !HasNewline(chunks[i])
    ensures Payload(chunks + rest) == AllWritten(chunks) + Payload(rest)
  {
    if chunks == [] {
      assert chunks + rest == rest;
    } else {
      var c, more := chunks[0], chunks[1..];
      assert chunks == [c] + more;
      assert (chunks + rest)[1..] == more + rest;
      AllWrittenCons(c, more);
      PayloadSplit(more, rest);
      Regroup(Written(c), AllWritten(more), Payload(rest));
    }
  }

  // ----- the payload in terms of the bytes sent -----

  lemma KeywordIs(chunk: seq<byte>)
    ensures IsSeekto(chunk) <==>
            |chunk| >= 18 && chunk[..18] == [65, 69, 83, 68, 67, 72, 65, 82, 95, 73, 79, 67, 83, 69, 69, 75, 84, 79]
  {
  }

  lemma NewlineIs(chunk: seq<byte>)
    ensures HasNewline(chunk) <==> 10 in chunk
  {
  }

  lemma {:induction false} AllWrittenPlain(chunks: seq<seq<byte>>)
    requires forall c :: c in chunks ==> !IsSeekto(c)
    ensures AllWritten(chunks) == Flat(chunks)
  {
    if chunks != [] {
      var front, c := chunks[..|chunks| - 1], chunks[|chunks| - 1];
      assert chunks == front + [c];
      AllWrittenPlain(front);
      FlatSnoc(front, c);
    }
  }

  /** A session that sends no seek command, that is no chunk starting with the text AESDCHAR_IOCSEEKTO,
      contributes every byte it sends, up to and with the first chunk that holds a newline (ASCII 10);
      what comes after that is not received. */
  lemma PlainPayload(chunks: seq<seq<byte>>, rest: seq<seq<byte>>)
    requires forall c :: c in chunks ==>
               |c| < 18 || c[..18] != [65, 69, 83, 68, 67, 72, 65, 82, 95, 73, 79, 67, 83, 69, 69, 75, 84, 79]
    requires forall i :: 0 <= i < |chunks| - 1 ==> 10 !in chunks[i]
    requires (chunks != [] && 10 in chunks[|chunks| - 1]) || rest == []
    ensures Payload(chunks + rest) == Flat(chunks)
  {
    forall i | 0 <= i < |chunks|
      ensures HasNewline(chunks[i]) <==> 10 in chunks[i]
    {
      NewlineIs(chunks[i]);
    }
    PayloadIs(chunks, rest);
    forall c | c in chunks
      ensures !IsSeekto(c)
    {
      KeywordIs(c);
    }
    AllWrittenPlain(chunks);
  }

  /** A seek command, whatever follows the keyword, contributes nothing; it ends the session's input if
      it holds a newline. */
  lemma SeekAddsNothing(before: seq<seq<byte>>, tail: seq<byte>, rest: seq<seq<byte>>)
    requires forall i :: 0 <= i < |before| ==> 10 !in before[i]
    ensures var seek := [65, 69, 83, 68, 67, 72, 65, 82, 95, 73, 79, 67, 83, 69, 69, 75, 84, 79] + tail;
            Payload(before + [seek] + rest) == if 10 in tail then Payload(before) else Payload(before + rest)
  {
    var keyword: seq<byte> := [65, 69, 83, 68, 67, 72, 65, 82, 95, 73, 79, 67, 83, 69, 69, 75, 84, 79];
    var seek := keyword + tail;
    assert seek[..18] == keyword;
    KeywordIs(seek);
    forall i | 0 <= i < |before|
      ensures !HasNewline(before[i])
    {
      NewlineIs(before[i]);
    }
    assert 10 !in keyword;
    NewlineIs(seek);
    SeekFirst(seek, rest);
    Regroup(before, [seek], rest);
    PayloadSplit(before, [seek] + rest);
    PayloadSplit(before, rest);
    PayloadSplit(before, []);
    assert before + [] == before;
  }

  lemma SeekFirst(seek: seq<byte>, rest: seq<seq<byte>>)
    requires IsSeekto(seek)
    ensures Payload([seek] + rest) == if HasNewline(seek) then [] else Payload(rest)
  {
    assert ([seek] + rest)[1..] == rest;
  }

  // ----- the invariant -----

  /** How far a handler is in its input, given where it is: the loop has run past no newline, and has
      ended only at a newline or at the end of the input. */
  ghost predicate InputOk(h: Handler) {
    && h.received <= |h.input|
    && (forall i :: 0 <= i < h.received - 1 ==> !HasNewline(h.input[i]))
    && (h.pc == Receiving && h.received > 0 ==> !HasNewline(h.input[h.received - 1]))
    && (Rank(h.pc) <= 1 ==> !h.hasFile)
    && (2 <= Rank(h.pc) <= 4 ==> h.hasFile)
    && (!h.hasFile ==> h.received == 0)
    && (h.hasFile && Rank(h.pc) > 2 ==>
          (h.received > 0 && HasNewline(h.input[h.received - 1])) || h.received == |h.input|)
    && (h.buffered != [] ==> 2 <= Rank(h.pc) <= 4)
  }

  /** The protocol on the shared thread data. */
  ghost predicate DataOk(h: Handler) {
    && (h.clientFd == -1 <==> Rank(h.pc) >= 8)
    && (h.completed <==> h.pc == Returned)
    && h.closes == (if Rank(h.pc) >= 7 then 1 else 0)
  }

  /** What a handler has appended so far. */
  function SoFar(h: Handler): seq<byte>
    requires h.received <= |h.input|
  {
    AllWritten(h.input[..h.received])
  }

  ghost predicate EachOk(w: System) {
    forall t :: t in w.handlers ==> InputOk(w.handlers[t]) && DataOk(w.handlers[t])
  }

  /** `order` lists the handlers that have locked the mutex, each once. */
  ghost predicate Ordered(w: System) {
    && (forall t :: t in w.handlers ==> (t in w.order <==> Rank(w.handlers[t].pc) >= 1))
    && (forall t :: t in w.order ==> t in w.handlers)
    && NoRepeats(w.order)
  }

  ghost predicate NoRepeats(order: seq<nat>) {
    forall i, j :: 0 <= i < j < |order| ==> order[i] != order[j]
  }

  /** Exactly the handler between lock and unlock holds the mutex, and it is the last to lock. */
  ghost predicate Mutex(w: System) {
    && (forall t :: t in w.handlers ==> (w.holder == Some(t) <==> 1 <= Rank(w.handlers[t].pc) <= 5))
    && (w.holder.Some? ==> w.holder.value in w.handlers && w.order != [] && w.order[|w.order| - 1] == w.holder.value)
  }

  /** Thread data is freed only after its handler has returned. */
  ghost predicate FreedAfterReturn(w: System) {
    forall t :: t in w.freed ==> t in w.handlers && w.handlers[t].pc == Returned
  }

  /** What all handlers that have locked the mutex have appended, in lock order. */
  function Appended(w: System, order: seq<nat>): seq<byte>
    requires forall t :: t in order ==> t in w.handlers && w.handlers[t].received <= |w.handlers[t].input|
  {
    if order == [] then []
    else Appended(w, order[..|order| - 1]) + SoFar(w.handlers[order[|order| - 1]])
  }

  /** The bytes the holder has yet to write out. */
  function Unwritten(w: System): seq<byte> {
    if w.holder.Some? && w.holder.value in w.handlers then w.handlers[w.holder.value].buffered else []
  }

  ghost predicate Serial(w: System)
    requires EachOk(w) && Ordered(w)
  {
    w.device + Unwritten(w) == Appended(w, w.order)
  }

  ghost predicate Inv(w: System) {
    EachOk(w) && Ordered(w) && Mutex(w) && FreedAfterReturn(w) && Serial(w)
  }

  // ----- every step keeps it -----

  lemma InputReceived(h: Handler, s: Step)
    requires InputOk(h) && At(h, s) && s.Receive?
    ensures InputOk(Moved(h, s))
  {
  }

  lemma InputKept(h: Handler, s: Step)
    requires InputOk(h) && At(h, s)
    ensures InputOk(Moved(h, s))
  {
    if s.Receive? {
      InputReceived(h, s);
    }
  }

  lemma DataKept(h: Handler, s: Step)
    requires DataOk(h) && At(h, s)
    ensures DataOk(Moved(h, s))
    ensures s.Reap? ==> Moved(h, s) == h
  {
  }

  /** How a step moves a handler's rank. */
  lemma RankMoves(h: Handler, s: Step)
    requires At(h, s) && DataOk(h)
    ensures var r, r' := Rank(h.pc), Rank(Moved(h, s).pc);
            && (if s.Lock? then r == 0 && r' == 1 else r >= 1 && r' >= 1)
            && (if s.Unlock? then r == 5 && r' == 6
                else if !s.Lock? then (1 <= r <= 5 <==> 1 <= r' <= 5)
                else true)
            && (r == 10 ==> r' == 10)
  {
  }

  lemma EachOkKept(w: System, s: Step)
    requires EachOk(w) && Enabled(w, s)
    ensures EachOk(Next(w, s))
  {
    if !s.Spawn? {
      InputKept(w.handlers[s.t], s);
      DataKept(w.handlers[s.t], s);
    }
  }

  lemma OrderedKept(w: System, s: Step)
    requires Ordered(w) && Enabled(w, s)
    requires !s.Spawn? ==> DataOk(w.handlers[s.t])
    ensures Ordered(Next(w, s))
  {
    if !s.Spawn? {
      RankMoves(w.handlers[s.t], s);
    }
  }

  lemma MutexKept(w: System, s: Step)
    requires Mutex(w) && Enabled(w, s)
    requires !s.Spawn? ==> DataOk(w.handlers[s.t])
    ensures Mutex(Next(w, s))
  {
    if !s.Spawn? {
      RankMoves(w.handlers[s.t], s);
    }
  }

  lemma FreedKept(w: System, s: Step)
    requires FreedAfterReturn(w) && Enabled(w, s)
    requires !s.Spawn? ==> DataOk(w.handlers[s.t])
    ensures FreedAfterReturn(Next(w, s))
  {
    if !s.Spawn? {
      RankMoves(w.handlers[s.t], s);
    }
  }

  /** Steps that do not touch a handler's input progress leave its part alone. */
  lemma {:induction false} AppendedSame(w: System, w': System, order: seq<nat>)
    requires forall t :: t in order ==> t in w.handlers && w.handlers[t].received <= |w.handlers[t].input|
    requires forall t :: t in order ==> t in w'.handlers && w'.handlers[t].input == w.handlers[t].input &&
                                        w'.handlers[t].received == w.handlers[t].received
    ensures Appended(w, order) == Appended(w', order)
  {
    if order != [] {
      assert order[|order| - 1] in order;
      assert forall t :: t in order[..|order| - 1] ==> t in order;
      AppendedSame(w, w', order[..|order| - 1]);
    }
  }

  /** A step that receives nothing moves bytes from the buffer to the file, or none. */
  lemma MovesBytes(h: Handler, s: Step)
    requires At(h, s) && InputOk(h) && !s.Receive?
    ensures Output(h, s) + Moved(h, s).buffered == h.buffered
    ensures Moved(h, s).input == h.input && Moved(h, s).received == h.received
    ensures !(2 <= Rank(h.pc) <= 4) ==> Output(h, s) == []
  {
  }

  /** The bytes still to be written out, wherever they are. */
  lemma UnwrittenMoves(w: System, s: Step)
    requires EachOk(w) && Mutex(w) && Enabled(w, s) && !s.Spawn? && !s.Receive?
    ensures Output(w.handlers[s.t], s) + Unwritten(Next(w, s)) == Unwritten(w)
  {
    var h := w.handlers[s.t];
    MovesBytes(h, s);
    RankMoves(h, s);
    if w.holder != Some(s.t) {
      assert Output(h, s) == [];
    }
  }

  /** ... so what has been appended by those in `order` is unchanged. */
  lemma AppendedKept(w: System, s: Step)
    requires EachOk(w) && Ordered(w) && Enabled(w, s) && !s.Receive?
    requires EachOk(Next(w, s))
    ensures forall t :: t in w.order ==> t in Next(w, s).handlers
    ensures Appended(w, w.order) == Appended(Next(w, s), w.order)
  {
    var w' := Next(w, s);
    forall t | t in w.order
      ensures t in w'.handlers && w'.handlers[t].input == w.handlers[t].input &&
              w'.handlers[t].received == w.handlers[t].received
    {
      if t == s.t && !s.Spawn? {
        MovesBytes(w.handlers[t], s);
      }
    }
    AppendedSame(w, w', w.order);
  }

  /** ... and so is what has been written out or is still to be. */
  lemma WrittenKept(w: System, s: Step)
    requires EachOk(w) && Mutex(w) && Enabled(w, s) && !s.Receive?
    ensures Next(w, s).device + Unwritten(Next(w, s)) == w.device + Unwritten(w)
  {
    var w' := Next(w, s);
    if s.Spawn? {
      assert Unwritten(w') == Unwritten(w);
    } else {
      UnwrittenMoves(w, s);
      Regroup(w.device, Output(w.handlers[s.t], s), Unwritten(w'));
    }
  }

  lemma SerialKept(w: System, s: Step)
    requires Inv(w) && Enabled(w, s) && !s.Receive?
    requires EachOk(Next(w, s)) && Ordered(Next(w, s))
    ensures Serial(Next(w, s))
  {
    AppendedKept(w, s);
    WrittenKept(w, s);
    if s.Lock? {
      LockedAppends(w, Next(w, s), s.t);
    }
  }

  /** A handler that has just locked has appended nothing. */
  lemma LockedAppends(w: System, w': System, t: nat)
    requires EachOk(w') && Ordered(w') && w'.order == w.order + [t]
    requires Rank(w'.handlers[t].pc) == 1
    ensures Appended(w', w'.order) == Appended(w', w.order)
  {
    assert w'.order[..|w.order|] == w.order;
    assert w'.handlers[t].input[..0] == [];
  }

  lemma FrontOthers(order: seq<nat>)
    requires order != [] && NoRepeats(order)
    ensures var n := |order| - 1;
            forall t :: t in order[..n] ==> t in order && t != order[n]
  {
  }

  /** Receiving one chunk extends the last part by what is written for it. */
  lemma AppendedReceive(w: System, w': System, order: seq<nat>, t: nat)
    requires NoRepeats(order) && order != [] && order[|order| - 1] == t
    requires forall u :: u in order ==> u in w.handlers && w.handlers[u].received <= |w.handlers[u].input|
    requires forall u :: u in order ==> u in w'.handlers && w'.handlers[u].received <= |w'.handlers[u].input|
    requires forall u :: u in order && u != t ==> w'.handlers[u] == w.handlers[u]
    requires var h, h' := w.handlers[t], w'.handlers[t];
             h'.input == h.input && h'.received == h.received + 1
    ensures var h := w.handlers[t];
            Appended(w', order) == Appended(w, order) + Written(h.input[h.received])
  {
    var front, h := order[..|order| - 1], w.handlers[t];
    FrontOthers(order);
    AppendedSame(w, w', front);
    ReceivedOne(h);
    Regroup(Appended(w, front), SoFar(h), Written(h.input[h.received]));
  }

  lemma UnwrittenReceive(w: System, s: Step)
    requires w.holder == Some(s.t) && Enabled(w, s) && s.Receive?
    ensures var h := w.handlers[s.t];
            Next(w, s).device == w.device && Unwritten(Next(w, s)) == Unwritten(w) + Written(h.input[h.received])
  {
  }

  lemma SerialReceive(w: System, s: Step)
    requires Inv(w) && Enabled(w, s) && s.Receive?
    requires EachOk(Next(w, s)) && Ordered(Next(w, s))
    ensures Serial(Next(w, s))
  {
    var h := w.handlers[s.t];
    assert w.holder == Some(s.t);
    UnwrittenReceive(w, s);
    AppendedReceive(w, Next(w, s), w.order, s.t);
    Regroup(w.device, Unwritten(w), Written(h.input[h.received]));
  }

  lemma ReceivedOne(h: Handler)
    requires h.received < |h.input|
    ensures AllWritten(h.input[..h.received + 1]) == SoFar(h) + Written(h.input[h.received])
  {
    assert h.input[..h.received + 1][..h.received] == h.input[..h.received];
  }

  lemma InvKept(w: System, s: Step)
    requires Inv(w) && Enabled(w, s)
    ensures Inv(Next(w, s))
  {
    EachOkKept(w, s);
    OrderedKept(w, s);
    MutexKept(w, s);
    FreedKept(w, s);
    if s.Receive? {
      SerialReceive(w, s);
    } else {
      SerialKept(w, s);
    }
  }

  lemma {:induction false} RunInvariant(steps: seq<Step>, w: System)
    requires Run(steps, w)
    ensures Inv(w)
  {
    if steps != [] {
      var n := |steps| - 1;
      var v :| Run(steps[..n], v) && Enabled(v, steps[n]) && w == Next(v, steps[n]);
      RunInvariant(steps[..n], v);
      InvKept(v, steps[n]);
    }
  }

  // ----- what is buffered -----

  /** The buffer holds the last of what the handler has appended. */
  ghost predicate BufferOk(h: Handler) {
    h.received <= |h.input| && IsSuffix(h.buffered, SoFar(h))
  }

  predicate IsSuffix(b: seq<byte>, s: seq<byte>) {
    |b| <= |s| && s[|s| - |b|..] == b
  }

  lemma SuffixAppend(b: seq<byte>, s: seq<byte>, c: seq<byte>)
    requires IsSuffix(b, s)
    ensures IsSuffix(b + c, s + c)
  {
    assert (s + c)[|s| - |b|..] == s[|s| - |b|..] + c;
  }

  lemma BufferKept(h: Handler, s: Step)
    requires BufferOk(h) && At(h, s)
    ensures BufferOk(Moved(h, s))
  {
    if s.Receive? {
      ReceivedOne(h);
      SuffixAppend(h.buffered, SoFar(h), Written(h.input[h.received]));
    }
  }

  /** In every reachable state the bytes a handler has yet to write out are the last it has appended. */
  lemma {:induction false} RunBuffers(steps: seq<Step>, w: System)
    requires Run(steps, w)
    ensures forall t :: t in w.handlers ==> BufferOk(w.handlers[t])
  {
    if steps != [] {
      var n := |steps| - 1;
      var v :| Run(steps[..n], v) && Enabled(v, steps[n]) && w == Next(v, steps[n]);
      RunBuffers(steps[..n], v);
      if !steps[n].Spawn? {
        BufferKept(v.handlers[steps[n].t], steps[n]);
      }
    }
  }

  // ----- what it means -----

  /** What a session is to contribute: nothing if its file could not be opened. */
  function PayloadOf(h: Handler): seq<byte> {
    if h.hasFile then Payload(h.input) else []
  }

  /** That is what it has appended once the receive loop is over. */
  lemma SessionPayload(h: Handler)
    requires InputOk(h) && Rank(h.pc) > 2
    ensures SoFar(h) == PayloadOf(h)
  {
    if h.hasFile {
      assert h.input == h.input[..h.received] + h.input[h.received..];
      PayloadIs(h.input[..h.received], h.input[h.received..]);
    } else {
      assert h.input[..0] == [];
    }
  }

  /** The payloads of the given sessions, in order. */
  function Payloads(w: System, order: seq<nat>): seq<byte>
    requires forall t :: t in order ==> t in w.handlers
  {
    if order == [] then []
    else
      var n := |order| - 1;
      var h := w.handlers[order[n]];
      Payloads(w, order[..n]) + PayloadOf(h)
  }

  lemma {:induction false} AppendedIsPayloads(w: System, order: seq<nat>)
    requires EachOk(w)
    requires forall t :: t in order ==> t in w.handlers && Rank(w.handlers[t].pc) > 2
    ensures Appended(w, order) == Payloads(w, order)
  {
    if order != [] {
      var n := |order| - 1;
      assert order[n] in order;
      assert forall t :: t in order[..n] ==> t in order;
      SessionPayload(w.handlers[order[n]]);
      AppendedIsPayloads(w, order[..n]);
    }
  }

  /** What a handler has appended is a part of its payload, from the start. */
  lemma SoFarIsPrefix(h: Handler)
    requires InputOk(h)
    ensures SoFar(h) <= PayloadOf(h)
  {
    var r := h.received;
    assert h.input == h.input[..r] + h.input[r..];
    if !h.hasFile {
      assert h.input[..0] == [];
    } else if r > 0 && HasNewline(h.input[r - 1]) {
      PayloadIs(h.input[..r], h.input[r..]);
    } else {
      PayloadSplit(h.input[..r], h.input[r..]);
    }
  }

  /** The part of it that has left the buffer. */
  function WrittenOut(h: Handler): seq<byte>
    requires h.received <= |h.input| && |h.buffered| <= |SoFar(h)|
  {
    SoFar(h)[..|SoFar(h)| - |h.buffered|]
  }

  lemma CutSuffix(d: seq<byte>, b: seq<byte>, p: seq<byte>, s: seq<byte>)
    requires d + b == p + s && |b| <= |s|
    ensures d == p + s[..|s| - |b|]
  {
    assert d == (d + b)[..|d|];
    assert (p + s)[..|d|] == p + s[..|s| - |b|];
  }

  /** Session serialisation, in every interleaving: with the mutex free, the data file holds the
      payloads of all sessions so far, whole, in lock order; with the mutex held, it holds those of the
      earlier sessions, whole, followed by the part of the holder's payload that has left its buffer. */
  lemma SessionsSerialised(steps: seq<Step>, w: System)
    requires Run(steps, w)
    ensures forall t :: t in w.order ==> t in w.handlers
    ensures w.holder == None ==> w.device == Payloads(w, w.order)
    ensures w.holder.Some? ==>
              && w.order != [] && w.holder.value == w.order[|w.order| - 1]
              && var h := w.handlers[w.holder.value];
                 && BufferOk(h) && SoFar(h) <= PayloadOf(h)
                 && w.device == Payloads(w, w.order[..|w.order| - 1]) + WrittenOut(h)
  {
    RunInvariant(steps, w);
    if w.holder.None? {
      AppendedIsPayloads(w, w.order);
    } else {
      RunBuffers(steps, w);
      EarlierPayloads(w);
      var n := |w.order| - 1;
      var h := w.handlers[w.holder.value];
      SoFarIsPrefix(h);
      CutSuffix(w.device, h.buffered, Payloads(w, w.order[..n]), SoFar(h));
    }
  }

  /** All that the given sessions have received, in order. */
  function AllReceived(w: System, order: seq<nat>): seq<byte>
    requires forall t :: t in order ==> t in w.handlers && w.handlers[t].received <= |w.handlers[t].input|
  {
    if order == [] then []
    else
      var n := |order| - 1;
      var h := w.handlers[order[n]];
      AllReceived(w, order[..n]) + Flat(h.input[..h.received])
  }

  lemma {:induction false} AppendedPlain(w: System, order: seq<nat>)
    requires forall t :: t in order ==> t in w.handlers && w.handlers[t].received <= |w.handlers[t].input|
    requires forall t, c :: t in order && c in w.handlers[t].input ==> !IsSeekto(c)
    ensures Appended(w, order) == AllReceived(w, order)
  {
    if order != [] {
      var n := |order| - 1;
      var h := w.handlers[order[n]];
      assert order[n] in order;
      assert forall t :: t in order[..n] ==> t in order;
      AppendedPlain(w, order[..n]);
      assert forall c :: c in h.input[..h.received] ==> c in h.input;
      AllWrittenPlain(h.input[..h.received]);
    }
  }

  /** Which chunks a session has received once it has unlocked: all up to and with the first that holds a
      newline, or all there are; none if its file could not be opened. */
  ghost predicate ReceivedAll(h: Handler) {
    && h.received <= |h.input|
    && (forall i :: 0 <= i < h.received - 1 ==> 10 !in h.input[i])
    && if h.hasFile then (h.received > 0 && 10 in h.input[h.received - 1]) || h.received == |h.input|
       else h.received == 0
  }

  lemma ReceivedAllThere(h: Handler)
    requires InputOk(h) && Rank(h.pc) > 2
    ensures ReceivedAll(h)
  {
    forall i | 0 <= i < |h.input|
      ensures HasNewline(h.input[i]) <==> 10 in h.input[i]
    {
      NewlineIs(h.input[i]);
    }
  }

  /** So without seek commands the data file is the bytes received, session after session in lock order,
      except for those still in the holder's buffer. */
  lemma PlainSessions(steps: seq<Step>, w: System)
    requires Run(steps, w)
    requires forall t, c :: t in w.handlers && c in w.handlers[t].input ==>
               |c| < 18 || c[..18] != [65, 69, 83, 68, 67, 72, 65, 82, 95, 73, 79, 67, 83, 69, 69, 75, 84, 79]
    ensures forall t :: t in w.order ==>
              t in w.handlers && w.handlers[t].received <= |w.handlers[t].input|
    ensures forall t :: t in w.order && w.holder != Some(t) ==> ReceivedAll(w.handlers[t])
    ensures w.holder == None ==> w.device == AllReceived(w, w.order)
    ensures w.holder.Some? ==>
              && w.order != [] && w.holder.value == w.order[|w.order| - 1]
              && var n, h := |w.order| - 1, w.handlers[w.holder.value];
                 var got := Flat(h.input[..h.received]);
                 |h.buffered| <= |got| &&
                 w.device == AllReceived(w, w.order[..n]) + got[..|got| - |h.buffered|]
  {
    RunInvariant(steps, w);
    RunBuffers(steps, w);
    forall t, c | t in w.order && c in w.handlers[t].input
      ensures !IsSeekto(c)
    {
      KeywordIs(c);
    }
    AppendedPlain(w, w.order);
    forall t | t in w.order && w.holder != Some(t)
      ensures ReceivedAll(w.handlers[t])
    {
      PastUnlock(w, t);
      ReceivedAllThere(w.handlers[t]);
    }
    if w.holder.Some? {
      HolderPlain(w);
    }
  }

  lemma HolderPlain(w: System)
    requires EachOk(w) && Ordered(w) && Mutex(w) && w.holder.Some? && BufferOk(w.handlers[w.holder.value])
    requires forall c :: c in w.handlers[w.holder.value].input ==> !IsSeekto(c)
    requires w.device + w.handlers[w.holder.value].buffered == AllReceived(w, w.order)
    ensures var n, h := |w.order| - 1, w.handlers[w.holder.value];
            var got := Flat(h.input[..h.received]);
            |h.buffered| <= |got| && w.device == AllReceived(w, w.order[..n]) + got[..|got| - |h.buffered|]
  {
    var n, h := |w.order| - 1, w.handlers[w.holder.value];
    assert forall c :: c in h.input[..h.received] ==> c in h.input;
    AllWrittenPlain(h.input[..h.received]);
    CutSuffix(w.device, h.buffered, AllReceived(w, w.order[..n]), Flat(h.input[..h.received]));
  }

  lemma EarlierPayloads(w: System)
    requires EachOk(w) && Ordered(w) && Mutex(w) && Serial(w) && w.holder.Some?
    ensures var n, h := |w.order| - 1, w.handlers[w.holder.value];
            w.device + h.buffered == Payloads(w, w.order[..n]) + SoFar(h)
  {
    var n := |w.order| - 1;
    forall t | t in w.order[..n]
      ensures t in w.handlers && Rank(w.handlers[t].pc) > 2
    {
      assert t in w.order && t != w.order[n];
      PastUnlock(w, t);
    }
    AppendedIsPayloads(w, w.order[..n]);
  }

  /** The file is closed before the mutex is released: whenever an unlock is due, the data file holds
      the payloads of all sessions so far, the holder's included, whole. */
  lemma WholeAtUnlock(steps: seq<Step>, w: System, t: nat)
    requires Run(steps, w) && Enabled(w, Unlock(t))
    ensures forall u :: u in w.order ==> u in w.handlers
    ensures w.holder == Some(t) && w.device == Payloads(w, w.order)
  {
    RunInvariant(steps, w);
    forall u | u in w.order
      ensures u in w.handlers && Rank(w.handlers[u].pc) > 2
    {
      if u != t {
        PastUnlock(w, u);
      }
    }
    AppendedIsPayloads(w, w.order);
    NothingBuffered(w, t);
  }

  /** A handler that has locked and is not the holder has unlocked. */
  lemma PastUnlock(w: System, u: nat)
    requires Ordered(w) && Mutex(w) && u in w.order && w.holder != Some(u)
    ensures u in w.handlers && Rank(w.handlers[u].pc) > 5
  {
  }

  lemma NothingBuffered(w: System, t: nat)
    requires EachOk(w) && Mutex(w) && t in w.handlers && w.handlers[t].pc == Unlocking
    ensures w.holder == Some(t) && Unwritten(w) == [] && w.device + Unwritten(w) == w.device
  {
  }

  /** Lifetime: whenever the completed flag is up, the client descriptor has been closed once and
      cleared and the handler has no step left; what the sweep frees is of such handlers only, so no
      enabled handler step uses freed thread data; and no descriptor is ever closed twice. */
  lemma LifetimeProtocol(steps: seq<Step>, w: System)
    requires Run(steps, w)
    ensures forall t :: t in w.handlers && w.handlers[t].completed ==>
              w.handlers[t].clientFd == -1 && w.handlers[t].closes == 1
    ensures forall s: Step :: !s.Spawn? && !s.Reap? && Enabled(w, s) ==>
              !w.handlers[s.t].completed && s.t !in w.freed
    ensures forall t :: t in w.handlers ==> w.handlers[t].closes <= 1
  {
    RunInvariant(steps, w);
    forall s: Step | !s.Spawn? && !s.Reap? && Enabled(w, s)
      ensures !w.handlers[s.t].completed && s.t !in w.freed
    {
      NoStepAfterReturn(w.handlers[s.t], s);
    }
  }

  lemma NoStepAfterReturn(h: Handler, s: Step)
    requires At(h, s) && !s.Reap?
    ensures h.pc != Returned
  {
  }

  // ----- the shutdown drain -----

  /** What the shutdown drain does to one queued thread, whatever it is doing: close its descriptor if
      it is not cleared, free its data. */
  function DrainOne(w: System, t: nat): System
    requires t in w.handlers
  {
    var h := w.handlers[t];
    w.(handlers := w.handlers[t := if h.clientFd != -1 then h.(closes := h.closes + 1) else h],
       freed := w.freed + {t})
  }

  /** The handler steps that use the thread data: its mutex, descriptor, address or flag. Opening,
      flushing and closing the data file do not, nor does a reply with nothing to send. */
  predicate UsesData(s: Step) {
    s.Lock? || s.Receive? || s.EndOfInput? || s.Unlock? || s.CloseFd? || s.ClearFd? || s.LogClosed? || s.Complete?
  }

  /** Handlers alone take `w` to `w'`. */
  ghost predicate Path(w: System, steps: seq<Step>, w': System)
    decreases |steps|
  {
    if steps == [] then w == w'
    else
      var s := steps[0];
      !s.Spawn? && !s.Reap? && Enabled(w, s) && Path(Next(w, s), steps[1..], w')
  }

  /** The handlers can go on to a step of `t` that uses thread data already freed. */
  ghost predicate UseAfterFreeAhead(w: System, t: nat) {
    exists steps, w', s :: Path(w, steps, w') && UseAfterFree(w', s, t)
  }

  predicate UseAfterFree(w: System, s: Step, t: nat) {
    s.t == t && UsesData(s) && Enabled(w, s) && t in w.freed
  }

  /** They can go on to a state in which the descriptor of `t` has been closed twice. */
  ghost predicate SecondCloseAhead(w: System, t: nat) {
    exists steps, w' :: Path(w, steps, w') && t in w'.handlers && w'.handlers[t].closes >= 2
  }

  /** The next step of a handler that has not returned (a lock may have to wait). */
  function NextStep(h: Handler, t: nat): (s: Step)
    requires h.received <= |h.input| && h.pc != Returned
    ensures s.t == t && !s.Spawn? && !s.Reap? && At(h, s)
  {
    match h.pc
    case Waiting => Lock(t)
    case Opening => Open(t, true)
    case Receiving => if h.received < |h.input| then Receive(t) else EndOfInput(t)
    case Replying => Replied(t)
    case ClosingFile => CloseFile(t)
    case Unlocking => Unlock(t)
    case ClosingFd => CloseFd(t)
    case ClearingFd => ClearFd(t)
    case Logging => LogClosed(t)
    case Completing => Complete(t)
  }

  lemma PathCons(w: System, s: Step, rest: seq<Step>, w': System)
    requires !s.Spawn? && !s.Reap? && Enabled(w, s) && Path(Next(w, s), rest, w')
    ensures Path(w, [s] + rest, w')
  {
    assert ([s] + rest)[1..] == rest;
  }

  lemma {:induction false} PathConcat(w: System, a: seq<Step>, v: System, b: seq<Step>, w': System)
    requires Path(w, a, v) && Path(v, b, w')
    ensures Path(w, a + b, w')
    decreases |a|
  {
    if a == [] {
      assert a + b == b;
    } else {
      var s, rest := a[0], a[1..];
      PathConcat(Next(w, s), rest, v, b, w');
      PathCons(w, s, rest + b, w');
      Regroup([s], rest, b);
      assert a == [s] + rest;
    }
  }

  /** One step of a handler on its way to `goal`. */
  lemma OneStep(h: Handler, t: nat, goal: nat)
    requires h.received <= |h.input| && Rank(h.pc) < goal && 4 <= goal <= 10
    ensures var h' := Moved(h, NextStep(h, t));
            && h'.received <= |h'.input| && Rank(h.pc) <= Rank(h'.pc) <= goal
            && (Rank(h.pc) == Rank(h'.pc) ==> |h'.input| - h'.received < |h.input| - h.received)
            && h'.input == h.input && h'.received >= h.received && Rank(h'.pc) > 0
            && h'.closes == h.closes + (if h.pc == ClosingFd then 1 else 0)
            && (h.pc == ClosingFd <==> Rank(h.pc) <= 6 < Rank(h'.pc))
            && (h.pc == Unlocking <==> Rank(h.pc) <= 5 < Rank(h'.pc))
  {
  }

  /** On its own, a handler gets to any later point from closing its file on, unless it has to wait
      for the mutex; having unlocked, it leaves the mutex free. */
  lemma Advance(w: System, t: nat, goal: nat) returns (steps: seq<Step>, w': System)
    requires t in w.handlers && w.handlers[t].received <= |w.handlers[t].input|
    requires Rank(w.handlers[t].pc) <= goal && 4 <= goal <= 10
    requires w.handlers[t].pc == Waiting ==> w.holder == None
    ensures Path(w, steps, w') && w'.freed == w.freed
    ensures t in w'.handlers && Rank(w'.handlers[t].pc) == goal
    ensures forall u :: u in w.handlers && u != t ==> u in w'.handlers && w'.handlers[u] == w.handlers[u]
    ensures w'.handlers[t].closes == w.handlers[t].closes + if Rank(w.handlers[t].pc) <= 6 < goal then 1 else 0
    ensures Rank(w.handlers[t].pc) <= 5 && goal == 6 ==> w'.holder == None
    decreases |w.handlers[t].input| - w.handlers[t].received, goal - Rank(w.handlers[t].pc)
  {
    var h := w.handlers[t];
    if Rank(h.pc) == goal {
      return [], w;
    }
    var s := NextStep(h, t);
    OneStep(h, t, goal);
    var v := Next(w, s);
    if v.handlers[t].pc == ClosingFd && goal == 6 {
      assert Path(v, [], v) && [s][1..] == [];
      return [s], v;
    }
    var rest;
    rest, w' := Advance(v, t, goal);
    steps := [s] + rest;
    assert steps[1..] == rest;
  }

  /** In a state with a proper holder every handler can get to any later point from there on, waiting
      for the holder to unlock if need be. */
  lemma Reaches(w: System, t: nat, goal: nat) returns (steps: seq<Step>, w': System)
    requires t in w.handlers && forall u :: u in w.handlers ==> w.handlers[u].received <= |w.handlers[u].input|
    requires Mutex(w) && Rank(w.handlers[t].pc) <= goal && 4 <= goal <= 10
    ensures Path(w, steps, w') && w'.freed == w.freed
    ensures t in w'.handlers && Rank(w'.handlers[t].pc) == goal
    ensures w'.handlers[t].closes == w.handlers[t].closes + if Rank(w.handlers[t].pc) <= 6 < goal then 1 else 0
  {
    if w.handlers[t].pc == Waiting && w.holder.Some? {
      var a, v := Advance(w, w.holder.value, 6);
      var b;
      b, w' := Advance(v, t, goal);
      PathConcat(w, a, v, b, w');
      steps := a + b;
    } else {
      steps, w' := Advance(w, t, goal);
    }
  }

  /** A handler that has returned takes no part in what follows, and one that has closed its
      descriptor does not close it again. */
  lemma {:induction false} PathKeeps(w: System, steps: seq<Step>, w': System, t: nat)
    requires Path(w, steps, w') && t in w.handlers
    ensures t in w'.handlers
    ensures w.handlers[t].pc == Returned ==> w'.handlers[t] == w.handlers[t]
    ensures Rank(w.handlers[t].pc) >= 7 ==>
              Rank(w'.handlers[t].pc) >= 7 && w'.handlers[t].closes == w.handlers[t].closes
    decreases |steps|
  {
    if steps != [] {
      var s := steps[0];
      if s.t == t {
        NoStepAfterReturn(w.handlers[t], s);
      }
      PathKeeps(Next(w, s), steps[1..], w', t);
    }
  }

  lemma NoUseAhead(v: System, t: nat, path: seq<Step>, w': System, s: Step)
    requires Path(v, path, w') && t in v.handlers && v.handlers[t].pc == Returned
    ensures !UseAfterFree(w', s, t)
  {
    PathKeeps(v, path, w', t);
    if s.t == t && UsesData(s) && Enabled(w', s) {
      NoStepAfterReturn(w'.handlers[t], s);
    }
  }

  lemma UseAhead(v: System, t: nat)
    requires t in v.handlers && t in v.freed && v.handlers[t].pc != Returned
    requires forall u :: u in v.handlers ==> v.handlers[u].received <= |v.handlers[u].input|
    requires Mutex(v)
    ensures UseAfterFreeAhead(v, t)
  {
    var r := Rank(v.handlers[t].pc);
    var path, w' := Reaches(v, t, if r <= 5 then 5 else r);
    var s := match w'.handlers[t].pc
      case Unlocking => Unlock(t)
      case ClosingFd => CloseFd(t)
      case ClearingFd => ClearFd(t)
      case Logging => LogClosed(t)
      case _ => Complete(t);
    assert UseAfterFree(w', s, t);
  }

  /** The drain does not wait before it frees: in every reachable state, draining a thread leaves a
      use of its freed data ahead exactly when that thread has not completed. */
  lemma DrainSafeIffCompleted(steps: seq<Step>, w: System, t: nat)
    requires Run(steps, w) && t in w.handlers
    ensures !UseAfterFreeAhead(DrainOne(w, t), t) <==> w.handlers[t].completed
  {
    RunInvariant(steps, w);
    var v := DrainOne(w, t);
    if w.handlers[t].completed {
      forall path, w', s | Path(v, path, w')
        ensures !UseAfterFree(w', s, t)
      {
        NoUseAhead(v, t, path, w', s);
      }
    } else {
      UseAhead(v, t);
    }
  }

  /** It also closes a descriptor that the handler will close or has just closed: a second close of it
      lies ahead, or has happened, exactly when the handler had not cleared it. */
  lemma DrainClosesOnceIffCleared(steps: seq<Step>, w: System, t: nat)
    requires Run(steps, w) && t in w.handlers
    ensures !SecondCloseAhead(DrainOne(w, t), t) <==> w.handlers[t].clientFd == -1
  {
    RunInvariant(steps, w);
    var v := DrainOne(w, t);
    if w.handlers[t].clientFd == -1 {
      forall path, w' | Path(v, path, w')
        ensures t in w'.handlers && w'.handlers[t].closes < 2
      {
        PathKeeps(v, path, w', t);
      }
    } else {
      var path, w' := Reaches(v, t, 7);
    }
  }

  /** A reachable state where the drain goes wrong in both ways: one thread, just spawned. */
  lemma DrainTooEarly()
    ensures var w := Next(IDLE, Spawn(0, 3, []));
            && Run([Spawn(0, 3, [])], w)
            && UseAfterFreeAhead(DrainOne(w, 0), 0) && SecondCloseAhead(DrainOne(w, 0), 0)
  {
    var s := Spawn(0, 3, []);
    RunSnoc([], IDLE, s);
    assert [] + [s] == [s];
    DrainSafeIffCompleted([s], Next(IDLE, s), 0);
    DrainClosesOnceIffCleared([s], Next(IDLE, s), 0);
  }
}
