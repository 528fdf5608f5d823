/** The driver's stored data as a value: every command committed so far, of which the device keeps
    the last ten, and the bytes staged for the next one. `WriteStep` is what one write does to it. */
module CommandLog {
  import opened Bytes

  /** The staging entry. After a failed reallocation only its size is left (`Lost`). */
  datatype Staging = Held(bytes: seq<byte>) | Lost(size: nat)

  datatype Log = Log(commits: seq<seq<byte>>, staging: Staging)

  const EMPTY: Log := Log([], Held([]))

  /** How one write call ends. */
  datatype WriteOutcome = Stored | Fault | NoMemory | Interrupted

  function StagingSize(s: Staging): nat {
    match s
    case Held(b) => |b|
    case Lost(n) => n
  }

  /** The commands a reader can still see, oldest first. */
  function Live(g: Log): seq<seq<byte>> {
    Last(g.commits, CAPACITY)
  }

  /** The bytes that have been pushed out. */
  function Evicted(g: Log): seq<byte> {
    Flat(g.commits[..|g.commits| - |Live(g)|])
  }

  /** Byte `i` of a fresh allocation. */
  function JunkAt(junk: seq<byte>, i: nat): byte {
    if i < |junk| then junk[i] else 0
  }

  /** The first bytes of the staging buffer once `krealloc` has succeeded: the old ones, or
      whatever a fresh allocation holds when the old ones were lost. */
  function Recovered(s: Staging, junk: seq<byte>): (b: seq<byte>)
    ensures |b| == StagingSize(s)
  {
    match s
    case Held(b) => b
    case Lost(n) => seq(n, i requires 0 <= i < n => JunkAt(junk, i))
  }

  function Append(g: Log, bytes: seq<byte>): Log {
    if EndsInNewline(bytes) then Log(g.commits + [bytes], Held([])) else Log(g.commits, Held(bytes))
  }

  function WriteStep(g: Log, data: seq<byte>, outcome: WriteOutcome, junk: seq<byte>): Log {
    match outcome
    case Interrupted => g
    case NoMemory =>
      if StagingSize(g.staging) == 0 then g.(staging := Held([])) else g.(staging := Lost(StagingSize(g.staging)))
    case Fault => g.(staging := Held(Recovered(g.staging, junk)))
    case Stored => Append(g, Recovered(g.staging, junk) + data)
  }

  /** Those are the last ten committed, all of them while there are no more. */
  lemma LiveIsLastTen(g: Log)
    ensures |Live(g)| == Min(|g.commits|, 10)
    ensures g.commits == g.commits[..|g.commits| - |Live(g)|] + Live(g)
  {
  }

  /** Every committed command ends in a newline. */
  predicate CommitsClosed(g: Log) {
    forall c :: c in g.commits ==> EndsInNewline(c)
  }

  /** ... and, short of a failed reallocation, the staged bytes never do. */
  predicate Healthy(g: Log) {
    CommitsClosed(g) && g.staging.Held? && !EndsInNewline(g.staging.bytes)
  }

  lemma CommitsStayClosed(g: Log, data: seq<byte>, outcome: WriteOutcome, junk: seq<byte>)
    requires CommitsClosed(g)
    ensures CommitsClosed(WriteStep(g, data, outcome, junk))
  {
  }

  /** A failed reallocation does no harm exactly when nothing was staged. */
  predicate Clean(g: Log, outcome: WriteOutcome) {
    outcome == NoMemory ==> StagingSize(g.staging) == 0
  }

  /** The bytes a log accounts for: evicted, live, staged. */
  function Stream(g: Log): seq<byte>
    requires g.staging.Held?
  {
    Evicted(g) + Flat(Live(g)) + g.staging.bytes
  }

  lemma StreamIsFlat(g: Log)
    requires g.staging.Held?
    ensures Stream(g) == Flat(g.commits) + g.staging.bytes
    ensures Evicted(g) + Flat(Live(g)) == Flat(g.commits)
  {
    var e := |g.commits| - |Live(g)|;
    assert g.commits == g.commits[..e] + Live(g);
    FlatConcat(g.commits[..e], Live(g));
  }

  /** What one write adds to the stream: its data if it was stored, nothing otherwise. */
  function Contribution(data: seq<byte>, outcome: WriteOutcome): seq<byte> {
    if outcome == Stored then data else []
  }

  lemma AppendKeepsHealth(g: Log, bytes: seq<byte>)
    requires CommitsClosed(g)
    ensures Healthy(Append(g, bytes))
    ensures Stream(Append(g, bytes)) == Flat(g.commits) + bytes
  {
    StreamIsFlat(Append(g, bytes));
    if EndsInNewline(bytes) {
      FlatSnoc(g.commits, bytes);
    }
  }

  /** Byte conservation over one clean write. */
  lemma WriteConserves(g: Log, data: seq<byte>, outcome: WriteOutcome, junk: seq<byte>)
    requires Healthy(g) && Clean(g, outcome)
    ensures Healthy(WriteStep(g, data, outcome, junk))
    ensures Stream(WriteStep(g, data, outcome, junk)) == Stream(g) + Contribution(data, outcome)
  {
    if outcome == Stored {
      StreamIsFlat(g);
      AppendKeepsHealth(g, g.staging.bytes + data);
    } else {
      assert WriteStep(g, data, outcome, junk) == g;
    }
  }

  /** One write at the level of bytes, failures included. Only a stored one adds bytes, all of them and
      at the end; it commits just when its last byte is a newline (ASCII 10). */
  lemma WriteMeaning(g: Log, data: seq<byte>, outcome: WriteOutcome, junk: seq<byte>)
    ensures var h := WriteStep(g, data, outcome, junk);
            && |Flat(h.commits)| + StagingSize(h.staging) ==
               |Flat(g.commits)| + StagingSize(g.staging) + (if outcome == Stored then |data| else 0)
            && (outcome != Stored ==> h.commits == g.commits)
            && (outcome == Stored && data != [] ==>
                  if data[|data| - 1] == 10
                  then |h.commits| == |g.commits| + 1 && g.commits < h.commits && StagingSize(h.staging) == 0
                  else h.commits == g.commits)
            && (outcome == Stored && g.staging.Held? ==>
                  h.staging.Held? &&
                  Flat(h.commits) + h.staging.bytes == Flat(g.commits) + (g.staging.bytes + data))
  {
    var bytes := Recovered(g.staging, junk) + data;
    FlatSnoc(g.commits, bytes);
    if outcome == Stored && data != [] {
      assert bytes[|bytes| - 1] == data[|data| - 1];
    }
  }

  /** Evicted bytes never come back, and a write that commits nothing evicts nothing. */
  lemma EvictedGrows(g: Log, data: seq<byte>, outcome: WriteOutcome, junk: seq<byte>)
    ensures Evicted(g) <= Evicted(WriteStep(g, data, outcome, junk))
    ensures WriteStep(g, data, outcome, junk).commits == g.commits ==>
              Evicted(WriteStep(g, data, outcome, junk)) == Evicted(g)
  {
    var h := WriteStep(g, data, outcome, junk);
    if h.commits != g.commits {
      var e := |g.commits| - |Live(g)|;
      var f := |h.commits| - |Live(h)|;
      assert e <= f;
      assert h.commits[..f] == g.commits[..e] + h.commits[e..f];
      FlatConcat(g.commits[..e], h.commits[e..f]);
    }
  }

  /** Whether the bytes stored after a failed reallocation follow the earlier ones, `junk` being what
      the fresh allocation of the later write holds. */
  predicate Continues(g: Log, data: seq<byte>, junk: seq<byte>)
    requires g.staging.Held?
  {
    var h := WriteStep(WriteStep(g, [], NoMemory, []), data, Stored, junk);
    h.staging.Held? && Stream(h) == Stream(g) + data
  }

  /** They do exactly when the fresh allocation happens to hold the bytes that were lost. */
  lemma NoMemoryThenStored(g: Log, data: seq<byte>, junk: seq<byte>)
    requires Healthy(g)
    ensures Continues(g, data, junk) <==> Recovered(Lost(StagingSize(g.staging)), junk) == g.staging.bytes
  {
    var n := StagingSize(g.staging);
    var lost := WriteStep(g, [], NoMemory, []);
    var h := WriteStep(lost, data, Stored, junk);
    var back := Recovered(Lost(n), junk);
    assert Recovered(lost.staging, junk) == back;
    StreamIsFlat(g);
    AppendKeepsHealth(g.(staging := lost.staging), back + data);
    assert Stream(h) == Flat(g.commits) + (back + data);
    assert Stream(g) + data == Flat(g.commits) + (g.staging.bytes + data);
    if Stream(h) == Stream(g) + data {
      assert Stream(h)[|Flat(g.commits)|..] == back + data;
      assert (Stream(g) + data)[|Flat(g.commits)|..] == g.staging.bytes + data;
      assert (back + data)[..n] == back;
      assert (g.staging.bytes + data)[..n] == g.staging.bytes;
    }
  }

  /** A failed reallocation is harmless, whatever fresh memory holds, exactly when nothing was staged. */
  lemma NoMemoryHarmlessIff(g: Log, data: seq<byte>)
    requires Healthy(g)
    ensures (forall junk :: Continues(g, data, junk)) <==> StagingSize(g.staging) == 0
  {
    var n := StagingSize(g.staging);
    forall junk | n == 0
      ensures Continues(g, data, junk)
    {
      NoMemoryThenStored(g, data, junk);
    }
    if n > 0 {
      var other: byte := if g.staging.bytes[0] == 0 then 1 else 0;
      NoMemoryThenStored(g, data, [other]);
      assert Recovered(Lost(n), [other])[0] == other;
    }
  }
}
