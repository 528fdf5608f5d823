/** Which allocation belongs to which slot, as a relation between the driver's fields and the log
    they represent, with the steps that keep it. */
module Ownership {
  import opened Bytes
  import opened CircularBuffer
  import opened CommandLog
  import opened KernelHeap

  type Memory = map<nat, seq<byte>>

  /** Entry `i` points to a live allocation holding exactly command `i`; no two share one. */
  ghost predicate Backed(entries: seq<Entry>, mem: Memory, cmds: seq<seq<byte>>) {
    && |entries| == |cmds|
    && (forall i :: 0 <= i < |entries| ==>
          entries[i].buffptr in mem && mem[entries[i].buffptr] == cmds[i] && entries[i].size == |cmds[i]|)
    && (forall i, j :: 0 <= i < j < |entries| ==> entries[i].buffptr != entries[j].buffptr)
  }

  /** The staging entry holds the staged bytes at the front of its allocation. */
  ghost predicate Staged(e: Entry, mem: Memory, s: Staging) {
    && e.size == StagingSize(s)
    && (e.buffptr != 0 ==> e.buffptr in mem)
    && match s
       case Held(b) => if e.buffptr == 0 then b == [] else |b| <= |mem[e.buffptr]| && mem[e.buffptr][..|b|] == b
       case Lost(n) => n > 0 && e.buffptr == 0
  }

  function Pointers(entries: seq<Entry>): set<nat> {
    set e | e in entries :: e.buffptr
  }

  function NonNull(p: nat): set<nat> {
    if p == 0 then {} else {p}
  }

  /** The live allocations are those of the entries, of staging, and the leaked ones, disjointly. */
  ghost predicate Owned(entries: seq<Entry>, staging: nat, mem: Memory, leaked: set<nat>) {
    && 0 !in mem
    && mem.Keys == Pointers(entries) + NonNull(staging) + leaked
    && Pointers(entries) !! NonNull(staging)
    && leaked !! Pointers(entries) + NonNull(staging)
  }

  ghost predicate Represents(entries: seq<Entry>, staging: Entry, mem: Memory, leaked: set<nat>, g: Log) {
    && Backed(entries, mem, Live(g))
    && Staged(staging, mem, g.staging)
    && Owned(entries, staging.buffptr, mem, leaked)
  }

  lemma PointerOf(entries: seq<Entry>, i: nat)
    requires i < |entries|
    ensures entries[i].buffptr in Pointers(entries)
  {
    assert entries[i] in entries;
  }

  /** The commands survive any change of memory that keeps the allocations they live in. */
  lemma BackedElsewhere(entries: seq<Entry>, mem: Memory, mem': Memory, cmds: seq<seq<byte>>)
    requires Backed(entries, mem, cmds)
    requires forall p :: p in Pointers(entries) ==> p in mem && p in mem' && mem'[p] == mem[p]
    ensures Backed(entries, mem', cmds)
  {
    forall i | 0 <= i < |entries|
      ensures entries[i].buffptr in mem' && mem'[entries[i].buffptr] == cmds[i]
    {
      PointerOf(entries, i);
    }
  }

  /** A successful `krealloc` of the staging buffer keeps everything and settles the staged bytes. */
  lemma ReallocKeeps(entries: seq<Entry>, st: Entry, mem: Memory, leaked: set<nat>, g: Log,
                     q: nat, n: nat, junk: seq<byte>, mem': Memory)
    requires Represents(entries, st, mem, leaked, g)
    requires n >= st.size && q != 0 && (q == st.buffptr || q !in mem)
    requires mem' == (mem - {st.buffptr})[q := Resized(if st.buffptr == 0 then [] else mem[st.buffptr], n, junk)]
    ensures Represents(entries, Entry(q, st.size), mem', leaked, g.(staging := Held(Recovered(g.staging, junk))))
    ensures q in mem' && |mem'[q]| == n
  {
    var rec := Recovered(g.staging, junk);
    assert mem'[q][..|rec|] == rec;
    assert Pointers(entries) <= mem.Keys - NonNull(st.buffptr);
    BackedElsewhere(entries, mem, mem', Live(g));
    assert mem'.Keys == mem.Keys - NonNull(st.buffptr) + {q};
  }

  /** Overwriting the staging buffer past the staged bytes changes nothing. */
  lemma CopyKeeps(entries: seq<Entry>, st: Entry, mem: Memory, leaked: set<nat>, g: Log, bytes: seq<byte>, mem': Memory)
    requires Represents(entries, st, mem, leaked, g) && g.staging.Held? && st.buffptr != 0
    requires st.size + |bytes| <= |mem[st.buffptr]|
    requires mem' == mem[st.buffptr := mem[st.buffptr][..st.size] + bytes + mem[st.buffptr][st.size + |bytes|..]]
    ensures Represents(entries, st, mem', leaked, g)
    ensures st.size + |bytes| == |mem[st.buffptr]| ==> mem'[st.buffptr] == g.staging.bytes + bytes
  {
    BackedElsewhere(entries, mem, mem', Live(g));
    assert mem'.Keys == mem.Keys;
  }

  /** Once the data is in, the staged bytes are the whole allocation. */
  lemma ExtendKeeps(entries: seq<Entry>, st: Entry, mem: Memory, leaked: set<nat>, g: Log, bytes: seq<byte>)
    requires Represents(entries, st, mem, leaked, g) && st.buffptr != 0 && mem[st.buffptr] == bytes
    ensures Represents(entries, Entry(st.buffptr, |bytes|), mem, leaked, g.(staging := Held(bytes)))
  {
  }

  /** Losing the staging pointer leaks its allocation. */
  lemma LoseKeeps(entries: seq<Entry>, st: Entry, mem: Memory, leaked: set<nat>, g: Log, data: seq<byte>,
                  junk: seq<byte>)
    requires Represents(entries, st, mem, leaked, g)
    ensures Represents(entries, Entry(0, st.size), mem, leaked + NonNull(st.buffptr),
                       WriteStep(g, data, NoMemory, junk))
  {
  }

  /** Committing while there is room moves the staging allocation to the new entry. */
  lemma CommitKeeps(entries: seq<Entry>, st: Entry, mem: Memory, leaked: set<nat>, g: Log, bytes: seq<byte>)
    requires Represents(entries, st, mem, leaked, g) && st.buffptr != 0
    requires g.staging == Held(bytes) && mem[st.buffptr] == bytes && |g.commits| < CAPACITY
    ensures Represents(entries + [st], NO_ENTRY, mem, leaked, Log(g.commits + [bytes], Held([])))
  {
    assert Pointers(entries + [st]) == Pointers(entries) + {st.buffptr};
    forall i | 0 <= i < |entries|
      ensures entries[i].buffptr != st.buffptr
    {
      PointerOf(entries, i);
    }
  }

  /** ... and when the ring is full the oldest entry's allocation is the one to free. */
  lemma EvictKeeps(entries: seq<Entry>, st: Entry, mem: Memory, leaked: set<nat>, g: Log, bytes: seq<byte>)
    requires Represents(entries, st, mem, leaked, g) && st.buffptr != 0
    requires g.staging == Held(bytes) && mem[st.buffptr] == bytes && |g.commits| >= CAPACITY
    ensures |entries| == CAPACITY && entries[0].buffptr in mem && entries[0].buffptr != 0
    ensures Represents(entries[1..] + [st], NO_ENTRY, mem - {entries[0].buffptr}, leaked,
                       Log(g.commits + [bytes], Held([])))
  {
    var p, kept := entries[0].buffptr, entries[1..] + [st];
    var mem' := mem - {p};
    var rest := entries[1..];
    LastSnoc(g.commits, bytes, CAPACITY);
    PointerOf(entries, 0);
    forall i | 0 <= i < |rest|
      ensures rest[i].buffptr != st.buffptr && rest[i].buffptr != p && rest[i].buffptr in mem'
    {
      PointerOf(entries, i + 1);
    }
    assert Backed(kept, mem', Live(g)[1..] + [bytes]);
    assert entries == [entries[0]] + rest;
    assert Pointers(entries) == {p} + Pointers(rest);
    assert Pointers(kept) == Pointers(rest) + {st.buffptr};
    assert p !in Pointers(rest);
  }
}
