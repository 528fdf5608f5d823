/** The character device: staging buffer, ring and allocator, and the file operations on them.
    Each operation runs under the device mutex, so each is one atomic step. */
module Device {
  import opened Bytes
  import opened Layout
  import opened CircularBuffer
  import opened CommandLog
  import opened Interleaving
  import opened KernelHeap
  import opened Ownership
  import opened Reading

  /** The release of `p`, when it happens and `p` is not NULL. */
  function Released(happens: bool, p: nat): seq<nat> {
    if happens && p != 0 then [p] else []
  }

  lemma EntrySizesOf(entries: seq<Entry>, mem: Memory, cmds: seq<seq<byte>>)
    requires Backed(entries, mem, cmds)
    ensures EntrySizes(entries) == Sizes(cmds)
  {
  }

  /** The slots in logical order hold the commands' sizes. */
  lemma SlotSizes(slots: seq<Entry>, inOffs: nat, outOffs: nat, full: bool, added: seq<Entry>,
                  mem: Memory, cmds: seq<seq<byte>>)
    requires Shape(slots, inOffs, outOffs, full, added) && Backed(Last(added, CAPACITY), mem, cmds)
    ensures outOffs < CAPACITY && |cmds| <= CAPACITY
    ensures forall k :: 0 <= k < |cmds| ==>
              slots[Slot(outOffs, k)] == Last(added, CAPACITY)[k] && slots[Slot(outOffs, k)].size == Sizes(cmds)[k]
  {
    ScanOrder(slots, inOffs, outOffs, full, added);
  }

  /** One step of the walk over the slots: the next slot, and the sum of the sizes up to there. */
  lemma WalkStep(sizes: seq<nat>, outOffs: nat, k: nat)
    requires outOffs < CAPACITY && k + 1 < |sizes| <= CAPACITY && Sum(sizes) < TWO63
    ensures Next(Slot(outOffs, k)) == Slot(outOffs, k + 1)
    ensures ToSizeT(Sum(sizes[..k]) + sizes[k]) == Sum(sizes[..k + 1])
  {
    SlotWalk(outOffs, k);
    SumTake(sizes, k);
    SumSplit(sizes, k + 1);
  }

  /** One open file: its handle and its position. */
  class OpenFile {
    const handle: nat
    var fPos: nat

    constructor (handle: nat)
      ensures this.handle == handle && fPos == 0
    {
      this.handle := handle;
      fPos := 0;
    }
  }

  class AesdDevice {
    const heap: Heap
    const ring: Ring
    var bufEntry: Entry
    // the commands committed so far and the staged bytes
    ghost var log: Log
    // allocations no pointer refers to any more
    ghost var leaked: set<nat>

    /** Holds in every reachable state: the ring holds the last ten commits, slot by slot in
        allocations of their own; every live allocation belongs to one slot, to staging or is
        leaked; every other allocation ever made has been freed exactly once. */
    ghost predicate Valid()
      reads this, heap, ring, ring.entry
    {
      && heap.Valid()
      && ring.Valid()
      && |ring.added| == |log.commits|
      && CommitsClosed(log)
      && Represents(ring.Live(), bufEntry, heap.mem, leaked, log)
    }

    /** The device as one open file sees it: the part of the world its calls act on. */
    ghost function View(f: OpenFile): World
      reads this, f
    {
      Alone(log, f.handle, f.fPos)
    }

    constructor ()
      ensures Valid() && fresh(heap) && fresh(ring) && fresh(ring.entry)
      ensures log == EMPTY && leaked == {} && heap.mem == map[] && heap.freed == []
    {
      heap := new Heap();
      ring := new Ring();
      bufEntry := NO_ENTRY;
      log, leaked := EMPTY, {};
    }

    /** `aesd_write`. `outcome` says how the call ends; on success of `krealloc`, `moved` says
        whether the buffer moved, `junk` what its new bytes hold and, on a fault, `copied` how many
        bytes arrived before it. The only allocations freed are the staging buffer when it moves
        and the oldest command's when one is pushed out. */
    method Write(data: seq<byte>, outcome: WriteOutcome, moved: bool, junk: seq<byte>, copied: nat)
        returns (retval: int)
      requires Valid()
      requires outcome != Interrupted ==> bufEntry.size + |data| > 0
      modifies this, heap, ring, ring.entry
      ensures Valid()
      ensures log == WriteStep(old(log), data, outcome, junk)
      ensures retval == match outcome
                        case Stored => |data|
                        case Fault => -14
                        case NoMemory => -12
                        case Interrupted => -512
      ensures |Flat(log.commits)| + bufEntry.size ==
              old(|Flat(log.commits)| + bufEntry.size) + if retval >= 0 then retval else 0
      ensures retval > 0 ==>
                if data[|data| - 1] == 10
                then |log.commits| == |old(log).commits| + 1 && bufEntry.size == 0
                else log.commits == old(log).commits
      ensures retval < 0 ==> log.commits == old(log).commits
      ensures leaked == old(leaked) + if outcome == NoMemory then NonNull(old(bufEntry.buffptr)) else {}
      ensures heap.freed == old(heap.freed)
                + Released(outcome in {Stored, Fault} && moved, old(bufEntry.buffptr))
                + Released(|log.commits| > |old(log).commits| >= CAPACITY, old(Oldest()))
    {
      WriteMeaning(log, data, outcome, junk);
      assert bufEntry.size == StagingSize(log.staging);
      if outcome == Interrupted {
        return -ERESTARTSYS;
      }
      retval := WriteLocked(data, outcome, moved, junk, copied);
      assert bufEntry.size == StagingSize(log.staging);
    }

    /** The part of `aesd_write` that holds the mutex. */
    method WriteLocked(data: seq<byte>, outcome: WriteOutcome, moved: bool, junk: seq<byte>, copied: nat)
        returns (retval: int)
      requires Valid() && outcome != Interrupted && bufEntry.size + |data| > 0
      modifies this, heap, ring, ring.entry
      ensures Valid()
      ensures log == WriteStep(old(log), data, outcome, junk)
      ensures retval == if outcome == Stored then |data| else if outcome == Fault then -EFAULT else -ENOMEM
      ensures leaked == old(leaked) + if outcome == NoMemory then NonNull(old(bufEntry.buffptr)) else {}
      ensures heap.freed == old(heap.freed)
                + Released(outcome in {Stored, Fault} && moved, old(bufEntry.buffptr))
                + Released(|log.commits| > |old(log).commits| >= CAPACITY, old(Oldest()))
    {
      retval := 0;
      assert forall s: seq<nat> {:trigger s + []} :: s + [] == s;
      Grow(|data|, if outcome == NoMemory then Fails else if moved then Moves else InPlace, junk);
      if bufEntry.buffptr == 0 {
        return -ENOMEM;
      }
      if outcome == Fault {
        Fill(data, Some(copied));
        return -EFAULT;
      }
      Store(data);
      return |data|;
    }

    /** The copy succeeds: stage `data`, and commit if the last staged byte now is a newline. */
    method Store(data: seq<byte>)
      requires Valid()
      requires bufEntry.buffptr != 0 && log.staging.Held? && bufEntry.size + |data| > 0
      requires |heap.mem[bufEntry.buffptr]| == bufEntry.size + |data|
      modifies this, heap, ring, ring.entry
      ensures Valid() && leaked == old(leaked)
      ensures log == Append(old(log), old(log).staging.bytes + data)
      ensures heap.freed == old(heap.freed)
                + Released(|log.commits| > |old(log).commits| >= CAPACITY, old(Oldest()))
    {
      Fill(data, None);
      if heap.mem[bufEntry.buffptr][bufEntry.size - 1] == NEWLINE {
        Commit();
      }
    }

    /** The allocation of the oldest command, 0 when there is none. */
    ghost function Oldest(): nat
      reads this, ring
    {
      if ring.Live() == [] then 0 else ring.Live()[0].buffptr
    }

    /** Make room for `count` more staged bytes. */
    method Grow(count: nat, how: ReallocOutcome, junk: seq<byte>)
      requires Valid()
      requires bufEntry.size + count > 0
      modifies this, heap
      ensures Valid()
      ensures how == Fails ==>
                && bufEntry.buffptr == 0 && log == WriteStep(old(log), [], NoMemory, junk)
                && leaked == old(leaked) + NonNull(old(bufEntry.buffptr)) && heap.freed == old(heap.freed)
      ensures how != Fails ==>
                && bufEntry.buffptr != 0 && |heap.mem[bufEntry.buffptr]| == bufEntry.size + count
                && log == old(log).(staging := Held(Recovered(old(log).staging, junk))) && leaked == old(leaked)
                && heap.freed == old(heap.freed) + Released(how == Moves, old(bufEntry.buffptr))
    {
      ghost var before, mem := bufEntry, heap.mem;
      var newEntrySize := bufEntry.size + count;
      var p := heap.Krealloc(bufEntry.buffptr, newEntrySize, how, junk);
      bufEntry := Entry(p, bufEntry.size);
      if how == Fails {
        LoseKeeps(ring.Live(), before, mem, leaked, log, [], junk);
        leaked := leaked + NonNull(before.buffptr);
        log := WriteStep(log, [], NoMemory, junk);
      } else {
        ReallocKeeps(ring.Live(), before, mem, leaked, log, p, newEntrySize, junk, heap.mem);
        log := log.(staging := Held(Recovered(log.staging, junk)));
      }
    }

    /** Copy `data` behind the staged bytes; `fault` is the number of bytes that arrive before the
        copy faults, if it does. */
    method Fill(data: seq<byte>, fault: Option<nat>)
      requires Valid()
      requires bufEntry.buffptr != 0 && log.staging.Held?
      requires |heap.mem[bufEntry.buffptr]| == bufEntry.size + |data|
      modifies this, heap
      ensures Valid() && leaked == old(leaked) && heap.freed == old(heap.freed)
      ensures bufEntry.buffptr == old(bufEntry.buffptr)
      ensures fault.Some? ==> log == old(log)
      ensures fault.None? ==> log == old(log).(staging := Held(old(log).staging.bytes + data)) &&
                              heap.mem[bufEntry.buffptr] == log.staging.bytes
    {
      ghost var mem := heap.mem;
      var arrived := if fault.Some? then data[..Min(fault.value, |data|)] else data;
      heap.CopyIn(bufEntry.buffptr, bufEntry.size, arrived);
      CopyKeeps(ring.Live(), bufEntry, mem, leaked, log, arrived, heap.mem);
      if fault.None? {
        ExtendKeeps(ring.Live(), bufEntry, heap.mem, leaked, log, log.staging.bytes + data);
        bufEntry := Entry(bufEntry.buffptr, bufEntry.size + |data|);
        log := log.(staging := Held(log.staging.bytes + data));
      }
    }

    /** The commit at the end of `aesd_write`: hand the staging entry to the ring, free what that
        pushed out, start a new staging entry. */
    method Commit()
      requires Valid()
      requires bufEntry.buffptr != 0 && log.staging.Held? && EndsInNewline(log.staging.bytes)
      requires heap.mem[bufEntry.buffptr] == log.staging.bytes
      modifies this, heap, ring, ring.entry
      ensures Valid() && leaked == old(leaked)
      ensures log == Log(old(log).commits + [old(log).staging.bytes], Held([]))
      ensures |old(log).commits| < CAPACITY ==> heap.mem == old(heap.mem) && heap.freed == old(heap.freed)
      ensures |old(log).commits| >= CAPACITY ==>
                && old(Oldest()) != 0
                && heap.mem == old(heap.mem) - {old(Oldest())} && heap.freed == old(heap.freed) + [old(Oldest())]
    {
      ghost var entries, bytes := ring.Live(), log.staging.bytes;
      if |log.commits| < CAPACITY {
        CommitKeeps(entries, bufEntry, heap.mem, leaked, log, bytes);
      } else {
        EvictKeeps(entries, bufEntry, heap.mem, leaked, log, bytes);
      }
      var freeBufferPtr := ring.AddEntry(bufEntry);
      if freeBufferPtr != 0 {
        heap.Kfree(freeBufferPtr);
      }
      bufEntry := NO_ENTRY;
      log := Log(log.commits + [bytes], Held([]));
    }

    /** The entry and offset for a position; a NULL entry when there is none. */
    method Lookup(pos: nat) returns (entry: Entry, entryOffset: nat)
      requires Valid() && Readable(Live(log), pos)
      ensures match Locate(Sizes(Live(log)), pos)
              case None => entry.buffptr == 0
              case Some(p) =>
                && p.entry < |Live(log)| && entryOffset == p.offset
                && entry.buffptr != 0 && entry.buffptr in heap.mem
                && heap.mem[entry.buffptr] == Live(log)[p.entry] && entry.size == |Live(log)[p.entry]|
    {
      EntrySizesOf(ring.Live(), heap.mem, Live(log));
      SumOfSizes(Live(log));
      LocateMeaning(Sizes(Live(log)), pos);
      FindRightAtIff(Sizes(Live(log)), pos);
      var hit := ring.FindEntryOffsetForFpos(pos);
      if hit.None? {
        return NO_ENTRY, 0;
      }
      return ring.entry[hit.value.slot], hit.value.offset;
    }

    /** `aesd_read`. */
    method Read(f: OpenFile, count: nat, how: CopyOutcome) returns (r: ReadResult)
      requires Valid() && (how != NotLocked ==> Readable(Live(log), f.fPos))
      modifies f
      ensures r == ReadReturn(Live(log), old(f.fPos), count, how)
      ensures View(f) == Step(old(View(f)), ReadCall(f.handle, count, how))
      ensures how == NotLocked ==> r == Failed(512)
      ensures how == Faulted ==>
                r == if count > 0 && old(f.fPos) < |Flat(Live(log))| then Failed(14) else Data([])
      ensures how == Copied ==> r.Data? && IsRead(Live(log), old(f.fPos), count, r.bytes)
      ensures f.fPos == old(f.fPos) + if r.Data? then |r.bytes| else 0
    {
      r := Transfer(f.fPos, count, how);
      Advance(f, count, how, r);
    }

    /** The end of `aesd_read`: move the position by what has been delivered. */
    method Advance(f: OpenFile, ghost count: nat, ghost how: CopyOutcome, r: ReadResult)
      requires r == ReadReturn(Live(log), f.fPos, count, how)
      modifies f
      ensures f.fPos == old(f.fPos) + if r.Data? then |r.bytes| else 0
      ensures View(f) == Step(old(View(f)), ReadCall(f.handle, count, how))
    {
      ReadStep(log, f.handle, f.fPos, count, how);
      if r.Data? {
        f.fPos := f.fPos + |r.bytes|;
      }
    }

    /** The part of `aesd_read` before it moves the position. */
    method Transfer(pos: nat, count: nat, how: CopyOutcome) returns (r: ReadResult)
      requires Valid() && (how != NotLocked ==> Readable(Live(log), pos))
      ensures r == ReadReturn(Live(log), pos, count, how)
      ensures how == NotLocked ==> r == Failed(512)
      ensures how == Faulted ==> r == if count > 0 && pos < |Flat(Live(log))| then Failed(14) else Data([])
      ensures how == Copied ==> r.Data? && IsRead(Live(log), pos, count, r.bytes)
    {
      ReadReturns(Live(log), pos, count, how);
      if how == NotLocked {
        return Failed(ERESTARTSYS);
      }
      var bytes := CopyOut(pos, count);
      if how == Faulted && bytes != [] {
        return Failed(EFAULT);
      }
      return Data(bytes);
    }

    /** Find the entry for a position and cut out the bytes to copy: to the end of the entry at most. */
    method CopyOut(pos: nat, count: nat) returns (bytes: seq<byte>)
      requires Valid() && Readable(Live(log), pos)
      ensures bytes == ReadAt(Live(log), pos, count)
    {
      LocateMeaning(Sizes(Live(log)), pos);
      var entry, entryOffset := Lookup(pos);
      if entry.buffptr == 0 {
        return [];
      }
      var bytesRead := entry.size - entryOffset;
      if bytesRead > count {
        bytesRead := count;
      }
      return heap.mem[entry.buffptr][entryOffset..entryOffset + bytesRead];
    }

    /** The seek-to-command request of `aesd_ioctl`, its arguments being 32-bit unsigned. */
    method Seek(f: OpenFile, writeCmd: nat, writeCmdOffset: nat, how: CopyOutcome) returns (retval: int)
      requires Valid()
      requires writeCmd < TWO32 && writeCmdOffset < TWO32
      requires |Flat(Live(log))| < TWO63
      modifies f
      ensures how == Faulted ==> retval == -14
      ensures how == NotLocked ==> retval == -512
      ensures how == Copied ==>
                retval == if writeCmd < |Live(log)| && writeCmdOffset <= |Live(log)[writeCmd]| then 0 else -22
      ensures retval == 0 ==> f.fPos == |Flat(Live(log)[..writeCmd])| + writeCmdOffset
      ensures retval != 0 ==> f.fPos == old(f.fPos)
      ensures how == Copied ==> View(f) == Step(old(View(f)), SeekCall(f.handle, writeCmd, writeCmdOffset))
    {
      SeekAccepts(Live(log), writeCmd, writeCmdOffset);
      SeekStep(log, f.handle, f.fPos, writeCmd, writeCmdOffset);
      if how == Faulted {
        return -EFAULT;
      }
      if how == NotLocked {
        return -ERESTARTSYS;
      }
      var pos := Target(writeCmd, writeCmdOffset);
      if pos.None? {
        return -EINVAL;
      }
      f.fPos := pos.value;
      return 0;
    }

    /** The position that byte `writeCmdOffset` of command `writeCmd` has, if the ring has it. */
    method Target(writeCmd: nat, writeCmdOffset: nat) returns (pos: Option<nat>)
      requires Valid()
      requires writeCmd < TWO32 && writeCmdOffset < TWO32
      requires |Flat(Live(log))| < TWO63
      ensures pos == SeekTo(Live(log), writeCmd, writeCmdOffset)
    {
      ghost var live := Live(log);
      SeekAccepts(live, writeCmd, writeCmdOffset);
      var availableEntries := AvailableEntries();
      assert ToUint(availableEntries) == |live|;
      // compared as unsigned int
      if writeCmd >= ToUint(availableEntries) {
        return None;
      }
      var i, entryOffset, steps := WalkTo(writeCmd);
      if ring.entry[i].size < writeCmdOffset {
        return None;
      }
      SeekInRange(Live(log), writeCmd, writeCmdOffset);
      return Some(ToSizeT(entryOffset + writeCmdOffset));
    }

    /** The number of entries in the ring. */
    method AvailableEntries() returns (n: int)
      requires Valid()
      ensures n == ToUint(n) == |Live(log)| <= CAPACITY
    {
      ScanOrder(ring.entry[..], ring.inOffs, ring.outOffs, ring.full, ring.added);
      n := ring.inOffs - ring.outOffs;
      if ring.full {
        n := CAPACITY;
      }
    }

    /** The walk of `aesd_ioctl` around the ring to command `writeCmd`: it takes exactly that many
        steps and adds up the sizes of the commands before it. */
    method WalkTo(writeCmd: nat) returns (i: nat, entryOffset: nat, ghost steps: nat)
      requires Valid()
      requires writeCmd < |Live(log)| && |Flat(Live(log))| < TWO63
      ensures i < ring.entry.Length && ring.entry[i].size == |Live(log)[writeCmd]|
      ensures entryOffset == Sum(Sizes(Live(log))[..writeCmd])
      ensures steps == writeCmd <= 9
    {
      SlotSizes(ring.entry[..], ring.inOffs, ring.outOffs, ring.full, ring.added, heap.mem, Live(log));
      SumOfSizes(Live(log));
      i, entryOffset, steps := WalkSlots(ring.entry, ring.outOffs, writeCmd, Sizes(Live(log)));
    }

    /** The loop in `aesd_llseek` that computes the size handed to the kernel. */
    method SizeForLlseek() returns (size: nat)
      ensures size == LlseekSize(bufEntry.size)
    {
      size := 0;
      ghost var rounds := 0;
      while size < CAPACITY
        invariant size == rounds * (bufEntry.size + 1)
        invariant size <= LlseekSize(bufEntry.size)
        decreases CAPACITY - size
      {
        ghost var prev := size;
        size := size + bufEntry.size;
        size := size + 1;
        rounds := rounds + 1;
        assert size == rounds * (bufEntry.size + 1);
        RoundsBound(bufEntry.size, rounds);
      }
      LlseekSizeIsLeastMultiple(bufEntry.size, rounds);
    }

    /** The freeing loop of `aesd_cleanup_module`: every command's buffer is freed, in slot order,
        and only the staging buffer (and anything leaked) stays allocated. */
    method Cleanup()
      requires Valid()
      modifies heap, ring.entry
      ensures heap.Valid()
      ensures heap.mem.Keys == NonNull(bufEntry.buffptr) + leaked
      ensures heap.freed == old(heap.freed) + NonNullPointers(old(ring.entry[..]))
      ensures forall i :: 0 <= i < CAPACITY ==> ring.entry[i].buffptr == 0
    {
      SlotPointers(ring.entry[..], ring.inOffs, ring.outOffs, ring.full, ring.added, heap.mem, Live(log));
      SlotPointerSet(ring.entry[..], ring.inOffs, ring.outOffs, ring.full, ring.added);
      FreeSlots(heap, ring.entry);
    }
  }

  /** The walk itself, from slot `outOffs` on, `sizes` being what the slots hold in logical order. */
  method WalkSlots(entry: array<Entry>, outOffs: nat, writeCmd: nat, ghost sizes: seq<nat>)
      returns (i: nat, entryOffset: nat, ghost steps: nat)
    requires entry.Length == CAPACITY && outOffs < CAPACITY
    requires writeCmd < |sizes| <= CAPACITY && Sum(sizes) < TWO63
    requires forall k :: 0 <= k < |sizes| ==> entry[Slot(outOffs, k)].size == sizes[k]
    ensures i < entry.Length && entry[i].size == sizes[writeCmd]
    ensures entryOffset == Sum(sizes[..writeCmd])
    ensures steps == writeCmd <= 9
  {
    var commandIdx := Slot(outOffs, writeCmd);
    i, entryOffset, steps := outOffs, 0, 0;
    assert sizes[..0] == [];
    SlotWalk(outOffs, 0);
    while i != commandIdx
      invariant steps <= writeCmd && i == Slot(outOffs, steps)
      invariant entryOffset == Sum(sizes[..steps])
      decreases writeCmd - steps
    {
      WalkStep(sizes, outOffs, steps);
      entryOffset := ToSizeT(entryOffset + entry[i].size);
      i := Next(i);
      steps := steps + 1;
    }
    assert Age(outOffs, i) == steps;
  }

  /** Free what one slot points to and clear its pointer. */
  method FreeSlot(heap: Heap, entry: array<Entry>, index: nat)
    requires heap.Valid() && index < entry.Length
    requires entry[index].buffptr != 0 ==> entry[index].buffptr in heap.mem
    modifies heap, entry
    ensures heap.Valid()
    ensures heap.mem.Keys == old(heap.mem.Keys) - {old(entry[index].buffptr)}
    ensures heap.freed == old(heap.freed) + Released(true, old(entry[index].buffptr))
    ensures entry[index].buffptr == 0
    ensures forall j :: 0 <= j < entry.Length && j != index ==> entry[j] == old(entry[j])
  {
    var e := entry[index];
    if e.buffptr != 0 {
      heap.Kfree(e.buffptr);
      entry[index] := e.(buffptr := 0);
    }
  }

  /** Free what the slots point to and clear the pointers. */
  method FreeSlots(heap: Heap, entry: array<Entry>)
    requires heap.Valid() && entry.Length == CAPACITY
    requires forall j :: 0 <= j < CAPACITY && entry[j].buffptr != 0 ==> entry[j].buffptr in heap.mem
    requires forall i, j :: 0 <= i < j < CAPACITY && entry[j].buffptr != 0 ==> entry[i].buffptr != entry[j].buffptr
    modifies heap, entry
    ensures heap.Valid()
    ensures heap.mem.Keys == old(heap.mem.Keys) - Pointers(old(entry[..]))
    ensures heap.freed == old(heap.freed) + NonNullPointers(old(entry[..]))
    ensures forall j :: 0 <= j < CAPACITY ==> entry[j].buffptr == 0
  {
    ghost var slots := entry[..];
    for index := 0 to CAPACITY
      invariant heap.Valid()
      invariant forall j :: 0 <= j < index ==> entry[j].buffptr == 0
      invariant forall j :: index <= j < CAPACITY ==> entry[j] == slots[j]
      invariant forall j :: index <= j < CAPACITY && slots[j].buffptr != 0 ==> slots[j].buffptr in heap.mem
      invariant heap.mem.Keys == old(heap.mem.Keys) - Pointers(slots[..index])
      invariant heap.freed == old(heap.freed) + NonNullPointers(slots[..index])
    {
      PointersSnoc(slots, index);
      FreeSlot(heap, entry, index);
    }
    assert slots[..CAPACITY] == slots;
  }

  lemma PointersSnoc(slots: seq<Entry>, i: nat)
    requires i < |slots|
    ensures Pointers(slots[..i + 1]) == Pointers(slots[..i]) + {slots[i].buffptr}
    ensures NonNullPointers(slots[..i + 1]) == NonNullPointers(slots[..i]) + Released(true, slots[i].buffptr)
  {
    assert slots[..i + 1] == slots[..i] + [slots[i]];
  }

  function NonNullPointers(slots: seq<Entry>): seq<nat> {
    if slots == [] then []
    else NonNullPointers(slots[..|slots| - 1]) + Released(true, slots[|slots| - 1].buffptr)
  }

  lemma RoundsBound(staged: nat, rounds: nat)
    requires rounds > 0 && (rounds - 1) * (staged + 1) < 10
    ensures rounds * (staged + 1) <= LlseekSize(staged)
  {
    var d := staged + 1;
    if rounds > 9 / d + 1 {
      ProductMonotone(9 / d + 1, rounds - 1, d);
      LlseekSizeIsLeastMultiple(staged, 0);
      assert false;
    }
    ProductMonotone(rounds, 9 / d + 1, d);
  }

  /** Every slot holds a live entry or nothing. */
  lemma SlotsAreLive(slots: seq<Entry>, inOffs: nat, outOffs: nat, full: bool, added: seq<Entry>)
    requires Shape(slots, inOffs, outOffs, full, added)
    ensures var live := Last(added, CAPACITY);
            forall j :: 0 <= j < CAPACITY ==>
              slots[j] == if Age(outOffs, j) < |live| then live[Age(outOffs, j)] else NO_ENTRY
    ensures forall i, j :: 0 <= i < j < CAPACITY ==> Age(outOffs, i) != Age(outOffs, j)
  {
    ScanOrder(slots, inOffs, outOffs, full, added);
    forall j | 0 <= j < CAPACITY
      ensures Slot(outOffs, Age(outOffs, j)) == j
    {
    }
  }

  /** The pointers in the ten slots are those of the live entries, each once, and NULLs. */
  lemma SlotPointers(slots: seq<Entry>, inOffs: nat, outOffs: nat, full: bool, added: seq<Entry>,
                     mem: Memory, cmds: seq<seq<byte>>)
    requires Shape(slots, inOffs, outOffs, full, added)
    requires Backed(Last(added, CAPACITY), mem, cmds) && 0 !in mem
    ensures forall j :: 0 <= j < CAPACITY && slots[j].buffptr != 0 ==> slots[j].buffptr in mem
    ensures forall i, j :: 0 <= i < j < CAPACITY && slots[j].buffptr != 0 ==> slots[i].buffptr != slots[j].buffptr
  {
    SlotsAreLive(slots, inOffs, outOffs, full, added);
  }

  lemma LiveInSlots(slots: seq<Entry>, inOffs: nat, outOffs: nat, full: bool, added: seq<Entry>, e: Entry)
    requires Shape(slots, inOffs, outOffs, full, added) && e in Last(added, CAPACITY)
    ensures e in slots
  {
    ScanOrder(slots, inOffs, outOffs, full, added);
    var i :| 0 <= i < |Last(added, CAPACITY)| && Last(added, CAPACITY)[i] == e;
    assert slots[Slot(outOffs, i)] == e;
  }

  lemma SlotIsLive(slots: seq<Entry>, inOffs: nat, outOffs: nat, full: bool, added: seq<Entry>, e: Entry)
    requires Shape(slots, inOffs, outOffs, full, added) && e in slots
    ensures e in Last(added, CAPACITY) || e == NO_ENTRY
  {
    SlotsAreLive(slots, inOffs, outOffs, full, added);
    var j :| 0 <= j < |slots| && slots[j] == e;
  }

  lemma SlotPointerSet(slots: seq<Entry>, inOffs: nat, outOffs: nat, full: bool, added: seq<Entry>)
    requires Shape(slots, inOffs, outOffs, full, added)
    requires forall e :: e in Last(added, CAPACITY) ==> e.buffptr != 0
    ensures Pointers(slots) - {0} == Pointers(Last(added, CAPACITY))
  {
    forall e | e in Last(added, CAPACITY)
      ensures e in slots
    {
      LiveInSlots(slots, inOffs, outOffs, full, added, e);
    }
    forall e | e in slots
      ensures e in Last(added, CAPACITY) || e == NO_ENTRY
    {
      SlotIsLive(slots, inOffs, outOffs, full, added, e);
    }
  }
}
