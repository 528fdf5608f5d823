/** The ring of ten entries in front of which the driver stages its writes. */
module CircularBuffer {
  import opened Bytes
  import opened Layout

  /** A buffer pointer and the number of bytes behind it; pointer 0 is NULL. */
  datatype Entry = Entry(buffptr: nat, size: nat)

  const NO_ENTRY: Entry := Entry(0, 0)

  datatype Hit = Hit(slot: nat, offset: nat)

  /** The offset after `i`. */
  function Next(i: nat): (j: nat)
    requires i < CAPACITY
    ensures j == if i + 1 == CAPACITY then 0 else i + 1
  {
    (i + 1) % CAPACITY
  }

  lemma NextOfMod(n: nat)
    ensures n % CAPACITY < CAPACITY && (n + 1) % CAPACITY == Next(n % CAPACITY)
    ensures n < CAPACITY ==> n % CAPACITY == n
  {
    assert n == CAPACITY * (n / CAPACITY) + n % CAPACITY;
  }

  /** The slot of the `i`-th entry in logical order, and the logical index of slot `j`. */
  function Slot(outOffs: nat, i: nat): (j: nat)
    ensures j < CAPACITY
    ensures outOffs < CAPACITY && i < CAPACITY ==>
              j == (if outOffs + i < CAPACITY then outOffs + i else outOffs + i - CAPACITY) && Age(outOffs, j) == i
  {
    (outOffs + i) % CAPACITY
  }

  function Age(outOffs: nat, j: nat): nat {
    if outOffs <= j then j - outOffs else if outOffs <= j + CAPACITY then j + CAPACITY - outOffs else 0
  }

  lemma SlotWalk(outOffs: nat, k: nat)
    requires outOffs < CAPACITY && k < CAPACITY
    ensures Slot(outOffs, 0) == outOffs
    ensures k + 1 < CAPACITY ==> Next(Slot(outOffs, k)) == Slot(outOffs, k + 1)
  {
  }

  function EntrySizes(entries: seq<Entry>): (s: seq<nat>)
    ensures |s| == |entries|
  {
    seq(|entries|, i requires 0 <= i < |entries| => entries[i].size)
  }

  /** The ring invariant over all runs from an empty ring to which `added` was added. Before ten
      entries have been added nothing has wrapped: the entries sit in slots 0 .. inOffs - 1 and the
      rest is zero. From then on `full` is set for good, both offsets agree and the ten slots hold
      the last ten entries. */
  ghost predicate Shape(slots: seq<Entry>, inOffs: nat, outOffs: nat, full: bool, added: seq<Entry>) {
    && |slots| == CAPACITY
    && inOffs == |added| % CAPACITY
    && outOffs == (if full then inOffs else 0)
    && (full <==> |added| >= CAPACITY)
    && (!full ==> forall j :: 0 <= j < CAPACITY ==> slots[j] == if j < inOffs then added[j] else NO_ENTRY)
    && (full ==> forall j :: 0 <= j < CAPACITY ==> slots[j] == added[|added| - CAPACITY + Age(outOffs, j)])
  }

  /** What `aesd_circular_buffer_add_entry` writes keeps the invariant. */
  lemma AddKeepsShape(slots: seq<Entry>, inOffs: nat, outOffs: nat, full: bool, added: seq<Entry>, e: Entry)
    requires Shape(slots, inOffs, outOffs, full, added)
    ensures inOffs < CAPACITY
    ensures Shape(slots[inOffs := e], Next(inOffs), if full then Next(outOffs) else outOffs,
                  full || Next(inOffs) == 0, added + [e])
    ensures full ==> slots[inOffs] == Last(added, CAPACITY)[0]
  {
    NextOfMod(|added|);
  }

  /** The slots in scanning order are the last ten entries, then unused ones of size zero. */
  lemma ScanOrder(slots: seq<Entry>, inOffs: nat, outOffs: nat, full: bool, added: seq<Entry>)
    requires Shape(slots, inOffs, outOffs, full, added)
    ensures outOffs < CAPACITY && |Last(added, CAPACITY)| <= CAPACITY
    ensures |Last(added, CAPACITY)| == if full then CAPACITY else inOffs
    ensures forall i :: 0 <= i < CAPACITY ==>
              slots[Slot(outOffs, i)] == if i < |Last(added, CAPACITY)| then Last(added, CAPACITY)[i] else NO_ENTRY
  {
    NextOfMod(|added|);
    forall i | 0 <= i < CAPACITY
      ensures slots[Slot(outOffs, i)] == if i < |Last(added, CAPACITY)| then Last(added, CAPACITY)[i] else NO_ENTRY
    {
      var j := Slot(outOffs, i);
      assert Age(outOffs, j) == i && (outOffs == 0 ==> j == i);
    }
  }

  /** The sizes in scanning order. */
  ghost function ScanSizes(entries: seq<Entry>): (s: seq<nat>)
    requires |entries| <= CAPACITY
    ensures |s| == CAPACITY
  {
    EntrySizes(entries) + seq(CAPACITY - |entries|, _ => 0)
  }

  class Ring {
    const entry: array<Entry>
    var inOffs: nat
    var outOffs: nat
    var full: bool
    // every entry ever added, oldest first
    ghost var added: seq<Entry>

    ghost predicate Valid()
      reads this, entry
    {
      Shape(entry[..], inOffs, outOffs, full, added)
    }

    /** The stored entries in logical order. */
    ghost function Live(): (s: seq<Entry>)
      reads this
      ensures |s| <= CAPACITY
    {
      Last(added, CAPACITY)
    }

    /** `aesd_circular_buffer_init`: everything zero. */
    constructor ()
      ensures Valid() && fresh(entry)
      ensures added == [] && Live() == [] && !full
    {
      entry := new Entry[CAPACITY](_ => NO_ENTRY);
      inOffs, outOffs, full := 0, 0, false;
      added := [];
    }

    /** Store `e`, pushing the oldest entry out of a full ring. The result is the pointer that was
        pushed out, for the caller to free, or NULL. */
    method AddEntry(e: Entry) returns (oldPtr: nat)
      requires Valid()
      modifies this, entry
      ensures Valid() && added == old(added) + [e]
      ensures |old(Live())| < CAPACITY ==> oldPtr == 0 && Live() == old(Live()) + [e]
      ensures |old(Live())| == CAPACITY ==> oldPtr == old(Live())[0].buffptr && Live() == old(Live())[1..] + [e]
      ensures old(full) ==> full
    {
      AddKeepsShape(entry[..], inOffs, outOffs, full, added, e);
      LastSnoc(added, e, CAPACITY);
      ghost var slots := entry[..];
      oldPtr := 0;
      if full {
        oldPtr := entry[inOffs].buffptr;
      }
      entry[inOffs] := e;
      assert entry[..] == slots[inOffs := e];
      inOffs := Next(inOffs);
      if full {
        outOffs := Next(outOffs);
      }
      if inOffs == 0 {
        full := true;
      }
      added := added + [e];
    }

    /** The entry holding position `charOffset` and the offset inside it, or None. The scan adds up
        sizes in a C `int`; it is right whenever the content is shorter than 2^31 bytes. */
    method FindEntryOffsetForFpos(charOffset: nat) returns (r: Option<Hit>)
      requires Valid()
      ensures r == FoundAt(Scan(EntrySizes(Live()), charOffset, 0), outOffs)
      ensures r.Some? ==> var k := Scan(EntrySizes(Live()), charOffset, 0).value.entry;
                          k < |Live()| && entry[r.value.slot] == Live()[k]
      ensures Sum(EntrySizes(Live())) < TWO31 ==>
                r == FoundAt(Locate(EntrySizes(Live()), charOffset), outOffs)
    {
      ghost var sizes := ScanSizes(Live());
      ScanOrder(entry[..], inOffs, outOffs, full, added);
      ScanIgnoresEmptyTail(EntrySizes(Live()), sizes[|Live()|..], charOffset, 0);
      FoundInRange(EntrySizes(Live()), charOffset);
      var composedLength: int := 0;
      ghost var whole := Scan(sizes, charOffset, 0);
      assert sizes[0..] == sizes;
      for i := 0 to CAPACITY
        invariant -TWO31 <= composedLength < TWO31
        invariant whole == ShiftedBy(Scan(sizes[i..], charOffset, composedLength), i)
      {
        var buffIdx := Slot(outOffs, i);
        assert entry[..][buffIdx].size == sizes[i];
        ScanFrom(sizes, i, charOffset, composedLength);
        composedLength := Compose(composedLength, entry[buffIdx].size);
        if ToSizeT(composedLength) > charOffset {
          return Some(Hit(buffIdx, EntryOffset(charOffset, composedLength, entry[buffIdx].size)));
        }
        ShiftedTwice(Scan(sizes[i + 1..], charOffset, composedLength), i);
      }
      return None;
    }
  }

  /** One turn of the scan. */
  lemma ScanFrom(sizes: seq<nat>, i: nat, off: nat, acc: int)
    requires i < |sizes|
    ensures var c := Compose(acc, sizes[i]);
            Scan(sizes[i..], off, acc) ==
            if ToSizeT(c) > off then Some(Place(0, EntryOffset(off, c, sizes[i])))
            else Shifted(Scan(sizes[i + 1..], off, c))
  {
    assert sizes[i..][0] == sizes[i] && sizes[i..][1..] == sizes[i + 1..];
  }

  /** A place among the live entries as a slot of the ring. */
  function FoundAt(p: Option<Place>, outOffs: nat): Option<Hit> {
    if p.None? then None else Some(Hit(Slot(outOffs, p.value.entry), p.value.offset))
  }

  /** `n` entries further on. */
  ghost function ShiftedBy(p: Option<Place>, n: nat): Option<Place> {
    if p.None? then None else Some(Place(p.value.entry + n, p.value.offset))
  }

  lemma ShiftedTwice(p: Option<Place>, n: nat)
    ensures ShiftedBy(Shifted(p), n) == ShiftedBy(p, n + 1)
  {
  }

  lemma {:induction false} ScanEntryInRange(sizes: seq<nat>, off: nat, acc: int)
    ensures Scan(sizes, off, acc).Some? ==> Scan(sizes, off, acc).value.entry < |sizes|
  {
    if sizes != [] {
      ScanEntryInRange(sizes[1..], off, Compose(acc, sizes[0]));
    }
  }

  lemma FoundInRange(sizes: seq<nat>, off: nat)
    ensures Scan(sizes, off, 0).Some? ==> Scan(sizes, off, 0).value.entry < |sizes|
    ensures Sum(sizes) < TWO31 ==> Scan(sizes, off, 0) == Locate(sizes, off)
  {
    ScanEntryInRange(sizes, off, 0);
    if Sum(sizes) < TWO31 {
      ReachAtMostSum(sizes, off);
      ScanIsLocate(sizes, off, 0);
    }
  }
}
