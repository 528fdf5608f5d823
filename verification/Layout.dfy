/** How a flat file position maps to an entry and an offset inside it: the intended meaning
    (`Locate`), and the scan the driver performs with C integer arithmetic (`Scan`). */
module Layout {
  import opened Bytes

  const TWO31: int := 0x8000_0000
  const TWO32: int := 0x1_0000_0000
  const TWO63: int := 0x8000_0000_0000_0000
  const TWO64: int := 0x1_0000_0000_0000_0000

  /** Conversion to a 32-bit `int`, wrapping, as gcc defines it (section 6.3.1.3 of ISO C11). */
  function ToInt(x: int): (r: int)
    ensures -TWO31 <= r < TWO31
    ensures exists m: int :: x == r + m * TWO32
  {
    assert x == (x + TWO31) % TWO32 - TWO31 + ((x + TWO31) / TWO32) * TWO32;
    (x + TWO31) % TWO32 - TWO31
  }

  /** Conversion to the 64-bit unsigned `size_t`. */
  function ToSizeT(x: int): (r: nat)
    ensures r < TWO64
    ensures 0 <= x < TWO64 ==> r == x
  {
    x % TWO64
  }

  /** Conversion to a 32-bit unsigned integer. */
  function ToUint(x: int): (r: nat)
    ensures r < TWO32
    ensures 0 <= x < TWO32 ==> r == x
  {
    x % TWO32
  }

  datatype Place = Place(entry: nat, offset: nat)

  function Sum(sizes: seq<nat>): nat {
    if sizes == [] then 0 else sizes[0] + Sum(sizes[1..])
  }

  function Sizes(chunks: seq<seq<byte>>): (s: seq<nat>)
    ensures |s| == |chunks|
  {
    seq(|chunks|, i requires 0 <= i < |chunks| => |chunks[i]|)
  }

  /** One entry further on. */
  function Shifted(p: Option<Place>): Option<Place> {
    if p.None? then None else Some(Place(p.value.entry + 1, p.value.offset))
  }

  /** The entry that position `off` falls into when the entries are laid end to end. */
  function Locate(sizes: seq<nat>, off: nat): Option<Place> {
    if sizes == [] then None
    else if off < sizes[0] then Some(Place(0, off))
    else Shifted(Locate(sizes[1..], off - sizes[0]))
  }

  /** `composed_length += size`: added as `size_t`, stored back into an `int`. */
  function Compose(acc: int, size: nat): (r: int)
    ensures -TWO31 <= r < TWO31
  {
    ToInt(ToSizeT(ToSizeT(acc) + size))
  }

  /** `char_offset - (composed_length - size)`, all in `size_t`. */
  function EntryOffset(off: nat, composed: int, size: nat): nat {
    ToSizeT(off - ToSizeT(ToSizeT(composed) - size))
  }

  /** The driver's scan: `acc` is the `int` accumulator, compared as `size_t`. */
  function Scan(sizes: seq<nat>, off: nat, acc: int): Option<Place> {
    if sizes == [] then None
    else
      var composed := Compose(acc, sizes[0]);
      if ToSizeT(composed) > off then Some(Place(0, EntryOffset(off, composed, sizes[0])))
      else
        Shifted(Scan(sizes[1..], off, composed))
  }

  // ----- the layout itself -----

  lemma {:induction false} SumConcat(a: seq<nat>, b: seq<nat>)
    ensures Sum(a + b) == Sum(a) + Sum(b)
  {
    if a == [] {
      assert a + b == b;
    } else {
      assert (a + b)[1..] == a[1..] + b;
      SumConcat(a[1..], b);
    }
  }

  lemma SumSplit(sizes: seq<nat>, k: nat)
    requires k <= |sizes|
    ensures Sum(sizes) == Sum(sizes[..k]) + Sum(sizes[k..])
    ensures Sum(sizes[..k]) <= Sum(sizes)
  {
    assert sizes == sizes[..k] + sizes[k..];
    SumConcat(sizes[..k], sizes[k..]);
  }

  lemma SumTake(sizes: seq<nat>, k: nat)
    requires k < |sizes|
    ensures Sum(sizes[..k + 1]) == Sum(sizes[..k]) + sizes[k]
  {
    assert sizes[..k + 1] == sizes[..k] + [sizes[k]];
    SumConcat(sizes[..k], [sizes[k]]);
    assert Sum([sizes[k]]) == sizes[k];
  }

  lemma SumMonotone(sizes: seq<nat>, j: nat, k: nat)
    requires j <= k <= |sizes|
    ensures Sum(sizes[..j]) <= Sum(sizes[..k])
  {
    SumSplit(sizes[..k], j);
    assert sizes[..k][..j] == sizes[..j];
  }

  /** `Locate` decomposes `off`, and fails exactly past the end. */
  lemma {:induction false} LocateMeaning(sizes: seq<nat>, off: nat)
    ensures Locate(sizes, off).None? <==> off >= Sum(sizes)
    ensures Locate(sizes, off).Some? ==>
              var p := Locate(sizes, off).value;
              p.entry < |sizes| && p.offset < sizes[p.entry] && Sum(sizes[..p.entry]) + p.offset == off
  {
    if sizes != [] && off >= sizes[0] {
      LocateMeaning(sizes[1..], off - sizes[0]);
      var p := Locate(sizes[1..], off - sizes[0]);
      if p.Some? {
        var k := p.value.entry;
        assert sizes[..k + 1][1..] == sizes[1..][..k];
      }
    }
  }

  /** Seeking to byte `o` of entry `k` and locating that position gives back `k` and `o`. */
  lemma {:induction false} LocateInverse(sizes: seq<nat>, k: nat, o: nat)
    requires k < |sizes| && o < sizes[k]
    ensures Locate(sizes, Sum(sizes[..k]) + o) == Some(Place(k, o))
  {
    if k > 0 {
      LocateInverse(sizes[1..], k - 1, o);
      assert sizes[..k][1..] == sizes[1..][..k - 1];
    } else {
      assert sizes[..0] == [];
    }
  }

  // ----- the scan against the layout -----

  /** The number of bytes the scan must add up before it can answer for `off`. */
  function Reach(sizes: seq<nat>, off: nat): nat {
    match Locate(sizes, off)
    case None => Sum(sizes)
    case Some(p) => LocateMeaning(sizes, off); Sum(sizes[..p.entry + 1])
  }

  lemma {:induction false} ReachStep(sizes: seq<nat>, off: nat)
    requires sizes != []
    ensures off < sizes[0] ==> Reach(sizes, off) == sizes[0]
    ensures off >= sizes[0] ==> Reach(sizes, off) == sizes[0] + Reach(sizes[1..], off - sizes[0])
  {
    LocateMeaning(sizes, off);
    if off < sizes[0] {
      assert sizes[..1] == [sizes[0]];
      assert Sum([sizes[0]]) == sizes[0];
    } else {
      LocateMeaning(sizes[1..], off - sizes[0]);
      match Locate(sizes[1..], off - sizes[0])
      case None =>
      case Some(p) =>
        assert sizes[..p.entry + 2][1..] == sizes[1..][..p.entry + 1];
    }
  }

  /** As long as the accumulator cannot overflow before the answer, the scan is `Locate`. */
  lemma {:induction false} ScanIsLocate(sizes: seq<nat>, off: nat, acc: nat)
    requires acc <= off
    requires acc + Reach(sizes, off - acc) < TWO31
    ensures Scan(sizes, off, acc) == Locate(sizes, off - acc)
  {
    if sizes != [] {
      ReachStep(sizes, off - acc);
      var composed := acc + sizes[0];
      assert Compose(acc, sizes[0]) == composed;
      if composed <= off {
        ScanIsLocate(sizes[1..], off, composed);
      }
    }
  }

  /** An entry offset computed from an overflowed accumulator is off by a multiple of 2^32. */
  lemma WrappedOffset(before: nat, size: nat, off: nat)
    requires TWO31 <= before + size < TWO63
    requires before <= off < before + size
    ensures EntryOffset(off, ToInt(before + size), size) != off - before
  {
    var w := ToInt(before + size);
    var m := (before + size - w) / TWO32;
    assert before + size == w + m * TWO32;
    assert 1 <= m <= TWO31;
    assert EntryOffset(off, w, size) == ToSizeT(off - (w - size)) by {
      SizeTDrop(off, ToSizeT(w) - size);
      SizeTDropInner(off, w, size);
    }
    assert off - (w - size) == off - before + m * TWO32;
    assert 0 <= off - before < TWO63;
    assert 0 < m * TWO32 <= TWO63;
  }

  lemma SizeTDrop(a: int, b: int)
    ensures ToSizeT(a - ToSizeT(b)) == ToSizeT(a - b)
  {
    var q := b / TWO64;
    assert a - ToSizeT(b) == a - b + q * TWO64;
  }

  lemma SizeTDropInner(a: int, b: int, c: int)
    ensures ToSizeT(a - (ToSizeT(b) - c)) == ToSizeT(a - (b - c))
  {
    SizeTDrop(a + c, b);
    assert a - (ToSizeT(b) - c) == a + c - ToSizeT(b);
    assert a - (b - c) == a + c - b;
  }

  /** The accumulator always is the true running total, wrapped to `int`. */
  lemma ComposedIsWrapped(before: nat, size: nat)
    requires before + size < TWO64
    ensures Compose(ToInt(before), size) == ToInt(before + size)
  {
    var m := (before - ToInt(before)) / TWO32;
    assert before == ToInt(before) + m * TWO32;
    var x := ToInt(before) + size;
    var y := ToSizeT(ToSizeT(ToInt(before)) + size);
    var k := (y - x) / TWO64;
    assert y == x + k * TWO64;
    assert before + size == x + m * TWO32;
    assert y - (before + size) == (k * TWO32 - m) * TWO32;
  }

  /** One step of the scan, in terms of the true running total `before`. */
  lemma ScanStep(sizes: seq<nat>, off: nat, before: nat)
    requires sizes != [] && before + sizes[0] < TWO64
    ensures var after := ToInt(before + sizes[0]);
            Scan(sizes, off, ToInt(before)) ==
            if ToSizeT(after) > off then Some(Place(0, EntryOffset(off, after, sizes[0])))
            else Shifted(Scan(sizes[1..], off, after))
  {
    ComposedIsWrapped(before, sizes[0]);
  }

  /** It does in the entry holding `off`, if the total overflows there. */
  lemma MissesHere(sizes: seq<nat>, off: nat, before: nat)
    requires sizes != [] && before <= off < before + sizes[0]
    requires TWO31 <= before + sizes[0] < TWO63
    ensures Scan(sizes, off, ToInt(before)) != Locate(sizes, off - before)
  {
    ScanStep(sizes, off, before);
    WrappedOffset(before, sizes[0], off);
    assert Locate(sizes, off - before) == Some(Place(0, off - before));
  }

  /** Beyond the first entry it does if the rest of the scan does. */
  lemma MissesLater(sizes: seq<nat>, off: nat, before: nat)
    requires sizes != [] && before + sizes[0] <= off && before + sizes[0] < TWO63
    requires var after := before + sizes[0];
             Scan(sizes[1..], off, ToInt(after)) != Locate(sizes[1..], off - after)
    ensures Scan(sizes, off, ToInt(before)) != Locate(sizes, off - before)
  {
    ScanStep(sizes, off, before);
    var after := before + sizes[0];
    assert Locate(sizes, off - before) == Shifted(Locate(sizes[1..], off - after));
  }

  /** When the running total overflows before the end of the entry holding `off`, the scan
      answers wrongly. */
  lemma {:induction false} ScanMisses(sizes: seq<nat>, off: nat, before: nat)
    requires before <= off && before + Sum(sizes) < TWO63
    requires Locate(sizes, off - before).Some?
    requires before + Reach(sizes, off - before) >= TWO31
    ensures Scan(sizes, off, ToInt(before)) != Locate(sizes, off - before)
  {
    ReachStep(sizes, off - before);
    var after := before + sizes[0];
    if off < after {
      MissesHere(sizes, off, before);
    } else {
      ScanMisses(sizes[1..], off, after);
      MissesLater(sizes, off, before);
    }
  }

  /** A stored position is found correctly exactly when its entry ends below 2^31. */
  lemma FindRightIff(sizes: seq<nat>, off: nat)
    requires Sum(sizes) < TWO63 && off < Sum(sizes)
    ensures Scan(sizes, off, 0) == Locate(sizes, off) <==> Reach(sizes, off) < 0x8000_0000
  {
    LocateMeaning(sizes, off);
    assert ToInt(0) == 0;
    if Reach(sizes, off) < TWO31 {
      ScanIsLocate(sizes, off, 0);
    } else {
      ScanMisses(sizes, off, 0);
    }
  }

  /** The running total after `j` more entries is negative once wrapped to `int`. */
  predicate NegativeAfter(sizes: seq<nat>, before: nat, j: nat)
    requires j <= |sizes|
  {
    ToInt(before + Sum(sizes[..j])) < 0
  }

  predicate SomePrefixNegative(sizes: seq<nat>, before: nat) {
    exists j :: 0 < j <= |sizes| && NegativeAfter(sizes, before, j)
  }

  lemma NegativeAfterStep(sizes: seq<nat>, before: nat, j: nat)
    requires 0 < j <= |sizes|
    ensures NegativeAfter(sizes, before, j) == NegativeAfter(sizes[1..], before + sizes[0], j - 1)
  {
    assert sizes[..j][1..] == sizes[1..][..j - 1];
  }

  lemma {:induction false} SomePrefixNegativeStep(sizes: seq<nat>, before: nat)
    requires sizes != []
    ensures SomePrefixNegative(sizes, before) <==>
            ToInt(before + sizes[0]) < 0 || SomePrefixNegative(sizes[1..], before + sizes[0])
  {
    NegativeAfterStep(sizes, before, 1);
    assert sizes[1..][..0] == [];
    if SomePrefixNegative(sizes[1..], before + sizes[0]) {
      var j :| 0 < j <= |sizes[1..]| && NegativeAfter(sizes[1..], before + sizes[0], j);
      NegativeAfterStep(sizes, before, j + 1);
    }
    if SomePrefixNegative(sizes, before) {
      var j :| 0 < j <= |sizes| && NegativeAfter(sizes, before, j);
      NegativeAfterStep(sizes, before, j);
    }
  }

  /** Compared as `size_t`, a wrapped running total below `off` exceeds it just when it is negative. */
  lemma WrappedAgainst(total: nat, off: nat)
    requires total <= off < TWO63
    ensures ToSizeT(ToInt(total)) > off <==> ToInt(total) < 0
  {
    var w := ToInt(total);
    assert w <= total;
    if w < 0 {
      assert ToSizeT(w) == w + TWO64;
    }
  }

  /** Past the end the scan reports NULL exactly when the accumulator never goes negative. */
  lemma {:induction false} ScanPastEndIff(sizes: seq<nat>, off: nat, before: nat)
    requires before + Sum(sizes) <= off < TWO63
    ensures Scan(sizes, off, ToInt(before)) == None <==> !SomePrefixNegative(sizes, before)
  {
    if sizes != [] {
      SomePrefixNegativeStep(sizes, before);
      ScanStep(sizes, off, before);
      var after := before + sizes[0];
      var w := ToInt(after);
      WrappedAgainst(after, off);
      if w >= 0 {
        ScanPastEndIff(sizes[1..], off, after);
      }
    }
  }

  /** The scan agrees with the layout at every file position exactly when the whole content is
      shorter than 2^31 bytes. */
  lemma FindRightEverywhereIff(sizes: seq<nat>)
    requires Sum(sizes) < TWO63
    ensures (forall off: nat | off < TWO63 :: Scan(sizes, off, 0) == Locate(sizes, off)) <==> Sum(sizes) < 0x8000_0000
  {
    if Sum(sizes) < TWO31 {
      forall off: nat | off < TWO63
        ensures Scan(sizes, off, 0) == Locate(sizes, off)
      {
        ReachAtMostSum(sizes, off);
        ScanIsLocate(sizes, off, 0);
      }
    } else {
      var off := Sum(sizes) - 1;
      LocateMeaning(sizes, off);
      var p := Locate(sizes, off).value;
      SumTake(sizes, p.entry);
      FindRightIff(sizes, off);
    }
  }

  /** What the scan needs to answer for one position: a stored one's entry ends below 2^31; past the
      end, no running total is negative as an `int`. */
  ghost predicate Findable(sizes: seq<nat>, off: nat) {
    if off < Sum(sizes) then Reach(sizes, off) < TWO31 else !SomePrefixNegative(sizes, 0)
  }

  /** That is exactly when it answers correctly. */
  lemma FindRightAtIff(sizes: seq<nat>, off: nat)
    requires Sum(sizes) < TWO63 && off < TWO63
    ensures Scan(sizes, off, 0) == Locate(sizes, off) <==> Findable(sizes, off)
  {
    LocateMeaning(sizes, off);
    assert ToInt(0) == 0;
    if off < Sum(sizes) {
      FindRightIff(sizes, off);
    } else {
      ScanPastEndIff(sizes, off, 0);
    }
  }

  /** It does not always: with one entry of 2^31 bytes, position 0 decodes wrongly and the position
      past the end, which is in no entry, is found in one. */
  lemma ScanOverflows()
    ensures Scan([TWO31], 0, 0) != Locate([TWO31], 0)
    ensures Locate([TWO31], TWO31) == None && Scan([TWO31], TWO31, 0) != None
  {
    var sizes: seq<nat> := [TWO31];
    var s := ToInt(TWO31);
    assert s == -TWO31;
    ScanStep(sizes, 0, 0);
    ScanStep(sizes, TWO31, 0);
    assert sizes[1..] == [];
    WrappedOffset(0, TWO31, 0);
  }

  lemma ReachAtMostSum(sizes: seq<nat>, off: nat)
    ensures Reach(sizes, off) <= Sum(sizes)
  {
    LocateMeaning(sizes, off);
    if Locate(sizes, off).Some? {
      SumSplit(sizes, Locate(sizes, off).value.entry + 1);
    }
  }

  // ----- unused slots -----

  /** Zero-size slots after the live entries never change the scan's answer. */
  lemma {:induction false} ScanIgnoresEmptyTail(sizes: seq<nat>, zeros: seq<nat>, off: nat, acc: int)
    requires -TWO31 <= acc < TWO31 && ToSizeT(acc) <= off
    requires forall i :: 0 <= i < |zeros| ==> zeros[i] == 0
    ensures Scan(sizes + zeros, off, acc) == Scan(sizes, off, acc)
  {
    if sizes != [] {
      assert (sizes + zeros)[1..] == sizes[1..] + zeros;
      var composed := Compose(acc, sizes[0]);
      if ToSizeT(composed) <= off {
        ScanIgnoresEmptyTail(sizes[1..], zeros, off, composed);
      }
    } else if zeros != [] {
      assert sizes + zeros == zeros;
      SameInt(acc);
      ScanIgnoresEmptyTail([], zeros[1..], off, acc);
      assert [] + zeros[1..] == zeros[1..];
    }
  }

  lemma SameInt(acc: int)
    requires -TWO31 <= acc < TWO31
    ensures Compose(acc, 0) == acc
  {
  }

  // ----- contents -----

  lemma {:induction false} SumOfSizes(chunks: seq<seq<byte>>)
    ensures Sum(Sizes(chunks)) == |Flat(chunks)|
  {
    if chunks != [] {
      assert Sizes(chunks)[1..] == Sizes(chunks[1..]);
      SumOfSizes(chunks[1..]);
    }
  }

  /** The bytes of entry `k` sit in the concatenation right after the entries before it. */
  lemma {:induction false} EntryInFlat(chunks: seq<seq<byte>>, k: nat)
    requires k < |chunks|
    ensures var start := Sum(Sizes(chunks)[..k]);
            start + |chunks[k]| <= |Flat(chunks)| && Flat(chunks)[start..start + |chunks[k]|] == chunks[k]
  {
    var sizes := Sizes(chunks);
    if k == 0 {
      assert sizes[..0] == [];
    } else {
      EntryInFlat(chunks[1..], k - 1);
      assert sizes[..k][1..] == Sizes(chunks[1..])[..k - 1];
      var start := Sum(Sizes(chunks[1..])[..k - 1]);
      var n := |chunks[k]|;
      assert Flat(chunks)[start + |chunks[0]|..start + |chunks[0]| + n] == Flat(chunks[1..])[start..start + n];
    }
  }
}
