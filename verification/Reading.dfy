/** One read and one seek over the stored commands, and what they mean for the flat content. */
module Reading {
  import opened Bytes
  import opened Layout

  const EFAULT: int := 14
  const EINVAL: int := 22
  const ENOMEM: int := 12
  const ERESTARTSYS: int := 512

  /** How the copy between user and kernel memory, or the wait for the mutex before it, ends. */
  datatype CopyOutcome = Copied | Faulted | NotLocked

  datatype ReadResult = Data(bytes: seq<byte>) | Failed(errno: int)

  /** The bytes one read returns: from `pos` to the end of the entry holding it, at most `count`. */
  function ReadAt(live: seq<seq<byte>>, pos: nat, count: nat): (b: seq<byte>)
    ensures |b| <= count
  {
    LocateMeaning(Sizes(live), pos);
    match Locate(Sizes(live), pos)
    case None => []
    case Some(p) => live[p.entry][p.offset..p.offset + Min(|live[p.entry]| - p.offset, count)]
  }

  /** What a read call returns, given how it went; an empty copy cannot fault. */
  function ReadReturn(live: seq<seq<byte>>, pos: nat, count: nat, how: CopyOutcome): ReadResult {
    var bytes := ReadAt(live, pos, count);
    match how
    case NotLocked => Failed(ERESTARTSYS)
    case Faulted => if bytes == [] then Data([]) else Failed(EFAULT)
    case Copied => Data(bytes)
  }

  /** The position that seeking to byte `offset` of command `cmd` sets, if it is accepted. */
  function SeekTo(live: seq<seq<byte>>, cmd: nat, offset: nat): Option<nat> {
    if cmd < |live| && offset <= |live[cmd]| then Some(Sum(Sizes(live)[..cmd]) + offset) else None
  }

  /** Cutting a window out of a window. */
  lemma SliceOfSlice(s: seq<byte>, a: nat, n: nat, o: nat, m: nat)
    requires a + n <= |s| && o + m <= n
    ensures s[a..a + n][o..o + m] == s[a + o..a + o + m]
  {
    var x, y := s[a..a + n][o..o + m], s[a + o..a + o + m];
    assert forall i :: 0 <= i < m ==> x[i] == y[i];
  }

  /** The bytes from `pos` to `pos + n` lie inside one entry. */
  predicate InsideOneEntry(sizes: seq<nat>, pos: nat, n: nat) {
    exists k :: 0 <= k < |sizes| && Sum(sizes[..k]) <= pos && pos + n <= Sum(sizes[..k]) + sizes[k]
  }

  /** A window of one entry is a window of the whole. */
  lemma WindowOfEntry(live: seq<seq<byte>>, k: nat, o: nat, n: nat)
    requires k < |live| && o + n <= |live[k]|
    ensures var pos := Sum(Sizes(live)[..k]) + o;
            && pos + n <= |Flat(live)| && Flat(live)[pos..pos + n] == live[k][o..o + n]
            && InsideOneEntry(Sizes(live), pos, n)
  {
    var start := Sum(Sizes(live)[..k]);
    EntryInFlat(live, k);
    SliceOfSlice(Flat(live), start, |live[k]|, o, n);
    assert start + o + n <= start + Sizes(live)[k];
  }

  lemma ReadAtPlace(live: seq<seq<byte>>, pos: nat, count: nat)
    requires Locate(Sizes(live), pos).Some?
    ensures var p := Locate(Sizes(live), pos).value;
            && p.entry < |live| && p.offset < |live[p.entry]| && Sum(Sizes(live)[..p.entry]) + p.offset == pos
            && ReadAt(live, pos, count) ==
               live[p.entry][p.offset..p.offset + Min(|live[p.entry]| - p.offset, count)]
  {
    LocateMeaning(Sizes(live), pos);
  }

  lemma ReadInEntry(live: seq<seq<byte>>, pos: nat, count: nat)
    requires Locate(Sizes(live), pos).Some?
    ensures var b := ReadAt(live, pos, count);
            && pos + |b| <= |Flat(live)| && b == Flat(live)[pos..pos + |b|]
            && InsideOneEntry(Sizes(live), pos, |b|)
            && (b == [] <==> count == 0)
  {
    ReadAtPlace(live, pos, count);
    var p := Locate(Sizes(live), pos).value;
    WindowOfEntry(live, p.entry, p.offset, Min(|live[p.entry]| - p.offset, count));
  }

  /** Position `pos` lies in entry `k`, which ends `left` bytes further on. */
  predicate InEntry(sizes: seq<nat>, k: nat, pos: nat, left: nat)
    requires k < |sizes|
  {
    Sum(sizes[..k]) <= pos && 0 < left && pos + left == Sum(sizes[..k]) + sizes[k]
  }

  /** A read delivers as much as asked for, short of the end of the entry. */
  lemma ReadLength(live: seq<seq<byte>>, pos: nat, count: nat, k: nat, left: nat)
    requires k < |live| && InEntry(Sizes(live), k, pos, left)
    ensures |ReadAt(live, pos, count)| == Min(count, left)
  {
    LocateInverse(Sizes(live), k, pos - Sum(Sizes(live)[..k]));
  }

  /** A read returns a window of the flat content, inside one entry, as long as asked for or else up
      to the end of the entry; it is empty just past the end or for a zero count. */
  lemma ReadIsWindow(live: seq<seq<byte>>, pos: nat, count: nat)
    ensures var b := ReadAt(live, pos, count);
            && (b != [] ==> pos + |b| <= |Flat(live)| && b == Flat(live)[pos..pos + |b|] &&
                            InsideOneEntry(Sizes(live), pos, |b|))
            && (b == [] <==> pos >= |Flat(live)| || count == 0)
    ensures forall k, left :: 0 <= k < |live| && 0 <= left && InEntry(Sizes(live), k, pos, left) ==>
              |ReadAt(live, pos, count)| == Min(count, left)
  {
    LocateMeaning(Sizes(live), pos);
    SumOfSizes(live);
    if Locate(Sizes(live), pos).Some? {
      ReadInEntry(live, pos, count);
    }
    forall k, left | 0 <= k < |live| && 0 <= left && InEntry(Sizes(live), k, pos, left)
      ensures |ReadAt(live, pos, count)| == Min(count, left)
    {
      ReadLength(live, pos, count, k, left);
    }
  }

  lemma FlatOfFirst(live: seq<seq<byte>>, k: nat)
    requires k <= |live|
    ensures Sum(Sizes(live)[..k]) == |Flat(live[..k])|
  {
    assert Sizes(live[..k]) == Sizes(live)[..k];
    SumOfSizes(live[..k]);
  }

  /** Position `pos` lies in command `k`. */
  predicate Inside(live: seq<seq<byte>>, pos: nat, k: nat)
    requires k < |live|
  {
    |Flat(live[..k])| <= pos < |Flat(live[..k + 1])|
  }

  /** `b` is the content from `pos` on, to the end of the command there or as much as asked for. */
  ghost predicate IsRead(live: seq<seq<byte>>, pos: nat, count: nat, b: seq<byte>) {
    var content := Flat(live);
    && (pos >= |content| ==> b == [])
    && (pos < |content| ==> pos + |b| <= |content| && b == content[pos..pos + |b|])
    && (forall k :: 0 <= k < |live| && Inside(live, pos, k) ==> |b| == Min(count, |Flat(live[..k + 1])| - pos))
  }

  lemma WindowAt(live: seq<seq<byte>>, pos: nat, count: nat)
    ensures var b, content := ReadAt(live, pos, count), Flat(live);
            && (pos < |content| ==> pos + |b| <= |content| && b == content[pos..pos + |b|])
            && (b == [] <==> pos >= |content| || count == 0)
  {
    ReadIsWindow(live, pos, count);
  }

  lemma LengthInside(live: seq<seq<byte>>, pos: nat, count: nat, k: nat)
    requires k < |live| && Inside(live, pos, k)
    ensures |ReadAt(live, pos, count)| == Min(count, |Flat(live[..k + 1])| - pos)
  {
    FlatOfFirst(live, k);
    FlatOfFirst(live, k + 1);
    SumTake(Sizes(live), k);
    ReadLength(live, pos, count, k, |Flat(live[..k + 1])| - pos);
  }

  lemma ReadReturns(live: seq<seq<byte>>, pos: nat, count: nat, how: CopyOutcome)
    ensures var r := ReadReturn(live, pos, count, how);
            && (how == NotLocked ==> r == Failed(512))
            && (how == Faulted ==> r == if count > 0 && pos < |Flat(live)| then Failed(14) else Data([]))
            && (how == Copied ==> r.Data? && IsRead(live, pos, count, r.bytes))
  {
    ReadDelivers(live, pos, count);
  }

  /** That is what a read delivers when it goes well; it is empty just past the end or for a zero count. */
  lemma ReadDelivers(live: seq<seq<byte>>, pos: nat, count: nat)
    ensures IsRead(live, pos, count, ReadAt(live, pos, count))
    ensures ReadAt(live, pos, count) == [] <==> pos >= |Flat(live)| || count == 0
  {
    WindowAt(live, pos, count);
    var b := ReadAt(live, pos, count);
    forall k | 0 <= k < |live| && Inside(live, pos, k)
      ensures |b| == Min(count, |Flat(live[..k + 1])| - pos)
    {
      LengthInside(live, pos, count, k);
    }
  }

  /** The driver can decode this position: file positions and contents are below 2^63, and the
      position scan answers correctly. */
  ghost predicate Readable(live: seq<seq<byte>>, pos: nat) {
    |Flat(live)| < TWO63 && pos < TWO63 && Findable(Sizes(live), pos)
  }

  /** Every position is, while the content is shorter than 2^31 bytes. */
  lemma ShortIsReadable(live: seq<seq<byte>>, pos: nat)
    requires |Flat(live)| < TWO31 && pos < TWO63
    ensures Readable(live, pos)
  {
    SumOfSizes(live);
    FindRightEverywhereIff(Sizes(live));
    FindRightAtIff(Sizes(live), pos);
  }

  /** An accepted seek never leaves the content. */
  lemma SeekInRange(live: seq<seq<byte>>, cmd: nat, offset: nat)
    ensures SeekTo(live, cmd, offset).Some? ==> SeekTo(live, cmd, offset).value <= |Flat(live)|
  {
    if cmd < |live| && offset <= |live[cmd]| {
      EntryInFlat(live, cmd);
    }
  }

  /** Which pairs are accepted, and the position they name. */
  lemma SeekAccepts(live: seq<seq<byte>>, cmd: nat, offset: nat)
    ensures SeekTo(live, cmd, offset).Some? <==> cmd < |live| && offset <= |live[cmd]|
    ensures SeekTo(live, cmd, offset).Some? ==>
              SeekTo(live, cmd, offset).value == |Flat(live[..cmd])| + offset
  {
    if cmd < |live| {
      FlatOfFirst(live, cmd);
    }
  }

  /** With anything stored, every position up to the end of the content, that one included, is reached
      by an accepted pair; with nothing stored no pair is accepted. */
  lemma SeekReachesAll(live: seq<seq<byte>>, pos: nat)
    ensures live != [] && pos <= |Flat(live)| ==> exists cmd, offset: nat ::
              0 <= cmd < |live| && offset <= |live[cmd]| && SeekTo(live, cmd, offset) == Some(pos)
    ensures live == [] ==> forall cmd, offset: nat :: 0 <= cmd ==> SeekTo(live, cmd, offset) == None
  {
    if pos < |Flat(live)| {
      FindThenSeek(live, pos);
      var p := Locate(Sizes(live), pos).value;
      assert SeekTo(live, p.entry, p.offset) == Some(pos);
    } else if live != [] && pos == |Flat(live)| {
      var cmd := |live| - 1;
      FlatSnoc(live[..cmd], live[cmd]);
      assert live == live[..cmd] + [live[cmd]];
      SeekAccepts(live, cmd, |live[cmd]|);
      assert SeekTo(live, cmd, |live[cmd]|) == Some(pos);
    }
  }

  /** Seek, then locate: the same command and offset come back. With the offset equal to the size
      of the command, the position is the start of the next non-empty command, or past the end. */
  lemma SeekThenFind(live: seq<seq<byte>>, cmd: nat, offset: nat)
    requires forall c :: c in live ==> c != []
    requires SeekTo(live, cmd, offset).Some?
    ensures Locate(Sizes(live), SeekTo(live, cmd, offset).value) ==
            if offset < |live[cmd]| then Some(Place(cmd, offset))
            else if cmd + 1 < |live| then Some(Place(cmd + 1, 0))
            else None
  {
    var sizes := Sizes(live);
    if offset < |live[cmd]| {
      LocateInverse(sizes, cmd, offset);
    } else {
      SumTake(sizes, cmd);
      if cmd + 1 < |live| {
        assert live[cmd + 1] in live;
        LocateInverse(sizes, cmd + 1, 0);
      } else {
        assert sizes[..cmd + 1] == sizes;
        LocateMeaning(sizes, Sum(sizes));
      }
    }
  }

  /** Locate, then seek: every stored position is reached by exactly one pair below its size. */
  lemma FindThenSeek(live: seq<seq<byte>>, pos: nat)
    requires pos < |Flat(live)|
    ensures Locate(Sizes(live), pos).Some?
    ensures var p := Locate(Sizes(live), pos).value;
            SeekTo(live, p.entry, p.offset) == Some(pos) && p.offset < |live[p.entry]|
    ensures forall cmd: nat, offset: nat ::
              cmd < |live| && offset < |live[cmd]| && SeekTo(live, cmd, offset) == Some(pos) ==>
              Place(cmd, offset) == Locate(Sizes(live), pos).value
  {
    SumOfSizes(live);
    LocateMeaning(Sizes(live), pos);
    var p := Locate(Sizes(live), pos).value;
    assert SeekTo(live, p.entry, p.offset) == Some(Sum(Sizes(live)[..p.entry]) + p.offset);
    forall cmd: nat, offset: nat | cmd < |live| && offset < |live[cmd]| && SeekTo(live, cmd, offset) == Some(pos)
      ensures Place(cmd, offset) == Locate(Sizes(live), pos).value
    {
      assert pos == Sum(Sizes(live)[..cmd]) + offset && offset < Sizes(live)[cmd];
      LocateInverse(Sizes(live), cmd, offset);
    }
  }

  // ----- the size llseek computes -----

  /** The final value of a loop variable that starts at 0 and grows by `staged + 1` while below 10. */
  function LlseekSize(staged: nat): nat {
    ((9 / (staged + 1)) + 1) * (staged + 1)
  }

  /** It is the least multiple of `staged + 1` that is at least 10. */
  lemma LlseekSizeIsLeastMultiple(staged: nat, rounds: nat)
    ensures LlseekSize(staged) % (staged + 1) == 0
    ensures 10 <= LlseekSize(staged) <= 10 + staged
    ensures rounds * (staged + 1) >= 10 ==> LlseekSize(staged) <= rounds * (staged + 1)
  {
    var d := staged + 1;
    var q := 9 / d;
    assert 9 == q * d + 9 % d && 0 <= 9 % d < d;
    assert (q + 1) * d == q * d + d;
    MultipleMod(q + 1, d);
    if rounds <= q {
      ProductMonotone(rounds, q, d);
    } else {
      ProductMonotone(q + 1, rounds, d);
    }
  }

  /** It equals the length of the stored content, which it is meant to be, just for these lengths. */
  lemma LlseekSizeRightIff(staged: nat, total: nat)
    ensures LlseekSize(staged) == total <==> 10 <= total <= 10 + staged && total % (staged + 1) == 0
  {
    var d := staged + 1;
    LlseekSizeIsLeastMultiple(staged, total / d);
    if 10 <= total <= 10 + staged && total % d == 0 {
      MultiplesApart(LlseekSize(staged), total, d);
    }
  }

  /** Two multiples of `d` less than `d` apart are equal. */
  lemma MultiplesApart(a: nat, b: nat, d: nat)
    requires d > 0 && a % d == 0 && b % d == 0 && a <= b < a + d
    ensures a == b
  {
    var i, j := a / d, b / d;
    assert a == i * d && b == j * d;
    assert (i + 1) * d == a + d;
    if i < j {
      ProductMonotone(i + 1, j, d);
    } else {
      ProductMonotone(j, i, d);
    }
  }

  lemma ProductMonotone(a: nat, b: nat, d: nat)
    requires a <= b
    ensures a * d <= b * d
  {
    assert b * d == a * d + (b - a) * d;
  }

  lemma {:induction false} MultipleMod(k: nat, d: nat)
    requires d > 0
    ensures (k * d) % d == 0
  {
    if k > 0 {
      MultipleMod(k - 1, d);
      assert k * d == (k - 1) * d + d;
      assert ((k - 1) * d + d) % d == 0 by {
        var m := (k - 1) * d;
        assert m == (m / d) * d;
        ModUnique(m + d, m / d + 1, d);
      }
    }
  }

  lemma ModUnique(n: nat, q: nat, d: nat)
    requires d > 0 && n == q * d
    ensures n % d == 0
  {
    var r := n % d;
    assert n == (n / d) * d + r;
    assert r == (q - n / d) * d;
    if q > n / d {
      ProductMonotone(1, q - n / d, d);
    } else if q < n / d {
      ProductMonotone(1, n / d - q, d);
    }
  }
}
