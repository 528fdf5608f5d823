/** The commits as a pure function of the chunks written, and when they are the lines of the text. */
module History {
  import opened Bytes
  import opened CommandLog

  /** Closed groups of consecutive chunks, and the bytes of the chunks after the last closed one. */
  datatype Grouping = Grouping(groups: seq<seq<byte>>, rest: seq<byte>)

  /** One group more in front. */
  function Prepend(group: seq<byte>, g: Grouping): Grouping {
    Grouping([group] + g.groups, g.rest)
  }

  /** One chunk more at the end: it extends the open group, and closes it if it ends in a newline. */
  function Extend(g: Grouping, c: seq<byte>): Grouping {
    if EndsInNewline(c) then Grouping(g.groups + [g.rest + c], []) else Grouping(g.groups, g.rest + c)
  }

  lemma ExtendPrepend(group: seq<byte>, g: Grouping, c: seq<byte>)
    ensures Extend(Prepend(group, g), c) == Prepend(group, Extend(g, c))
  {
    assert [group] + (g.groups + [g.rest + c]) == [group] + g.groups + [g.rest + c];
  }

  /** The first chunk that ends in a newline, or the number of chunks when there is none. */
  function FirstClosing(chunks: seq<seq<byte>>): (k: nat)
    ensures k <= |chunks|
    ensures k < |chunks| ==> EndsInNewline(chunks[k])
    ensures forall i :: 0 <= i < k ==> !EndsInNewline(chunks[i])
  {
    if chunks == [] || EndsInNewline(chunks[0]) then 0 else 1 + FirstClosing(chunks[1..])
  }

  /** Cut the chunks after each one that ends in a newline. */
  function Group(chunks: seq<seq<byte>>): Grouping
    decreases |chunks|
  {
    var k := FirstClosing(chunks);
    if k == |chunks| then Grouping([], Flat(chunks))
    else Prepend(Flat(chunks[..k + 1]), Group(chunks[k + 1..]))
  }

  /** Cut the text after each newline. */
  function Lines(b: seq<byte>): Grouping {
    if b == [] then Grouping([], []) else Extend(Lines(b[..|b| - 1]), [b[|b| - 1]])
  }

  // ----- the device computes Group -----

  /** The log after storing the chunks one write at a time. */
  function StoreAll(chunks: seq<seq<byte>>): Log {
    if chunks == [] then EMPTY
    else WriteStep(StoreAll(chunks[..|chunks| - 1]), chunks[|chunks| - 1], Stored, [])
  }

  lemma FirstClosingUnique(chunks: seq<seq<byte>>, k: nat)
    requires k <= |chunks|
    requires k < |chunks| ==> EndsInNewline(chunks[k])
    requires forall i :: 0 <= i < k ==> !EndsInNewline(chunks[i])
    ensures FirstClosing(chunks) == k
  {
  }

  lemma SnocSlices(chunks: seq<seq<byte>>, c: seq<byte>, k: nat)
    requires k <= |chunks|
    ensures (chunks + [c])[..k] == chunks[..k] && (chunks + [c])[k..] == chunks[k..] + [c]
  {
  }

  /** Appending a chunk either closes the open group or extends it. */
  lemma {:induction false} GroupSnoc(chunks: seq<seq<byte>>, c: seq<byte>)
    ensures Group(chunks + [c]) == Extend(Group(chunks), c)
    decreases |chunks|
  {
    var k := FirstClosing(chunks);
    FirstClosingUnique(chunks + [c], if k < |chunks| then k else if EndsInNewline(c) then k else k + 1);
    FlatSnoc(chunks, c);
    if k < |chunks| {
      SnocSlices(chunks, c, k + 1);
      GroupSnoc(chunks[k + 1..], c);
      ExtendPrepend(Flat(chunks[..k + 1]), Group(chunks[k + 1..]), c);
    } else if EndsInNewline(c) {
      assert (chunks + [c])[..k + 1] == chunks + [c];
      assert Group([]) == Grouping([], []);
    }
  }

  /** After bytes that do not end in a newline, only the new chunk decides whether the group closes. */
  lemma ClosingIsLocal(rest: seq<byte>, c: seq<byte>)
    requires !EndsInNewline(rest)
    ensures EndsInNewline(rest + c) == EndsInNewline(c)
  {
    if c == [] {
      assert rest + c == rest;
    }
  }

  /** History refinement: the commits are the closed groups of the chunks stored, and staging is
      exactly the open one. */
  lemma {:induction false} CommitsAreGroups(chunks: seq<seq<byte>>)
    ensures StoreAll(chunks) == Log(Group(chunks).groups, Held(Group(chunks).rest))
    ensures Healthy(StoreAll(chunks))
  {
    if chunks != [] {
      var front, c := chunks[..|chunks| - 1], chunks[|chunks| - 1];
      CommitsAreGroups(front);
      assert chunks == front + [c];
      GroupSnoc(front, c);
      var rest := Group(front).rest;
      AppendKeepsHealth(StoreAll(front), rest + c);
      ClosingIsLocal(rest, c);
    }
  }

  // ----- groups are lines exactly for line-shaped chunkings -----

  /** `b` holds no newline except possibly as its last byte. */
  predicate LineShaped(b: seq<byte>) {
    forall i :: 0 <= i < |b| - 1 ==> b[i] != NEWLINE
  }

  function Newlines(b: seq<byte>): nat {
    if b == [] then 0 else (if b[0] == NEWLINE then 1 else 0) + Newlines(b[1..])
  }

  lemma {:induction false} NewlinesConcat(a: seq<byte>, b: seq<byte>)
    ensures Newlines(a + b) == Newlines(a) + Newlines(b)
  {
    if a == [] {
      assert a + b == b;
    } else {
      assert (a + b)[1..] == a[1..] + b;
      NewlinesConcat(a[1..], b);
    }
  }

  lemma {:induction false} NoNewlines(b: seq<byte>)
    ensures Newlines(b) == 0 <==> forall i :: 0 <= i < |b| ==> b[i] != NEWLINE
  {
    if b != [] {
      NoNewlines(b[1..]);
      assert forall i :: 0 <= i < |b[1..]| ==> b[1..][i] == b[i + 1];
      if exists i :: 0 <= i < |b| && b[i] == NEWLINE {
        var i :| 0 <= i < |b| && b[i] == NEWLINE;
        assert i > 0 ==> b[1..][i - 1] == NEWLINE;
      }
    }
  }

  /** A chunk has at least the newline it ends in, and no other exactly when it is line-shaped. */
  lemma ChunkNewlines(c: seq<byte>)
    ensures var closes := if EndsInNewline(c) then 1 else 0;
            Newlines(c) >= closes && (Newlines(c) == closes <==> LineShaped(c))
  {
    if c != [] {
      var n := |c| - 1;
      assert c == c[..n] + [c[n]];
      NewlinesConcat(c[..n], [c[n]]);
      NoNewlines(c[..n]);
      assert Newlines([c[n]]) == if c[n] == NEWLINE then 1 else 0;
      assert forall i :: 0 <= i < n ==> c[..n][i] == c[i];
    }
  }

  lemma {:induction false} LinesCount(b: seq<byte>)
    ensures |Lines(b).groups| == Newlines(b)
  {
    if b != [] {
      var front, c := b[..|b| - 1], b[|b| - 1];
      LinesCount(front);
      assert b == front + [c];
      NewlinesConcat(front, [c]);
    }
  }

  /** There are as many groups as newlines exactly when every chunk is line-shaped. */
  lemma {:induction false} GroupCount(chunks: seq<seq<byte>>)
    ensures |Group(chunks).groups| <= Newlines(Flat(chunks))
    ensures |Group(chunks).groups| == Newlines(Flat(chunks)) <==> forall c :: c in chunks ==> LineShaped(c)
    decreases |chunks|
  {
    if chunks != [] {
      var front, c := chunks[..|chunks| - 1], chunks[|chunks| - 1];
      assert chunks == front + [c];
      GroupCount(front);
      GroupSnoc(front, c);
      FlatSnoc(front, c);
      NewlinesConcat(Flat(front), c);
      ChunkNewlines(c);
    } else {
      assert Flat(chunks) == [];
    }
  }

  /** A line: its only newline is its last byte. */
  predicate IsLine(b: seq<byte>) {
    LineShaped(b) && EndsInNewline(b)
  }

  /** That is ASCII 10. */
  lemma LineIs(b: seq<byte>)
    ensures IsLine(b) <==> b != [] && b[|b| - 1] == 10 && 10 !in b[..|b| - 1]
  {
    if b != [] {
      assert forall i :: 0 <= i < |b| - 1 ==> b[..|b| - 1][i] == b[i];
    }
  }

  /** `g` is the lines of `b` and what is left: put together again they are `b`, and what is left has no
      newline. */
  ghost predicate Cuts(g: Grouping, b: seq<byte>) {
    && Flat(g.groups) + g.rest == b
    && 10 !in g.rest
    && forall line :: line in g.groups ==> IsLine(line)
  }

  lemma {:induction false} LinesMeaning(b: seq<byte>)
    ensures Cuts(Lines(b), b)
  {
    if b != [] {
      var front, x := b[..|b| - 1], b[|b| - 1];
      LinesMeaning(front);
      assert b == front + [x];
      CutsSnoc(Lines(front), front, x);
    }
  }

  lemma CutsSnoc(g: Grouping, b: seq<byte>, x: byte)
    requires Cuts(g, b)
    ensures Cuts(Extend(g, [x]), b + [x])
  {
    var line := g.rest + [x];
    Regroup(Flat(g.groups), g.rest, [x]);
    if x == NEWLINE {
      FlatSnoc(g.groups, line);
      assert line[..|line| - 1] == g.rest;
      LineIs(line);
      assert Flat(g.groups + [line]) + [] == Flat(g.groups + [line]);
    }
  }

  lemma ExtendTwice(g: Grouping, d: seq<byte>, x: byte)
    requires !EndsInNewline(d)
    ensures Extend(Extend(g, d), [x]) == Extend(g, d + [x])
  {
    Regroup(g.rest, d, [x]);
  }

  lemma ExtendNothing(b: seq<byte>, c: seq<byte>)
    requires c == []
    ensures Lines(b + c) == Extend(Lines(b), c)
  {
    assert b + c == b && Lines(b).rest + c == Lines(b).rest;
  }

  lemma LinesSnoc(b: seq<byte>, c: seq<byte>)
    requires LineShaped(c)
    ensures Lines(b + c) == Extend(Lines(b), c)
  {
    LinesOfFirst(b, c, |c|);
    assert c[..|c|] == c;
  }

  lemma {:induction false} LinesOfFirst(b: seq<byte>, c: seq<byte>, n: nat)
    requires LineShaped(c) && n <= |c|
    ensures Lines(b + c[..n]) == Extend(Lines(b), c[..n])
    decreases n
  {
    if n == 0 {
      ExtendNothing(b, c[..n]);
    } else {
      LinesOfFirst(b, c, n - 1);
      FrontHasNone(c, n - 1);
      LinesSnocOne(b, c[..n - 1], c[n - 1]);
      OneMore(c, n);
    }
  }

  lemma LinesSnocOne(b: seq<byte>, d: seq<byte>, x: byte)
    requires Lines(b + d) == Extend(Lines(b), d) && !EndsInNewline(d)
    ensures Lines(b + (d + [x])) == Extend(Lines(b), d + [x])
  {
    Regroup(b, d, [x]);
    LinesStep(b + d, x);
    ExtendTwice(Lines(b), d, x);
  }

  lemma LinesStep(t: seq<byte>, x: byte)
    ensures Lines(t + [x]) == Extend(Lines(t), [x])
  {
    assert (t + [x])[..|t|] == t;
  }

  lemma OneMore(c: seq<byte>, n: nat)
    requires 0 < n <= |c|
    ensures c[..n] == c[..n - 1] + [c[n - 1]]
  {
  }

  lemma FrontHasNone(c: seq<byte>, n: nat)
    requires LineShaped(c) && n < |c|
    ensures !EndsInNewline(c[..n])
  {
  }

  lemma {:induction false} GroupsOfLines(chunks: seq<seq<byte>>)
    requires forall c :: c in chunks ==> LineShaped(c)
    ensures Group(chunks) == Lines(Flat(chunks))
  {
    if chunks != [] {
      var front, c := chunks[..|chunks| - 1], chunks[|chunks| - 1];
      GroupsOfLines(front);
      assert chunks == front + [c];
      GroupSnoc(front, c);
      FlatSnoc(front, c);
      LinesSnoc(Flat(front), c);
    }
  }

  /** Chunking: the commits are exactly the newline-terminated lines of the bytes written if and
      only if no chunk has a newline before its last byte. */
  lemma CommitsAreLinesIff(chunks: seq<seq<byte>>)
    ensures Group(chunks) == Lines(Flat(chunks)) <==> forall c :: c in chunks ==> LineShaped(c)
  {
    LinesCount(Flat(chunks));
    GroupCount(chunks);
    if forall c :: c in chunks ==> LineShaped(c) {
      GroupsOfLines(chunks);
    }
  }

  /** Chunking independence: two line-shaped chunkings of the same bytes leave the same log. */
  lemma ChunkingIndependence(a: seq<seq<byte>>, b: seq<seq<byte>>)
    requires Flat(a) == Flat(b)
    requires forall c :: c in a + b ==> LineShaped(c)
    ensures StoreAll(a) == StoreAll(b)
  {
    assert forall c :: c in a ==> c in a + b;
    assert forall c :: c in b ==> c in a + b;
    CommitsAreLinesIff(a);
    CommitsAreLinesIff(b);
    CommitsAreGroups(a);
    CommitsAreGroups(b);
  }

  /** Without that restriction the framing of the writes shows: one chunk "x\ny\n" is one command,
      the same bytes in two chunks are two. */
  lemma ChunkingMatters()
    ensures var x: byte, y: byte := 120, 121;
            var a, b := [[x, NEWLINE, y, NEWLINE]], [[x, NEWLINE], [y, NEWLINE]];
            Flat(a) == Flat(b) && |StoreAll(a).commits| == 1 && |StoreAll(b).commits| == 2
  {
    var x: byte, y: byte := 120, 121;
    var a, b := [[x, NEWLINE, y, NEWLINE]], [[x, NEWLINE], [y, NEWLINE]];
    assert b[..1] == [[x, NEWLINE]];
    CommitsAreGroups(a);
    assert a == [] + [a[0]] && b == [[x, NEWLINE]] + [[y, NEWLINE]];
    assert [[x, NEWLINE]] == [] + [[x, NEWLINE]];
    FlatSnoc([[x, NEWLINE]], [y, NEWLINE]);
    FlatSnoc([], a[0]);
    FlatSnoc([], [x, NEWLINE]);
    GroupSnoc([], a[0]);
    GroupSnoc([], [x, NEWLINE]);
    GroupSnoc([[x, NEWLINE]], [y, NEWLINE]);
    CommitsAreGroups(b);
  }
}
